/** Properties of the slab manager and stack allocator of src/node_stack_alloc.h
    taken together: the representation invariant, the stack discipline of
    `alloc` and `pop`, and what each bulk teardown does with slabs and
    destructors. */
module StackProperties {
  import opened Memory
  import opened SlabManager
  import opened ManagedStackAllocator

  /** Every slab strictly between `start` and `stackhead` has a lower address
      than `stackhead`: the condition under which `delete_mem`'s address
      comparison walks the whole middle of the chain. */
  predicate MiddleBelowTop(st: Stack, addr: Slab -> nat)
    requires |st.chain| > 0
  {
    forall i :: 0 < i < |st.chain| - 1 ==> addr(st.chain[i]) < addr(Top(st))
  }

  /** Addresses increase along the chain. */
  predicate Ascending(chain: seq<Slab>, addr: Slab -> nat) {
    forall i, j :: 0 <= i < j < |chain| ==> addr(chain[i]) < addr(chain[j])
  }

  // ---------------------------------------------------------------------------
  // Cell sequences

  lemma {:induction false} FullCellsCons(x: Slab, slabs: seq<Slab>, size: nat)
    ensures FullCells([x] + slabs, size) == Cells(x, size) + FullCells(slabs, size)
    decreases |slabs|
  {
    if slabs == [] {
      assert [x] + slabs == [] + [x];
      FullCellsSnoc([], x, size);
    } else {
      var init := slabs[..|slabs| - 1];
      var last := slabs[|slabs| - 1];
      assert slabs == init + [last];
      assert [x] + slabs == ([x] + init) + [last];
      calc {
        FullCells([x] + slabs, size);
        { FullCellsSnoc([x] + init, last, size); }
        FullCells([x] + init, size) + Cells(last, size);
        { FullCellsCons(x, init, size); }
        (Cells(x, size) + FullCells(init, size)) + Cells(last, size);
        Cells(x, size) + (FullCells(init, size) + Cells(last, size));
        { FullCellsSnoc(init, last, size); }
        Cells(x, size) + FullCells(slabs, size);
      }
    }
  }

  lemma {:induction false} FullCellsMembers(slabs: seq<Slab>, size: nat)
    ensures forall c :: c in FullCells(slabs, size) ==> c.slab in slabs && c.index < size
    decreases |slabs|
  {
    if slabs != [] {
      var init := slabs[..|slabs| - 1];
      FullCellsMembers(init, size);
      assert slabs == init + [slabs[|slabs| - 1]];
    }
  }

  lemma {:induction false} FullCellsHas(slabs: seq<Slab>, size: nat, x: Slab, i: nat)
    requires x in slabs && i < size
    ensures Cell(x, i) in FullCells(slabs, size)
    decreases |slabs|
  {
    var init := slabs[..|slabs| - 1];
    var last := slabs[|slabs| - 1];
    assert slabs == init + [last];
    assert Cells(last, size)[i] == Cell(last, i);
    if x != last {
      FullCellsHas(init, size, x, i);
    }
  }

  lemma {:induction false} FullCellsDistinct(slabs: seq<Slab>, size: nat)
    requires Distinct(slabs)
    ensures Distinct(FullCells(slabs, size))
    decreases |slabs|
  {
    if slabs != [] {
      var init := slabs[..|slabs| - 1];
      var last := slabs[|slabs| - 1];
      assert slabs == init + [last];
      FullCellsDistinct(init, size);
      FullCellsMembers(init, size);
      forall c | c in FullCells(init, size)
        ensures c !in Cells(last, size)
      {
        assert c.slab in init;
      }
      DistinctAppend(FullCells(init, size), Cells(last, size));
    }
  }

  /** No live cell is listed twice, so a destructor log whose multiset equals
      that of the live cells runs each destructor exactly once. */
  lemma LiveCellsDistinct(w: World)
    requires Inv(w)
    ensures Distinct(LiveCells(w.stack, w.pool.slabsize))
    ensures forall c :: multiset(LiveCells(w.stack, w.pool.slabsize))[c] <= 1
  {
    var st := w.stack;
    var n := |st.chain|;
    var below := st.chain[..n - 1];
    assert Distinct(below);
    FullCellsDistinct(below, w.pool.slabsize);
    FullCellsMembers(below, w.pool.slabsize);
    forall c | c in FullCells(below, w.pool.slabsize)
      ensures c !in Cells(Top(st), st.offset)
    {
      assert c.slab in below;
    }
    DistinctAppend(FullCells(below, w.pool.slabsize), Cells(Top(st), st.offset));
    DistinctCountsOnce(LiveCells(st, w.pool.slabsize));
  }

  // ---------------------------------------------------------------------------
  // Construction

  /** A new allocator on a valid pool, whose first slab (if fresh) is owned by
      nobody, satisfies the invariant and holds no live cell. */
  lemma NewEstablishesInv(p: Pool, m: Malloc)
    requires Valid(p) && GetSlab(p, m).slab.Some?
    requires m.Fresh? ==> Slab(m.addr) !in p.free
    ensures Inv(New(p, m))
    ensures LiveCells(New(p, m).stack, p.slabsize) == []
  {
    GetSlabValid(p, m);
  }

  // ---------------------------------------------------------------------------
  // alloc

  /** `alloc` pushes exactly one cell on the logical stack: the next cell of the
      top slab when there is room, otherwise cell 0 of one slab appended from
      the manager. It fails only when the top slab is full and the manager
      yields null, and then changes nothing. */
  lemma AllocPushes(w: World, m: Malloc)
    requires Inv(w)
    ensures var r := Alloc(w, m);
      && (r.cell.None? <==> w.stack.offset == w.pool.slabsize && GetSlab(w.pool, m).slab.None?)
      && (r.cell.None? ==> r.world == w)
      && (r.cell.Some? ==>
            LiveCells(r.world.stack, w.pool.slabsize)
              == LiveCells(w.stack, w.pool.slabsize) + [r.cell.value])
      && (r.cell.Some? && w.stack.offset < w.pool.slabsize ==>
            r.cell.value == Cell(Top(w.stack), w.stack.offset)
            && r.world.stack.chain == w.stack.chain && r.world.pool == w.pool)
      && (r.cell.Some? && w.stack.offset == w.pool.slabsize ==>
            r.cell.value.index == 0 && r.world.stack.offset == 1
            && r.world.stack.chain == w.stack.chain + [r.cell.value.slab])
  {
  }

  /** `alloc` keeps the invariant when a slab it takes from `malloc` is owned
      by nobody. */
  lemma AllocPreservesInv(w: World, m: Malloc)
    requires Inv(w) && FreshFor(w, m)
    ensures Inv(Alloc(w, m).world)
  {
    var r := Alloc(w, m);
    if r.cell.Some? && w.stack.offset == w.pool.slabsize {
      var s := r.cell.value.slab;
      GetSlabValid(w.pool, m);
      assert s !in w.stack.chain;
      assert Distinct([s]);
      DistinctAppend(w.stack.chain, [s]);
      forall x | x in r.world.stack.chain
        ensures x !in r.world.pool.free
      {
        if x != s {
          assert x in w.stack.chain;
        }
      }
    }
  }

  // ---------------------------------------------------------------------------
  // pop

  /** `pop` takes exactly the last cell off a non-empty logical stack and is a
      no-op on an empty one. A slab goes back to the manager exactly when the
      top slab was already empty and is not `start`. */
  lemma PopPops(w: World)
    requires Inv(w)
    ensures var live := LiveCells(w.stack, w.pool.slabsize);
      && (live == [] ==> Pop(w) == w)
      && (live != [] ==> LiveCells(Pop(w).stack, w.pool.slabsize) == live[..|live| - 1])
    ensures w.stack.offset == 0 && |w.stack.chain| > 1 ==>
      Pop(w).pool.free == [Top(w.stack)] + w.pool.free
    ensures !(w.stack.offset == 0 && |w.stack.chain| > 1) ==> Pop(w).pool == w.pool
  {
    var st := w.stack;
    var size: nat := w.pool.slabsize;
    var n := |st.chain|;
    var live := LiveCells(st, size);
    if st.offset > 0 {
      assert Pop(w).stack.chain[..n - 1] == st.chain[..n - 1];
      assert Cells(Top(st), st.offset) == Cells(Top(st), st.offset - 1) + [Cell(Top(st), st.offset - 1)];
    } else if n > 1 {
      PopFromEmptyTop(w);
    } else {
      assert live == [];
    }
  }

  /** `pop` with an empty top slab above `start`: the slab goes back to the
      manager and the last cell of the slab below is taken off. */
  lemma PopFromEmptyTop(w: World)
    requires Inv(w) && w.stack.offset == 0 && |w.stack.chain| > 1
    ensures var live := LiveCells(w.stack, w.pool.slabsize);
      live != [] && LiveCells(Pop(w).stack, w.pool.slabsize) == live[..|live| - 1]
  {
    var st := w.stack;
    var size: nat := w.pool.slabsize;
    var n := |st.chain|;
    assert Top(st) != Start(st) by {
      assert st.chain[0] != st.chain[n - 1];
    }
    var below := st.chain[..n - 1];
    assert below == st.chain[..n - 2] + [st.chain[n - 2]];
    FullCellsSnoc(st.chain[..n - 2], st.chain[n - 2], size);
    assert Pop(w).stack.chain[..n - 2] == st.chain[..n - 2];
    assert Cells(st.chain[n - 2], size)
      == Cells(st.chain[n - 2], size - 1) + [Cell(st.chain[n - 2], size - 1)];
  }

  lemma PopPreservesInv(w: World)
    requires Inv(w)
    ensures Inv(Pop(w))
  {
    var st := w.stack;
    var n := |st.chain|;
    if st.offset == 0 && n > 1 {
      var top := Top(st);
      assert top != Start(st) by {
        assert st.chain[0] != st.chain[n - 1];
      }
      var chain' := st.chain[..n - 1];
      forall x | x in chain'
        ensures x != top
      {
        var i :| 0 <= i < n - 1 && chain'[i] == x;
        assert st.chain[i] == x;
      }
      assert Distinct([top]);
      DistinctAppend([top], w.pool.free);
    }
  }

  /** `alloc` followed by `pop` restores the logical stack, but when `alloc`
      had to append a slab, that slab stays attached, empty: the world is not
      the one `alloc` started from. */
  lemma AllocThenPop(w: World, m: Malloc)
    requires Inv(w) && FreshFor(w, m) && Alloc(w, m).cell.Some?
    ensures LiveCells(Pop(Alloc(w, m).world).stack, w.pool.slabsize)
         == LiveCells(w.stack, w.pool.slabsize)
    ensures w.stack.offset < w.pool.slabsize ==> Pop(Alloc(w, m).world) == w
    ensures w.stack.offset == w.pool.slabsize ==>
      && Pop(Alloc(w, m).world).stack.chain == w.stack.chain + [Alloc(w, m).cell.value.slab]
      && Pop(Alloc(w, m).world).stack.offset == 0
      && Pop(Alloc(w, m).world) != w
  {
    var a := Alloc(w, m);
    AllocPushes(w, m);
    AllocPreservesInv(w, m);
    PopPops(a.world);
    var live := LiveCells(w.stack, w.pool.slabsize);
    assert (live + [a.cell.value])[..|live|] == live;
    if w.stack.offset == w.pool.slabsize {
      assert |Pop(a.world).stack.chain| != |w.stack.chain|;
    }
  }

  // ---------------------------------------------------------------------------
  // release_mem

  /** `release_mem` empties the logical stack, keeps `start`, runs no
      destructor, and moves every other chain slab into the manager, so no slab
      is lost or owned twice. */
  lemma ReleaseMemKeepsOwnership(w: World)
    requires Inv(w)
    ensures Inv(ReleaseMem(w))
    ensures LiveCells(ReleaseMem(w).stack, w.pool.slabsize) == []
    ensures multiset(ReleaseMem(w).stack.chain) + multiset(ReleaseMem(w).pool.free)
         == multiset(w.stack.chain) + multiset(w.pool.free)
  {
    var chain := w.stack.chain;
    assert chain == [chain[0]] + chain[1..];
    assert Distinct(chain[1..]) by {
      forall i, j | 0 <= i < j < |chain[1..]|
        ensures chain[1..][i] != chain[1..][j]
      {
        assert chain[1..][i] == chain[i + 1] && chain[1..][j] == chain[j + 1];
      }
    }
    assert Disjoint(chain[1..], w.pool.free);
    ReturnAllValid(w.pool, chain[1..]);
    var r := ReleaseMem(w);
    ReverseMembers(chain[1..]);
    forall x | x in r.stack.chain
      ensures x !in r.pool.free
    {
      assert x == chain[0];
      assert chain[0] !in chain[1..] by {
        forall k | 0 <= k < |chain[1..]|
          ensures chain[1..][k] != chain[0]
        {
          assert chain[1..][k] == chain[k + 1];
        }
      }
    }
  }

  // ---------------------------------------------------------------------------
  // delete_mem

  lemma BelowTopWhole(rest: seq<Slab>, addr: Slab -> nat, k: nat)
    requires k < |rest|
    requires forall i :: 0 <= i < k ==> addr(rest[i]) < addr(rest[k])
    ensures BelowTop(rest, addr, addr(rest[k])) == rest[..k]
  {
    var r := BelowTop(rest, addr, addr(rest[k]));
    forall i | 0 <= i < |r|
      ensures addr(rest[i]) < addr(rest[k])
    {
      assert r[i] == rest[i] && r[i] in r;
    }
  }

  /** The destructor log of `delete_mem` on a chain of two or more slabs: the
      used part of `stackhead`, all of `start`, then every slab its address
      walk visits. */
  lemma DeleteMemLog(w: World, addr: Slab -> nat)
    requires |w.stack.chain| > 1 && Top(w.stack) != Start(w.stack)
    ensures DeleteMem(w, addr).dtors
         == Cells(Top(w.stack), w.stack.offset) + Cells(Start(w.stack), w.pool.slabsize)
            + FullCells(BelowTop(w.stack.chain[1..], addr, addr(Top(w.stack))), w.pool.slabsize)
  {
  }

  /** Destructing the top slab's used cells, then `start`, then the middle
      slabs, touches the same cells as the live stack, in another order. */
  lemma LogOfWholeMiddle(start: Slab, middle: seq<Slab>, top: Slab, offset: nat, size: nat)
    ensures multiset(Cells(top, offset) + Cells(start, size) + FullCells(middle, size))
         == multiset(FullCells([start] + middle, size) + Cells(top, offset))
  {
    FullCellsCons(start, middle, size);
  }

  /** When slab `i` between `start` and `stackhead` sits at or above
      `stackhead`, the address walk stops at or before it, and the slab it stops
      on is a full middle slab that it never visited. */
  lemma WalkStopsEarly(chain: seq<Slab>, addr: Slab -> nat, i: nat)
    requires Distinct(chain) && 0 < i < |chain| - 1
    requires addr(chain[i]) >= addr(chain[|chain| - 1])
    ensures var visited := BelowTop(chain[1..], addr, addr(chain[|chain| - 1]));
      && |visited| + 1 < |chain| - 1
      && chain[|visited| + 1] !in visited
      && chain[|visited| + 1] != chain[0]
      && chain[|visited| + 1] != chain[|chain| - 1]
  {
    var n := |chain|;
    var rest := chain[1..];
    var visited := BelowTop(rest, addr, addr(chain[n - 1]));
    forall j | 0 <= j < |visited|
      ensures addr(rest[j]) < addr(chain[n - 1])
    {
      assert visited[j] == rest[j] && visited[j] in visited;
    }
    assert rest[i - 1] == chain[i];
    var k := |visited|;
    forall j | 0 <= j < k
      ensures visited[j] != chain[k + 1]
    {
      assert visited[j] == chain[j + 1];
    }
  }

  /** When every middle slab lies below `stackhead`, `delete_mem` hands back
      exactly the middle slabs, in chain order. */
  lemma DeleteMemHandsBackMiddle(w: World, addr: Slab -> nat)
    requires |w.stack.chain| > 1 && Distinct(w.stack.chain) && MiddleBelowTop(w.stack, addr)
    ensures DeleteMem(w, addr).world.pool == ReturnAll(w.pool, w.stack.chain[1..|w.stack.chain| - 1])
  {
    var n := |w.stack.chain|;
    assert Top(w.stack) != Start(w.stack) by {
      assert w.stack.chain[0] != w.stack.chain[n - 1];
    }
    WalkVisitsMiddle(w.stack, addr);
  }

  /** When every middle slab lies below `stackhead`, the address walk visits
      exactly the middle slabs. */
  lemma WalkVisitsMiddle(st: Stack, addr: Slab -> nat)
    requires |st.chain| > 1 && MiddleBelowTop(st, addr)
    ensures BelowTop(st.chain[1..], addr, addr(Top(st))) == st.chain[1..|st.chain| - 1]
  {
    var n := |st.chain|;
    var rest := st.chain[1..];
    assert rest[n - 2] == Top(st);
    BelowTopWhole(rest, addr, n - 2);
    assert rest[..n - 2] == st.chain[1..n - 1];
  }

  /** Cell 0 of any slab below the top of the chain is live. */
  lemma LiveHasBelowTop(st: Stack, size: Size, j: nat)
    requires j < |st.chain| - 1
    ensures Cell(st.chain[j], 0) in LiveCells(st, size)
  {
    var below := st.chain[..|st.chain| - 1];
    assert below[j] == st.chain[j];
    FullCellsHas(below, size, st.chain[j], 0);
  }

  /** A slab other than `start` and `stackhead` that the address walk does
      not visit gets no destructor call from `delete_mem`. */
  lemma LogMissesUnvisited(w: World, addr: Slab -> nat, s: Slab)
    requires |w.stack.chain| > 1 && Top(w.stack) != Start(w.stack)
    requires s != Top(w.stack) && s != Start(w.stack)
    requires s !in BelowTop(w.stack.chain[1..], addr, addr(Top(w.stack)))
    ensures Cell(s, 0) !in DeleteMem(w, addr).dtors
  {
    DeleteMemLog(w, addr);
    FullCellsMembers(BelowTop(w.stack.chain[1..], addr, addr(Top(w.stack))), w.pool.slabsize);
  }

  /** A live cell that `delete_mem` does not destruct, when the walk stops early. */
  lemma MissedCell(w: World, addr: Slab -> nat, i: nat)
    requires Distinct(w.stack.chain) && 0 < i < |w.stack.chain| - 1
    requires addr(w.stack.chain[i]) >= addr(Top(w.stack))
    ensures var s := w.stack.chain[|BelowTop(w.stack.chain[1..], addr, addr(Top(w.stack)))| + 1];
      && Cell(s, 0) in LiveCells(w.stack, w.pool.slabsize)
      && Cell(s, 0) !in DeleteMem(w, addr).dtors
  {
    var st := w.stack;
    var n := |st.chain|;
    var visited := BelowTop(st.chain[1..], addr, addr(Top(st)));
    WalkStopsEarly(st.chain, addr, i);
    LiveHasBelowTop(st, w.pool.slabsize, |visited| + 1);
    assert Top(st) != Start(st) by {
      assert st.chain[0] != st.chain[n - 1];
    }
    LogMissesUnvisited(w, addr, st.chain[|visited| + 1]);
  }

  /** When every middle slab lies below `stackhead`, the destructor log of
      `delete_mem` holds exactly the live cells. */
  lemma DeleteMemLogIsLive(w: World, addr: Slab -> nat)
    requires |w.stack.chain| > 0 && Distinct(w.stack.chain) && MiddleBelowTop(w.stack, addr)
    ensures multiset(DeleteMem(w, addr).dtors) == multiset(LiveCells(w.stack, w.pool.slabsize))
  {
    var st := w.stack;
    var size := w.pool.slabsize;
    var n := |st.chain|;
    if n == 1 {
      assert st.chain[..0] == [];
    } else {
      var top := Top(st);
      var start := Start(st);
      var middle := st.chain[1..n - 1];
      assert top != start by {
        assert st.chain[0] != st.chain[n - 1];
      }
      WalkVisitsMiddle(st, addr);
      calc {
        multiset(DeleteMem(w, addr).dtors);
        { DeleteMemLog(w, addr); }
        multiset(Cells(top, st.offset) + Cells(start, size) + FullCells(middle, size));
        { LogOfWholeMiddle(start, middle, top, st.offset, size); }
        multiset(FullCells([start] + middle, size) + Cells(top, st.offset));
        { assert st.chain[..n - 1] == [start] + middle; }
        multiset(LiveCells(st, size));
      }
    }
  }

  /** `delete_mem` runs the destructor of every live cell exactly once if and
      only if every slab between `start` and `stackhead` has a lower address
      than `stackhead`. */
  lemma DeleteMemExactlyOnceIff(w: World, addr: Slab -> nat)
    requires Inv(w)
    ensures multiset(DeleteMem(w, addr).dtors) == multiset(LiveCells(w.stack, w.pool.slabsize))
        <==> MiddleBelowTop(w.stack, addr)
  {
    if MiddleBelowTop(w.stack, addr) {
      DeleteMemLogIsLive(w, addr);
    } else {
      var i :| 0 < i < |w.stack.chain| - 1 && addr(w.stack.chain[i]) >= addr(Top(w.stack));
      MissedCell(w, addr, i);
      var s := w.stack.chain[|BelowTop(w.stack.chain[1..], addr, addr(Top(w.stack)))| + 1];
      assert multiset(DeleteMem(w, addr).dtors)[Cell(s, 0)] == 0;
      assert multiset(LiveCells(w.stack, w.pool.slabsize))[Cell(s, 0)] > 0;
    }
  }

  /** With addresses ascending along the chain, as when slabs come from
      successive `malloc` calls on a growing heap, `delete_mem` destructs every
      live cell exactly once and hands back exactly the middle slabs. */
  lemma DeleteMemAscending(w: World, addr: Slab -> nat)
    requires Inv(w) && Ascending(w.stack.chain, addr)
    ensures multiset(DeleteMem(w, addr).dtors) == multiset(LiveCells(w.stack, w.pool.slabsize))
    ensures |w.stack.chain| > 1 ==>
      DeleteMem(w, addr).world.pool == ReturnAll(w.pool, w.stack.chain[1..|w.stack.chain| - 1])
  {
    var n := |w.stack.chain|;
    assert MiddleBelowTop(w.stack, addr) by {
      forall i | 0 < i < n - 1
        ensures addr(w.stack.chain[i]) < addr(Top(w.stack))
      {
      }
    }
    DeleteMemExactlyOnceIff(w, addr);
    if n > 1 {
      DeleteMemHandsBackMiddle(w, addr);
    }
  }

  /** `delete_mem` on a chain of two or more slabs leaks `stackhead`: it is
      neither in the allocator's chain nor in the manager afterwards. */
  lemma DeleteMemLeaksStackhead(w: World, addr: Slab -> nat)
    requires Inv(w) && |w.stack.chain| > 1
    ensures Top(w.stack) !in DeleteMem(w, addr).world.stack.chain
    ensures Top(w.stack) !in DeleteMem(w, addr).world.pool.free
    ensures Top(w.stack) in w.stack.chain
  {
    var st := w.stack;
    var n := |st.chain|;
    var top := Top(st);
    assert top != Start(st) by {
      assert st.chain[0] != st.chain[n - 1];
    }
    var visited := BelowTop(st.chain[1..], addr, addr(top));
    ReverseMembers(visited);
    assert top !in visited;
  }

  /** A middle slab at or above `stackhead` in memory is never visited by the
      walk, so `delete_mem` drops it: it is in neither the allocator's chain nor
      the manager afterwards. */
  lemma DeleteMemDropsHigherSlab(w: World, addr: Slab -> nat, i: nat)
    requires Inv(w) && 0 < i < |w.stack.chain| - 1
    requires addr(w.stack.chain[i]) >= addr(Top(w.stack))
    ensures w.stack.chain[i] !in DeleteMem(w, addr).world.stack.chain
    ensures w.stack.chain[i] !in DeleteMem(w, addr).world.pool.free
  {
    var st := w.stack;
    var n := |st.chain|;
    var x := st.chain[i];
    assert Top(st) != Start(st) by {
      assert st.chain[0] != st.chain[n - 1];
    }
    assert x != Start(st) by {
      assert st.chain[0] != st.chain[i];
    }
    var visited := BelowTop(st.chain[1..], addr, addr(Top(st)));
    assert x !in visited;
    ReverseMembers(visited);
    assert x !in w.pool.free;
  }

  /** A concrete chain on which `delete_mem` skips a live value: with three
      slabs whose middle one sits above `stackhead` in memory, the full middle
      slab is neither destructed nor handed back. */
  lemma DeleteMemSkipsHigherSlab(p: Pool)
    requires Valid(p) && p.free == [] && p.slabsize == 1
    ensures var w := World(p, Stack([Slab(0), Slab(1), Slab(2)], 1));
      var addr := (s: Slab) => if s == Slab(1) then 9 else s.id;
      && Inv(w)
      && Cell(Slab(1), 0) in LiveCells(w.stack, 1)
      && Cell(Slab(1), 0) !in DeleteMem(w, addr).dtors
      && DeleteMem(w, addr).world.pool.free == []
  {
    var st := Stack([Slab(0), Slab(1), Slab(2)], 1);
    var w := World(p, st);
    var addr := (s: Slab) => if s == Slab(1) then 9 else s.id;
    assert Inv(w) by {
      assert Distinct(st.chain);
    }
    LiveHasBelowTop(st, 1, 1);
    assert BelowTop(st.chain[1..], addr, addr(Top(st))) == [] by {
      assert st.chain[1..] == [Slab(1), Slab(2)];
    }
    LogMissesUnvisited(w, addr, Slab(1));
  }

  /** The corrected `delete_mem` destructs every live cell exactly once,
      whatever the addresses, hands every slab after `start` back, and keeps
      the invariant. */
  lemma DeleteMemFixedExactlyOnce(w: World)
    requires Inv(w)
    ensures multiset(DeleteMemFixed(w).dtors) == multiset(LiveCells(w.stack, w.pool.slabsize))
    ensures Inv(DeleteMemFixed(w).world)
    ensures |w.stack.chain| > 1 ==> Top(w.stack) in DeleteMemFixed(w).world.pool.free
  {
    var st := w.stack;
    var size := w.pool.slabsize;
    var n := |st.chain|;
    var r := DeleteMemFixed(w);
    var live := LiveCells(st, size);
    ReleaseMemKeepsOwnership(w);
    if n == 1 {
      assert st.chain[..0] == [];
      assert r.dtors == live;
    } else {
      var middle := st.chain[1..n - 1];
      assert r.dtors == Cells(Top(st), st.offset) + Cells(Start(st), size) + FullCells(middle, size);
      assert st.chain[..n - 1] == [Start(st)] + middle;
      LogOfWholeMiddle(Start(st), middle, Top(st), st.offset, size);
      assert multiset(r.dtors) == multiset(live);
      ReverseMembers(st.chain[1..]);
      assert Top(st) == st.chain[1..][n - 2];
      assert Top(st) in Reverse(st.chain[1..]);
    }
  }

  // ---------------------------------------------------------------------------
  // A whole run

  /** Slab size 4: construct, then four `alloc`s fill the first slab without
      asking `malloc` for anything. */
  lemma FourAllocsFillFirstSlab()
    ensures var w0 := New(NewPool(4), Fresh(1));
      Alloc(Alloc(Alloc(Alloc(w0, Null).world, Null).world, Null).world, Null).world
        == World(NewPool(4), Stack([Slab(1)], 4))
  {
    var p0 := NewPool(4);
    var w0 := New(p0, Fresh(1));
    assert w0 == World(p0, Stack([Slab(1)], 0));
    assert Alloc(w0, Null).world == World(p0, Stack([Slab(1)], 1));
    assert Alloc(World(p0, Stack([Slab(1)], 1)), Null).world == World(p0, Stack([Slab(1)], 2));
    assert Alloc(World(p0, Stack([Slab(1)], 2)), Null).world == World(p0, Stack([Slab(1)], 3));
  }

  /** Slab size 4: the fifth `alloc` finds the first slab full and appends a
      fresh one, handing out its cell 0. */
  lemma FifthAllocAppendsSlab()
    ensures Alloc(World(NewPool(4), Stack([Slab(1)], 4)), Fresh(2))
         == Allocated(Some(Cell(Slab(2), 0)), World(NewPool(4), Stack([Slab(1), Slab(2)], 1)))
  {
  }

  /** Slab size 4: `pop` of that fifth cell keeps the second slab attached. */
  lemma PopKeepsEmptySlab()
    ensures Pop(World(NewPool(4), Stack([Slab(1), Slab(2)], 1)))
         == World(NewPool(4), Stack([Slab(1), Slab(2)], 0))
  {
  }

  /** Slab size 4: `delete_mem` on a full first slab and an empty second one
      destructs the first slab's four cells and hands back nothing. */
  lemma DeleteFullThenEmpty(addr: Slab -> nat)
    ensures DeleteMem(World(NewPool(4), Stack([Slab(1), Slab(2)], 0)), addr)
         == Deleted(World(NewPool(4), Stack([Slab(1)], 0)),
                    [Cell(Slab(1), 0), Cell(Slab(1), 1), Cell(Slab(1), 2), Cell(Slab(1), 3)])
  {
    assert BelowTop([Slab(2)], addr, addr(Slab(2))) == [];
    assert Cells(Slab(1), 4) == [Cell(Slab(1), 0), Cell(Slab(1), 1), Cell(Slab(1), 2), Cell(Slab(1), 3)];
  }

  /** Slab size 4: construct, allocate five cells, pop once, `delete_mem`.
      The fifth cell is cell 0 of a second slab; after the pop that slab stays
      attached, so the manager holds none; `delete_mem` destructs the four cells
      of the first slab and leaks the second, leaving the manager empty. */
  lemma FiveAllocsOnePopThenDelete(addr: Slab -> nat)
    ensures var p0 := NewPool(4);
      var w0 := New(p0, Fresh(1));
      var w4 := Alloc(Alloc(Alloc(Alloc(w0, Null).world, Null).world, Null).world, Null).world;
      var a5 := Alloc(w4, Fresh(2));
      var w6 := Pop(a5.world);
      var d := DeleteMem(w6, addr);
      && a5.cell == Some(Cell(Slab(2), 0))
      && w6.stack.chain == [Slab(1), Slab(2)] && w6.pool.free == []
      && d.dtors == [Cell(Slab(1), 0), Cell(Slab(1), 1), Cell(Slab(1), 2), Cell(Slab(1), 3)]
      && d.world.stack.chain == [Slab(1)] && d.world.pool.free == []
  {
    FourAllocsFillFirstSlab();
    FifthAllocAppendsSlab();
    PopKeepsEmptySlab();
    DeleteFullThenEmpty(addr);
  }
}
