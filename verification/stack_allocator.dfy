/** `ManagedStackAllocator<T>` of src/node_stack_alloc.h: bump allocation of
    `T`-sized cells along a chain of slabs borrowed from a `SlabManager`, with
    LIFO `pop` and two bulk teardowns. */
module ManagedStackAllocator {
  import opened Memory
  import opened SlabManager

  /** One `T`-sized cell: a slab and a position in its data region. */
  datatype Cell = Cell(slab: Slab, index: nat)

  /** The allocator's own state. `chain` is the list of slabs linked through
      `next`/`prev`; its first slab is `start` and its last one `stackhead`.
      `offset` is `curpos - stackhead->data`; `slabend` is always
      `stackhead->data + slabsize` and is not stored. */
  datatype Stack = Stack(chain: seq<Slab>, offset: nat)

  /** A stack allocator together with the manager it borrows slabs from. */
  datatype World = World(pool: Pool, stack: Stack)

  function Start(st: Stack): Slab
    requires |st.chain| > 0
  {
    st.chain[0]
  }

  function Top(st: Stack): Slab
    requires |st.chain| > 0
  {
    st.chain[|st.chain| - 1]
  }

  /** Cells `0 .. n-1` of slab `s`, in address order. */
  function Cells(s: Slab, n: nat): (r: seq<Cell>)
    ensures |r| == n
    ensures forall i :: 0 <= i < n ==> r[i] == Cell(s, i)
  {
    if n == 0 then [] else Cells(s, n - 1) + [Cell(s, n - 1)]
  }

  /** Every cell of every slab of `slabs`, slab by slab. */
  function FullCells(slabs: seq<Slab>, size: nat): (r: seq<Cell>)
    ensures |r| == |slabs| * size
  {
    if slabs == [] then []
    else
      var r := FullCells(slabs[..|slabs| - 1], size) + Cells(slabs[|slabs| - 1], size);
      assert |r| == (|slabs| - 1) * size + size;
      r
  }

  /** The logical stack of live cells, bottom first: every slab below the top
      is full, and the top holds `offset` cells. */
  function LiveCells(st: Stack, size: nat): (r: seq<Cell>)
    requires |st.chain| > 0
    ensures |r| == (|st.chain| - 1) * size + st.offset
  {
    FullCells(st.chain[..|st.chain| - 1], size) + Cells(Top(st), st.offset)
  }

  lemma FullCellsSnoc(slabs: seq<Slab>, x: Slab, size: nat)
    ensures FullCells(slabs + [x], size) == FullCells(slabs, size) + Cells(x, size)
  {
    assert (slabs + [x])[..|slabs|] == slabs;
  }

  /** Advancing the cursor within the top slab pushes the cell it passes. */
  lemma BumpPushes(st: Stack, size: nat)
    requires |st.chain| > 0
    ensures LiveCells(Stack(st.chain, st.offset + 1), size)
         == LiveCells(st, size) + [Cell(Top(st), st.offset)]
  {
    assert Cells(Top(st), st.offset + 1) == Cells(Top(st), st.offset) + [Cell(Top(st), st.offset)];
  }

  /** Appending a slab after a full top slab, with the cursor past its first
      cell, pushes that first cell. */
  lemma AppendPushes(st: Stack, size: nat, s: Slab)
    requires |st.chain| > 0 && st.offset == size
    ensures LiveCells(Stack(st.chain + [s], 1), size) == LiveCells(st, size) + [Cell(s, 0)]
  {
    var n := |st.chain|;
    assert (st.chain + [s])[..n] == st.chain;
    assert st.chain == st.chain[..n - 1] + [Top(st)];
    FullCellsSnoc(st.chain[..n - 1], Top(st), size);
    assert Cells(s, 1) == [Cell(s, 0)];
  }

  /** The representation invariant, covering the allocator and its manager:
      a non-empty chain, a cursor within the top slab, and no slab owned twice
      (neither twice in one list nor in both). */
  predicate Inv(w: World) {
    && |w.stack.chain| > 0
    && w.stack.offset <= w.pool.slabsize
    && Distinct(w.stack.chain)
    && Valid(w.pool)
    && Disjoint(w.stack.chain, w.pool.free)
  }

  /** `malloc` hands out memory that nothing in the world owns. */
  predicate FreshFor(w: World, m: Malloc) {
    m.Fresh? ==> Slab(m.addr) !in w.stack.chain && Slab(m.addr) !in w.pool.free
  }

  /** The constructor: the first slab is taken from the manager without a null
      check, so a successful `get_slab` is required. */
  function New(p: Pool, m: Malloc): (r: World)
    requires GetSlab(p, m).slab.Some?
    ensures r.stack.chain == [GetSlab(p, m).slab.value] && r.stack.offset == 0
    ensures r.pool == GetSlab(p, m).pool
    ensures LiveCells(r.stack, r.pool.slabsize) == []
  {
    var g := GetSlab(p, m);
    World(g.pool, Stack([g.slab.value], 0))
  }

  /** A cell handed out by `alloc` (or null), and the world it leaves. */
  datatype Allocated = Allocated(cell: Option<Cell>, world: World)

  /** `inc_slab`: link one slab from the manager after the top slab and hand
      out its first cell; on a null slab nothing changes. */
  function IncSlab(w: World, m: Malloc): (r: Allocated)
    requires |w.stack.chain| > 0
    ensures r.cell.None? ==> r.world == w
    ensures r.cell.Some? ==>
      && GetSlab(w.pool, m).slab == Some(r.cell.value.slab)
      && r.cell.value.index == 0
      && r.world.stack.chain == w.stack.chain + [r.cell.value.slab]
      && r.world.stack.offset == 1
      && r.world.pool == GetSlab(w.pool, m).pool
  {
    var g := GetSlab(w.pool, m);
    match g.slab
    case None => Allocated(None, w)
    case Some(s) => Allocated(Some(Cell(s, 0)), World(g.pool, Stack(w.stack.chain + [s], 1)))
  }

  /** `alloc`: the next cell of the top slab, or the first cell of a new slab
      when the cursor has reached `slabend`. It pushes exactly the cell it
      hands out on the logical stack, and fails, changing nothing, exactly
      when the top slab is full and the manager yields null. */
  function Alloc(w: World, m: Malloc): (r: Allocated)
    requires |w.stack.chain| > 0
    ensures r.world.pool.slabsize == w.pool.slabsize
    ensures r.cell.None? <==> w.stack.offset == w.pool.slabsize && GetSlab(w.pool, m).slab.None?
    ensures r.cell.None? ==> r.world == w
    ensures |r.world.stack.chain| > 0
    ensures r.cell.Some? ==>
      LiveCells(r.world.stack, w.pool.slabsize) == LiveCells(w.stack, w.pool.slabsize) + [r.cell.value]
    ensures w.stack.offset != w.pool.slabsize ==>
      r == Allocated(Some(Cell(Top(w.stack), w.stack.offset)),
                     World(w.pool, Stack(w.stack.chain, w.stack.offset + 1)))
    ensures w.stack.offset == w.pool.slabsize ==> r == IncSlab(w, m)
  {
    if w.stack.offset == w.pool.slabsize then
      var r := IncSlab(w, m);
      if r.cell.Some? then
        AppendPushes(w.stack, w.pool.slabsize, r.cell.value.slab);
        r
      else r
    else
      BumpPushes(w.stack, w.pool.slabsize);
      Allocated(Some(Cell(Top(w.stack), w.stack.offset)),
                World(w.pool, Stack(w.stack.chain, w.stack.offset + 1)))
  }

  /** `pop`: step the cursor back; when the top slab is already empty and is
      not `start`, hand it back to the manager and resume at the last cell of
      the slab below. */
  function Pop(w: World): (r: World)
    requires |w.stack.chain| > 0
    ensures r.pool.slabsize == w.pool.slabsize
    ensures |r.stack.chain| > 0 && Start(r.stack) == Start(w.stack)
    ensures r.pool != w.pool ==> w.stack.offset == 0 && Top(w.stack) != Start(w.stack)
  {
    var st := w.stack;
    if st.offset == 0 then
      if Top(st) != Start(st) then
        World(ReturnSlab(w.pool, Some(Top(st))),
              Stack(st.chain[..|st.chain| - 1], w.pool.slabsize - 1))
      else w
    else World(w.pool, Stack(st.chain, st.offset - 1))
  }

  /** `release_mem`: give every slab after `start` back to the manager, in chain
      order, and reset the cursor to the start of `start`. No destructor runs. */
  function ReleaseMem(w: World): (r: World)
    requires |w.stack.chain| > 0
    ensures r.stack == Stack([Start(w.stack)], 0)
    ensures r.pool == ReturnAll(w.pool, w.stack.chain[1..])
  {
    World(ReturnAll(w.pool, w.stack.chain[1..]), Stack([Start(w.stack)], 0))
  }

  /** `dtor_slab(data, data + count)`: run the destructor on each of the first
      `count` cells of `s`, in address order. This is the loop form of `Cells`,
      which the teardowns below use to describe their destructor logs. */
  method DtorSlab(s: Slab, count: nat) returns (log: seq<Cell>)
    ensures log == Cells(s, count)
  {
    log := [];
    var cur := 0;
    while cur < count
      invariant cur <= count
      invariant |log| == cur
      invariant forall i :: 0 <= i < cur ==> log[i] == Cell(s, i)
    {
      log := log + [Cell(s, cur)];
      cur := cur + 1;
    }
  }

  /** The slabs visited by `delete_mem`'s second loop: starting from `start->next`,
      keep going while the slab's address is below `bound`, the address of
      `stackhead`. */
  function BelowTop(rest: seq<Slab>, addr: Slab -> nat, bound: nat): (r: seq<Slab>)
    ensures |r| <= |rest| && r == rest[..|r|]
    ensures forall s :: s in r ==> addr(s) < bound
    ensures |r| < |rest| ==> addr(rest[|r|]) >= bound
  {
    if rest == [] || addr(rest[0]) >= bound then []
    else [rest[0]] + BelowTop(rest[1..], addr, bound)
  }

  /** What `delete_mem` leaves, and the cells whose destructor it ran, in order. */
  datatype Deleted = Deleted(world: World, dtors: seq<Cell>)

  /** `delete_mem` as written. The cells of the top slab below the cursor are
      destructed first. With a single slab it then behaves as `release_mem`.
      Otherwise all of `start` is destructed, and the slabs after `start` are
      destructed and handed back only while their address compares below that of
      `stackhead`; `stackhead` itself is never handed back. The allocator is
      reset to `start` either way. */
  function DeleteMem(w: World, addr: Slab -> nat): (r: Deleted)
    requires |w.stack.chain| > 0
    ensures r.world.stack == Stack([Start(w.stack)], 0)
    ensures Top(w.stack) == Start(w.stack) ==>
      r.world == ReleaseMem(w) && r.dtors == Cells(Top(w.stack), w.stack.offset)
    ensures Top(w.stack) != Start(w.stack) ==>
      r.world.pool == ReturnAll(w.pool, BelowTop(w.stack.chain[1..], addr, addr(Top(w.stack))))
  {
    var st := w.stack;
    var size := w.pool.slabsize;
    var top := Cells(Top(st), st.offset);
    if Top(st) == Start(st) then
      Deleted(ReleaseMem(w), top)
    else
      var visited := BelowTop(st.chain[1..], addr, addr(Top(st)));
      Deleted(World(ReturnAll(w.pool, visited), Stack([Start(st)], 0)),
              top + Cells(Start(st), size) + FullCells(visited, size))
  }

  /** `delete_mem` as evidently intended: destruct every live cell and then
      behave exactly as `release_mem`, handing back every slab after `start`. */
  function DeleteMemFixed(w: World): (r: Deleted)
    requires |w.stack.chain| > 0
    ensures r.world == ReleaseMem(w)
    ensures |r.dtors| == |LiveCells(w.stack, w.pool.slabsize)|
  {
    var st := w.stack;
    var size := w.pool.slabsize;
    var n := |st.chain|;
    var top := Cells(Top(st), st.offset);
    if n == 1 then Deleted(ReleaseMem(w), top)
    else
      assert (n - 1) * size == size + (n - 2) * size;
      Deleted(ReleaseMem(w), top + Cells(Start(st), size) + FullCells(st.chain[1..n - 1], size))
  }
}
