/** The slab pool of src/node_stack_alloc.h (`SlabManager<T>`): a LIFO free list
    of equally sized slabs shared by stack allocators, refilled from the system
    allocator on demand and trimmed back to it on request. */
module SlabManager {
  import opened Memory

  /** A slab of `node_stack_alloc.h`: a header with `next`/`prev` links and a
      data region of `slabsize` cells. The model keeps only its identity; the
      links are implied by the position of the slab in whichever list holds it. */
  datatype Slab = Slab(id: nat)

  /** The pool's state. `free` lists the slabs the pool owns, in the order
      they are reachable from `head`. `stale` is the `next` link stored at the
      end of that list: `None` when it is null, `Some(s)` when it still points
      at a slab that `trim_to` has handed back to the system. When `free` is
      empty, `stale` is `head` itself. */
  datatype Pool = Pool(free: seq<Slab>, stale: Option<Slab>, slabsize: Size)

  /** A pool whose list ends in a null link, with no slab listed twice. */
  predicate Valid(p: Pool) {
    p.stale.None? && Distinct(p.free)
  }

  /** The constructor: an empty list, and a slab size of at least one cell. */
  function NewPool(slabsize: nat): (r: Pool)
    ensures Valid(r) && r.free == []
    ensures r.slabsize >= 1
    ensures slabsize > 0 ==> r.slabsize == slabsize
    ensures slabsize == 0 ==> r.slabsize == 1
  {
    Pool([], None, if slabsize > 0 then slabsize else 1)
  }

  /** `alloc_slab`: a new unlinked slab, or null when `malloc` fails. */
  function AllocSlab(m: Malloc): (r: Option<Slab>)
    ensures r.None? <==> m.Null?
    ensures m.Fresh? ==> r == Some(Slab(m.addr))
  {
    match m
    case Null => None
    case Fresh(a) => Some(Slab(a))
  }

  /** What `get_slab` hands out, and the pool it leaves behind. */
  datatype Got = Got(slab: Option<Slab>, pool: Pool)

  /** `get_slab`: pop the head of the list, or ask the system for a new slab
      when the head is null. A head that is a stale link (possible only after
      `trim_to`) is handed out although its memory was released; the `next`
      link then read from released memory is taken to be null. */
  function GetSlab(p: Pool, m: Malloc): (r: Got)
    ensures r.pool.slabsize == p.slabsize
    ensures p.free != [] ==>
      r.slab == Some(p.free[0]) && r.pool.free == p.free[1..] && r.pool.stale == p.stale
    ensures p.free == [] && p.stale.None? ==>
      r.pool == p && r.slab == AllocSlab(m)
    ensures p.free == [] && p.stale.Some? ==>
      r.slab == p.stale && Valid(r.pool) && r.pool.free == []
    ensures r.slab.None? ==> r.pool == p
  {
    if p.free == [] && p.stale.None? then
      Got(AllocSlab(m), p)
    else if p.free == [] then
      Got(p.stale, Pool([], None, p.slabsize))
    else
      Got(Some(p.free[0]), Pool(p.free[1..], p.stale, p.slabsize))
  }

  /** `return_slab`: push a slab on the head of the list; null is ignored. */
  function ReturnSlab(p: Pool, s: Option<Slab>): (r: Pool)
    ensures s.None? ==> r == p
    ensures s.Some? ==> r.free == [s.value] + p.free
    ensures r.stale == p.stale && r.slabsize == p.slabsize
  {
    match s
    case None => p
    case Some(x) => Pool([x] + p.free, p.stale, p.slabsize)
  }

  /** Returning the slabs of `slabs` one at a time, in order, as the stack
      allocator's walks along its chain do. */
  function ReturnAll(p: Pool, slabs: seq<Slab>): (r: Pool)
    ensures r.free == Reverse(slabs) + p.free
    ensures r.stale == p.stale && r.slabsize == p.slabsize
    decreases |slabs|
  {
    if slabs == [] then p
    else ReturnAll(ReturnSlab(p, Some(slabs[0])), slabs[1..])
  }

  /** Slabs walked back into the pool keep it valid when they were distinct
      and owned by nobody in the pool. */
  lemma ReturnAllValid(p: Pool, slabs: seq<Slab>)
    requires Valid(p) && Distinct(slabs) && Disjoint(slabs, p.free)
    ensures Valid(ReturnAll(p, slabs))
    ensures multiset(ReturnAll(p, slabs).free) == multiset(slabs) + multiset(p.free)
  {
    ReverseDistinct(slabs);
    ReverseMembers(slabs);
    DistinctAppend(Reverse(slabs), p.free);
  }

  /** The result of `trim_to`: the pool left behind, and the slabs handed back
      to the system, in list order. */
  datatype Trimmed = Trimmed(pool: Pool, released: seq<Slab>)

  /** `trim_to(n_keep)` as written: the first loop stops on the slab at
      position `n_keep` (or on null), and everything after that slab is freed.
      So `n_keep + 1` slabs stay, and the kept slab's `next` link is not
      cleared. Walking a list whose end already dangles would read released
      memory, hence the requirement. */
  function TrimTo(p: Pool, nKeep: nat): (r: Trimmed)
    requires p.stale.None?
    ensures r.pool.free + r.released == p.free
    ensures |r.pool.free| == Min(|p.free|, nKeep + 1)
    ensures r.pool.stale == (if r.released == [] then None else Some(r.released[0]))
    ensures r.pool.slabsize == p.slabsize
  {
    if nKeep < |p.free| then
      var kept := p.free[..nKeep + 1];
      var gone := p.free[nKeep + 1..];
      assert kept + gone == p.free;
      Trimmed(Pool(kept, if gone == [] then None else Some(gone[0]), p.slabsize), gone)
    else
      Trimmed(p, [])
  }

  /** `trim_to(n_keep)` as its comment describes it: keep the first `n_keep`
      slabs, free the rest, and cut the link to the freed part. */
  function TrimToFixed(p: Pool, nKeep: nat): (r: Trimmed)
    requires Valid(p)
    ensures r.pool.free + r.released == p.free
    ensures |r.pool.free| == Min(|p.free|, nKeep)
    ensures Valid(r.pool)
    ensures r.pool.slabsize == p.slabsize
  {
    if nKeep < |p.free| then
      assert p.free[..nKeep] + p.free[nKeep..] == p.free;
      Trimmed(Pool(p.free[..nKeep], None, p.slabsize), p.free[nKeep..])
    else
      Trimmed(p, [])
  }

  /** LIFO reuse: the slab returned last is the next one handed out, and the
      rest of the pool is as it was. */
  lemma ReturnThenGet(p: Pool, s: Slab, m: Malloc)
    ensures GetSlab(ReturnSlab(p, Some(s)), m) == Got(Some(s), p)
  {
  }

  /** On an empty, valid pool `get_slab` either fails or hands out a fresh
      slab, and the pool stays empty. */
  lemma GetFromEmpty(p: Pool, m: Malloc)
    requires Valid(p) && p.free == []
    ensures GetSlab(p, m).pool == p
    ensures GetSlab(p, m).slab.None? <==> m.Null?
    ensures m.Fresh? ==> GetSlab(p, m).slab == Some(Slab(m.addr))
  {
  }

  /** `get_slab` keeps a valid pool valid and never hands out a slab that the
      pool still lists. */
  lemma GetSlabValid(p: Pool, m: Malloc)
    requires Valid(p)
    ensures Valid(GetSlab(p, m).pool)
    ensures GetSlab(p, m).slab.Some? ==> GetSlab(p, m).slab.value !in GetSlab(p, m).pool.free
  {
    if p.free != [] {
      assert p.free == [p.free[0]] + p.free[1..];
      assert Distinct([p.free[0]] + p.free[1..]);
    }
  }

  /** `trim_to(n)` keeps one slab more than its comment promises whenever the
      pool holds more than `n` slabs. */
  lemma TrimToKeepsOneMore(p: Pool, nKeep: nat)
    requires Valid(p) && nKeep < |p.free|
    ensures |TrimTo(p, nKeep).pool.free| == nKeep + 1
    ensures |TrimToFixed(p, nKeep).pool.free| == nKeep
  {
  }

  /** The link left behind by `trim_to(0)` on a pool of two or more slabs is
      followed: after the one kept slab is taken, the next `get_slab` hands out
      the first slab that was released to the system. */
  lemma TrimToLeavesDanglingLink(p: Pool, m1: Malloc, m2: Malloc)
    requires Valid(p) && |p.free| >= 2
    ensures p.free[1] in TrimTo(p, 0).released
    ensures GetSlab(GetSlab(TrimTo(p, 0).pool, m1).pool, m2).slab == Some(p.free[1])
  {
    var t := TrimTo(p, 0);
    assert t.released == p.free[1..];
    assert t.pool.free == [p.free[0]];
  }

  /** After the corrected trim every listed slab is still owned and none of the
      released ones can be reached: draining the pool ends at a null link. */
  lemma TrimToFixedReleasesUnreachable(p: Pool, nKeep: nat)
    requires Valid(p)
    ensures forall s :: s in TrimToFixed(p, nKeep).released ==> s !in TrimToFixed(p, nKeep).pool.free
    ensures TrimToFixed(p, nKeep).pool.stale.None?
    ensures nKeep >= |p.free| ==> TrimToFixed(p, nKeep) == Trimmed(p, [])
    ensures nKeep == 0 ==> TrimToFixed(p, nKeep).released == p.free
  {
    var t := TrimToFixed(p, nKeep);
    forall i, j | 0 <= i < |t.pool.free| && 0 <= j < |t.released|
      ensures t.pool.free[i] != t.released[j]
    {
      assert t.pool.free[i] == p.free[i];
      assert t.released[j] == p.free[|t.pool.free| + j];
    }
  }
}
