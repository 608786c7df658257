/** `BlockAllocator<T>` of src/node_block_alloc.h: fixed-size cells ("chunks")
    served from a LIFO free list that threads through privately owned slabs,
    with no ordering constraint between allocation and release. */
module BlockAllocator {
  import opened Memory

  /** A slab of `node_block_alloc.h`: a header with a single `next` link,
      followed by `slabsize` chunks. Distinct from the slab of the stack
      allocator's header; only its identity is kept. */
  datatype Slab = Slab(id: nat)

  /** One chunk: a slab and a position in its chunk array. */
  datatype Chunk = Chunk(slab: Slab, index: nat)

  /** The allocator's state: `slabs` is the list reachable from `head` (newest
      first), `free` the chunks reachable from `first_open`, in list order. */
  datatype Block = Block(slabs: seq<Slab>, free: seq<Chunk>, slabsize: Size)

  /** The constructor. The slab size is stored as given; `add_slab`'s loop
      bound `slabsize - 1` wraps around for 0, so a size of at least one is
      required. */
  function New(ssize: nat): (r: Block)
    requires ssize >= 1
    ensures r.slabs == [] && r.free == [] && r.slabsize == ssize
  {
    Block([], [], ssize)
  }

  /** Chunks `lo .. hi-1` of slab `s`, in address order. */
  function Chunks(s: Slab, lo: nat, hi: nat): (r: seq<Chunk>)
    requires lo <= hi
    ensures |r| == hi - lo
    ensures forall i :: 0 <= i < |r| ==> r[i] == Chunk(s, lo + i)
    decreases hi - lo
  {
    if lo == hi then [] else [Chunk(s, lo)] + Chunks(s, lo + 1, hi)
  }

  /** Every chunk of every slab of `slabs`, slab by slab. */
  function Owned(slabs: seq<Slab>, size: nat): (r: seq<Chunk>)
    ensures |r| == |slabs| * size
  {
    if slabs == [] then []
    else
      var r := Chunks(slabs[0], 0, size) + Owned(slabs[1..], size);
      assert |r| == size + (|slabs| - 1) * size;
      r
  }

  /** The loop of `add_slab` that threads a new slab's chunks together: chunk
      `i` is linked to chunk `i + 1` for every `i < slabsize - 1`, the last
      chunk is linked to the old `first_open`, and `first_open` becomes chunk 1.
      The result is the new free list. This is the loop form of the
      `Chunks(s, 1, slabsize) + b.free` that `AddSlab` leaves. */
  method LinkChunks(s: Slab, slabsize: Size, firstOpen: seq<Chunk>) returns (r: seq<Chunk>)
    ensures r == Chunks(s, 1, slabsize) + firstOpen
  {
    var run: seq<Chunk> := [];
    var i := 0;
    while i < slabsize - 1
      invariant i <= slabsize - 1
      invariant |run| == i
      invariant forall k :: 0 <= k < i ==> run[k] == Chunk(s, k + 1)
    {
      run := run + [Chunk(s, i + 1)];
      i := i + 1;
    }
    r := run + firstOpen;
    assert run == Chunks(s, 1, slabsize);
  }

  /** A chunk handed out by `alloc` (or null), and the allocator it leaves. */
  datatype Allocated = Allocated(chunk: Option<Chunk>, block: Block)

  /** `add_slab`: put a new slab at the head of the slab list, queue its chunks
      `1 .. slabsize-1` ahead of the free list and hand out chunk 0. On a null
      block from `malloc` nothing changes. */
  function AddSlab(b: Block, m: Malloc): (r: Allocated)
    ensures r.chunk.None? <==> m.Null?
    ensures r.chunk.None? ==> r.block == b
    ensures m.Fresh? ==>
      && r.chunk == Some(Chunk(Slab(m.addr), 0))
      && r.block.slabs == [Slab(m.addr)] + b.slabs
      && r.block.free == Chunks(Slab(m.addr), 1, b.slabsize) + b.free
    ensures r.block.slabsize == b.slabsize
  {
    match m
    case Null => Allocated(None, b)
    case Fresh(a) =>
      Allocated(Some(Chunk(Slab(a), 0)),
                Block([Slab(a)] + b.slabs, Chunks(Slab(a), 1, b.slabsize) + b.free, b.slabsize))
  }

  /** `alloc`: the head of the free list, or chunk 0 of a new slab when the
      free list is empty. */
  function Alloc(b: Block, m: Malloc): (r: Allocated)
    ensures r.block.slabsize == b.slabsize
    ensures b.free != [] ==>
      r.chunk == Some(b.free[0]) && r.block.free == b.free[1..] && r.block.slabs == b.slabs
    ensures b.free == [] ==> r == AddSlab(b, m)
    ensures r.chunk.None? <==> b.free == [] && m.Null?
    ensures r.chunk.None? ==> r.block == b
  {
    if b.free == [] then AddSlab(b, m)
    else Allocated(Some(b.free[0]), Block(b.slabs, b.free[1..], b.slabsize))
  }

  /** What `free`/`destroy` leave, and the chunks whose destructor ran. */
  datatype Released = Released(block: Block, dtors: seq<Chunk>)

  /** `release<do_dtor>`: ignore null; otherwise optionally run the destructor
      and push the chunk on the head of the free list. */
  function Release(b: Block, p: Option<Chunk>, doDtor: bool): (r: Released)
    ensures r.dtors != [] <==> doDtor && p.Some?
    ensures forall c :: c in r.dtors ==> p == Some(c)
    ensures |r.dtors| <= 1
    ensures r.block.slabs == b.slabs && r.block.slabsize == b.slabsize
    ensures multiset(r.block.free)
         == multiset(b.free) + (if p.Some? then multiset{p.value} else multiset{})
    ensures p.None? ==> r == Released(b, [])
    ensures p.Some? ==>
      r.block == Block(b.slabs, [p.value] + b.free, b.slabsize)
      && r.dtors == (if doDtor then [p.value] else [])
  {
    match p
    case None => Released(b, [])
    case Some(c) => Released(Block(b.slabs, [c] + b.free, b.slabsize), if doDtor then [c] else [])
  }

  /** `free`: hand a chunk back without running its destructor. */
  function Free(b: Block, p: Option<Chunk>): (r: Released)
    ensures r.dtors == []
    ensures p.None? ==> r.block == b
    ensures p.Some? ==> r.block.free == [p.value] + b.free && r.block.slabs == b.slabs
    ensures r.block.slabsize == b.slabsize
  {
    Release(b, p, false)
  }

  /** `destroy`: run the destructor of a chunk once, then hand it back. */
  function Destroy(b: Block, p: Option<Chunk>): (r: Released)
    ensures p.None? ==> r == Released(b, [])
    ensures p.Some? ==> r.dtors == [p.value] && r.block == Free(b, p).block
  {
    Release(b, p, true)
  }

  /** What `clear` leaves, and the slabs it hands back to the system. */
  datatype Cleared = Cleared(block: Block, released: seq<Slab>)

  /** `clear` as written. Inside the class the unqualified `free(del)` names the
      member `free`, so each slab header is pushed onto `first_open` as if it
      were a chunk, instead of being passed to the system's `free`; the pushes
      are then discarded by `first_open = NULL`. The lists end up empty, no
      destructor runs, and no slab reaches the system. */
  function Clear(b: Block): (r: Cleared)
    ensures r.block.slabs == [] && r.block.free == [] && r.block.slabsize == b.slabsize
    ensures r.released == []
  {
    Cleared(Block([], [], b.slabsize), [])
  }

  /** `clear` as evidently intended: every owned slab goes back to the system,
      newest first, and the lists end up empty. */
  function ClearFixed(b: Block): (r: Cleared)
    ensures r.block.slabs == [] && r.block.free == [] && r.block.slabsize == b.slabsize
    ensures r.released == b.slabs
  {
    Cleared(Block([], [], b.slabsize), b.slabs)
  }
}
