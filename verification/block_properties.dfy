/** Properties of the block allocator of src/node_block_alloc.h: every owned
    chunk is either live or free, LIFO reuse of freed chunks, slab growth only
    when every chunk is live, and what `clear` does with slabs. The set of live
    chunks is the caller's knowledge, not part of the allocator's state; it is
    a multiset here so that "exactly once" can be stated. */
module BlockProperties {
  import opened Memory
  import opened BlockAllocator

  /** Each owned chunk sits either on the free list or among the live chunks,
      counted with multiplicity: together they are exactly the owned chunks. */
  predicate Partition(b: Block, live: multiset<Chunk>) {
    multiset(b.free) + live == multiset(Owned(b.slabs, b.slabsize))
  }

  /** The slab count is what the peak number of live chunks calls for: enough
      slabs for the peak, and no slab that the peak did not need. */
  predicate Covered(b: Block, live: multiset<Chunk>, peak: nat) {
    && Partition(b, live)
    && |live| <= peak
    && peak <= |b.slabs| * b.slabsize
    && (|b.slabs| > 0 ==> (|b.slabs| - 1) * b.slabsize < peak)
  }

  // ---------------------------------------------------------------------------
  // Owned chunks

  lemma {:induction false} OwnedMembers(slabs: seq<Slab>, size: nat, c: Chunk)
    ensures c in Owned(slabs, size) <==> c.slab in slabs && c.index < size
    decreases |slabs|
  {
    if slabs != [] {
      OwnedMembers(slabs[1..], size, c);
      assert slabs == [slabs[0]] + slabs[1..];
      if c.slab == slabs[0] && c.index < size {
        assert Chunks(slabs[0], 0, size)[c.index] == c;
      }
    }
  }

  lemma {:induction false} OwnedDistinct(slabs: seq<Slab>, size: nat)
    requires Distinct(slabs)
    ensures Distinct(Owned(slabs, size))
    decreases |slabs|
  {
    if slabs != [] {
      var rest := slabs[1..];
      assert Distinct(rest) by {
        forall i, j | 0 <= i < j < |rest|
          ensures rest[i] != rest[j]
        {
          assert rest[i] == slabs[i + 1] && rest[j] == slabs[j + 1];
        }
      }
      OwnedDistinct(rest, size);
      forall c | c in Chunks(slabs[0], 0, size)
        ensures c !in Owned(rest, size)
      {
        OwnedMembers(rest, size, c);
        forall k | 0 <= k < |rest|
          ensures rest[k] != slabs[0]
        {
          assert rest[k] == slabs[k + 1];
        }
      }
      DistinctAppend(Chunks(slabs[0], 0, size), Owned(rest, size));
    }
  }

  /** A partition over distinct slabs: every owned chunk is exactly one of live
      or free, nothing else is either, and the free list has no duplicates. */
  lemma PartitionExact(b: Block, live: multiset<Chunk>, c: Chunk)
    requires Partition(b, live) && Distinct(b.slabs)
    ensures c in Owned(b.slabs, b.slabsize) ==> multiset(b.free)[c] + live[c] == 1
    ensures c !in Owned(b.slabs, b.slabsize) ==> multiset(b.free)[c] == 0 && live[c] == 0
    ensures multiset(b.free)[c] <= 1
  {
    var owned := Owned(b.slabs, b.slabsize);
    OwnedDistinct(b.slabs, b.slabsize);
    DistinctCountsOnce(owned);
    assert multiset(b.free)[c] + live[c] == multiset(owned)[c];
    if c in owned {
      assert multiset(owned)[c] >= 1;
    } else {
      assert multiset(owned)[c] == 0;
    }
  }

  /** Free and live chunks together number exactly the owned chunks. */
  lemma PartitionCount(b: Block, live: multiset<Chunk>)
    requires Partition(b, live)
    ensures |b.free| + |live| == |b.slabs| * b.slabsize
  {
    assert |multiset(b.free) + live| == |multiset(Owned(b.slabs, b.slabsize))|;
  }

  // ---------------------------------------------------------------------------
  // The operations keep the partition

  lemma NewPartition(ssize: nat)
    requires ssize >= 1
    ensures Partition(New(ssize), multiset{})
    ensures Covered(New(ssize), multiset{}, 0)
  {
  }

  /** Taking the head of the free list moves it to the live chunks. */
  lemma PopFreeKeepsPartition(b: Block, live: multiset<Chunk>)
    requires Partition(b, live) && b.free != []
    ensures Partition(Block(b.slabs, b.free[1..], b.slabsize), live + multiset{b.free[0]})
  {
    assert b.free == [b.free[0]] + b.free[1..];
  }

  /** Carving a new slab: chunk 0 becomes live and the others join the free
      list, so the new slab's chunks are all accounted for. */
  lemma CarveKeepsPartition(b: Block, live: multiset<Chunk>, s: Slab)
    requires Partition(b, live)
    ensures Partition(Block([s] + b.slabs, Chunks(s, 1, b.slabsize) + b.free, b.slabsize),
                      live + multiset{Chunk(s, 0)})
  {
    var size := b.slabsize;
    assert ([s] + b.slabs)[1..] == b.slabs;
    assert Chunks(s, 0, size) == [Chunk(s, 0)] + Chunks(s, 1, size);
  }

  /** `alloc` moves exactly one chunk from free to live, whether it pops the
      free list or carves a new slab; a failed `alloc` changes nothing. */
  lemma AllocKeepsPartition(b: Block, live: multiset<Chunk>, m: Malloc)
    requires Partition(b, live)
    ensures Alloc(b, m).chunk.Some? ==>
      Partition(Alloc(b, m).block, live + multiset{Alloc(b, m).chunk.value})
    ensures Alloc(b, m).chunk.None? ==> Alloc(b, m).block == b
  {
    if b.free != [] {
      PopFreeKeepsPartition(b, live);
    } else if m.Fresh? {
      CarveKeepsPartition(b, live, Slab(m.addr));
    }
  }

  /** `free` of a live chunk moves it from live back to free. */
  lemma FreeKeepsPartition(b: Block, live: multiset<Chunk>, c: Chunk)
    requires Partition(b, live) && c in live
    ensures Partition(Free(b, Some(c)).block, live - multiset{c})
    ensures Partition(Destroy(b, Some(c)).block, live - multiset{c})
  {
    assert live == (live - multiset{c}) + multiset{c};
  }

  /** A fresh slab keeps the slab list free of duplicates. */
  lemma AllocKeepsSlabsDistinct(b: Block, m: Malloc)
    requires Distinct(b.slabs)
    requires m.Fresh? ==> Slab(m.addr) !in b.slabs
    ensures Distinct(Alloc(b, m).block.slabs)
  {
    if b.free == [] && m.Fresh? {
      assert Distinct([Slab(m.addr)]);
      DistinctAppend([Slab(m.addr)], b.slabs);
    }
  }

  // ---------------------------------------------------------------------------
  // Slab growth

  /** A new slab is carved only when every owned chunk is live. */
  lemma GrowsOnlyWhenAllLive(b: Block, live: multiset<Chunk>, m: Malloc)
    requires Partition(b, live)
    ensures |Alloc(b, m).block.slabs| != |b.slabs| ==>
      |live| == |b.slabs| * b.slabsize && |Alloc(b, m).block.slabs| == |b.slabs| + 1
  {
    PartitionCount(b, live);
  }

  /** `alloc` keeps the slab count matched to the peak live count. */
  lemma AllocKeepsCovered(b: Block, live: multiset<Chunk>, peak: nat, m: Malloc)
    requires Covered(b, live, peak)
    ensures var r := Alloc(b, m);
      r.chunk.Some? ==>
        Covered(r.block, live + multiset{r.chunk.value}, if |live| + 1 > peak then |live| + 1 else peak)
  {
    var r := Alloc(b, m);
    AllocKeepsPartition(b, live, m);
    PartitionCount(b, live);
    var n := |b.slabs|;
    var size := b.slabsize;
    if r.chunk.Some? && b.free == [] {
      assert peak == n * size;
      assert (n + 1) * size == n * size + size;
    }
  }

  /** `free` of a live chunk keeps the slab count matched to the peak. */
  lemma FreeKeepsCovered(b: Block, live: multiset<Chunk>, peak: nat, c: Chunk)
    requires Covered(b, live, peak) && c in live
    ensures Covered(Free(b, Some(c)).block, live - multiset{c}, peak)
    ensures Covered(Destroy(b, Some(c)).block, live - multiset{c}, peak)
  {
    FreeKeepsPartition(b, live, c);
  }

  /** Under the matching, the number of owned slabs is the peak live count
      divided by the slab size, rounded up. */
  lemma CoveredSlabCount(b: Block, live: multiset<Chunk>, peak: nat)
    requires Covered(b, live, peak)
    ensures |b.slabs| == (peak + b.slabsize - 1) / b.slabsize
  {
    var n := |b.slabs|;
    var size: nat := b.slabsize;
    if n == 0 {
      assert peak == 0;
      DivUnique(size - 1, size, 0);
    } else {
      assert (n - 1) * size == n * size - size;
      DivUnique(peak + size - 1, size, n);
    }
  }

  /** Division by a positive number has one quotient. */
  lemma DivUnique(a: int, d: int, q: int)
    requires 0 < d && q * d <= a < q * d + d
    ensures a / d == q
  {
    var k := a / d;
    var t := k - q;
    assert a == k * d + a % d;
    assert t * d == k * d - q * d;
    MultipleBounds(t, d);
  }

  /** A non-zero multiple of `d` is at least `d` away from zero. */
  lemma MultipleBounds(t: int, d: int)
    requires 0 < d
    ensures t >= 1 ==> t * d >= d
    ensures t <= -1 ==> t * d <= -d
  {
    if t >= 1 {
      assert t * d == (t - 1) * d + d;
    } else if t <= -1 {
      assert t * d == (t + 1) * d - d;
    }
  }

  // ---------------------------------------------------------------------------
  // LIFO reuse and the caller's discipline

  /** `free(p)` then `alloc()` hands `p` back and restores the free list. */
  lemma FreeThenAlloc(b: Block, c: Chunk, m: Malloc)
    ensures Alloc(Free(b, Some(c)).block, m) == Allocated(Some(c), b)
  {
  }

  /** Why the caller must not free a chunk twice: two `free`s of one chunk make
      the next two `alloc`s hand out that same chunk. */
  lemma DoubleFreeHandsOutTwice(b: Block, c: Chunk, m1: Malloc, m2: Malloc)
    ensures var twice := Free(Free(b, Some(c)).block, Some(c)).block;
      && Alloc(twice, m1).chunk == Some(c)
      && Alloc(Alloc(twice, m1).block, m2).chunk == Some(c)
  {
  }

  // ---------------------------------------------------------------------------
  // clear

  /** `clear` as written drops every owned slab: none stays listed and none is
      handed back to the system. */
  lemma ClearLeaksSlabs(b: Block)
    ensures forall s :: s in b.slabs ==> s !in Clear(b).block.slabs && s !in Clear(b).released
    ensures b.slabs != [] ==> |Clear(b).released| < |b.slabs|
  {
  }

  /** The corrected `clear` hands every owned slab back exactly once and leaves
      the allocator as freshly constructed. */
  lemma ClearFixedReleasesAll(b: Block)
    requires Distinct(b.slabs)
    ensures forall s :: s in b.slabs <==> s in ClearFixed(b).released
    ensures Distinct(ClearFixed(b).released)
    ensures ClearFixed(b).block == New(b.slabsize)
    ensures Partition(ClearFixed(b).block, multiset{})
  {
  }
}
