/** malloc and free: segregated free lists carved out of big blocks, on a memory of words. */
module MallocHeap {
  import opened SizeClass
  import opened MallocShape
  import opened MallocCarve
  import opened MallocLedger

  class Heap {
    const W: nat
    const BINS: nat
    const RANGE: nat                   // the number of values of size_t
    var mem: Memory
    var bin: seq<int>
    ghost var g: Ledger

    ghost predicate Valid()
      reads this
    {
      HeapOk(W, BINS, mem, bin, g) && InRange()
    }

    /** Lengths of regions are values of size_t. */
    ghost predicate InRange()
      reads this
    {
      BigBlock(W) < RANGE && forall r | r in g.regions :: g.regions[r] < RANGE
    }

    constructor (W: nat, BINS: nat, RANGE: nat)
      requires W >= 1 && 1 <= BINS <= 65535 && BigBlock(W) < RANGE
      ensures this.W == W && this.BINS == BINS && this.RANGE == RANGE
      ensures Valid() && g.live == {} && g.regions == map[]
    {
      this.W := W;
      this.BINS := BINS;
      this.RANGE := RANGE;
      mem := map[];
      bin := seq(BINS, i => NULL);
      g := Ledger(map[], {}, seq(BINS, i => []), map[], map[], seq(BINS, i => 0));
      new;
      forall b | 0 <= b < BINS ensures BinOk(W, mem, bin[b], g, b) {
        assert LiveOf(g, Bin2Size(W, b)) == {};
      }
    }

    /** The loop of fill_bin: cut the block at p into Nblocks chunks of size s, linked in order. */
    method CutBlock(s: nat, Nblocks: nat, p: int) returns (ghost list: seq<int>)
      requires W >= 1 && s >= W && Nblocks >= 1
      requires Fits(W, p, s, Nblocks, p + Waste(W))
      modifies this`mem
      ensures Carved(W, mem, p, s, list, Nblocks)
      ensures SameOutside(old(mem), mem, p, BigBlock(W))
    {
      var q := p + Waste(W);
      var j := 0;
      list := [q + W];
      CutStart(W, mem, p, s, Nblocks);
      while j != Nblocks - 1
        invariant 0 <= j < Nblocks
        invariant Cutting(W, old(mem), mem, p, s, Nblocks, j, q, list)
        decreases Nblocks - j
      {
        CutTurn(W, old(mem), mem, p, s, Nblocks, j, q, list);
        list := list + [q + W + (s + W)];
        mem := mem[q := s];
        mem := mem[q + W := q + W + (s + W)];
        q := q + (s + W);
        j := j + 1;
      }
      CutEnd(W, old(mem), mem, p, s, Nblocks, q, list);
      mem := mem[q := s];
      mem := mem[q + W := NULL];
    }

    /** fill_bin on what mmap0 returned: as many chunks as the block has room for. */
    method FillBin(b: nat, p: int) returns (first: int, ghost list: seq<int>)
      requires W >= 1 && b < BINS <= 65535 && (p == NULL || (p > 0 && Aligned(W, p)))
      modifies this`mem
      ensures p == NULL ==> first == NULL && mem == old(mem)
      ensures Bin2Size(W, b) >= W && ChunksPerFill(W, b) >= 1
      ensures p != NULL ==> first == p + Waste(W) + W && AlignedAll(W, list)
      ensures p != NULL ==> first == p + W * ALIGN
      ensures p != NULL ==> Carved(W, mem, p, Bin2Size(W, b), list, ChunksPerFill(W, b))
      ensures p != NULL ==> list[|list| - 1] + Bin2Size(W, b) + (Bin2Size(W, b) + W) > p + BigBlock(W)
      ensures SameOutside(old(mem), mem, p, BigBlock(W))
    {
      var s := Bin2Size(W, b);
      FillFacts(W, b);
      if p == NULL {
        first, list := NULL, [];
      } else {
        var Nblocks := NBlocks(W, s);
        FillStart(W, p, b);
        list := CutBlock(s, Nblocks, p);
        first := p + Waste(W) + W;
        BlocksFit(W, b);
        NoneFitsBehind(W, mem, p, s, list, Nblocks);
        SpacedAligned(W, p, s, list, |list|);
        assert list[..|list|] == list;
      }
    }

    /** The part of malloc_small for an empty bin; region is what mmap0 answers. */
    method FillEmpty(b: nat, region: int) returns (p: int)
      requires Valid() && b < BINS && bin[b] == NULL
      requires region == NULL || FreshRegion(W, g.regions, region, BigBlock(W))
      modifies this
      ensures Valid()
      ensures p == if region == NULL then NULL else region + W * ALIGN
      ensures p == NULL ==> mem == old(mem) && bin == old(bin) && g == old(g)
      ensures p != NULL ==> bin == old(bin)[b := p] && Grown(old(g), g)
      ensures p != NULL ==> g.regions == old(g.regions)[region := BigBlock(W)]
      ensures p != NULL ==> g.fills == old(g.fills)[b := old(g.fills)[b] + 1]
      ensures BlocksSame(old(mem), mem, old(g.chunks), old(g.live))
    {
      ghost var list;
      p, list := FillBin(b, region);
      if p == NULL {
        return;
      } else {
        RefillEmpty(W, BINS, old(mem), mem, bin, g, b, region, list);
        bin := bin[b := p];
        g := Filled(W, g, b, region, list, Bin2Size(W, b));
      }
    }

    /** malloc_small. */
    method MallocSmall(nbytes: nat, region: int) returns (p: int)
      requires Valid() && nbytes <= Bin2Size(W, BINS - 1)
      requires region == NULL || FreshRegion(W, g.regions, region, BigBlock(W))
      modifies this
      ensures Valid()
      ensures p == NULL <==> region == NULL && NeedsRegion(W, BINS, old(bin), nbytes)
      ensures forall b: nat | SmallestFit(W, BINS, nbytes, b) ::
                && p == HeadOrFirst(W, old(bin[b]), region)
                && (p != NULL ==> p in g.chunks && g.chunks[p] == Bin2Size(W, b))
                && (forall c | 0 <= c < BINS && c != b :: bin[c] == old(bin[c]))
                && (old(bin[b]) != NULL ==> p in old(mem) && bin[b] == old(mem[bin[b]]))
      ensures p == NULL ==> mem == old(mem) && bin == old(bin) && g == old(g)
      ensures p != NULL ==> Served(W, old(g), g, p, nbytes)
      ensures BlocksSame(old(mem), mem, old(g.chunks), old(g.live))
      ensures g.regions == if NeedsRegion(W, BINS, old(bin), nbytes) && region != NULL
                           then old(g.regions)[region := BigBlock(W)] else old(g.regions)
      ensures g.fills == if NeedsRegion(W, BINS, old(bin), nbytes) && region != NULL
                         then OneMoreFill(old(g), BinFor(W, BINS, nbytes)) else old(g.fills)
    {
      SizeFits(W, BINS, nbytes);
      SmallestFitIs(W, BINS, nbytes);
      var b := Size2Bin(W, BINS, nbytes);
      p := bin[b];
      if p == NULL {
        p := FillEmpty(b, region);
        if p == NULL {
          return;
        }
      }
      PopServes(W, BINS, mem, bin, g, b, nbytes);
      var q := mem[p];
      bin := bin[b := q];
      g := Popped(g, b);
    }

    /** malloc_large. */
    method MallocLarge(nbytes: nat, region: int) returns (p: int)
      requires Valid() && nbytes > Bin2Size(W, BINS - 1) && NoWrap(W, BINS, RANGE, nbytes)
      requires region == NULL || FreshRegion(W, g.regions, region, AskedLength(W, BINS, RANGE, nbytes))
      modifies this
      ensures Valid()
      ensures p == if region == NULL then NULL else region + W * ALIGN
      ensures p == NULL ==> mem == old(mem) && bin == old(bin) && g == old(g)
      ensures p != NULL ==> Served(W, old(g), g, p, nbytes) && g.chunks[p] == nbytes
      ensures bin == old(bin)
      ensures p != NULL ==> g.regions == old(g.regions)[region := AskedLength(W, BINS, RANGE, nbytes)]
      ensures g.fills == old(g.fills)
      ensures BlocksSame(old(mem), mem, old(g.chunks), old(g.live))
    {
      AskedInFull(W, BINS, RANGE, nbytes);
      if region == NULL {
        p := NULL;
      } else {
        mem := mem[region + Waste(W) := nbytes];
        FreshMeta(W, BINS, old(mem), mem, bin, g, region, nbytes + Waste(W) + W);
        FreshBlocks(W, BINS, old(mem), mem, bin, g, region, nbytes + Waste(W) + W);
        MetaEnough(W, BINS, old(mem), mem, bin, g);
        MapLarge(W, BINS, mem, bin, g, region, nbytes);
        p := region + Waste(W) + W;
        g := Mapped(W, g, region, nbytes);
      }
    }

    /** malloc. */
    method Malloc(nbytes: nat, region: int) returns (p: int)
      requires Valid() && NoWrap(W, BINS, RANGE, nbytes)
      requires region == NULL || FreshRegion(W, g.regions, region, AskedLength(W, BINS, RANGE, nbytes))
      modifies this
      ensures Valid()
      ensures p == NULL <==> region == NULL && NeedsRegion(W, BINS, old(bin), nbytes)
      ensures AnswersWith(W, BINS, old(bin), region, nbytes, p)
      ensures p == NULL ==> mem == old(mem) && bin == old(bin) && g == old(g)
      ensures p != NULL ==> Served(W, old(g), g, p, nbytes)
      ensures p != NULL ==> RightSize(W, BINS, nbytes, g.chunks[p])
      ensures BlocksSame(old(mem), mem, old(g.chunks), old(g.live))
      ensures g.regions == if NeedsRegion(W, BINS, old(bin), nbytes) && region != NULL
                           then old(g.regions)[region := AskedLength(W, BINS, RANGE, nbytes)] else old(g.regions)
      ensures g.fills == if nbytes <= Bin2Size(W, BINS - 1) && NeedsRegion(W, BINS, old(bin), nbytes) && region != NULL
                         then OneMoreFill(old(g), BinFor(W, BINS, nbytes)) else old(g.fills)
    {
      if nbytes > Bin2Size(W, BINS - 1) {
        p := MallocLarge(nbytes, region);
      } else {
        p := MallocSmall(nbytes, region);
      }
    }

    /** free_small. */
    method FreeSmall(p: int, s: nat)
      requires Valid() && p in g.live && s == g.chunks[p] <= Bin2Size(W, BINS - 1)
      modifies this
      ensures Valid()
      ensures g.live == old(g.live) - {p} && g.chunks == old(g.chunks) && g.regions == old(g.regions)
      ensures g.fills == old(g.fills)
      ensures forall b: nat | SmallestFit(W, BINS, s, b) :: bin == old(bin)[b := p] && mem == old(mem[p := bin[b]])
      ensures BlocksSame(old(mem), mem, g.chunks, g.live)
    {
      SmallestFitIs(W, BINS, s);
      var b := Size2Bin(W, BINS, s);
      ReturnsToItsBin(W, BINS, mem, bin, g, p);
      var q := bin[b];
      LinkBlocks(W, BINS, mem, bin, g, p, q);
      BlockMeta(W, BINS, mem, mem[p := q], bin, g, p);
      MetaEnough(W, BINS, mem, mem[p := q], bin, g);
      mem := mem[p := q];
      Push(W, BINS, mem, bin, g, b, p);
      bin := bin[b := p];
      g := Pushed(g, b, p);
    }

    /** munmap of a whole region: its words are no longer there. */
    method Munmap(addr: int, len: nat)
      requires addr in g.regions && g.regions[addr] == len
      modifies this`mem
      ensures mem == map a | a in old(mem) && (a < addr || addr + len <= a) :: old(mem)[a]
    {
      mem := map a | a in mem && (a < addr || addr + len <= a) :: mem[a];
    }

    method UnmapBlock(p: int, s: nat)
      requires W >= 1 && p - (Waste(W) + W) in g.regions
      requires g.regions[p - (Waste(W) + W)] == s + Waste(W) + W < RANGE
      modifies this`mem
      ensures mem == map a | a in old(mem) && (a < p - (Waste(W) + W) || p + s <= a) :: old(mem)[a]
    {
      ModSmall(s + Waste(W) + W, RANGE);
      Munmap(p - (Waste(W) + W), (s + Waste(W) + W) % RANGE);
    }

    /** The part of free for a large block. */
    method FreeLarge(p: int, s: nat)
      requires Valid() && p in g.live && s == g.chunks[p] > Bin2Size(W, BINS - 1)
      modifies this
      ensures Valid() && bin == old(bin) && p in old(g.home) && g == Unmapped(old(g), p)
      ensures g.regions == old(g.regions) - {old(g.home)[p]} && old(g.home)[p] in old(g.regions)
      ensures BlocksSame(old(mem), mem, old(g.chunks), g.live)
    {
      UnmapLarge(W, BINS, mem, bin, g, p);
      UnmapBlock(p, s);
      RegionMeta(W, BINS, old(mem), mem, bin, g, p);
      MetaEnough(W, BINS, old(mem), mem, bin, Unmapped(g, p));
      g := Unmapped(g, p);
    }

    /** free of a null pointer or a live block. */
    method Free(p: int)
      requires Valid() && (p == NULL || p in g.live)
      modifies this
      ensures Valid()
      ensures p == NULL ==> mem == old(mem) && bin == old(bin) && g == old(g)
      ensures g.live == old(g.live) - {p} && g.fills == old(g.fills)
      ensures forall q | q in old(g.chunks) && q != p :: q in g.chunks && g.chunks[q] == old(g.chunks)[q]
      ensures p != NULL && old(g.chunks)[p] <= Bin2Size(W, BINS - 1) ==> p in g.chunks && g.regions == old(g.regions)
      ensures p != NULL && old(g.chunks)[p] > Bin2Size(W, BINS - 1) ==>
                && p !in g.chunks && p in old(g.home) && old(g.home)[p] in old(g.regions)
                && g.regions == old(g.regions) - {old(g.home)[p]}
      ensures BlocksSame(old(mem), mem, old(g.chunks), g.live)
      ensures p != NULL ==> if old(g.chunks)[p] > Bin2Size(W, BINS - 1) then bin == old(bin)
                            else forall b: nat | SmallestFit(W, BINS, old(g.chunks)[p], b) ::
                                   bin == old(bin)[b := p] && mem == old(mem[p := bin[b]])
    {
      if p != NULL {
        assert ChunkOk(W, mem, g.chunks, p);
        var s := mem[p - W];
        if s <= Bin2Size(W, BINS - 1) {
          FreeSmall(p, s);
        } else {
          FreeLarge(p, s);
        }
      } else {
        NullIsNoBlock(W, BINS, mem, bin, g);
      }
    }

    /** A client writes a word of one of its blocks. */
    method ClientWrite(q: int, a: int, v: int)
      requires Valid() && q in g.live && q <= a && a + W <= q + g.chunks[q] && (a - q) % W == 0
      modifies this`mem
      ensures Valid()
      ensures mem == old(mem)[a := v]
    {
      BlockMeta(W, BINS, mem, mem[a := v], bin, g, q);
      MetaEnough(W, BINS, mem, mem[a := v], bin, g);
      mem := mem[a := v];
    }
  }

  /** The head of a list, or the first chunk of a region when the list is empty. */
  function HeadOrFirst(W: nat, head: int, region: int): int {
    if head != NULL then head else if region != NULL then region + W * ALIGN else NULL
  }

  /** What malloc answers: the head of the list of the smallest bin size that is enough, or, when
  that list is empty or no bin is large enough, the first aligned address of what mmap0 gives. */
  ghost predicate AnswersWith(W: nat, BINS: nat, bin: seq<int>, region: int, nbytes: nat, p: int)
    requires |bin| == BINS
  {
    if nbytes > Bin2Size(W, BINS - 1) then p == HeadOrFirst(W, NULL, region)
    else forall b: nat | SmallestFit(W, BINS, nbytes, b) :: p == HeadOrFirst(W, bin[b], region)
  }

  /** The size of the block: the smallest bin size that is enough, or the size asked for. */
  ghost predicate RightSize(W: nat, BINS: nat, nbytes: nat, s: nat) {
    if nbytes > Bin2Size(W, BINS - 1) then s == nbytes
    else forall b: nat | SmallestFit(W, BINS, nbytes, b) :: s == Bin2Size(W, b)
  }

  /** The bin a small request is served from. */
  function BinFor(W: nat, BINS: nat, nbytes: nat): (b: nat)
    requires W >= 1 && 1 <= BINS && nbytes <= Bin2Size(W, BINS - 1)
    ensures SmallestFit(W, BINS, nbytes, b)
  {
    SizeFits(W, BINS, nbytes);
    Size2Bin(W, BINS, nbytes)
  }

  function OneMoreFill(g: Ledger, b: nat): seq<nat>
    requires b < |g.fills|
  {
    g.fills[b := g.fills[b] + 1]
  }

  /** malloc has to ask for memory: the request is large, or its bin is empty. */
  predicate NeedsRegion(W: nat, BINS: nat, bin: seq<int>, nbytes: nat)
    requires W >= 1 && 1 <= BINS == |bin|
  {
    nbytes > Bin2Size(W, BINS - 1) || bin[BinFor(W, BINS, nbytes)] == NULL
  }

  /** The length malloc asks mmap0 for, if it asks: a sum in size_t. */
  function AskedLength(W: nat, BINS: nat, RANGE: nat, nbytes: nat): nat
    requires RANGE > 0
  {
    if nbytes > Bin2Size(W, BINS - 1) then (nbytes + Waste(W) + W) % RANGE else BigBlock(W)
  }

  /** That sum does not wrap around. */
  predicate NoWrap(W: nat, BINS: nat, RANGE: nat, nbytes: nat) {
    nbytes > Bin2Size(W, BINS - 1) ==> nbytes + Waste(W) + W < RANGE
  }

  lemma ModSmall(n: nat, d: nat)
    requires n < d
    ensures n % d == n
  {
  }

  lemma AskedInFull(W: nat, BINS: nat, RANGE: nat, nbytes: nat)
    requires RANGE > 0 && nbytes > Bin2Size(W, BINS - 1) && NoWrap(W, BINS, RANGE, nbytes)
    ensures AskedLength(W, BINS, RANGE, nbytes) == nbytes + Waste(W) + W
  {
  }

  /** The length malloc asks for has room for the header and the block exactly when the sum does not
  wrap around; when it does, there is not even room for the header. */
  lemma NoWrapExactly(W: nat, BINS: nat, RANGE: nat, nbytes: nat)
    requires W >= 1 && BigBlock(W) < RANGE && Bin2Size(W, BINS - 1) < nbytes < RANGE
    ensures AskedLength(W, BINS, RANGE, nbytes) >= nbytes + Waste(W) + W <==> NoWrap(W, BINS, RANGE, nbytes)
    ensures !NoWrap(W, BINS, RANGE, nbytes) ==> AskedLength(W, BINS, RANGE, nbytes) < Waste(W) + W
  {
    var sum := nbytes + Waste(W) + W;
    if NoWrap(W, BINS, RANGE, nbytes) {
      DivIs(sum, RANGE, 0);
    } else {
      DivIs(sum, RANGE, 1);
      assert sum == (sum / RANGE) * RANGE + sum % RANGE;
    }
  }
}
