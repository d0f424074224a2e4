/** What each allocator operation does to the ledger, and that the heap stays well formed. */
module MallocLedger {
  import opened SizeClass
  import opened MallocShape
  import opened MallocCarve

  /** After a fill: the carved chunks belong to bin b and live in the block at p. */
  function Filled(W: nat, g: Ledger, b: nat, p: int, list: seq<int>, s: nat): Ledger
    requires b < |g.lists| && b < |g.fills|
  {
    Ledger(g.chunks + (map q | q in list :: s), g.live, g.lists[b := list],
           g.regions[p := BigBlock(W)], g.home + (map q | q in list :: p), g.fills[b := g.fills[b] + 1])
  }

  /** A carved chunk is new, and apart from all others. */
  lemma CarvedChunk(W: nat, mem: Memory, chunks: Chunks, p: int, s: nat, list: seq<int>, q: int)
    requires W >= 1 && s >= W && Carved(W, mem, p, s, list, |list|) && AlignedAll(W, list) && q in list && p > 0
    ensures ChunkOk(W, mem, chunks + (map r | r in list :: s), q)
    ensures p + Waste(W) + W <= q && q + s <= p + BigBlock(W)
    ensures forall r | r in list && r != q :: q + s <= r - W || r + s <= q - W
  {
    var i :| 0 <= i < |list| && list[i] == q;
    assert WrittenAt(W, mem, s, list, i) && Aligned(W, list[i]);
  }

  lemma RefillChunks(W: nat, BINS: nat, mem: Memory, bin: seq<int>, g: Ledger, b: nat, p: int, list: seq<int>, s: nat)
    requires HeapOk(W, BINS, mem, bin, g) && b < BINS && s >= W
    requires FreshRegion(W, g.regions, p, BigBlock(W))
    requires Carved(W, mem, p, s, list, |list|) && AlignedAll(W, list)
    ensures ChunksOk(W, mem, Filled(W, g, b, p, list, s).chunks)
    ensures forall q | q in list :: q !in g.chunks
  {
    FarFromFresh(W, BINS, mem, bin, g, p, BigBlock(W));
    JoinChunks(W, mem, g.chunks, p, list, s);
  }

  /** Carved chunks join the chunks that lie outside their block. */
  lemma JoinChunks(W: nat, mem: Memory, chunks: Chunks, p: int, list: seq<int>, s: nat)
    requires W >= 1 && ChunksOk(W, mem, chunks) && s >= W && p > 0
    requires forall q | q in chunks :: q + chunks[q] <= p || p + BigBlock(W) <= q - W - Waste(W)
    requires Carved(W, mem, p, s, list, |list|) && AlignedAll(W, list)
    ensures ChunksOk(W, mem, chunks + (map q | q in list :: s))
    ensures forall q | q in list :: q !in chunks
  {
    var chunks' := chunks + (map q | q in list :: s);
    forall q | q in chunks ensures chunks[q] >= W {
      assert ChunkOk(W, mem, chunks, q);
    }
    forall q | q in list
      ensures q !in chunks && ChunkOk(W, mem, chunks', q)
    {
      CarvedChunk(W, mem, chunks, p, s, list, q);
    }
    forall q | q in chunks' ensures ChunkOk(W, mem, chunks', q) {
      assert q !in list ==> ChunkOk(W, mem, chunks, q);
    }
    forall q, r | q in chunks' && r in chunks' && q != r ensures Apart(W, chunks', q, r) {
      JoinApart(W, mem, chunks, p, list, s, q, r);
    }
  }

  lemma JoinApart(W: nat, mem: Memory, chunks: Chunks, p: int, list: seq<int>, s: nat, q: int, r: int)
    requires W >= 1 && ChunksOk(W, mem, chunks) && s >= W && p > 0 && q != r
    requires forall q | q in chunks :: q + chunks[q] <= p || p + BigBlock(W) <= q - W - Waste(W)
    requires Carved(W, mem, p, s, list, |list|) && AlignedAll(W, list)
    ensures Apart(W, chunks + (map q | q in list :: s), q, r)
  {
    if q in list { CarvedChunk(W, mem, chunks, p, s, list, q); }
    if r in list { CarvedChunk(W, mem, chunks, p, s, list, r); }
    assert q in chunks && r in chunks ==> Apart(W, chunks, q, r);
  }

  lemma RefillRegions(W: nat, BINS: nat, mem: Memory, bin: seq<int>, g: Ledger, b: nat, p: int, list: seq<int>, s: nat)
    requires HeapOk(W, BINS, mem, bin, g) && b < BINS && W <= s <= Bin2Size(W, BINS - 1)
    requires FreshRegion(W, g.regions, p, BigBlock(W))
    requires Carved(W, mem, p, s, list, |list|) && AlignedAll(W, list)
    requires forall q | q in list :: q !in g.chunks
    ensures RegionsOk(W, Bin2Size(W, BINS - 1), Filled(W, g, b, p, list, s))
  {
    var large := Bin2Size(W, BINS - 1);
    var g' := Filled(W, g, b, p, list, s);
    FreshIsNew(W, BINS, mem, bin, g, p, BigBlock(W));
    forall q | q in g'.chunks ensures HomeOk(W, large, g', q) {
      if q in list {
        CarvedChunk(W, mem, g.chunks, p, s, list, q);
      } else {
        assert HomeOk(W, large, g, q);
      }
    }
    forall x, y | x in g'.regions && y in g'.regions && x != y ensures RegionsApart(g'.regions, x, y) {
      assert x in g.regions && y in g.regions ==> RegionsApart(g.regions, x, y);
    }
  }

  /** No chunk lives in a region that is only now mapped. */
  lemma FreshIsNew(W: nat, BINS: nat, mem: Memory, bin: seq<int>, g: Ledger, p: int, len: nat)
    requires HeapOk(W, BINS, mem, bin, g) && FreshRegion(W, g.regions, p, len) && len > 0
    ensures forall q | q in g.home :: g.home[q] != p && g.home[q] in g.regions
  {
    forall q | q in g.home ensures g.home[q] != p && g.home[q] in g.regions {
      assert HomeOk(W, Bin2Size(W, BINS - 1), g, q);
      assert ChunkOk(W, mem, g.chunks, q);
    }
  }

  lemma RefillBins(W: nat, BINS: nat, mem: Memory, bin: seq<int>, g: Ledger, b: nat, p: int, list: seq<int>, s: nat)
    requires HeapOk(W, BINS, mem, bin, g) && b < BINS && g.lists[b] == [] && W <= s == Bin2Size(W, b)
    requires Carved(W, mem, p, s, list, ChunksPerFill(W, b))
    requires forall q | q in list :: q !in g.chunks
    ensures BinsOk(W, mem, bin[b := list[0]], Filled(W, g, b, p, list, s))
  {
    var g' := Filled(W, g, b, p, list, s);
    var bin' := bin[b := list[0]];
    forall c | 0 <= c < BINS ensures BinOk(W, mem, bin'[c], g', c) {
      assert BinOk(W, mem, bin[c], g, c);
      assert LiveOf(g', Bin2Size(W, c)) == LiveOf(g, Bin2Size(W, c));
      if c != b {
        forall i | 0 <= i < |g.lists[c]| ensures LinkedAt(mem, g', g.lists[c], Bin2Size(W, c), i) {
          assert LinkedAt(mem, g, g.lists[c], Bin2Size(W, c), i);
        }
      } else {
        NewList(W, mem, g, b, p, list, s);
        assert ChunksPerFill(W, b) * (g.fills[b] + 1) == ChunksPerFill(W, b) * g.fills[b] + ChunksPerFill(W, b);
      }
    }
  }

  lemma NewList(W: nat, mem: Memory, g: Ledger, b: nat, p: int, list: seq<int>, s: nat)
    requires 1 <= W <= s && b < |g.lists| && b < |g.fills| && Carved(W, mem, p, s, list, |list|)
    requires g.live <= g.chunks.Keys && forall q | q in list :: q !in g.chunks
    ensures ListOk(mem, Filled(W, g, b, p, list, s), list[0], list, s)
  {
    var g' := Filled(W, g, b, p, list, s);
    forall i | 0 <= i < |list| ensures LinkedAt(mem, g', list, s, i) {
      assert WrittenAt(W, mem, s, list, i) && list[i] in list;
    }
  }

  /** A successful fill of an empty bin. */
  lemma Refill(W: nat, BINS: nat, mem: Memory, bin: seq<int>, g: Ledger, b: nat, p: int, list: seq<int>)
    requires HeapOk(W, BINS, mem, bin, g) && b < BINS && g.lists[b] == []
    requires Bin2Size(W, b) >= W && FreshRegion(W, g.regions, p, BigBlock(W))
    requires Carved(W, mem, p, Bin2Size(W, b), list, ChunksPerFill(W, b)) && AlignedAll(W, list)
    ensures HeapOk(W, BINS, mem, bin[b := list[0]], Filled(W, g, b, p, list, Bin2Size(W, b)))
  {
    var s := Bin2Size(W, b);
    var g' := Filled(W, g, b, p, list, s);
    BinRoundTrip(W, BINS, b);
    RefillChunks(W, BINS, mem, bin, g, b, p, list, s);
    RefillRegions(W, BINS, mem, bin, g, b, p, list, s);
    RefillBins(W, BINS, mem, bin, g, b, p, list, s);
    forall q | q in g'.chunks ensures Kept(W, Bin2Size(W, BINS - 1), g', q) {
      if q in list {
        assert q in g'.lists[b];
      } else {
        KeptOn(W, Bin2Size(W, BINS - 1), g, g', b, q);
      }
    }
  }

  lemma KeptOn(W: nat, large: int, g: Ledger, g': Ledger, b: nat, q: int)
    requires Kept(W, large, g, q) && q in g'.chunks && g'.chunks[q] == g.chunks[q] && |g'.lists| == |g.lists|
    requires q in g.live ==> q in g'.live || (b < |g'.lists| && q in g'.lists[b])
    requires forall c | 0 <= c < |g.lists| && q in g.lists[c] :: q in g'.lists[c] || q in g'.live
    ensures Kept(W, large, g', q)
  {
  }

  /** The first chunk of a free list is handed out. */
  function Popped(g: Ledger, b: nat): Ledger
    requires b < |g.lists| && g.lists[b] != []
  {
    g.(live := g.live + {g.lists[b][0]}, lists := g.lists[b := g.lists[b][1..]])
  }

  lemma LiveGrows(g: Ledger, g': Ledger, q: int, s: int)
    requires q in g.chunks && q !in g.live && g'.chunks == g.chunks && g'.live == g.live + {q}
    ensures LiveOf(g', s) == if g.chunks[q] == s then LiveOf(g, s) + {q} else LiveOf(g, s)
    ensures q !in LiveOf(g, s)
  {
  }

  lemma PopBins(W: nat, BINS: nat, mem: Memory, bin: seq<int>, g: Ledger, b: nat)
    requires HeapOk(W, BINS, mem, bin, g) && b < BINS && g.lists[b] != []
    ensures bin[b] == g.lists[b][0] && bin[b] in g.chunks && bin[b] !in g.live && g.chunks[bin[b]] == Bin2Size(W, b)
    ensures bin[b] in mem && BinsOk(W, mem, bin[b := mem[bin[b]]], Popped(g, b))
  {
    var q := g.lists[b][0];
    var g' := Popped(g, b);
    assert BinOk(W, mem, bin[b], g, b);
    assert LinkedAt(mem, g, g.lists[b], Bin2Size(W, b), 0);
    var bin' := bin[b := mem[q]];
    forall c | 0 <= c < BINS ensures BinOk(W, mem, bin'[c], g', c) {
      PopBin(W, BINS, mem, bin, g, b, c);
    }
  }

  lemma PopBin(W: nat, BINS: nat, mem: Memory, bin: seq<int>, g: Ledger, b: nat, c: nat)
    requires HeapOk(W, BINS, mem, bin, g) && b < BINS && c < BINS && g.lists[b] != []
    requires g.lists[b][0] in mem
    ensures BinOk(W, mem, if c == b then mem[g.lists[b][0]] else bin[c], Popped(g, b), c)
  {
    var q := g.lists[b][0];
    var g' := Popped(g, b);
    assert BinOk(W, mem, bin[b], g, b);
    assert BinOk(W, mem, bin[c], g, c);
    assert LinkedAt(mem, g, g.lists[b], Bin2Size(W, b), 0);
    LiveGrows(g, g', q, Bin2Size(W, c));
    BinSizesDiffer(W, b, c);
    var list, list' := g.lists[c], g'.lists[c];
    var k := if c == b then 1 else 0;
    forall i | 0 <= i < |list'| ensures LinkedAt(mem, g', list', Bin2Size(W, c), i) {
      assert LinkedAt(mem, g, list, Bin2Size(W, c), i + k) && list'[i] == list[i + k];
    }
  }

  lemma BinSizesDiffer(W: nat, b: nat, c: nat)
    requires W >= 1
    ensures b != c ==> Bin2Size(W, b) != Bin2Size(W, c)
  {
    if b < c { MulMono((b + 1) * ALIGN - 1 + 1, (c + 1) * ALIGN - 1, W); }
    if c < b { MulMono((c + 1) * ALIGN - 1 + 1, (b + 1) * ALIGN - 1, W); }
  }

  /** malloc_small from a bin whose list is not empty. */
  lemma Pop(W: nat, BINS: nat, mem: Memory, bin: seq<int>, g: Ledger, b: nat)
    requires HeapOk(W, BINS, mem, bin, g) && b < BINS && g.lists[b] != []
    ensures bin[b] == g.lists[b][0] && bin[b] in g.chunks && bin[b] !in g.live && g.chunks[bin[b]] == Bin2Size(W, b)
    ensures bin[b] in mem && HeapOk(W, BINS, mem, bin[b := mem[bin[b]]], Popped(g, b))
  {
    PopBins(W, BINS, mem, bin, g, b);
    SameChunks(W, BINS, mem, bin, g, Popped(g, b), b);
  }

  /** Parts of the invariant that do not depend on which blocks are free. */
  lemma SameChunks(W: nat, BINS: nat, mem: Memory, bin: seq<int>, g: Ledger, g': Ledger, b: nat)
    requires HeapOk(W, BINS, mem, bin, g) && b < BINS && |g'.lists| == BINS
    requires g'.chunks == g.chunks && g'.regions == g.regions && g'.home == g.home
    requires forall q | q in g.live :: q in g'.live || (q in g'.lists[b] && g.chunks[q] <= Bin2Size(W, BINS - 1))
    requires forall q, c | 0 <= c < BINS && q in g.lists[c] :: q in g'.lists[c] || q in g'.live
    ensures RegionsOk(W, Bin2Size(W, BINS - 1), g')
    ensures forall q {:trigger Kept(W, Bin2Size(W, BINS - 1), g', q)} | q in g'.chunks ::
            Kept(W, Bin2Size(W, BINS - 1), g', q)
  {
    var large := Bin2Size(W, BINS - 1);
    forall q | q in g'.chunks ensures Kept(W, large, g', q) && HomeOk(W, large, g', q) {
      assert HomeOk(W, large, g, q);
      KeptOn(W, large, g, g', b, q);
    }
    forall x, y | x in g'.regions && y in g'.regions && x != y ensures RegionsApart(g'.regions, x, y) {
      assert RegionsApart(g.regions, x, y);
    }
  }

  /** A live block of bin b's size goes to the front of its free list. */
  function Pushed(g: Ledger, b: nat, q: int): Ledger
    requires b < |g.lists|
  {
    g.(live := g.live - {q}, lists := g.lists[b := [q] + g.lists[b]])
  }

  lemma PushBin(W: nat, BINS: nat, mem: Memory, bin: seq<int>, g: Ledger, b: nat, q: int, c: nat)
    requires HeapOk(W, BINS, mem, bin, g) && b < BINS && c < BINS
    requires q in g.live && g.chunks[q] == Bin2Size(W, b) && q in mem && mem[q] == bin[b]
    ensures BinOk(W, mem, if c == b then q else bin[c], Pushed(g, b, q), c)
  {
    var g' := Pushed(g, b, q);
    assert BinOk(W, mem, bin[c], g, c);
    LiveGrows(g', g, q, Bin2Size(W, c));
    BinSizesDiffer(W, b, c);
    var list, list' := g.lists[c], g'.lists[c];
    var k := if c == b then 1 else 0;
    forall i | 0 <= i < |list'| ensures LinkedAt(mem, g', list', Bin2Size(W, c), i) {
      if i >= k {
        assert LinkedAt(mem, g, list, Bin2Size(W, c), i - k) && list'[i] == list[i - k];
      }
    }
    forall i | 0 <= i < |list| ensures list[i] != q {
      assert LinkedAt(mem, g, list, Bin2Size(W, c), i);
    }
  }

  /** free_small: the block's link word has been written, and it becomes the head of its bin. */
  lemma Push(W: nat, BINS: nat, mem: Memory, bin: seq<int>, g: Ledger, b: nat, q: int)
    requires HeapOk(W, BINS, mem, bin, g) && b < BINS
    requires q in g.live && g.chunks[q] == Bin2Size(W, b) && q in mem && mem[q] == bin[b]
    ensures HeapOk(W, BINS, mem, bin[b := q], Pushed(g, b, q))
  {
    var g' := Pushed(g, b, q);
    var bin' := bin[b := q];
    forall c | 0 <= c < BINS ensures BinOk(W, mem, bin'[c], g', c) {
      PushBin(W, BINS, mem, bin, g, b, q, c);
    }
    BinRoundTrip(W, BINS, b);
    assert q in g'.lists[b];
    SameChunks(W, BINS, mem, bin, g, g', b);
  }

  /** A large block in a region of its own. */
  function Mapped(W: nat, g: Ledger, p: int, nbytes: nat): Ledger {
    var q := p + Waste(W) + W;
    g.(chunks := g.chunks[q := nbytes], live := g.live + {q},
       regions := g.regions[p := nbytes + Waste(W) + W], home := g.home[q := p])
  }

  /** The large block is gone, and its region with it. */
  function Unmapped(g: Ledger, q: int): Ledger
    requires q in g.home
  {
    g.(chunks := g.chunks - {q}, live := g.live - {q}, regions := g.regions - {g.home[q]}, home := g.home - {q})
  }

  /** Bins are not concerned by a live chunk of a size no bin has. */
  lemma LargeBins(W: nat, BINS: nat, mem: Memory, bin: seq<int>, g: Ledger, g': Ledger, q: int, n: nat)
    requires W >= 1 && |bin| == BINS && |g.lists| == |g.fills| == BINS && g'.lists == g.lists && g'.fills == g.fills
    requires BinsOk(W, mem, bin, g) && n > Bin2Size(W, BINS - 1) && 1 <= BINS
    requires (q !in g.chunks && g'.chunks == g.chunks[q := n] && g'.live == g.live + {q})
          || (q in g.chunks && q in g.live && g.chunks[q] == n && g'.chunks == g.chunks - {q}
              && g'.live == g.live - {q})
    requires g.live <= g.chunks.Keys
    ensures BinsOk(W, mem, bin, g')
  {
    forall c | 0 <= c < BINS ensures BinOk(W, mem, bin[c], g', c) {
      assert BinOk(W, mem, bin[c], g, c);
      BinRoundTrip(W, BINS, c);
      assert LiveOf(g', Bin2Size(W, c)) == LiveOf(g, Bin2Size(W, c));
      forall i | 0 <= i < |g.lists[c]| ensures LinkedAt(mem, g', g.lists[c], Bin2Size(W, c), i) {
        assert LinkedAt(mem, g, g.lists[c], Bin2Size(W, c), i);
      }
    }
  }

  /** malloc_large: the header of the new block has been written into the fresh region. */
  lemma MapLarge(W: nat, BINS: nat, mem: Memory, bin: seq<int>, g: Ledger, p: int, nbytes: nat)
    requires HeapOk(W, BINS, mem, bin, g) && nbytes > Bin2Size(W, BINS - 1)
    requires FreshRegion(W, g.regions, p, nbytes + Waste(W) + W)
    requires p + Waste(W) in mem && mem[p + Waste(W)] == nbytes
    ensures HeapOk(W, BINS, mem, bin, Mapped(W, g, p, nbytes))
    ensures p + Waste(W) + W !in g.chunks && Aligned(W, p + Waste(W) + W)
  {
    var large := Bin2Size(W, BINS - 1);
    var q := p + Waste(W) + W;
    var g' := Mapped(W, g, p, nbytes);
    BinUnits(W, BINS - 1);
    MulMono(1, BINS, W * ALIGN);
    AlignUnit(W);
    ModStep(W, p, Waste(W) + W);
    FreshIsNew(W, BINS, mem, bin, g, p, nbytes + Waste(W) + W);
    FarFromFresh(W, BINS, mem, bin, g, p, nbytes + Waste(W) + W);
    AddedChunk(W, mem, g.chunks, q, nbytes);
    LargeBins(W, BINS, mem, bin, g, g', q, nbytes);
    forall r | r in g'.chunks ensures HomeOk(W, large, g', r) && Kept(W, large, g', r) {
      if r != q {
        assert HomeOk(W, large, g, r);
        KeptOn(W, large, g, g', 0, r);
      }
    }
    forall x, y | x in g'.regions && y in g'.regions && x != y ensures RegionsApart(g'.regions, x, y) {
      assert x in g.regions && y in g.regions ==> RegionsApart(g.regions, x, y);
    }
  }

  lemma FarFromFresh(W: nat, BINS: nat, mem: Memory, bin: seq<int>, g: Ledger, p: int, len: nat)
    requires HeapOk(W, BINS, mem, bin, g) && FreshRegion(W, g.regions, p, len)
    ensures forall q | q in g.chunks :: q + g.chunks[q] <= p || p + len <= q - W - Waste(W)
  {
    forall q | q in g.chunks ensures q + g.chunks[q] <= p || p + len <= q - W - Waste(W) {
      assert HomeOk(W, Bin2Size(W, BINS - 1), g, q);
      assert ChunkOk(W, mem, g.chunks, q);
    }
  }

  lemma AddedChunk(W: nat, mem: Memory, chunks: Chunks, q: int, n: nat)
    requires W >= 1 && ChunksOk(W, mem, chunks) && q !in chunks && ChunkOk(W, mem, chunks[q := n], q)
    requires forall r | r in chunks :: r + chunks[r] <= q - W || q + n <= r - W
    ensures ChunksOk(W, mem, chunks[q := n])
  {
    var chunks' := chunks[q := n];
    forall r | r in chunks' ensures ChunkOk(W, mem, chunks', r) {
      assert r != q ==> ChunkOk(W, mem, chunks, r);
    }
    forall r, s | r in chunks' && s in chunks' && r != s ensures Apart(W, chunks', r, s) {
      assert r != q && s != q ==> Apart(W, chunks, r, s);
    }
  }

  /** free of a large block: the address and length given to munmap are exactly its region. */
  lemma UnmapLarge(W: nat, BINS: nat, mem: Memory, bin: seq<int>, g: Ledger, q: int)
    requires HeapOk(W, BINS, mem, bin, g) && q in g.live && g.chunks[q] > Bin2Size(W, BINS - 1)
    ensures q in g.home && g.home[q] == q - (Waste(W) + W) && g.home[q] in g.regions
    ensures g.regions[g.home[q]] == g.chunks[q] + Waste(W) + W
    ensures HeapOk(W, BINS, mem, bin, Unmapped(g, q))
  {
    var large := Bin2Size(W, BINS - 1);
    assert HomeOk(W, large, g, q);
    var g' := Unmapped(g, q);
    forall r | r in g'.chunks
      ensures ChunkOk(W, mem, g'.chunks, r) && HomeOk(W, large, g', r) && Kept(W, large, g', r)
    {
      assert ChunkOk(W, mem, g.chunks, r);
      assert HomeOk(W, large, g, r);
      KeptOn(W, large, g, g', 0, r);
    }
    forall r, s | r in g'.chunks && s in g'.chunks && r != s ensures Apart(W, g'.chunks, r, s) {
      assert Apart(W, g.chunks, r, s);
    }
    forall x, y | x in g'.regions && y in g'.regions && x != y ensures RegionsApart(g'.regions, x, y) {
      assert RegionsApart(g.regions, x, y);
    }
    LargeBins(W, BINS, mem, bin, g, g', q, g.chunks[q]);
  }

  /** What a region holds does not matter to the chunks of the other regions. */
  lemma RegionMeta(W: nat, BINS: nat, mem: Memory, mem': Memory, bin: seq<int>, g: Ledger, q: int)
    requires HeapOk(W, BINS, mem, bin, g) && q in g.live && g.chunks[q] > Bin2Size(W, BINS - 1)
    requires q in g.home && SameOutside(mem, mem', q - (Waste(W) + W), g.chunks[q] + Waste(W) + W)
    ensures MetaSame(W, mem, mem', Unmapped(g, q))
    ensures BlocksSame(mem, mem', g.chunks, g.live - {q})
  {
    assert HomeOk(W, Bin2Size(W, BINS - 1), g, q);
    forall r | r in g.chunks && r != q
      ensures r + g.chunks[r] <= q - (Waste(W) + W) || q + g.chunks[q] <= r - W
    {
      assert HomeOk(W, Bin2Size(W, BINS - 1), g, r);
      assert ChunkOk(W, mem, g.chunks, r);
      assert RegionsApart(g.regions, g.home[r], g.home[q]);
    }
    forall r | r in g.chunks ensures g.chunks[r] >= W {
      assert ChunkOk(W, mem, g.chunks, r);
    }
  }

  /** A small live block has the size of the bin it will be returned to. */
  lemma ReturnsToItsBin(W: nat, BINS: nat, mem: Memory, bin: seq<int>, g: Ledger, q: int)
    requires HeapOk(W, BINS, mem, bin, g) && q in g.chunks && g.chunks[q] <= Bin2Size(W, BINS - 1)
    ensures var b := Size2Bin(W, BINS, g.chunks[q]);
            0 <= b < BINS && g.chunks[q] == Bin2Size(W, b)
  {
    assert Kept(W, Bin2Size(W, BINS - 1), g, q);
    var b :| 0 <= b < |g.lists| && g.chunks[q] == Bin2Size(W, b);
    BinRoundTrip(W, BINS, b);
  }

  /** Blocks of chunks other than q are as before. */
  ghost predicate BlocksSame(mem: Memory, mem': Memory, chunks: Chunks, live: set<int>) {
    forall r, a | r in live && Within(chunks, r, a) && a in mem :: a in mem' && mem'[a] == mem[a]
  }

  /** Address a is in block q. */
  predicate Within(blocks: map<int, nat>, q: int, a: int) {
    q in blocks && q <= a < q + blocks[q]
  }

  /** Writing in a free or fresh place leaves the live blocks' contents alone. */
  lemma FreshBlocks(W: nat, BINS: nat, mem: Memory, mem': Memory, bin: seq<int>, g: Ledger, p: int, len: nat)
    requires HeapOk(W, BINS, mem, bin, g) && FreshRegion(W, g.regions, p, len) && SameOutside(mem, mem', p, len)
    ensures BlocksSame(mem, mem', g.chunks, g.live)
  {
    FarFromFresh(W, BINS, mem, bin, g, p, len);
  }

  lemma LinkBlocks(W: nat, BINS: nat, mem: Memory, bin: seq<int>, g: Ledger, q: int, v: int)
    requires HeapOk(W, BINS, mem, bin, g) && q in g.chunks
    ensures BlocksSame(mem, mem[q := v], g.chunks, g.live - {q})
    ensures SameOutside(mem, mem[q := v], q, g.chunks[q])
  {
    assert ChunkOk(W, mem, g.chunks, q);
    forall r | r in g.live && r != q ensures q < r || r + g.chunks[r] <= q {
      assert Apart(W, g.chunks, r, q);
      assert ChunkOk(W, mem, g.chunks, r);
    }
  }

  /** A bin's head is null exactly when its list is empty. */
  lemma NullIsEmpty(W: nat, BINS: nat, mem: Memory, bin: seq<int>, g: Ledger, b: nat)
    requires HeapOk(W, BINS, mem, bin, g) && b < BINS
    ensures bin[b] == NULL <==> g.lists[b] == []
  {
    assert BinOk(W, mem, bin[b], g, b);
    if g.lists[b] != [] {
      assert LinkedAt(mem, g, g.lists[b], Bin2Size(W, b), 0);
      assert ChunkOk(W, mem, g.chunks, g.lists[b][0]);
    }
  }

  /** One more block, aligned and of at least the requested size; the chunks already there stay. */
  ghost predicate Served(W: nat, g: Ledger, g': Ledger, p: int, nbytes: nat) {
    && W >= 1 && p !in g.live && g'.live == g.live + {p} && p in g'.chunks && nbytes <= g'.chunks[p]
    && p != NULL && Aligned(W, p)
    && forall q | q in g.chunks :: q in g'.chunks && g'.chunks[q] == g.chunks[q]
  }

  lemma NullIsNoBlock(W: nat, BINS: nat, mem: Memory, bin: seq<int>, g: Ledger)
    requires HeapOk(W, BINS, mem, bin, g)
    ensures NULL !in g.chunks
  {
    assert NULL in g.chunks ==> ChunkOk(W, mem, g.chunks, NULL);
  }

  /** More chunks, but the same live blocks. */
  ghost predicate Grown(g: Ledger, g': Ledger) {
    && g'.live == g.live
    && forall q | q in g.chunks :: q in g'.chunks && g'.chunks[q] == g.chunks[q]
  }

  lemma PopServes(W: nat, BINS: nat, mem: Memory, bin: seq<int>, g: Ledger, b: nat, nbytes: nat)
    requires HeapOk(W, BINS, mem, bin, g) && b < BINS && bin[b] != NULL && nbytes <= Bin2Size(W, b)
    ensures g.lists[b] != [] && bin[b] in mem && bin[b] in g.chunks && g.chunks[bin[b]] == Bin2Size(W, b)
    ensures HeapOk(W, BINS, mem, bin[b := mem[bin[b]]], Popped(g, b))
    ensures forall g0 | Grown(g0, g) :: Served(W, g0, Popped(g, b), bin[b], nbytes)
  {
    NullIsEmpty(W, BINS, mem, bin, g, b);
    Pop(W, BINS, mem, bin, g, b);
    assert ChunkOk(W, mem, g.chunks, bin[b]);
  }

  lemma RefillEmpty(W: nat, BINS: nat, m0: Memory, mem: Memory, bin: seq<int>, g: Ledger, b: nat, p: int,
                    list: seq<int>)
    requires HeapOk(W, BINS, m0, bin, g) && b < BINS && bin[b] == NULL
    requires Bin2Size(W, b) >= W && FreshRegion(W, g.regions, p, BigBlock(W)) && SameOutside(m0, mem, p, BigBlock(W))
    requires Carved(W, mem, p, Bin2Size(W, b), list, ChunksPerFill(W, b)) && AlignedAll(W, list)
    ensures var g' := Filled(W, g, b, p, list, Bin2Size(W, b));
            && HeapOk(W, BINS, mem, bin[b := p + Waste(W) + W], g') && Grown(g, g')
            && g'.regions == g.regions[p := BigBlock(W)]
    ensures BlocksSame(m0, mem, g.chunks, g.live)
  {
    var s := Bin2Size(W, b);
    NullIsEmpty(W, BINS, m0, bin, g, b);
    FreshMeta(W, BINS, m0, mem, bin, g, p, BigBlock(W));
    FreshBlocks(W, BINS, m0, mem, bin, g, p, BigBlock(W));
    MetaEnough(W, BINS, m0, mem, bin, g);
    Refill(W, BINS, mem, bin, g, b, p, list);
    RefillChunks(W, BINS, mem, bin, g, b, p, list, s);
  }

  /** The address n links further on from p. */
  function Walk(mem: Memory, p: int, n: nat): int
    decreases n
  {
    if n == 0 then p else if p in mem then Walk(mem, mem[p], n - 1) else p
  }

  lemma {:induction false} WalkList(mem: Memory, g: Ledger, list: seq<int>, s: int, i: nat, n: nat)
    requires i + n <= |list|
    requires forall k {:trigger LinkedAt(mem, g, list, s, k)} | 0 <= k < |list| :: LinkedAt(mem, g, list, s, k)
    ensures Walk(mem, LinkAt(list, i), n) == LinkAt(list, i + n)
    decreases n
  {
    if n > 0 {
      assert LinkedAt(mem, g, list, s, i);
      WalkList(mem, g, list, s, i + 1, n - 1);
    }
  }

  /** Following the links of a bin visits exactly the free chunks of its size, each once, and then
  reaches the null pointer. */
  lemma FreeListEnds(W: nat, BINS: nat, mem: Memory, bin: seq<int>, g: Ledger, b: nat)
    requires HeapOk(W, BINS, mem, bin, g) && b < BINS
    ensures Walk(mem, bin[b], |g.lists[b]|) == NULL
    ensures forall n | 0 <= n < |g.lists[b]| :: Walk(mem, bin[b], n) == g.lists[b][n]
    ensures forall m, n | 0 <= m < n < |g.lists[b]| :: g.lists[b][m] != g.lists[b][n]
    ensures forall q :: q in g.lists[b] <==> q in g.chunks && q !in g.live && g.chunks[q] == Bin2Size(W, b)
  {
    assert BinOk(W, mem, bin[b], g, b);
    WalkAll(mem, g, bin[b], g.lists[b], Bin2Size(W, b));
    forall q | q in g.chunks && q !in g.live && g.chunks[q] == Bin2Size(W, b) ensures q in g.lists[b] {
      InItsList(W, BINS, mem, bin, g, b, q);
    }
  }

  lemma WalkAll(mem: Memory, g: Ledger, head: int, list: seq<int>, s: int)
    requires ListOk(mem, g, head, list, s)
    ensures Walk(mem, head, |list|) == NULL
    ensures forall n | 0 <= n < |list| :: Walk(mem, head, n) == list[n]
    ensures forall n | 0 <= n < |list| :: list[n] in g.chunks && list[n] !in g.live && g.chunks[list[n]] == s
  {
    WalkList(mem, g, list, s, 0, |list|);
    forall n | 0 <= n < |list|
      ensures Walk(mem, head, n) == list[n] && list[n] in g.chunks && list[n] !in g.live && g.chunks[list[n]] == s
    {
      WalkList(mem, g, list, s, 0, n);
      assert LinkedAt(mem, g, list, s, n);
    }
  }

  /** No chunk is lost: a chunk that is not live is on the list of its size. */
  lemma InItsList(W: nat, BINS: nat, mem: Memory, bin: seq<int>, g: Ledger, b: nat, q: int)
    requires HeapOk(W, BINS, mem, bin, g) && b < BINS && q in g.chunks && q !in g.live && g.chunks[q] == Bin2Size(W, b)
    ensures q in g.lists[b]
  {
    assert Kept(W, Bin2Size(W, BINS - 1), g, q);
    var c :| 0 <= c < |g.lists| && q in g.lists[c];
    var i :| 0 <= i < |g.lists[c]| && g.lists[c][i] == q;
    assert BinOk(W, mem, bin[c], g, c);
    assert LinkedAt(mem, g, g.lists[c], Bin2Size(W, c), i);
    BinSizesDiffer(W, b, c);
  }
}
