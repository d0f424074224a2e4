/** The state of the allocator: a memory of words, the chunks in it, and what its free lists hold. */
module MallocShape {
  import opened SizeClass

  /** Word contents by byte address. */
  type Memory = map<int, int>

  const NULL := 0

  /** A chunk q of size s is the header word at q - W followed by the block [q, q + s). */
  type Chunks = map<int, nat>

  /** Everything the allocator has cut or mapped so far and not unmapped. */
  datatype Ledger = Ledger(
    chunks: Chunks,           // every chunk, free or live, and its size
    live: set<int>,           // blocks handed out and not freed
    lists: seq<seq<int>>,     // the chunks on each bin's list, in order
    regions: map<int, nat>,   // mapped regions and their lengths
    home: map<int, int>,      // the region of each chunk
    fills: seq<nat>)          // successful fills of each bin

  predicate Aligned(W: nat, x: int)
    requires W >= 1
  {
    x % (W * ALIGN) == 0
  }

  /** Block q is well placed and its header holds its size. */
  predicate ChunkOk(W: nat, mem: Memory, chunks: Chunks, q: int)
    requires W >= 1
  {
    && q in chunks && q >= 2 * W && Aligned(W, q) && chunks[q] >= W
    && q - W in mem && mem[q - W] == chunks[q]
  }

  /** Two chunks, headers included, do not overlap. */
  predicate Apart(W: nat, chunks: Chunks, p: int, q: int) {
    p in chunks && q in chunks ==> p + chunks[p] <= q - W || q + chunks[q] <= p - W
  }

  ghost predicate ChunksOk(W: nat, mem: Memory, chunks: Chunks)
    requires W >= 1
  {
    && (forall q {:trigger ChunkOk(W, mem, chunks, q)} | q in chunks :: ChunkOk(W, mem, chunks, q))
    && (forall p, q {:trigger Apart(W, chunks, p, q)} | p in chunks && q in chunks && p != q :: Apart(W, chunks, p, q))
  }

  /** A chunk lies in its region; a large one has the region to itself and fills it exactly. */
  predicate HomeOk(W: nat, large: int, g: Ledger, q: int) {
    && q in g.chunks && q in g.home && g.home[q] in g.regions
    && g.home[q] <= q - W - Waste(W) && q + g.chunks[q] <= g.home[q] + g.regions[g.home[q]]
    && (g.chunks[q] > large ==>
          && q in g.live
          && g.home[q] == q - W - Waste(W) && g.regions[g.home[q]] == g.chunks[q] + Waste(W) + W
          && forall p | p in g.home && p != q :: g.home[p] != g.home[q])
  }

  predicate RegionsApart(regions: map<int, nat>, a: int, b: int) {
    a in regions && b in regions ==> a + regions[a] <= b || b + regions[b] <= a
  }

  ghost predicate RegionsOk(W: nat, large: int, g: Ledger) {
    && g.chunks.Keys == g.home.Keys
    && (forall q {:trigger HomeOk(W, large, g, q)} | q in g.chunks :: HomeOk(W, large, g, q))
    && (forall a, b {:trigger RegionsApart(g.regions, a, b)} | a in g.regions && b in g.regions && a != b ::
          RegionsApart(g.regions, a, b))
  }

  /** What mmap0 promises about a region it returns. */
  predicate FreshRegion(W: nat, regions: map<int, nat>, p: int, len: nat)
    requires W >= 1
  {
    p > 0 && Aligned(W, p) && forall r | r in regions :: p + len <= r || r + regions[r] <= p
  }

  /** The element of a list at i, or the null pointer past its end. */
  function LinkAt(list: seq<int>, i: nat): int {
    if i < |list| then list[i] else NULL
  }

  /** Entry i of a free list is a free chunk of size s whose link word leads to the next entry. */
  predicate LinkedAt(mem: Memory, g: Ledger, list: seq<int>, s: int, i: nat)
    requires i < |list|
  {
    && list[i] in g.chunks && g.chunks[list[i]] == s && list[i] !in g.live
    && list[i] in mem && mem[list[i]] == LinkAt(list, i + 1)
  }

  /** From head, the link words lead through exactly the given chunks to a null pointer. */
  ghost predicate ListOk(mem: Memory, g: Ledger, head: int, list: seq<int>, s: int) {
    && head == LinkAt(list, 0)
    && (forall i {:trigger LinkedAt(mem, g, list, s, i)} | 0 <= i < |list| :: LinkedAt(mem, g, list, s, i))
    && (forall i, j | 0 <= i < j < |list| :: list[i] != list[j])
  }

  ghost function LiveOf(g: Ledger, s: int): set<int> {
    set q | q in g.live && q in g.chunks && g.chunks[q] == s
  }

  /** Bin b's list is well formed, and its free and live chunks together are what its fills have
  produced. */
  ghost predicate BinOk(W: nat, mem: Memory, head: int, g: Ledger, b: nat)
    requires W >= 1 && b < |g.lists| && b < |g.fills|
  {
    && ListOk(mem, g, head, g.lists[b], Bin2Size(W, b))
    && |g.lists[b]| + |LiveOf(g, Bin2Size(W, b))| == ChunksPerFill(W, b) * g.fills[b]
  }

  /** Chunk q is live or on the list of a bin, and a chunk no larger than the largest bin size has
  exactly some bin's size. */
  ghost predicate Kept(W: nat, large: int, g: Ledger, q: int) {
    && q in g.chunks
    && (q in g.live || exists b :: 0 <= b < |g.lists| && q in g.lists[b])
    && (g.chunks[q] <= large ==>
          exists b {:trigger Bin2Size(W, b)} :: 0 <= b < |g.lists| && g.chunks[q] == Bin2Size(W, b))
  }

  ghost predicate BinsOk(W: nat, mem: Memory, bin: seq<int>, g: Ledger)
    requires W >= 1 && |bin| == |g.lists| == |g.fills|
  {
    forall b {:trigger BinOk(W, mem, bin[b], g, b)} | 0 <= b < |bin| :: BinOk(W, mem, bin[b], g, b)
  }

  ghost predicate HeapOk(W: nat, BINS: nat, mem: Memory, bin: seq<int>, g: Ledger) {
    && W >= 1 && 1 <= BINS <= 65535 && |bin| == BINS && |g.lists| == BINS && |g.fills| == BINS
    && ChunksOk(W, mem, g.chunks)
    && RegionsOk(W, Bin2Size(W, BINS - 1), g)
    && g.live <= g.chunks.Keys
    && BinsOk(W, mem, bin, g)
    && (forall q {:trigger Kept(W, Bin2Size(W, BINS - 1), g, q)} | q in g.chunks ::
        Kept(W, Bin2Size(W, BINS - 1), g, q))
  }

  /** Memory outside [p, p + len) is as before. */
  ghost predicate SameOutside(mem: Memory, mem': Memory, p: int, len: nat) {
    forall a | a in mem && (a < p || p + len <= a) :: a in mem' && mem'[a] == mem[a]
  }

  /** Headers, and the link words of free chunks, are as before. */
  ghost predicate MetaSame(W: nat, mem: Memory, mem': Memory, g: Ledger) {
    && (forall q | q in g.chunks && q - W in mem :: q - W in mem' && mem'[q - W] == mem[q - W])
    && (forall q | q in g.chunks && q !in g.live && q in mem :: q in mem' && mem'[q] == mem[q])
  }

  /** How many chunks one fill of bin b gives. */
  function ChunksPerFill(W: nat, b: nat): nat
    requires W >= 1
  {
    BlocksFit(W, b);
    NBlocks(W, Bin2Size(W, b))
  }

  /** Only headers and free link words matter to the allocator. */
  lemma MetaEnough(W: nat, BINS: nat, mem: Memory, mem': Memory, bin: seq<int>, g: Ledger)
    requires HeapOk(W, BINS, mem, bin, g) && MetaSame(W, mem, mem', g)
    ensures HeapOk(W, BINS, mem', bin, g)
  {
    forall q | q in g.chunks ensures ChunkOk(W, mem', g.chunks, q) {
      assert ChunkOk(W, mem, g.chunks, q);
    }
    forall b | 0 <= b < BINS ensures BinOk(W, mem', bin[b], g, b) {
      assert BinOk(W, mem, bin[b], g, b);
      forall i | 0 <= i < |g.lists[b]| ensures LinkedAt(mem', g, g.lists[b], Bin2Size(W, b), i) {
        assert LinkedAt(mem, g, g.lists[b], Bin2Size(W, b), i);
      }
    }
  }

  /** Writing inside a fresh region leaves every chunk alone. */
  lemma FreshMeta(W: nat, BINS: nat, mem: Memory, mem': Memory, bin: seq<int>, g: Ledger, p: int, len: nat)
    requires HeapOk(W, BINS, mem, bin, g) && FreshRegion(W, g.regions, p, len) && SameOutside(mem, mem', p, len)
    ensures MetaSame(W, mem, mem', g)
  {
    forall q | q in g.chunks
      ensures (q - W < p || p + len <= q - W) && (q < p || p + len <= q)
    {
      assert ChunkOk(W, mem, g.chunks, q);
      assert HomeOk(W, Bin2Size(W, BINS - 1), g, q);
    }
  }

  /** A word inside a live block is no header and no free link. */
  lemma BlockMeta(W: nat, BINS: nat, mem: Memory, mem': Memory, bin: seq<int>, g: Ledger, q: int)
    requires HeapOk(W, BINS, mem, bin, g) && q in g.live && SameOutside(mem, mem', q, g.chunks[q])
    ensures MetaSame(W, mem, mem', g)
  {
    assert ChunkOk(W, mem, g.chunks, q);
    forall p | p in g.chunks
      ensures p - W < q || q + g.chunks[q] <= p - W
      ensures p != q ==> p < q || q + g.chunks[q] <= p
    {
      assert ChunkOk(W, mem, g.chunks, p);
      assert p != q ==> Apart(W, g.chunks, p, q);
    }
  }
}
