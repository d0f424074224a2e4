/** Whole runs of the allocator: any sequence of calls of a client that frees and writes only what it
holds, over any answers of mmap0. */
module MallocRuns {
  import opened SizeClass
  import opened MallocShape
  import opened MallocLedger
  import opened MallocHeap

  /** malloc, when mmap0 would offer a region; free; and a write of a word at a in block q. */
  datatype Call =
    | Malloc(nbytes: nat, region: int)
    | Free(p: int)
    | Write(q: int, a: int, v: int)

  /** Blocks that are live, and as large as they were asked to be. */
  ghost predicate BlocksOk(g: Ledger, blocks: map<int, nat>) {
    blocks.Keys == g.live && forall q | q in blocks :: q in g.chunks && blocks[q] <= g.chunks[q]
  }

  /** What has been written to blocks is in memory. */
  ghost predicate WordsOk(mem: Memory, blocks: map<int, nat>, words: map<int, int>) {
    forall a | a in words :: a in mem && mem[a] == words[a] && InBlock(blocks, a)
  }

  ghost predicate InBlock(blocks: map<int, nat>, a: int) {
    exists q :: Within(blocks, q, a)
  }

  /** What the specification of an allocator asks for: live blocks are aligned and large enough; live
  blocks, free chunks and headers do not overlap; the links of each bin lead once through its free
  chunks and then to null; and free and live chunks of a bin are those its fills have produced, each
  of them as many as a big block has room for. */
  ghost predicate Safe(W: nat, BINS: nat, mem: Memory, bin: seq<int>, g: Ledger, blocks: map<int, nat>)
    requires W >= 1 && |bin| == |g.lists| == |g.fills| == BINS
  {
    && (forall q | q in blocks :: q != NULL && Aligned(W, q) && q in g.chunks && blocks[q] <= g.chunks[q])
    && (forall p, q | p in blocks && q in g.chunks && p != q :: Apart(W, g.chunks, p, q))
    && (forall b, i | 0 <= b < BINS && 0 <= i < |g.lists[b]| :: g.lists[b][i] in g.chunks && g.lists[b][i] !in blocks)
    && (forall b | 0 <= b < BINS :: Walk(mem, bin[b], |g.lists[b]|) == NULL)
    && (forall b, i | 0 <= b < BINS && 0 <= i < |g.lists[b]| :: Walk(mem, bin[b], i) == g.lists[b][i])
    && (forall b, m: nat | 0 <= b < BINS && MostChunks(W, Bin2Size(W, b), m) ::
          |g.lists[b]| + |LiveOf(g, Bin2Size(W, b))| == m * g.fills[b])
  }

  lemma MostIsPerFill(W: nat, b: nat)
    requires W >= 1
    ensures forall m: nat :: MostChunks(W, Bin2Size(W, b), m) <==> m == ChunksPerFill(W, b)
  {
    BlocksFit(W, b);
    forall m: nat | MostChunks(W, Bin2Size(W, b), m) ensures m == ChunksPerFill(W, b) {
      OneMost(W, Bin2Size(W, b), m, ChunksPerFill(W, b));
    }
  }

  lemma HeapIsSafe(W: nat, BINS: nat, mem: Memory, bin: seq<int>, g: Ledger, blocks: map<int, nat>)
    requires HeapOk(W, BINS, mem, bin, g) && BlocksOk(g, blocks)
    ensures Safe(W, BINS, mem, bin, g, blocks)
  {
    forall q | q in blocks ensures q != NULL && Aligned(W, q) { assert ChunkOk(W, mem, g.chunks, q); }
    forall p, q | p in blocks && q in g.chunks && p != q ensures Apart(W, g.chunks, p, q) {}
    forall b | 0 <= b < BINS
      ensures Walk(mem, bin[b], |g.lists[b]|) == NULL
      ensures forall i | 0 <= i < |g.lists[b]| ::
                Walk(mem, bin[b], i) == g.lists[b][i] && g.lists[b][i] in g.chunks && g.lists[b][i] !in blocks
      ensures forall m: nat | MostChunks(W, Bin2Size(W, b), m) ::
                |g.lists[b]| + |LiveOf(g, Bin2Size(W, b))| == m * g.fills[b]
    {
      FreeListEnds(W, BINS, mem, bin, g, b);
      assert BinOk(W, mem, bin[b], g, b);
      MostIsPerFill(W, b);
    }
  }

  /** The region of a large block starts where its header says. */
  lemma LargeHome(W: nat, BINS: nat, mem: Memory, bin: seq<int>, g: Ledger, p: int)
    requires HeapOk(W, BINS, mem, bin, g) && p in g.chunks
    ensures p - W in mem && mem[p - W] == g.chunks[p]
    ensures g.chunks[p] > Bin2Size(W, BINS - 1) ==> p in g.home && g.home[p] == p - W - Waste(W)
  {
    assert ChunkOk(W, mem, g.chunks, p);
    assert HomeOk(W, Bin2Size(W, BINS - 1), g, p);
  }

  /** A word in a block that stays, whose contents stay. */
  lemma WordStays(mem: Memory, mem': Memory, g: Ledger, blocks: map<int, nat>, blocks': map<int, nat>, a: int)
    requires BlocksOk(g, blocks) && a in mem && InBlock(blocks, a)
    requires BlocksSame(mem, mem', g.chunks, blocks'.Keys * blocks.Keys)
    requires forall q | Within(blocks, q, a) :: q in blocks' && blocks'[q] == blocks[q]
    ensures a in mem' && mem'[a] == mem[a] && InBlock(blocks', a)
  {
    var q :| Within(blocks, q, a);
    assert Within(blocks', q, a);
    assert q in blocks'.Keys * blocks.Keys && Within(g.chunks, q, a);
  }

  /** Blocks that stay keep the words in them. */
  lemma WordsStay(mem: Memory, mem': Memory, g: Ledger, blocks: map<int, nat>, blocks': map<int, nat>,
                  words: map<int, int>, words': map<int, int>)
    requires BlocksOk(g, blocks) && WordsOk(mem, blocks, words)
    requires BlocksSame(mem, mem', g.chunks, blocks'.Keys * blocks.Keys)
    requires forall a {:trigger a in words'} | a in words' :: a in words && words'[a] == words[a]
    requires forall a, q {:trigger Within(blocks, q, a)} | a in words' && Within(blocks, q, a) ::
               q in blocks' && blocks'[q] == blocks[q]
    ensures WordsOk(mem', blocks', words')
  {
    forall a | a in words' ensures a in mem' && mem'[a] == words'[a] && InBlock(blocks', a)
    {
      assert a in words && words[a] == words'[a];
      WordStays(mem, mem', g, blocks, blocks', a);
    }
  }

  /** The allocator leaves alone what is in the parts of live blocks that the client has asked for. */
  lemma BlocksKept(mem: Memory, mem': Memory, g: Ledger, blocks: map<int, nat>, live: set<int>)
    requires BlocksOk(g, blocks) && BlocksSame(mem, mem', g.chunks, live)
    ensures forall q, a | Within(blocks, q, a) && a in mem && q in live :: a in mem' && mem'[a] == mem[a]
  {
    forall q, a | Within(blocks, q, a) && a in mem && q in live ensures a in mem' && mem'[a] == mem[a] {
      assert Within(g.chunks, q, a);
    }
  }

  /** Different live blocks have no address in common. */
  lemma BlocksApart(W: nat, BINS: nat, mem: Memory, bin: seq<int>, g: Ledger, blocks: map<int, nat>)
    requires HeapOk(W, BINS, mem, bin, g) && BlocksOk(g, blocks)
    ensures forall p, q, a | Within(blocks, p, a) && Within(blocks, q, a) :: p == q
  {
    forall p, q, a | Within(blocks, p, a) && Within(blocks, q, a) ensures p == q
    {
      assert p != q ==> Apart(W, g.chunks, p, q);
    }
  }

  /** What is left of the words when a block is freed. */
  function WordsWithout(words: map<int, int>, blocks: map<int, nat>, p: int): map<int, int> {
    map a | a in words && !Within(blocks, p, a) :: words[a]
  }

  lemma WordsAfterFree(W: nat, BINS: nat, mem: Memory, bin: seq<int>, g: Ledger, mem': Memory, blocks: map<int, nat>,
                       words: map<int, int>, p: int)
    requires HeapOk(W, BINS, mem, bin, g) && BlocksOk(g, blocks) && WordsOk(mem, blocks, words)
    requires BlocksSame(mem, mem', g.chunks, g.live - {p})
    ensures WordsOk(mem', blocks - {p}, WordsWithout(words, blocks, p))
  {
    BlocksApart(W, BINS, mem, bin, g, blocks);
    WordsStay(mem, mem', g, blocks, blocks - {p}, words, WordsWithout(words, blocks, p));
  }

  /** What a client knows: the blocks it holds, with the sizes it has asked for, and what it has
  written to them. */
  datatype View = View(blocks: map<int, nat>, words: map<int, int>)

  /** A client may write a word that is inside the size it has asked for. */
  predicate MayWrite(W: nat, blocks: map<int, nat>, q: int, a: int)
    requires W >= 1
  {
    q in blocks && q <= a && a + W <= q + blocks[q] && (a - q) % W == 0
  }

  /** What it knows after a call with the given answer. */
  function After(W: nat, v: View, call: Call, answer: int): View
    requires W >= 1
  {
    match call
    case Malloc(nbytes, _) => if answer == NULL then v else v.(blocks := v.blocks[answer := nbytes])
    case Free(p) => View(v.blocks - {p}, WordsWithout(v.words, v.blocks, p))
    case Write(q, a, x) => if MayWrite(W, v.blocks, q, a) then v.(words := v.words[a := x]) else v
  }

  function Replay(W: nat, calls: seq<Call>, answers: seq<int>): View
    requires W >= 1 && |answers| == |calls|
  {
    if calls == [] then View(map[], map[])
    else
      var n := |calls| - 1;
      After(W, Replay(W, calls[..n], answers[..n]), calls[n], answers[n])
  }

  class Client {
    const heap: Heap
    var blocks: map<int, nat>          // the blocks it holds, and the sizes it has asked for
    var mapped: map<int, nat>          // the regions mmap0 has given out
    ghost var words: map<int, int>     // what it has written to the blocks it holds

    ghost predicate Valid()
      reads this, heap
    {
      && heap.Valid() && BlocksOk(heap.g, blocks) && mapped == heap.g.regions
      && WordsOk(heap.mem, blocks, words)
    }

    ghost function Known(): View
      reads this
    {
      View(blocks, words)
    }

    constructor (W: nat, BINS: nat, RANGE: nat)
      requires W >= 1 && 1 <= BINS <= 65535 && BigBlock(W) < RANGE
      ensures Valid() && fresh(heap) && Known() == View(map[], map[]) && mapped == map[]
      ensures heap.W == W && heap.BINS == BINS && heap.RANGE == RANGE
    {
      var h := new Heap(W, BINS, RANGE);
      heap := h;
      blocks, mapped := map[], map[];
      words := map[];
    }

    /** What mmap0 gives when it is asked for the memory for a request: the region, if that is
    aligned and free, and null otherwise. */
    function Offer(nbytes: nat, region: int): int
      reads this
      requires heap.W >= 1 && heap.RANGE > 0
    {
      var len := AskedLength(heap.W, heap.BINS, heap.RANGE, nbytes);
      if FreshRegion(heap.W, mapped, region, len) then region else NULL
    }

    method DoMalloc(nbytes: nat, region: int) returns (p: int)
      requires Valid() && NoWrap(heap.W, heap.BINS, heap.RANGE, nbytes)
      modifies this, heap
      ensures Valid() && words == old(words)
      ensures p != NULL ==> p !in old(blocks) && blocks == old(blocks)[p := nbytes]
      ensures p == NULL ==> blocks == old(blocks)
      ensures forall q, a | Within(old(blocks), q, a) && a in old(heap.mem) ::
                a in heap.mem && heap.mem[a] == old(heap.mem)[a]
      ensures mapped == old(mapped) ||
              mapped == old(mapped)[region := AskedLength(heap.W, heap.BINS, heap.RANGE, nbytes)]
      ensures AnswersWith(heap.W, heap.BINS, old(heap.bin), old(Offer(nbytes, region)), nbytes, p)
      ensures p == NULL <==> NeedsRegion(heap.W, heap.BINS, old(heap.bin), nbytes) &&
                             !FreshRegion(heap.W, old(mapped), region,
                                          AskedLength(heap.W, heap.BINS, heap.RANGE, nbytes))
    {
      var len := AskedLength(heap.W, heap.BINS, heap.RANGE, nbytes);
      var offer := Offer(nbytes, region);
      var asks := NeedsRegion(heap.W, heap.BINS, heap.bin, nbytes);
      ghost var m0, g0 := heap.mem, heap.g;
      p := heap.Malloc(nbytes, offer);
      BlocksKept(m0, heap.mem, g0, blocks, g0.live);
      if asks && offer != NULL {
        mapped := mapped[offer := len];
      }
      if p != NULL {
        WordsStay(m0, heap.mem, g0, blocks, blocks[p := nbytes], words, words);
        blocks := blocks[p := nbytes];
      } else {
        WordsStay(m0, heap.mem, g0, blocks, blocks, words, words);
      }
    }

    method DoFree(p: int)
      requires Valid() && (p == NULL || p in blocks)
      modifies this, heap
      ensures Valid() && blocks == old(blocks) - {p}
      ensures words == WordsWithout(old(words), old(blocks), p)
      ensures forall q, a | Within(old(blocks), q, a) && a in old(heap.mem) && q != p ::
                a in heap.mem && heap.mem[a] == old(heap.mem)[a]
      ensures forall r | r in mapped :: r in old(mapped) && mapped[r] == old(mapped)[r]
    {
      ghost var m0, g0 := heap.mem, heap.g;
      NullIsNoBlock(heap.W, heap.BINS, heap.mem, heap.bin, heap.g);
      var large := false;
      if p != NULL {
        LargeHome(heap.W, heap.BINS, heap.mem, heap.bin, heap.g, p);
        large := heap.mem[p - heap.W] > Bin2Size(heap.W, heap.BINS - 1);
      }
      heap.Free(p);
      if large {
        mapped := mapped - {p - heap.W - Waste(heap.W)};
      }
      WordsAfterFree(heap.W, heap.BINS, m0, old(heap.bin), g0, heap.mem, blocks, words, p);
      BlocksKept(m0, heap.mem, g0, blocks, g0.live - {p});
      words := WordsWithout(words, blocks, p);
      blocks := blocks - {p};
    }

    method DoWrite(q: int, a: int, v: int)
      requires Valid() && MayWrite(heap.W, blocks, q, a)
      modifies this`words, heap
      ensures Valid() && words == old(words)[a := v] && heap.mem == old(heap.mem)[a := v]
    {
      heap.ClientWrite(q, a, v);
      words := words[a := v];
      assert Within(blocks, q, a);
    }

    /** One call. A free or a
    write that the client may not make is not made, and neither is a malloc of one of the top sizes,
    for which the sum in malloc_large wraps around. */
    method Do(call: Call) returns (answer: int)
      requires Valid()
      modifies this, heap
      ensures Valid() && Known() == After(heap.W, old(Known()), call, answer)
      ensures call.Malloc? ==> (answer == NULL || answer !in old(blocks))
      ensures call.Write? ==> heap.mem == if MayWrite(heap.W, old(blocks), call.q, call.a)
                                          then old(heap.mem)[call.a := call.v] else old(heap.mem)
      ensures !call.Write? ==>
                forall q, a | Within(old(blocks), q, a) && a in old(heap.mem) && q in blocks && q in old(blocks) ::
                  a in heap.mem && heap.mem[a] == old(heap.mem)[a]
      ensures forall r | r in mapped :: (r in old(mapped) && mapped[r] == old(mapped)[r]) ||
                GivenTo(heap.W, heap.BINS, heap.RANGE, call, r, mapped[r])
      ensures call.Malloc? ==>
                if NoWrap(heap.W, heap.BINS, heap.RANGE, call.nbytes)
                then AnswersWith(heap.W, heap.BINS, old(heap.bin), old(Offer(call.nbytes, call.region)), call.nbytes,
                                 answer)
                else answer == NULL
    {
      answer := NULL;
      match call {
        case Malloc(nbytes, region) =>
          if NoWrap(heap.W, heap.BINS, heap.RANGE, nbytes) { answer := DoMalloc(nbytes, region); }
        case Free(p) =>
          if p == NULL || p in blocks {
            DoFree(p);
          } else {
            NothingFreed(blocks, words, p);
          }
        case Write(q, a, v) =>
          if MayWrite(heap.W, blocks, q, a) { DoWrite(q, a, v); }
      }
    }
  }

  lemma NothingFreed(blocks: map<int, nat>, words: map<int, int>, p: int)
    requires p !in blocks
    ensures blocks - {p} == blocks && WordsWithout(words, blocks, p) == words
  {
  }

  // ---- whole runs

  /** Block q was answered by call h, and has been neither freed nor answered again since. */
  predicate HeldFrom(calls: seq<Call>, answers: seq<int>, h: nat, q: int)
    requires |answers| == |calls|
  {
    && h < |calls| && calls[h].Malloc? && answers[h] == q && q != NULL
    && forall x | h < x < |calls| :: calls[x] != Free(q) && !(calls[x].Malloc? && answers[x] == q)
  }

  /** The blocks a client knows are those it has been given and has not freed, of the sizes asked for. */
  lemma {:induction false} HeldBlocks(W: nat, calls: seq<Call>, answers: seq<int>)
    requires W >= 1 && |answers| == |calls|
    ensures forall q :: q in Replay(W, calls, answers).blocks <==> exists h: nat :: HeldFrom(calls, answers, h, q)
    ensures forall h: nat, q | HeldFrom(calls, answers, h, q) ::
              q in Replay(W, calls, answers).blocks && Replay(W, calls, answers).blocks[q] == calls[h].nbytes
  {
    if calls != [] {
      var n := |calls| - 1;
      HeldBlocks(W, calls[..n], answers[..n]);
      forall q ensures q in Replay(W, calls, answers).blocks ==> exists h: nat :: HeldFrom(calls, answers, h, q) {
        if q in Replay(W, calls, answers).blocks {
          if calls[n].Malloc? && answers[n] == q && q != NULL {
            assert HeldFrom(calls, answers, n, q);
          } else {
            assert q in Replay(W, calls[..n], answers[..n]).blocks && calls[n] != Free(q);
            var h: nat :| HeldFrom(calls[..n], answers[..n], h, q);
            assert HeldFrom(calls, answers, h, q);
          }
        }
      }
      forall h: nat, q | HeldFrom(calls, answers, h, q)
        ensures q in Replay(W, calls, answers).blocks && Replay(W, calls, answers).blocks[q] == calls[h].nbytes
      {
        if h < n { assert HeldFrom(calls[..n], answers[..n], h, q); }
      }
    }
  }

  /** Call i wrote a word into a part of a block that was held then and was asked for, the block has not
  been freed since, and the word has not been written again. */
  ghost predicate LastWrite(W: nat, calls: seq<Call>, answers: seq<int>, i: nat)
    requires W >= 1 && |answers| == |calls|
  {
    && i < |calls| && calls[i].Write?
    && var q, a := calls[i].q, calls[i].a;
    && (exists h: nat :: HeldFrom(calls[..i], answers[..i], h, q) && InPart(W, q, a, calls[h].nbytes))
    && forall x | i < x < |calls| :: calls[x] != Free(q) && !(calls[x].Write? && calls[x].a == a)
  }

  /** A word at a is in the first nbytes of block q. */
  predicate InPart(W: nat, q: int, a: int, nbytes: nat)
    requires W >= 1
  {
    q <= a && a + W <= q + nbytes && (a - q) % W == 0
  }

  predicate Disjoint(blocks: map<int, nat>) {
    forall p: int, q: int | p in blocks && q in blocks && p < q :: p + blocks[p] <= q
  }

  /** At each point the blocks held are disjoint, and an answer is not a block that is held already. */
  ghost predicate Proper(W: nat, calls: seq<Call>, answers: seq<int>)
    requires W >= 1 && |answers| == |calls|
  {
    forall x: nat | x < |calls| :: ProperAt(W, calls, answers, x)
  }

  ghost predicate ProperAt(W: nat, calls: seq<Call>, answers: seq<int>, x: nat)
    requires W >= 1 && x < |calls| == |answers|
  {
    var blocks := Replay(W, calls[..x], answers[..x]).blocks;
    Disjoint(blocks) && (calls[x].Malloc? ==> answers[x] !in blocks)
  }

  lemma ProperBefore(W: nat, calls: seq<Call>, answers: seq<int>, n: nat)
    requires W >= 1 && |answers| == |calls| && n <= |calls| && Proper(W, calls, answers)
    ensures Proper(W, calls[..n], answers[..n])
  {
    forall x: nat | x < n ensures ProperAt(W, calls[..n], answers[..n], x) {
      assert calls[..n][..x] == calls[..x] && answers[..n][..x] == answers[..x];
      assert ProperAt(W, calls, answers, x);
    }
  }

  /** A word written last by call i is among those the client knows, in a block it still holds. */
  lemma {:induction false} LastWriteKnown(W: nat, calls: seq<Call>, answers: seq<int>, i: nat)
    requires W >= 1 && |answers| == |calls| && Proper(W, calls, answers) && LastWrite(W, calls, answers, i)
    ensures var v := Replay(W, calls, answers);
            MayWrite(W, v.blocks, calls[i].q, calls[i].a) && calls[i].a in v.words && v.words[calls[i].a] == calls[i].v
  {
    var n := |calls| - 1;
    HeldBlocks(W, calls[..n], answers[..n]);
    if i < n {
      assert LastWrite(W, calls[..n], answers[..n], i) by {
        assert calls[..n][..i] == calls[..i] && answers[..n][..i] == answers[..i];
      }
      ProperBefore(W, calls, answers, n);
      LastWriteKnown(W, calls[..n], answers[..n], i);
      assert ProperAt(W, calls, answers, n);
      StaysKnown(W, Replay(W, calls[..n], answers[..n]), calls[n], answers[n], calls[i].q, calls[i].a);
    }
  }

  lemma OneBlock(blocks: map<int, nat>, p: int, q: int, a: int)
    requires Disjoint(blocks) && Within(blocks, p, a) && Within(blocks, q, a)
    ensures p == q
  {
    assert p in blocks && q in blocks;
  }

  lemma StaysKnown(W: nat, v: View, call: Call, answer: int, q: int, a: int)
    requires W >= 1 && MayWrite(W, v.blocks, q, a) && a in v.words && Disjoint(v.blocks)
    requires call != Free(q) && !(call.Write? && call.a == a) && (call.Malloc? ==> answer !in v.blocks)
    ensures var v' := After(W, v, call, answer);
            MayWrite(W, v'.blocks, q, a) && a in v'.words && v'.words[a] == v.words[a]
  {
    assert Within(v.blocks, q, a);
    if call.Free? && Within(v.blocks, call.p, a) { OneBlock(v.blocks, call.p, q, a); }
  }

  /** Two lengths from two addresses on have no address in common. */
  predicate NoOverlap(p: int, m: int, q: int, n: int) {
    p + m <= q || q + n <= p
  }

  /** Call i is a malloc that mmap0 would answer with an aligned region apart from all that it was to
  give before, and the length it is asked for does not wrap around. */
  predicate NewRegion(W: nat, BINS: nat, RANGE: nat, calls: seq<Call>, i: nat)
    requires W >= 1 && RANGE > 0
  {
    && i < |calls| && calls[i].Malloc? && NoWrap(W, BINS, RANGE, calls[i].nbytes)
    && calls[i].region > 0 && Aligned(W, calls[i].region)
    && forall h | 0 <= h < i && calls[h].Malloc? ::
         NoOverlap(calls[i].region, AskedLength(W, BINS, RANGE, calls[i].nbytes),
                   calls[h].region, AskedLength(W, BINS, RANGE, calls[h].nbytes))
  }

  /** Every region in use was given to one of the calls. */
  ghost predicate MappedFrom(W: nat, BINS: nat, RANGE: nat, calls: seq<Call>, mapped: map<int, nat>)
    requires RANGE > 0
  {
    forall r | r in mapped :: exists h :: 0 <= h < |calls| && GivenTo(W, BINS, RANGE, calls[h], r, mapped[r])
  }

  predicate GivenTo(W: nat, BINS: nat, RANGE: nat, call: Call, r: int, len: nat)
    requires RANGE > 0
  {
    call.Malloc? && call.region == r && len == AskedLength(W, BINS, RANGE, call.nbytes)
  }

  lemma NewIsFresh(W: nat, BINS: nat, RANGE: nat, calls: seq<Call>, i: nat, mapped: map<int, nat>)
    requires W >= 1 && RANGE > 0 && NewRegion(W, BINS, RANGE, calls, i)
    requires MappedFrom(W, BINS, RANGE, calls[..i], mapped)
    ensures FreshRegion(W, mapped, calls[i].region, AskedLength(W, BINS, RANGE, calls[i].nbytes))
  {
    var len := AskedLength(W, BINS, RANGE, calls[i].nbytes);
    forall r | r in mapped ensures calls[i].region + len <= r || r + mapped[r] <= calls[i].region {
      var h :| 0 <= h < |calls[..i]| && GivenTo(W, BINS, RANGE, calls[..i][h], r, mapped[r]);
      assert calls[..i][h] == calls[h];
    }
  }

  /** No malloc that new memory is there for is answered with null. */
  predicate NoneRefused(W: nat, BINS: nat, RANGE: nat, calls: seq<Call>, answers: seq<int>)
    requires W >= 1 && RANGE > 0 && |answers| == |calls|
  {
    forall i | 0 <= i < |calls| && NewRegion(W, BINS, RANGE, calls, i) :: answers[i] != NULL
  }

  /** After any run the heap is safe, the client holds what its calls and their answers say, and the
  words in its blocks are those it has last written; and a malloc that new memory is there for has
  been served. */
  method Run(W: nat, BINS: nat, RANGE: nat, calls: seq<Call>) returns (client: Client, answers: seq<int>)
    requires W >= 1 && 1 <= BINS <= 65535 && BigBlock(W) < RANGE
    ensures client.Valid() && client.heap.W == W && client.heap.BINS == BINS && client.heap.RANGE == RANGE
    ensures |answers| == |calls| && client.Known() == Replay(W, calls, answers)
    ensures Safe(W, BINS, client.heap.mem, client.heap.bin, client.heap.g, client.blocks)
    ensures forall q :: q in client.blocks <==> exists h: nat :: HeldFrom(calls, answers, h, q)
    ensures forall h: nat, q | HeldFrom(calls, answers, h, q) :: client.blocks[q] == calls[h].nbytes
    ensures forall i: nat | LastWrite(W, calls, answers, i) ::
              calls[i].a in client.heap.mem && client.heap.mem[calls[i].a] == calls[i].v
    ensures NoneRefused(W, BINS, RANGE, calls, answers)
  {
    client, answers := RunCalls(W, BINS, RANGE, calls);
    HeapIsSafe(W, BINS, client.heap.mem, client.heap.bin, client.heap.g, client.blocks);
    HeldBlocks(W, calls, answers);
    forall i: nat | LastWrite(W, calls, answers, i)
      ensures calls[i].a in client.heap.mem && client.heap.mem[calls[i].a] == calls[i].v
    {
      LastWriteKnown(W, calls, answers, i);
    }
  }

  method RunCalls(W: nat, BINS: nat, RANGE: nat, calls: seq<Call>) returns (client: Client, answers: seq<int>)
    requires W >= 1 && 1 <= BINS <= 65535 && BigBlock(W) < RANGE
    ensures client.Valid() && client.heap.W == W && client.heap.BINS == BINS && client.heap.RANGE == RANGE
    ensures |answers| == |calls| && client.Known() == Replay(W, calls, answers)
    ensures Proper(W, calls, answers) && NoneRefused(W, BINS, RANGE, calls, answers)
  {
    client := new Client(W, BINS, RANGE);
    answers := [];
    var i := 0;
    while i < |calls|
      invariant 0 <= i <= |calls| && client.Valid() && fresh(client) && fresh(client.heap)
      invariant client.heap.W == W && client.heap.BINS == BINS && client.heap.RANGE == RANGE
      invariant |answers| == i && RunSoFar(client, calls[..i], answers)
    {
      answers := RunCall(client, calls, i, answers);
      i := i + 1;
    }
    assert calls[..i] == calls;
  }

  /** What is known of a run. */
  ghost predicate RunSoFar(client: Client, calls: seq<Call>, answers: seq<int>)
    reads client, client.heap
  {
    var h := client.heap;
    && h.W >= 1 && h.RANGE > 0 && |answers| == |calls| && client.Known() == Replay(h.W, calls, answers)
    && Proper(h.W, calls, answers) && NoneRefused(h.W, h.BINS, h.RANGE, calls, answers)
    && MappedFrom(h.W, h.BINS, h.RANGE, calls, client.mapped)
  }

  method RunCall(client: Client, calls: seq<Call>, i: nat, answers: seq<int>) returns (answers': seq<int>)
    requires i < |calls| && client.Valid() && RunSoFar(client, calls[..i], answers)
    modifies client, client.heap
    ensures client.Valid() && RunSoFar(client, calls[..i + 1], answers')
  {
    ghost var W, BINS, RANGE := client.heap.W, client.heap.BINS, client.heap.RANGE;
    ghost var mapped, bin := client.mapped, client.heap.bin;
    HeldDisjoint(W, BINS, client.heap.mem, bin, client.heap.g, client.blocks);
    var answer := client.Do(calls[i]);
    answers' := answers + [answer];
    OneMoreCall(W, calls, i, answers, answer);
    ProperMore(W, calls, i, answers, answer);
    MappedMore(W, BINS, RANGE, calls, i, mapped, client.mapped);
    NoneRefusedMore(W, BINS, RANGE, calls, i, answers, answer, mapped, bin);
  }

  lemma HeldDisjoint(W: nat, BINS: nat, mem: Memory, bin: seq<int>, g: Ledger, blocks: map<int, nat>)
    requires HeapOk(W, BINS, mem, bin, g) && BlocksOk(g, blocks)
    ensures Disjoint(blocks) && NULL !in blocks
  {
    NullIsNoBlock(W, BINS, mem, bin, g);
    forall p: int, q: int | p in blocks && q in blocks && p < q ensures p + blocks[p] <= q {
      assert Apart(W, g.chunks, p, q);
    }
  }

  lemma ProperMore(W: nat, calls: seq<Call>, i: nat, answers: seq<int>, answer: int)
    requires W >= 1 && i < |calls| && |answers| == i && Proper(W, calls[..i], answers)
    requires Disjoint(Replay(W, calls[..i], answers).blocks)
    requires calls[i].Malloc? ==> answer !in Replay(W, calls[..i], answers).blocks
    ensures Proper(W, calls[..i + 1], answers + [answer])
  {
    var c, r := calls[..i + 1], answers + [answer];
    forall x: nat | x < i + 1 ensures ProperAt(W, c, r, x) {
      assert c[..x] == calls[..i][..x] && r[..x] == answers[..x];
      if x < i {
        assert ProperAt(W, calls[..i], answers, x);
      } else {
        assert calls[..i][..x] == calls[..i] && answers[..x] == answers;
      }
    }
  }

  lemma MappedMore(W: nat, BINS: nat, RANGE: nat, calls: seq<Call>, i: nat, mapped: map<int, nat>,
                   mapped': map<int, nat>)
    requires RANGE > 0 && i < |calls| && MappedFrom(W, BINS, RANGE, calls[..i], mapped)
    requires forall r | r in mapped' :: (r in mapped && mapped'[r] == mapped[r]) ||
               GivenTo(W, BINS, RANGE, calls[i], r, mapped'[r])
    ensures MappedFrom(W, BINS, RANGE, calls[..i + 1], mapped')
  {
    var c := calls[..i + 1];
    forall r | r in mapped' ensures exists h :: 0 <= h < |c| && GivenTo(W, BINS, RANGE, c[h], r, mapped'[r]) {
      if r in mapped && mapped'[r] == mapped[r] {
        var h :| 0 <= h < |calls[..i]| && GivenTo(W, BINS, RANGE, calls[..i][h], r, mapped[r]);
        assert c[h] == calls[..i][h];
      } else {
        assert c[i] == calls[i];
      }
    }
  }

  lemma NoneRefusedMore(W: nat, BINS: nat, RANGE: nat, calls: seq<Call>, i: nat, answers: seq<int>, answer: int,
                        mapped: map<int, nat>, bin: seq<int>)
    requires W >= 1 && RANGE > 0 && 1 <= BINS == |bin| && i < |calls| && |answers| == i
    requires NoneRefused(W, BINS, RANGE, calls[..i], answers) && MappedFrom(W, BINS, RANGE, calls[..i], mapped)
    requires calls[i].Malloc? && NoWrap(W, BINS, RANGE, calls[i].nbytes) &&
             FreshRegion(W, mapped, calls[i].region, AskedLength(W, BINS, RANGE, calls[i].nbytes)) ==>
               AnswersWith(W, BINS, bin, calls[i].region, calls[i].nbytes, answer)
    ensures NoneRefused(W, BINS, RANGE, calls[..i + 1], answers + [answer])
  {
    var c, r := calls[..i + 1], answers + [answer];
    forall x | 0 <= x < i + 1 && NewRegion(W, BINS, RANGE, c, x) ensures r[x] != NULL {
      if x < i {
        assert NewRegion(W, BINS, RANGE, calls[..i], x) by {
          assert forall h | 0 <= h <= x :: calls[..i][h] == c[h];
        }
      } else {
        assert c[..i] == calls[..i] && c[i] == calls[i];
        NewIsFresh(W, BINS, RANGE, c, i, mapped);
        ServedFromRegion(W, BINS, bin, calls[i].region, calls[i].nbytes, answer);
      }
    }
  }

  lemma ServedFromRegion(W: nat, BINS: nat, bin: seq<int>, region: int, nbytes: nat, p: int)
    requires W >= 1 && 1 <= BINS == |bin| && region > 0 && AnswersWith(W, BINS, bin, region, nbytes, p)
    ensures p != NULL
  {
    if nbytes <= Bin2Size(W, BINS - 1) {
      SmallestFitIs(W, BINS, nbytes);
      assert SmallestFit(W, BINS, nbytes, Size2Bin(W, BINS, nbytes));
    }
  }

  lemma OneMoreCall(W: nat, calls: seq<Call>, i: nat, answers: seq<int>, answer: int)
    requires W >= 1 && i < |calls| && |answers| == i
    ensures Replay(W, calls[..i + 1], answers + [answer]) == After(W, Replay(W, calls[..i], answers), calls[i], answer)
  {
    assert calls[..i + 1][..i] == calls[..i] && (answers + [answer])[..i] == answers;
  }
}
