/** How fill_bin cuts a big block into linked chunks. */
module MallocCarve {
  import opened SizeClass
  import opened MallocShape

  predicate Adjoin(W: nat, s: nat, list: seq<int>, i: nat)
    requires i + 1 < |list|
  {
    list[i + 1] == list[i] + (s + W)
  }

  /** The blocks in the list lie in the big block at p with their headers, one right after the
  other. */
  ghost predicate Spaced(W: nat, p: int, s: nat, list: seq<int>) {
    && (forall i {:trigger Adjoin(W, s, list, i)} | 0 <= i < |list| - 1 :: Adjoin(W, s, list, i))
    && (forall i | 0 <= i < |list| :: p + Waste(W) + W <= list[i] && list[i] + s <= p + BigBlock(W))
    && (forall i, j | 0 <= i < j < |list| :: list[i] + s <= list[j] - W)
  }

  /** Where the i-th block is. */
  lemma {:induction false} SpacedAt(W: nat, p: int, s: nat, list: seq<int>, i: nat)
    requires Spaced(W, p, s, list) && i < |list|
    ensures list[i] == list[0] + i * (s + W)
  {
    if i > 0 {
      SpacedAt(W, p, s, list, i - 1);
      assert Adjoin(W, s, list, i - 1);
      assert i * (s + W) == (i - 1) * (s + W) + (s + W);
    }
  }

  /** When there are as many chunks as fit, no further one fits behind the last. */
  lemma NoneFitsBehind(W: nat, mem: Memory, p: int, s: nat, list: seq<int>, n: nat)
    requires W >= 1 && Carved(W, mem, p, s, list, n) && MostChunks(W, s, n)
    ensures list[n - 1] + s + (s + W) > p + BigBlock(W)
  {
    SpacedAt(W, p, s, list, n - 1);
    assert (n + 1) * (s + W) == (n - 1) * (s + W) + (s + W) + (s + W);
  }

  ghost predicate AlignedAll(W: nat, list: seq<int>)
    requires W >= 1
  {
    forall i {:trigger Aligned(W, list[i])} | 0 <= i < |list| :: Aligned(W, list[i])
  }

  /** Alignment of the first block carries over to all of them. */
  lemma {:induction false} SpacedAligned(W: nat, p: int, s: nat, list: seq<int>, n: nat)
    requires W >= 1 && Spaced(W, p, s, list) && 1 <= n <= |list|
    requires Aligned(W, list[0]) && Aligned(W, s + W)
    ensures AlignedAll(W, list[..n])
  {
    if n > 1 {
      SpacedAligned(W, p, s, list, n - 1);
      assert Adjoin(W, s, list, n - 2);
      assert Aligned(W, list[..n - 1][n - 2]);
      ModStep(W, list[n - 2], s + W);
      forall i | 0 <= i < n ensures Aligned(W, list[..n][i]) {
        if i < n - 1 { assert Aligned(W, list[..n - 1][i]); }
      }
    }
  }

  /** Block i of the list has its size in its header and the next block in its link word. */
  predicate WrittenAt(W: nat, mem: Memory, s: nat, list: seq<int>, i: nat) {
    && i < |list| && list[i] - W in mem && mem[list[i] - W] == s
    && list[i] in mem && mem[list[i]] == LinkAt(list, i + 1)
  }

  /** The first n blocks have their headers and links. */
  ghost predicate Written(W: nat, mem: Memory, s: nat, list: seq<int>, n: nat) {
    n <= |list| && forall i {:trigger WrittenAt(W, mem, s, list, i)} | 0 <= i < n :: WrittenAt(W, mem, s, list, i)
  }

  /** The chunks cut from a block at p: n of size s, linked in address order, inside the block. */
  ghost predicate Carved(W: nat, mem: Memory, p: int, s: nat, list: seq<int>, n: nat) {
    && |list| == n && n >= 1 && list[0] == p + Waste(W) + W
    && Spaced(W, p, s, list) && Written(W, mem, s, list, n)
  }

  lemma SpacedNext(W: nat, p: int, s: nat, list: seq<int>)
    requires W >= 1 && Spaced(W, p, s, list) && list != []
    requires list[|list| - 1] + (s + W) + s <= p + BigBlock(W)
    ensures Spaced(W, p, s, list + [list[|list| - 1] + (s + W)])
  {
    var list' := list + [list[|list| - 1] + (s + W)];
    forall i, j | 0 <= i < j < |list'| ensures list'[i] + s <= list'[j] - W
    {
      if j == |list| && i < |list| - 1 { assert list[i] + s <= list[|list| - 1] - W; }
    }
    forall i | 0 <= i < |list'| - 1 ensures Adjoin(W, s, list', i) {
      if i < |list| - 1 { assert Adjoin(W, s, list, i); }
    }
  }

  lemma WrittenNext(W: nat, mem: Memory, p: int, s: nat, list: seq<int>, n: nat)
    requires W >= 1 && s >= W && Spaced(W, p, s, list) && Written(W, mem, s, list, n) && n < |list|
    ensures Written(W, mem[list[n] - W := s][list[n] := LinkAt(list, n + 1)], s, list, n + 1)
  {
    var mem' := mem[list[n] - W := s][list[n] := LinkAt(list, n + 1)];
    forall i | 0 <= i < n ensures WrittenAt(W, mem', s, list, i) {
      assert WrittenAt(W, mem, s, list, i);
      assert list[i] + s <= list[n] - W;
    }
  }

  /** Links of the part written so far do not change when the list grows by one more. */
  lemma WrittenGrows(W: nat, mem: Memory, s: nat, list: seq<int>, n: nat, x: int)
    requires Written(W, mem, s, list, n) && n + 1 <= |list|
    ensures Written(W, mem, s, list + [x], n)
  {
    var list' := list + [x];
    forall i | 0 <= i < n ensures WrittenAt(W, mem, s, list', i) {
      assert WrittenAt(W, mem, s, list, i);
    }
  }

  lemma SpacedOne(W: nat, p: int, s: nat, x: int)
    requires p + Waste(W) + W <= x && x + s <= p + BigBlock(W)
    ensures Spaced(W, p, s, [x])
  {
  }

  lemma SameTwice(m0: Memory, m1: Memory, m2: Memory, p: int, len: nat)
    requires SameOutside(m0, m1, p, len) && SameOutside(m1, m2, p, len)
    ensures SameOutside(m0, m2, p, len)
  {
  }

  lemma FillSame(W: nat, mem: Memory, p: int, s: nat, list: seq<int>, j: nat, v: int)
    requires W >= 1 && s >= W && j < |list| && Spaced(W, p, s, list)
    ensures SameOutside(mem, mem[list[j] - W := s][list[j] := v], p, BigBlock(W))
  {
  }

  /** One turn of the cutting loop: header and link of block j, and the next block after it. */
  lemma FillStep(W: nat, mem: Memory, p: int, s: nat, list: seq<int>, j: nat)
    requires W >= 1 && s >= W && |list| == j + 1 && Spaced(W, p, s, list) && Written(W, mem, s, list, j)
    requires list[j] + (s + W) + s <= p + BigBlock(W)
    ensures var x := list[j] + (s + W);
            var mem' := mem[list[j] - W := s][list[j] := x];
            && Spaced(W, p, s, list + [x]) && Written(W, mem', s, list + [x], j + 1)
            && SameOutside(mem, mem', p, BigBlock(W))
  {
    var x := list[j] + (s + W);
    SpacedNext(W, p, s, list);
    FillWritten(W, mem, p, s, list, j, x);
    FillSame(W, mem, p, s, list, j, x);
  }

  lemma FillWritten(W: nat, mem: Memory, p: int, s: nat, list: seq<int>, j: nat, x: int)
    requires W >= 1 && s >= W && |list| == j + 1 && Spaced(W, p, s, list + [x]) && Written(W, mem, s, list, j)
    ensures Written(W, mem[list[j] - W := s][list[j] := x], s, list + [x], j + 1)
  {
    WrittenGrows(W, mem, s, list, j, x);
    WrittenNext(W, mem, p, s, list + [x], j);
  }

  /** A step of a whole number of alignment units keeps an address aligned. */
  lemma ModStep(W: nat, x: int, y: int)
    requires W >= 1 && Aligned(W, x) && Aligned(W, y)
    ensures Aligned(W, x + y)
  {
    var d := W * ALIGN;
    var m, k := x / d, y / d;
    assert x == m * d && y == k * d;
    assert (m + k) * d == m * d + k * d;
    DivIs((m + k) * d, d, m + k);
    assert (m + k) * d == ((m + k) * d) / d * d + ((m + k) * d) % d;
  }

  /** From header address q on, n more chunks fit in the block at p. */
  predicate Fits(W: nat, p: int, s: nat, n: nat, q: int) {
    if n == 0 then q <= p + BigBlock(W) else Fits(W, p, s, n - 1, q + (s + W))
  }

  lemma {:induction false} FitsIs(W: nat, p: int, s: nat, n: nat, q: int)
    requires q + n * (s + W) <= p + BigBlock(W)
    ensures Fits(W, p, s, n, q)
  {
    if n > 0 {
      assert n * (s + W) == (n - 1) * (s + W) + (s + W);
      FitsIs(W, p, s, n - 1, q + (s + W));
    }
  }

  lemma {:induction false} FitsOne(W: nat, p: int, s: nat, n: nat, q: int)
    requires Fits(W, p, s, n, q) && n >= 1
    ensures q + (s + W) <= p + BigBlock(W)
  {
    if n > 1 { FitsOne(W, p, s, n - 1, q + (s + W)); }
  }

  lemma AlignUnit(W: nat)
    requires W >= 1
    ensures Aligned(W, Waste(W) + W)
  {
    DivIs(W * ALIGN, W * ALIGN, 1);
  }

  lemma FillStart(W: nat, p: int, b: nat)
    requires W >= 1 && b < 65535 && Aligned(W, p)
    ensures var s := Bin2Size(W, b);
            && s >= W && NBlocks(W, s) >= 1 && Aligned(W, s + W)
            && Aligned(W, p + Waste(W) + W) && Fits(W, p, s, NBlocks(W, s), p + Waste(W))
  {
    FillFacts(W, b);
    BinUnits(W, b);
    AlignUnit(W);
    ModStep(W, p, Waste(W) + W);
    FitsIs(W, p, Bin2Size(W, b), NBlocks(W, Bin2Size(W, b)), p + Waste(W));
  }

  lemma FillFacts(W: nat, b: nat)
    requires W >= 1 && b < 65535
    ensures var s := Bin2Size(W, b);
            && s >= W && NBlocks(W, s) >= 1 && ChunksPerFill(W, b) == NBlocks(W, s)
            && Waste(W) + NBlocks(W, s) * (s + W) <= BigBlock(W) && Waste(W) + (s + W) <= BigBlock(W)
  {
    BlocksFit(W, b);
    BinUnits(W, b);
    MulMono(1, b + 1, W * ALIGN);
    MulMono(1, NBlocks(W, Bin2Size(W, b)), Bin2Size(W, b) + W);
  }

  /** What the cutting loop keeps: j blocks are written, block j is placed, and the rest fits. */
  ghost predicate Cutting(W: nat, m0: Memory, mem: Memory, p: int, s: nat, n: nat, j: nat, q: int, list: seq<int>) {
    && j < n && |list| == j + 1 && list[j] == q + W && list[0] == p + Waste(W) + W
    && Fits(W, p, s, n - j, q) && q >= p + Waste(W)
    && Spaced(W, p, s, list) && Written(W, mem, s, list, j)
    && SameOutside(m0, mem, p, BigBlock(W))
  }

  lemma CutStart(W: nat, mem: Memory, p: int, s: nat, n: nat)
    requires W >= 1 && n >= 1 && Fits(W, p, s, n, p + Waste(W))
    ensures Cutting(W, mem, mem, p, s, n, 0, p + Waste(W), [p + Waste(W) + W])
  {
    FitsOne(W, p, s, n, p + Waste(W));
    SpacedOne(W, p, s, p + Waste(W) + W);
  }

  lemma CutTurn(W: nat, m0: Memory, mem: Memory, p: int, s: nat, n: nat, j: nat, q: int, list: seq<int>)
    requires W >= 1 && s >= W && Cutting(W, m0, mem, p, s, n, j, q, list) && j + 1 < n
    ensures Cutting(W, m0, mem[q := s][q + W := q + W + (s + W)], p, s, n, j + 1, q + (s + W), list + [q + W + (s + W)])
  {
    FitsOne(W, p, s, n - (j + 1), q + (s + W));
    FillStep(W, mem, p, s, list, j);
    SameTwice(m0, mem, mem[q := s][q + W := q + W + (s + W)], p, BigBlock(W));
  }

  lemma CutEnd(W: nat, m0: Memory, mem: Memory, p: int, s: nat, n: nat, q: int, list: seq<int>)
    requires W >= 1 && s >= W && n >= 1 && Cutting(W, m0, mem, p, s, n, n - 1, q, list)
    ensures Carved(W, mem[q := s][q + W := NULL], p, s, list, n)
    ensures SameOutside(m0, mem[q := s][q + W := NULL], p, BigBlock(W))
  {
    WrittenNext(W, mem, p, s, list, n - 1);
    FillSame(W, mem, p, s, list, n - 1, NULL);
    SameTwice(m0, mem, mem[q := s][q + W := NULL], p, BigBlock(W));
  }
}
