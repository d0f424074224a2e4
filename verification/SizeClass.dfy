/** Bin sizes of the allocator, for any word size W and any number of bins; ALIGN is 2. */
module SizeClass {

  const ALIGN := 2

  /** bin2size, without wrap-around: what it computes for 0 <= b. */
  function Bin2Size(W: nat, b: int): int {
    ((b + 1) * ALIGN - 1) * W
  }

  /** bin2size as C computes it: the result is converted to an unsigned word of the given range. */
  function Bin2SizeU(W: nat, range: nat, b: int): int
    requires range > 0
  {
    Bin2Size(W, b) % range
  }

  /** size2bin. */
  function Size2Bin(W: nat, bins: nat, s: nat): int
    requires W >= 1
  {
    if s > Bin2Size(W, bins - 1) then -1 else (s + (W * (ALIGN - 1) - 1)) / (W * ALIGN)
  }

  lemma MulMono(a: int, b: int, c: nat)
    requires a <= b
    ensures a * c <= b * c
  {
  }

  lemma DivIs(n: int, d: nat, k: int)
    requires d > 0 && k * d <= n < (k + 1) * d
    ensures n / d == k
  {
    var q, r := n / d, n % d;
    assert n == q * d + r && 0 <= r < d;
    assert (q + 1) * d == q * d + d;
    if q < k {
      MulMono(q + 1, k, d);
    } else if q > k {
      MulMono(k + 1, q, d);
    }
  }

  lemma DivBounds(n: int, d: nat)
    requires d > 0
    ensures (n / d) * d <= n < (n / d) * d + d
  {
    assert n == (n / d) * d + n % d;
  }

  /** The size of a bin, plus its header, is a whole number of alignment units (claim 4). */
  lemma BinUnits(W: nat, b: int)
    requires W >= 1
    ensures Bin2Size(W, b) + W == (b + 1) * (W * ALIGN) && (Bin2Size(W, b) + W) % (W * ALIGN) == 0
  {
    assert ((b + 1) * ALIGN - 1) * W + W == ((b + 1) * ALIGN) * W == (b + 1) * (W * ALIGN);
    var d := W * ALIGN;
    DivIs((b + 1) * d, d, b + 1);
  }

  /** A size is served by a bin large enough for it and no larger than necessary (claims 1 and 2). */
  lemma SizeFits(W: nat, bins: nat, s: nat)
    requires W >= 1 && bins >= 1 && s <= Bin2Size(W, bins - 1)
    ensures var b := Size2Bin(W, bins, s);
            && 0 <= b < bins
            && s <= Bin2Size(W, b)
            && (b > 0 ==> Bin2Size(W, b - 1) < s)
  {
    var d := W * ALIGN;
    var n := s + W - 1;
    var b := n / d;
    DivBounds(n, d);
    BinUnits(W, b);
    BinUnits(W, b - 1);
    BinUnits(W, bins - 1);
    assert (b + 1) * d == b * d + d;
    assert (b - 1 + 1) * d == b * d;
    assert Size2Bin(W, bins, s) == b;
    assert s <= Bin2Size(W, b);
    assert (bins - 1 + 1) * d == bins * d;
    if b >= bins {
      MulMono(bins, b, d);
    }
    if b < 0 {
      MulMono(b, -1, d);
    }
  }

  /** The bin whose size is the smallest that a request fits in. */
  predicate SmallestFit(W: nat, bins: nat, s: nat, b: nat) {
    b < bins && s <= Bin2Size(W, b) && (b > 0 ==> Bin2Size(W, b - 1) < s)
  }

  lemma SmallestFitIs(W: nat, bins: nat, s: nat)
    requires W >= 1 && bins >= 1 && s <= Bin2Size(W, bins - 1)
    ensures Size2Bin(W, bins, s) >= 0
    ensures forall b: nat :: SmallestFit(W, bins, s, b) <==> b == Size2Bin(W, bins, s)
  {
    SizeFits(W, bins, s);
    forall b: nat | SmallestFit(W, bins, s, b) ensures b == Size2Bin(W, bins, s) {
      OneSmallest(W, bins, s, b, Size2Bin(W, bins, s));
    }
  }

  lemma OneSmallest(W: nat, bins: nat, s: nat, b: nat, c: nat)
    requires W >= 1 && SmallestFit(W, bins, s, b) && SmallestFit(W, bins, s, c)
    ensures b == c
  {
    if b < c {
      MulMono((b + 1) * ALIGN - 1, c * ALIGN - 1, W);
    } else if c < b {
      MulMono((c + 1) * ALIGN - 1, b * ALIGN - 1, W);
    }
  }

  /** A chunk of a bin's size goes back to that bin (claim 3 follows). */
  lemma BinRoundTrip(W: nat, bins: nat, b: nat)
    requires W >= 1 && b < bins
    ensures 0 <= Bin2Size(W, b) <= Bin2Size(W, bins - 1) && Size2Bin(W, bins, Bin2Size(W, b)) == b
  {
    var d := W * ALIGN;
    BinUnits(W, b);
    BinUnits(W, bins - 1);
    MulMono(b + 1, bins, d);
    assert (bins - 1 + 1) * d == bins * d;
    assert (b + 1) * d == b * d + d;
    MulMono(0, b, d);
    DivIs(Bin2Size(W, b) + W - 1, d, b);
  }

  /** Claim 1 is stated as an equivalence, but with unsigned sizes it is one only for the largest
  W sizes: for a size above all bins, size2bin answers -1 and bin2size(-1) wraps around. */
  lemma ClaimOneExactly(W: nat, bins: nat, range: nat, s: nat)
    requires 1 <= W && 1 <= bins && Bin2Size(W, bins - 1) < range && W <= range && s < range
    ensures s <= Bin2SizeU(W, range, Size2Bin(W, bins, s)) <==> s <= Bin2Size(W, bins - 1) || s <= range - W
  {
    if s <= Bin2Size(W, bins - 1) {
      var b := Size2Bin(W, bins, s);
      SizeFits(W, bins, s);
      BinRoundTrip(W, bins, b);
      DivIs(Bin2Size(W, b), range, 0);
    } else {
      var below: int := Bin2Size(W, -1);
      assert below + W == 0;
      DivIs(below, range, -1);
      assert below == (below / range) * range + below % range;
    }
  }

  /** A size above every bin for which claim 1's right side holds all the same. */
  lemma ClaimOneFails()
    ensures var W, bins, range, s := 8, 8, 0x1_0000_0000_0000_0000, 1000;
            s > Bin2Size(W, bins - 1) && s <= Bin2SizeU(W, range, Size2Bin(W, bins, s))
  {
    ClaimOneExactly(8, 8, 0x1_0000_0000_0000_0000, 1000);
  }

  /** How many chunks a big block of BIGBLOCK bytes, WASTE of them unusable, is cut into. */
  function BigBlock(W: nat): nat { 131072 * W }

  function Waste(W: nat): nat { W * ALIGN - W }

  function NBlocks(W: nat, s: nat): int
    requires s + W > 0
  {
    (BigBlock(W) - Waste(W)) / (s + W)
  }

  /** m chunks of size s with their headers fit into a big block, and m + 1 do not. */
  predicate MostChunks(W: nat, s: int, m: nat) {
    Waste(W) + m * (s + W) <= BigBlock(W) < Waste(W) + (m + 1) * (s + W)
  }

  lemma OneMost(W: nat, s: int, m: nat, n: nat)
    requires s + W > 0 && MostChunks(W, s, m) && MostChunks(W, s, n)
    ensures m == n
  {
    if m < n {
      MulMono(m + 1, n, s + W);
    } else if n < m {
      MulMono(n + 1, m, s + W);
    }
  }

  /** Every bin's block holds at least one chunk, as the loop of fill_bin needs, exactly when
  there are at most 65535 bins; the chunks fit in the block, and no more would. */
  lemma BlocksFit(W: nat, b: nat)
    requires W >= 1
    ensures var s := Bin2Size(W, b);
            && s >= 0 && s + W > 0
            && (NBlocks(W, s) >= 1 <==> b < 65535)
            && NBlocks(W, s) >= 0
            && MostChunks(W, s, NBlocks(W, s))
  {
    var d := W * ALIGN;
    var s := Bin2Size(W, b);
    BinUnits(W, b);
    assert (b + 1) * d == b * d + d;
    MulMono(0, b, d);
    var n := BigBlock(W) - Waste(W);
    assert n == 131071 * W;
    DivBounds(n, s + W);
    assert s + W == (2 * b + 2) * W;
    if b < 65535 {
      MulMono(2 * b + 2, 131071, W);
      if n / (s + W) < 1 { MulMono(n / (s + W), 0, s + W); }
    } else {
      MulMono(131072, 2 * b + 2, W);
      if n / (s + W) >= 1 { MulMono(1, n / (s + W), s + W); }
    }
    if n / (s + W) < 0 { MulMono(n / (s + W), -1, s + W); }
    assert (n / (s + W) + 1) * (s + W) == (n / (s + W)) * (s + W) + (s + W);
  }
}
