/** Byte strings cut into slices of eight bytes, and the order of slices. */
module TrieSlice {

  type Byte = x: int | 0 <= x < 256

  type Key = seq<Byte>

  const KEYSLICE_LENGTH := 8

  /** Range of keyslice_t. */
  const SLICE_RANGE := 0x1_0000_0000_0000_0000

  /** The byte at i, a string being padded with zeroes. */
  function ByteAt(k: Key, i: nat): Byte {
    if i < |k| then k[i] else 0
  }

  /** The first n bytes, most significant first. */
  function Pack(k: Key, n: nat): nat {
    if n == 0 then 0 else Pack(k, n - 1) * 256 + ByteAt(k, n - 1)
  }

  function Slice(k: Key): nat {
    Pack(k, KEYSLICE_LENGTH)
  }

  function Pow256(n: nat): nat {
    if n == 0 then 1 else 256 * Pow256(n - 1)
  }

  lemma {:induction false} PackBound(k: Key, n: nat)
    ensures Pack(k, n) < Pow256(n)
  {
    if n > 0 { PackBound(k, n - 1); }
  }

  predicate SameBytes(a: Key, b: Key, n: nat) {
    forall i | 0 <= i < n :: ByteAt(a, i) == ByteAt(b, i)
  }

  /** Among the first n bytes a and b differ, and where they first do, a's is the smaller. */
  predicate LessBytes(a: Key, b: Key, n: nat) {
    n > 0 && (LessBytes(a, b, n - 1) || (SameBytes(a, b, n - 1) && ByteAt(a, n - 1) < ByteAt(b, n - 1)))
  }

  lemma {:induction false} FirstDifference(a: Key, b: Key, n: nat) returns (i: nat)
    requires LessBytes(a, b, n)
    ensures i < n && SameBytes(a, b, i) && ByteAt(a, i) < ByteAt(b, i)
  {
    if LessBytes(a, b, n - 1) {
      i := FirstDifference(a, b, n - 1);
    } else {
      i := n - 1;
    }
  }

  /** Slices compare as their bytes do. */
  lemma {:induction false} PackCompare(a: Key, b: Key, n: nat)
    ensures Pack(a, n) == Pack(b, n) <==> SameBytes(a, b, n)
    ensures Pack(a, n) < Pack(b, n) <==> LessBytes(a, b, n)
  {
    if n > 0 {
      PackCompare(a, b, n - 1);
      assert SameBytes(a, b, n) <==> SameBytes(a, b, n - 1) && ByteAt(a, n - 1) == ByteAt(b, n - 1);
    }
  }

  /** At i, where a and b first differ, a has ended or has the smaller byte. */
  predicate LessAt(a: Key, b: Key, i: nat) {
    && i <= |a| && i < |b| && (forall j | 0 <= j < i :: a[j] == b[j])
    && (i == |a| || a[i] < b[i])
  }

  /** Lexicographic order of byte strings, a proper prefix coming first. */
  ghost predicate LexLess(a: Key, b: Key) {
    exists i: nat :: LessAt(a, b, i)
  }

  function LengthClass(k: Key): nat {
    if |k| <= KEYSLICE_LENGTH then |k| else KEYSLICE_LENGTH + 1
  }

  function Rest(k: Key): Key
    requires |k| > KEYSLICE_LENGTH
  {
    k[KEYSLICE_LENGTH..]
  }

  /** The order in which the trie holds keys: by slice, then by length up to nine, then by what
  follows the slice. */
  predicate TrieLess(a: Key, b: Key) {
    if Slice(a) != Slice(b) then Slice(a) < Slice(b)
    else if LengthClass(a) != LengthClass(b) then LengthClass(a) < LengthClass(b)
    else |a| > KEYSLICE_LENGTH && TrieLess(Rest(a), Rest(b))
  }

  /** Keys with the same slice: equal, one a prefix of the other, or longer than a slice with a
  common beginning. */
  lemma SameSlice(a: Key, b: Key)
    requires Slice(a) == Slice(b)
    ensures |a| <= KEYSLICE_LENGTH && |a| <= |b| ==> a == b[..|a|]
    ensures |a| > KEYSLICE_LENGTH && |b| > KEYSLICE_LENGTH ==> a[..KEYSLICE_LENGTH] == b[..KEYSLICE_LENGTH]
  {
    PackCompare(a, b, KEYSLICE_LENGTH);
    forall i | 0 <= i < KEYSLICE_LENGTH && i < |a| && i < |b| ensures a[i] == b[i] {
      assert ByteAt(a, i) == ByteAt(b, i);
    }
  }

  /** Slice, capped length and remainder together determine the key. */
  lemma KeyParts(a: Key, b: Key)
    requires Slice(a) == Slice(b) && LengthClass(a) == LengthClass(b)
    requires |a| > KEYSLICE_LENGTH ==> Rest(a) == Rest(b)
    ensures a == b
  {
    SameSlice(a, b);
    if |a| > KEYSLICE_LENGTH {
      assert a == a[..KEYSLICE_LENGTH] + Rest(a) && b == b[..KEYSLICE_LENGTH] + Rest(b);
    }
  }

  lemma LexLessAt(a: Key, b: Key, i: nat)
    requires LessAt(a, b, i)
    ensures LexLess(a, b) && !LexLess(b, a)
  {
  }

  lemma LexRest(a: Key, b: Key, n: nat)
    requires n <= |a| && n <= |b| && a[..n] == b[..n]
    ensures LexLess(a, b) <==> LexLess(a[n..], b[n..])
  {
    forall j | 0 <= j < n ensures a[j] == b[j] {
      assert a[j] == a[..n][j];
    }
    if LexLess(a, b) {
      var i: nat :| LessAt(a, b, i);
      assert i >= n;
      assert LessAt(a[n..], b[n..], i - n);
    }
    if LexLess(a[n..], b[n..]) {
      var i: nat :| LessAt(a[n..], b[n..], i);
      forall j | n <= j < n + i ensures a[j] == b[j] {
        assert a[n..][j - n] == b[n..][j - n];
      }
      assert LessAt(a, b, n + i);
    }
  }

  /** A smaller slice means a smaller string. */
  lemma LessSlice(a: Key, b: Key)
    requires Slice(a) < Slice(b)
    ensures LexLess(a, b) && !LexLess(b, a)
  {
    PackCompare(a, b, KEYSLICE_LENGTH);
    var i := FirstDifference(a, b, KEYSLICE_LENGTH);
    var m := if i < |a| then i else |a|;
    forall j | 0 <= j < m ensures a[j] == b[j] {
      assert ByteAt(a, j) == ByteAt(b, j);
    }
    LexLessAt(a, b, m);
  }

  /** The trie's order is the lexicographic order. */
  lemma {:induction false} TrieOrder(a: Key, b: Key)
    ensures TrieLess(a, b) <==> LexLess(a, b)
  {
    if Slice(a) < Slice(b) {
      LessSlice(a, b);
    } else if Slice(b) < Slice(a) {
      LessSlice(b, a);
    } else {
      SameSlice(a, b);
      SameSlice(b, a);
      if LengthClass(a) < LengthClass(b) {
        LexLessAt(a, b, |a|);
      } else if LengthClass(b) < LengthClass(a) {
        LexLessAt(b, a, |b|);
      } else if |a| <= KEYSLICE_LENGTH {
        assert a == b;
      } else {
        TrieOrder(Rest(a), Rest(b));
        LexRest(a, b, KEYSLICE_LENGTH);
      }
    }
  }

  /** UTIL_GetNextKeySlice of index_string.c: pads strings shorter than a slice, and looks only at
  the first slice of longer ones. */
  method GetNextKeySlice(str: Key) returns (res: nat)
    ensures res == Slice(str) < SLICE_RANGE
  {
    res := 0;
    var i := 0;
    while i < KEYSLICE_LENGTH
      invariant 0 <= i <= KEYSLICE_LENGTH && res == Pack(str, i) < Pow256(i)
    {
      PackBound(str, i + 1);
      Pow256Fits(i + 1);
      res := res * 256 % SLICE_RANGE;
      if i < |str| {
        res := res + str[i];
      }
      i := i + 1;
    }
    Pow256Fits(8);
  }

  lemma Pow256Is()
    ensures Pow256(8) == SLICE_RANGE
  {
  }

  lemma Pow256Fits(n: nat)
    requires n <= 8
    ensures Pow256(n) <= SLICE_RANGE
  {
    assert Pow256(8) == 256 * (256 * (256 * (256 * Pow256(4)))) == SLICE_RANGE;
    assert Pow256(4) == 256 * (256 * (256 * (256 * Pow256(0))));
  }

  /** UTIL_GetNextKeySlice of util.c, for strings of at most one slice, in two loops. */
  method GetNextKeySliceShort(str: Key) returns (res: nat)
    requires |str| <= KEYSLICE_LENGTH
    ensures res == Slice(str) < SLICE_RANGE
  {
    res := 0;
    var i := 0;
    while i < |str|
      invariant 0 <= i <= |str| && res == Pack(str, i)
    {
      PackBound(str, i + 1);
      Pow256Fits(i + 1);
      res := res * 256 % SLICE_RANGE;
      res := res + str[i];
      i := i + 1;
    }
    while i < KEYSLICE_LENGTH
      invariant |str| <= i <= KEYSLICE_LENGTH && res == Pack(str, i)
    {
      PackBound(str, i + 1);
      Pow256Fits(i + 1);
      res := res * 256 % SLICE_RANGE;
      i := i + 1;
    }
    PackBound(str, 8);
    Pow256Fits(8);
  }

  /** Every value of keyslice_t is the slice of some string. */
  lemma {:induction false} Unpack(s: nat, n: nat) returns (k: Key)
    requires s < Pow256(n)
    ensures |k| == n && Pack(k, n) == s
  {
    if n == 0 {
      k := [];
    } else {
      var k' := Unpack(s / 256, n - 1);
      k := k' + [s % 256];
      PackCompare(k, k', n - 1);
    }
  }

  /** UTIL_KeySliceToStr: a string of length len is recovered from its slice. */
  method KeySliceToStr(keySlice: nat, len: nat) returns (res: Key)
    requires len <= KEYSLICE_LENGTH && keySlice < SLICE_RANGE
    ensures |res| == len
    ensures forall k: Key | Slice(k) == keySlice && |k| >= len :: res == k[..len]
  {
    Pow256Is();
    ghost var w := Unpack(keySlice, 8);
    var buf := new Byte[len];
    var i := 7;
    var s := keySlice;
    while i >= 0
      invariant -1 <= i <= 7 && s == Pack(w, i + 1)
      invariant forall j | i < j < len :: buf[j] == ByteAt(w, j)
    {
      assert s == Pack(w, i) * 256 + ByteAt(w, i);
      if i < len {
        buf[i] := s % 256;
      }
      s := s / 256;
      i := i - 1;
    }
    res := buf[..];
    forall k: Key | Slice(k) == keySlice && |k| >= len ensures res == k[..len] {
      PackCompare(k, w, 8);
      forall j | 0 <= j < len ensures res[j] == k[j] {
        assert ByteAt(k, j) == ByteAt(w, j);
      }
    }
  }
}
