/** What the nested-loop join contains, where the fields of a merged tuple come from, and how many
there are. */
module JoinMerge {
  import opened Sets
  import opened CompositeIndex
  import opened JoinSpec

  /** Inner attribute i is not a join attribute. */
  predicate Extra(j: Join, i: nat)
    requires i < |j.innerAttrs|
  {
    GetOffset(j.innerJoin, j.innerAttrs[i].id, j.innerAttrs[i].domain).Missing?
  }

  /** How many of the first n inner attributes are not join attributes. */
  function Extras(j: Join, n: nat): nat
    requires n <= |j.innerAttrs|
  {
    if n == 0 then 0 else Extras(j, n - 1) + if Extra(j, n - 1) then 1 else 0
  }

  lemma {:induction false} ExtrasLength(j: Join, u: Tuple, n: nat)
    requires WellFormed(j) && Typed(j.innerAttrs, u) && n <= |j.innerAttrs|
    ensures |NotJoined(j, u, n)| == Extras(j, n)
  {
    if n > 0 { ExtrasLength(j, u, n - 1); }
  }

  lemma {:induction false} ExtraAt(j: Join, u: Tuple, n: nat, i: nat)
    requires WellFormed(j) && Typed(j.innerAttrs, u) && i < n <= |j.innerAttrs| && Extra(j, i)
    requires Found(j.innerAttrs, j.innerAttrs[i])
    ensures Extras(j, i) < |NotJoined(j, u, n)|
    ensures NotJoined(j, u, n)[Extras(j, i)] == FieldOf(j.innerAttrs, u, j.innerAttrs[i])
  {
    ExtrasLength(j, u, n - 1);
    if i < n - 1 {
      ExtraAt(j, u, n - 1, i);
    }
  }

  /** The merged tuple starts with the outer one, and has each field of the inner tuple that is not
  a join attribute, in the order of the attributes. */
  lemma MergedField(j: Join, t: Tuple, u: Tuple, i: nat)
    requires WellFormed(j) && Typed(j.innerAttrs, u) && i < |j.innerAttrs| && Extra(j, i)
    ensures Merged(j, t, u)[..|t|] == t
    ensures Found(j.innerAttrs, j.innerAttrs[i]) && |t| + Extras(j, i) < |Merged(j, t, u)|
    ensures Merged(j, t, u)[|t| + Extras(j, i)] == FieldOf(j.innerAttrs, u, j.innerAttrs[i])
  {
    assert Found(j.innerAttrs, j.innerAttrs[i]);
    ExtraAt(j, u, |j.innerAttrs|, i);
  }

  /** The first n inner attributes that are join attributes. */
  ghost function Shared(j: Join, n: nat): set<nat>
    requires n <= |j.innerAttrs|
  {
    set i: nat | i < n && !Extra(j, i)
  }

  lemma {:induction false} SharedSize(j: Join, n: nat)
    requires n <= |j.innerAttrs|
    ensures |Shared(j, n)| + Extras(j, n) == n
  {
    if n > 0 {
      SharedSize(j, n - 1);
      OneMoreShared(j, n - 1);
    }
  }

  lemma OneMoreShared(j: Join, n: nat)
    requires n < |j.innerAttrs|
    ensures |Shared(j, n + 1)| == |Shared(j, n)| + if Extra(j, n) then 0 else 1
  {
    assert Shared(j, n + 1) == if Extra(j, n) then Shared(j, n) else Shared(j, n) + {n};
  }

  /** Where the first m join attributes are among the inner attributes. */
  lemma {:induction false} JoinPlaces(j: Join, m: nat) returns (places: set<nat>)
    requires WellFormed(j) && m <= |j.innerJoin|
    requires forall a, b | 0 <= a < b < |j.innerJoin| :: j.innerJoin[a].id != j.innerJoin[b].id
    ensures |places| == m && places <= Shared(j, |j.innerAttrs|)
    ensures forall i | i in places ::
              i < |j.innerAttrs| && exists a :: 0 <= a < m && j.innerJoin[a].id == j.innerAttrs[i].id
  {
    if m == 0 {
      places := {};
    } else {
      var before := JoinPlaces(j, m - 1);
      assert Found(j.innerAttrs, j.innerJoin[m - 1]);
      var i := GetOffset(j.innerAttrs, j.innerJoin[m - 1].id, j.innerJoin[m - 1].domain).i;
      assert j.innerAttrs[i].id == j.innerJoin[m - 1].id;
      places := before + {i};
    }
  }

  /** The slots index_join_next allocates for a merged tuple. */
  function Slots(j: Join): int {
    |j.outerAttrs| + |j.innerAttrs| - |j.innerJoin| + 1
  }

  /** The join list is longer by one at most than the list of the inner attributes it names. */
  ghost predicate SlotsSuffice(j: Join) {
    |j.innerJoin| <= |Shared(j, |j.innerAttrs|)| + 1
  }

  /** That is the exact condition for merged tuples to fit into their slots. */
  lemma SlotsSufficeExactly(j: Join, t: Tuple, u: Tuple)
    requires WellFormed(j) && Typed(j.outerAttrs, t) && Typed(j.innerAttrs, u)
    ensures |Merged(j, t, u)| <= Slots(j) <==> SlotsSuffice(j)
  {
    SharedSize(j, |j.innerAttrs|);
    ExtrasLength(j, u, |j.innerAttrs|);
  }

  /** It holds, with a slot to spare, when no attribute is listed twice for the join. */
  lemma MergeFits(j: Join, t: Tuple, u: Tuple)
    requires WellFormed(j) && Typed(j.outerAttrs, t) && Typed(j.innerAttrs, u)
    requires forall a, b | 0 <= a < b < |j.innerJoin| :: j.innerJoin[a].id != j.innerJoin[b].id
    ensures SlotsSuffice(j) && |Merged(j, t, u)| < Slots(j)
  {
    var places := JoinPlaces(j, |j.innerJoin|);
    SharedSize(j, |j.innerAttrs|);
    ExtrasLength(j, u, |j.innerAttrs|);
    SubsetSize(places, Shared(j, |j.innerAttrs|));
  }

  const X := Attribute("x", Int)

  /** One attribute, listed three times for the join. */
  const TRIPLE := Join([K], [K, K, K], [K, X], [K, K, K])

  /** It may fail to hold: this join is not turned down, and writes two fields into one slot. */
  lemma SlotsMayBeFew(t: Tuple, u: Tuple)
    requires Typed(TRIPLE.outerAttrs, t) && Typed(TRIPLE.innerAttrs, u)
    ensures WellFormed(TRIPLE) && !SlotsSuffice(TRIPLE)
    ensures Slots(TRIPLE) == 1 && |Merged(TRIPLE, t, u)| == 2
  {
    var j := TRIPLE;
    assert Found([K], K) && Found([K, X], K) && Looked([K, K, K], K);
    assert OffsetFrom([K, X], "x", Int, 1) == At(1);
    assert OffsetFrom([K, K, K], "x", Int, 3) == Missing;
    assert Found([K, X], X) && Looked([K, K, K], X);
    assert !Extra(j, 0) && Extra(j, 1);
    assert Extras(j, 1) == 0 && Extras(j, 2) == 1;
    SharedSize(j, 2);
    ExtrasLength(j, u, 2);
  }

  lemma {:induction false} InWithKey(attrs: Attributes, ts: seq<Tuple>, proj: Attributes, k: Key, t: Tuple)
    requires AllTyped(attrs, ts) && Resolves(attrs, proj) && proj != [] && Typed(attrs, t)
    ensures t in WithKey(attrs, ts, proj, k) <==> t in ts && Projection(attrs, t, proj) == k
  {
    if ts != [] {
      var n := |ts| - 1;
      InWithKey(attrs, ts[..n], proj, k, t);
      assert ts == ts[..n] + [ts[n]] && Typed(attrs, ts[n]);
    }
  }

  /** An outer and an inner tuple that agree on every pair of join attributes. */
  ghost predicate Pairs(j: Join, t: Tuple, u: Tuple)
    requires WellFormed(j) && Typed(j.outerAttrs, t) && Typed(j.innerAttrs, u)
  {
    forall i | 0 <= i < |j.innerJoin| ::
      && Found(j.outerAttrs, j.outerJoin[i]) && Found(j.innerAttrs, j.innerJoin[i])
      && FieldOf(j.outerAttrs, t, j.outerJoin[i]) == FieldOf(j.innerAttrs, u, j.innerJoin[i])
  }

  lemma PairsByKey(j: Join, t: Tuple, u: Tuple)
    requires WellFormed(j) && Typed(j.outerAttrs, t) && Typed(j.innerAttrs, u)
    ensures Pairs(j, t, u) <==> Projection(j.innerAttrs, u, j.innerJoin) == OuterKey(j, t)
  {
    ProjectionAgrees(j.outerAttrs, t, j.outerJoin, j.innerAttrs, u, j.innerJoin);
    assert forall i | 0 <= i < |j.innerJoin| ::
             Found(j.outerAttrs, j.outerJoin[i]) && Found(j.innerAttrs, j.innerJoin[i]);
  }

  /** The nested-loop join consists of the merges of the pairs that agree on the join attributes. */
  lemma {:induction false} InNestedLoop(j: Join, outer: seq<Tuple>, inner: seq<Tuple>, r: Tuple)
    requires WellFormed(j) && AllTyped(j.outerAttrs, outer) && AllTyped(j.innerAttrs, inner)
    ensures r in NestedLoop(j, outer, inner) <==>
            exists t, u :: t in outer && u in inner && Typed(j.outerAttrs, t) && Typed(j.innerAttrs, u)
                           && Pairs(j, t, u) && r == Merged(j, t, u)
    decreases |outer|
  {
    if outer != [] {
      InNestedLoop(j, outer[1..], inner, r);
      InMerges(j, outer[0], inner, r);
      assert outer == [outer[0]] + outer[1..];
    }
  }

  lemma InMerges(j: Join, t: Tuple, inner: seq<Tuple>, r: Tuple)
    requires WellFormed(j) && Typed(j.outerAttrs, t) && AllTyped(j.innerAttrs, inner)
    ensures r in Merges(j, t, Matching(j, inner, OuterKey(j, t))) <==>
            exists u :: u in inner && Typed(j.innerAttrs, u) && Pairs(j, t, u) && r == Merged(j, t, u)
  {
    var k := OuterKey(j, t);
    var us := Matching(j, inner, k);
    var ms := Merges(j, t, us);
    if r in ms {
      var i :| 0 <= i < |ms| && ms[i] == r;
      assert us[i] in us && Typed(j.innerAttrs, us[i]);
      InWithKey(j.innerAttrs, inner, j.innerJoin, k, us[i]);
      PairsByKey(j, t, us[i]);
    }
    forall u | u in inner && Typed(j.innerAttrs, u) && Pairs(j, t, u) && r == Merged(j, t, u) ensures r in ms {
      PairsByKey(j, t, u);
      InWithKey(j.innerAttrs, inner, j.innerJoin, k, u);
      var i :| 0 <= i < |us| && us[i] == u;
      assert ms[i] == r;
    }
  }
}
