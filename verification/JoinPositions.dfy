/** What the index and the join deliver, position by position: which tuples, how often and in which
order. */
module JoinPositions {
  import opened Wrappers
  import opened CompositeIndex
  import opened JoinSpec
  import opened JoinMerge

  predicate Ascending(ps: seq<nat>) {
    forall x, y | 0 <= x < y < |ps| :: ps[x] < ps[y]
  }

  predicate AllBelow(ps: seq<nat>, n: nat) {
    forall x | 0 <= x < |ps| :: ps[x] < n
  }

  function Picked(ts: seq<Tuple>, ps: seq<nat>): (r: seq<Tuple>)
    requires AllBelow(ps, |ts|)
    ensures |r| == |ps| && forall x | 0 <= x < |ps| :: r[x] == ts[ps[x]]
  {
    seq(|ps|, x requires 0 <= x < |ps| => ts[ps[x]])
  }

  /** The positions of the tuples with a key, each once, in increasing order. */
  ghost predicate PositionsOf(attrs: Attributes, ts: seq<Tuple>, on: Attributes, k: Key, ps: seq<nat>)
    requires AllTyped(attrs, ts) && Resolves(attrs, on) && on != []
  {
    AllBelow(ps, |ts|) && Lists(ps, KeyPlaces(attrs, ts, on, k))
  }

  /** The numbers of a set, each once, in increasing order. */
  ghost predicate Lists(ps: seq<nat>, places: set<nat>) {
    Ascending(ps) && forall p: nat :: p in ps <==> p in places
  }

  ghost function KeyPlaces(attrs: Attributes, ts: seq<Tuple>, on: Attributes, k: Key): set<nat>
    requires AllTyped(attrs, ts) && Resolves(attrs, on) && on != []
  {
    set p: nat | p < |ts| && HasKey(attrs, ts[p], on, k)
  }

  /** The fields of the tuple at the attributes are those of the key. */
  ghost predicate HasKey(attrs: Attributes, t: Tuple, on: Attributes, k: Key)
    requires Typed(attrs, t) && Resolves(attrs, on)
  {
    KeyFields(k) == Fields(attrs, t, on)
  }

  lemma HasKeyIs(attrs: Attributes, t: Tuple, on: Attributes, k: Key)
    requires Typed(attrs, t) && Resolves(attrs, on) && on != []
    ensures HasKey(attrs, t, on, k) <==> Projection(attrs, t, on) == k
  {
    ProjectionFields(attrs, t, on);
    if HasKey(attrs, t, on, k) { KeyFieldsInjective(Projection(attrs, t, on), k); }
  }

  lemma {:induction false} WithKeyPositions(attrs: Attributes, ts: seq<Tuple>, on: Attributes, k: Key)
    returns (ps: seq<nat>)
    requires AllTyped(attrs, ts) && Resolves(attrs, on) && on != []
    ensures PositionsOf(attrs, ts, on, k, ps) && WithKey(attrs, ts, on, k) == Picked(ts, ps)
  {
    if ts == [] {
      ps := [];
    } else {
      var n := |ts| - 1;
      var before := WithKeyPositions(attrs, ts[..n], on, k);
      assert Typed(attrs, ts[n]);
      HasKeyIs(attrs, ts[n], on, k);
      ps := if Projection(attrs, ts[n], on) == k then before + [n] else before;
      OneMorePosition(attrs, ts, on, k, before);
    }
  }

  lemma OneMorePosition(attrs: Attributes, ts: seq<Tuple>, on: Attributes, k: Key, before: seq<nat>)
    requires AllTyped(attrs, ts) && Resolves(attrs, on) && on != [] && ts != [] && Typed(attrs, ts[|ts| - 1])
    requires AllTyped(attrs, ts[..|ts| - 1]) && PositionsOf(attrs, ts[..|ts| - 1], on, k, before)
    ensures var n := |ts| - 1;
            var ps := if HasKey(attrs, ts[n], on, k) then before + [n] else before;
            && PositionsOf(attrs, ts, on, k, ps)
            && Picked(ts, ps) == Picked(ts[..n], before) + if HasKey(attrs, ts[n], on, k) then [ts[n]] else []
  {
    var n := |ts| - 1;
    OneMorePlace(attrs, ts, on, k);
    ListsMore(before, KeyPlaces(attrs, ts[..n], on, k), n);
    PickedMore(ts, before);
  }

  lemma ListsMore(ps: seq<nat>, places: set<nat>, n: nat)
    requires Lists(ps, places) && forall p | p in places :: p < n
    ensures Lists(ps + [n], places + {n})
  {
    forall x | 0 <= x < |ps| ensures ps[x] < n { assert ps[x] in ps; }
  }

  lemma OneMorePlace(attrs: Attributes, ts: seq<Tuple>, on: Attributes, k: Key)
    requires AllTyped(attrs, ts) && Resolves(attrs, on) && on != [] && ts != []
    ensures var n := |ts| - 1;
            && AllTyped(attrs, ts[..n]) && Typed(attrs, ts[n])
            && KeyPlaces(attrs, ts, on, k) ==
               KeyPlaces(attrs, ts[..n], on, k) + if HasKey(attrs, ts[n], on, k) then {n} else {}
  {
    var n := |ts| - 1;
    assert Typed(attrs, ts[n]);
    forall p: nat | p < n ensures ts[..n][p] == ts[p] && Typed(attrs, ts[p]) {}
  }

  lemma PickedMore(ts: seq<Tuple>, ps: seq<nat>)
    requires ts != [] && AllBelow(ps, |ts| - 1)
    ensures var n := |ts| - 1;
            Picked(ts, ps) == Picked(ts[..n], ps) && Picked(ts, ps + [n]) == Picked(ts[..n], ps) + [ts[n]]
  {
  }

  /** The sequence is that of the tuples with the key: each once, in the order they come. */
  ghost predicate Selects(attrs: Attributes, ts: seq<Tuple>, on: Attributes, k: Key, r: seq<Tuple>)
    requires AllTyped(attrs, ts) && Resolves(attrs, on) && on != []
  {
    exists ps :: PositionsOf(attrs, ts, on, k, ps) && r == Picked(ts, ps)
  }

  lemma SelectsAll(attrs: Attributes, ts: seq<Tuple>, on: Attributes)
    requires AllTyped(attrs, ts) && Resolves(attrs, on) && on != []
    ensures forall k :: Selects(attrs, ts, on, k, WithKey(attrs, ts, on, k))
  {
    forall k ensures Selects(attrs, ts, on, k, WithKey(attrs, ts, on, k)) {
      var ps := WithKeyPositions(attrs, ts, on, k);
    }
  }

  // ---- pairs of positions

  type Place = (nat, nat)

  predicate Before(p: Place, q: Place) {
    p.0 < q.0 || (p.0 == q.0 && p.1 < q.1)
  }

  predicate Lexicographic(ps: seq<Place>) {
    forall x, y | 0 <= x < y < |ps| :: Before(ps[x], ps[y])
  }

  /** The outer tuple at p.0 and the inner one at p.1 agree on the join attributes.  When `seen` is
  given, only the first outer tuple of a key counts, and only if its key has not been seen. */
  ghost predicate Served(j: Join, outer: seq<Tuple>, inner: seq<Tuple>, seen: Option<set<Key>>, p: Place)
    requires WellFormed(j) && AllTyped(j.outerAttrs, outer) && AllTyped(j.innerAttrs, inner)
  {
    && p.0 < |outer| && p.1 < |inner| && PairsAt(j, outer, inner, p)
    && (seen.Some? ==> OuterKey(j, outer[p.0]) !in seen.value && FirstOfKey(j, outer, p.0))
  }

  ghost predicate PairsAt(j: Join, outer: seq<Tuple>, inner: seq<Tuple>, p: Place)
    requires WellFormed(j) && AllTyped(j.outerAttrs, outer) && AllTyped(j.innerAttrs, inner)
    requires p.0 < |outer| && p.1 < |inner|
  {
    assert Typed(j.outerAttrs, outer[p.0]) && Typed(j.innerAttrs, inner[p.1]);
    Pairs(j, outer[p.0], inner[p.1])
  }

  /** No earlier outer tuple has the same key. */
  ghost predicate FirstOfKey(j: Join, outer: seq<Tuple>, a: nat)
    requires WellFormed(j) && AllTyped(j.outerAttrs, outer) && a < |outer|
  {
    forall x: nat | x < a :: OuterKey(j, outer[x]) != OuterKey(j, outer[a])
  }

  /** These are the places, each once, in lexicographic order. */
  ghost predicate PlacesOf(j: Join, outer: seq<Tuple>, inner: seq<Tuple>, seen: Option<set<Key>>, ps: seq<Place>)
    requires WellFormed(j) && AllTyped(j.outerAttrs, outer) && AllTyped(j.innerAttrs, inner)
  {
    Lexicographic(ps) && forall p: Place :: p in ps <==> Served(j, outer, inner, seen, p)
  }

  predicate InBounds(ps: seq<Place>, m: nat, n: nat) {
    forall x | 0 <= x < |ps| :: ps[x].0 < m && ps[x].1 < n
  }

  /** The merges of the tuples at these places. */
  function MergedAt(j: Join, outer: seq<Tuple>, inner: seq<Tuple>, ps: seq<Place>): (r: seq<Tuple>)
    requires WellFormed(j) && AllTyped(j.outerAttrs, outer) && AllTyped(j.innerAttrs, inner)
    requires InBounds(ps, |outer|, |inner|)
    ensures |r| == |ps| && forall x | 0 <= x < |ps| :: r[x] == MergeOf(j, outer, inner, ps[x])
  {
    seq(|ps|, x requires 0 <= x < |ps| => MergeOf(j, outer, inner, ps[x]))
  }

  function MergeOf(j: Join, outer: seq<Tuple>, inner: seq<Tuple>, p: Place): Tuple
    requires WellFormed(j) && AllTyped(j.innerAttrs, inner) && p.0 < |outer| && p.1 < |inner|
  {
    assert Typed(j.innerAttrs, inner[p.1]);
    Merged(j, outer[p.0], inner[p.1])
  }

  lemma PlacesInBounds(j: Join, outer: seq<Tuple>, inner: seq<Tuple>, seen: Option<set<Key>>, ps: seq<Place>)
    requires WellFormed(j) && AllTyped(j.outerAttrs, outer) && AllTyped(j.innerAttrs, inner)
    requires PlacesOf(j, outer, inner, seen, ps)
    ensures InBounds(ps, |outer|, |inner|)
  {
    forall x | 0 <= x < |ps| ensures ps[x].0 < |outer| && ps[x].1 < |inner| {
      assert ps[x] in ps;
    }
  }

  /** The nested loop, or the join that serves the first outer tuple of each key. */
  function Loop(j: Join, outer: seq<Tuple>, inner: seq<Tuple>, seen: Option<set<Key>>): seq<Tuple>
    requires WellFormed(j) && AllTyped(j.outerAttrs, outer) && AllTyped(j.innerAttrs, inner)
  {
    match seen
    case None => NestedLoop(j, outer, inner)
    case Some(ks) => FirstOnly(j, outer, inner, ks)
  }

  /** The places of the first outer tuple, and those of the others. */
  function Extended(qs: seq<nat>, rest: seq<Place>): (ps: seq<Place>)
    ensures |ps| == |qs| + |rest|
    ensures forall x | 0 <= x < |qs| :: ps[x] == (0, qs[x])
    ensures forall x | 0 <= x < |rest| :: ps[|qs| + x] == (rest[x].0 + 1, rest[x].1)
  {
    seq(|qs| + |rest|, x requires 0 <= x < |qs| + |rest| =>
      if x < |qs| then (0, qs[x]) else (rest[x - |qs|].0 + 1, rest[x - |qs|].1))
  }

  lemma ExtendedHas(qs: seq<nat>, rest: seq<Place>, p: Place)
    ensures p in Extended(qs, rest) <==> if p.0 == 0 then p.1 in qs else (p.0 - 1, p.1) in rest
  {
    var ps := Extended(qs, rest);
    if p.0 == 0 && p.1 in qs {
      var x :| 0 <= x < |qs| && qs[x] == p.1;
      assert ps[x] == p;
    }
    if p.0 != 0 && (p.0 - 1, p.1) in rest {
      var x :| 0 <= x < |rest| && rest[x] == (p.0 - 1, p.1);
      assert ps[|qs| + x] == p;
    }
    if p in ps {
      var x :| 0 <= x < |ps| && ps[x] == p;
      if x >= |qs| { assert ps[|qs| + (x - |qs|)] == (rest[x - |qs|].0 + 1, rest[x - |qs|].1); }
    }
  }

  lemma ExtendedOrder(qs: seq<nat>, rest: seq<Place>)
    requires Ascending(qs) && Lexicographic(rest)
    ensures Lexicographic(Extended(qs, rest))
  {
    var ps := Extended(qs, rest);
    forall x, y | 0 <= x < y < |ps| ensures Before(ps[x], ps[y]) {
      if x >= |qs| {
        assert ps[|qs| + (x - |qs|)] == (rest[x - |qs|].0 + 1, rest[x - |qs|].1);
        assert Before(rest[x - |qs|], rest[y - |qs|]);
      }
      if y >= |qs| { assert ps[|qs| + (y - |qs|)] == (rest[y - |qs|].0 + 1, rest[y - |qs|].1); }
    }
  }

  /** Which places the first outer tuple has. */
  lemma FirstPlaces(j: Join, outer: seq<Tuple>, inner: seq<Tuple>, seen: Option<set<Key>>) returns (qs: seq<nat>)
    requires WellFormed(j) && AllTyped(j.outerAttrs, outer) && AllTyped(j.innerAttrs, inner) && outer != []
    ensures Ascending(qs) && AllBelow(qs, |inner|)
    ensures forall b: nat :: b in qs <==> Served(j, outer, inner, seen, (0, b))
    ensures var k := OuterKey(j, outer[0]);
            Picked(inner, qs) == if seen.Some? && k in seen.value then [] else Matching(j, inner, k)
  {
    var k := OuterKey(j, outer[0]);
    qs := WithKeyPositions(j.innerAttrs, inner, j.innerJoin, k);
    forall b: nat | b < |inner| ensures b in qs <==> PairsAt(j, outer, inner, (0, b)) {
      assert Typed(j.outerAttrs, outer[0]) && Typed(j.innerAttrs, inner[b]);
      PairsByKey(j, outer[0], inner[b]);
      HasKeyIs(j.innerAttrs, inner[b], j.innerJoin, k);
    }
    if seen.Some? && k in seen.value { qs := []; }
  }

  function SeenAfter(seen: Option<set<Key>>, k: Key): Option<set<Key>> {
    match seen
    case None => None
    case Some(ks) => Some(ks + {k})
  }

  /** A place of a later outer tuple is one of what remains without the first. */
  lemma LaterPlaces(j: Join, outer: seq<Tuple>, inner: seq<Tuple>, seen: Option<set<Key>>, p: Place)
    requires WellFormed(j) && AllTyped(j.outerAttrs, outer) && AllTyped(j.innerAttrs, inner) && outer != [] && p.0 > 0
    ensures AllTyped(j.outerAttrs, outer[1..])
    ensures Served(j, outer, inner, seen, p)
            <==> Served(j, outer[1..], inner, SeenAfter(seen, OuterKey(j, outer[0])), (p.0 - 1, p.1))
  {
    var rest := outer[1..];
    assert forall x | 0 <= x < |rest| :: rest[x] == outer[x + 1];
    if p.0 < |outer| {
      assert FirstOfKey(j, outer, p.0) <==>
             FirstOfKey(j, rest, p.0 - 1) && OuterKey(j, outer[0]) != OuterKey(j, outer[p.0]);
    }
  }

  /** The nested loop gives the merges of the places that agree, each once, in lexicographic order;
  the other join those whose outer tuple is the first of its key. */
  lemma {:induction false} LoopPlaces(j: Join, outer: seq<Tuple>, inner: seq<Tuple>, seen: Option<set<Key>>)
    returns (ps: seq<Place>)
    requires WellFormed(j) && AllTyped(j.outerAttrs, outer) && AllTyped(j.innerAttrs, inner)
    ensures PlacesOf(j, outer, inner, seen, ps) && InBounds(ps, |outer|, |inner|)
    ensures Loop(j, outer, inner, seen) == MergedAt(j, outer, inner, ps)
    decreases |outer|
  {
    if outer == [] {
      ps := [];
    } else {
      var k := OuterKey(j, outer[0]);
      var qs := FirstPlaces(j, outer, inner, seen);
      var rest := LoopPlaces(j, outer[1..], inner, SeenAfter(seen, k));
      ps := Extended(qs, rest);
      ExtendedOrder(qs, rest);
      forall p: Place ensures p in ps <==> Served(j, outer, inner, seen, p) {
        ExtendedHas(qs, rest, p);
        if p.0 > 0 { LaterPlaces(j, outer, inner, seen, p); }
      }
      PlacesInBounds(j, outer, inner, seen, ps);
      LoopStep(j, outer, inner, seen, qs, rest);
    }
  }

  lemma LoopStep(j: Join, outer: seq<Tuple>, inner: seq<Tuple>, seen: Option<set<Key>>, qs: seq<nat>, rest: seq<Place>)
    requires WellFormed(j) && AllTyped(j.outerAttrs, outer) && AllTyped(j.innerAttrs, inner) && outer != []
    requires AllBelow(qs, |inner|) && InBounds(rest, |outer| - 1, |inner|)
    requires InBounds(Extended(qs, rest), |outer|, |inner|)
    requires var k := OuterKey(j, outer[0]);
             && Picked(inner, qs) == (if seen.Some? && k in seen.value then [] else Matching(j, inner, k))
             && Loop(j, outer[1..], inner, SeenAfter(seen, k)) == MergedAt(j, outer[1..], inner, rest)
    ensures Loop(j, outer, inner, seen) == MergedAt(j, outer, inner, Extended(qs, rest))
  {
    var us := Picked(inner, qs);
    PickedTyped(j.innerAttrs, inner, qs);
    LoopUnfolds(j, outer, inner, seen, us);
    MergedExtended(j, outer, inner, qs, rest);
  }

  lemma PickedTyped(attrs: Attributes, ts: seq<Tuple>, qs: seq<nat>)
    requires AllTyped(attrs, ts) && AllBelow(qs, |ts|)
    ensures AllTyped(attrs, Picked(ts, qs))
  {
  }

  lemma LoopUnfolds(j: Join, outer: seq<Tuple>, inner: seq<Tuple>, seen: Option<set<Key>>, us: seq<Tuple>)
    requires WellFormed(j) && AllTyped(j.outerAttrs, outer) && AllTyped(j.innerAttrs, inner) && outer != []
    requires AllTyped(j.innerAttrs, us)
    requires var k := OuterKey(j, outer[0]);
             us == if seen.Some? && k in seen.value then [] else Matching(j, inner, k)
    ensures Loop(j, outer, inner, seen) ==
            Merges(j, outer[0], us) + Loop(j, outer[1..], inner, SeenAfter(seen, OuterKey(j, outer[0])))
  {
    if us == [] { assert Merges(j, outer[0], us) == []; }
  }

  lemma MergedExtended(j: Join, outer: seq<Tuple>, inner: seq<Tuple>, qs: seq<nat>, rest: seq<Place>)
    requires WellFormed(j) && AllTyped(j.outerAttrs, outer) && AllTyped(j.innerAttrs, inner) && outer != []
    requires AllBelow(qs, |inner|) && InBounds(rest, |outer| - 1, |inner|)
    requires InBounds(Extended(qs, rest), |outer|, |inner|) && AllTyped(j.innerAttrs, Picked(inner, qs))
    ensures MergedAt(j, outer, inner, Extended(qs, rest)) ==
            Merges(j, outer[0], Picked(inner, qs)) + MergedAt(j, outer[1..], inner, rest)
  {
    var a, ps := Merges(j, outer[0], Picked(inner, qs)), Extended(qs, rest);
    var r, r' := a + MergedAt(j, outer[1..], inner, rest), MergedAt(j, outer, inner, ps);
    forall x | 0 <= x < |ps| ensures r[x] == r'[x] {
      if x < |qs| {
        HeadMerged(j, outer, inner, qs, rest, x);
      } else {
        TailMerged(j, outer, inner, qs, rest, x - |qs|);
      }
    }
  }

  lemma HeadMerged(j: Join, outer: seq<Tuple>, inner: seq<Tuple>, qs: seq<nat>, rest: seq<Place>, x: nat)
    requires WellFormed(j) && AllTyped(j.outerAttrs, outer) && AllTyped(j.innerAttrs, inner) && outer != []
    requires AllBelow(qs, |inner|) && x < |qs|
    requires InBounds(Extended(qs, rest), |outer|, |inner|) && AllTyped(j.innerAttrs, Picked(inner, qs))
    ensures MergedAt(j, outer, inner, Extended(qs, rest))[x] == Merges(j, outer[0], Picked(inner, qs))[x]
  {
    assert Extended(qs, rest)[x] == (0, qs[x]);
  }

  lemma TailMerged(j: Join, outer: seq<Tuple>, inner: seq<Tuple>, qs: seq<nat>, rest: seq<Place>, y: nat)
    requires WellFormed(j) && AllTyped(j.outerAttrs, outer) && AllTyped(j.innerAttrs, inner) && outer != []
    requires InBounds(rest, |outer| - 1, |inner|) && y < |rest| && AllTyped(j.outerAttrs, outer[1..])
    requires InBounds(Extended(qs, rest), |outer|, |inner|)
    ensures MergedAt(j, outer, inner, Extended(qs, rest))[|qs| + y] == MergedAt(j, outer[1..], inner, rest)[y]
  {
    assert Extended(qs, rest)[|qs| + y] == (rest[y].0 + 1, rest[y].1);
    ShiftedMerge(j, outer, inner, rest[y]);
  }

  lemma ShiftedMerge(j: Join, outer: seq<Tuple>, inner: seq<Tuple>, p: Place)
    requires WellFormed(j) && AllTyped(j.innerAttrs, inner) && p.0 + 1 < |outer| && p.1 < |inner|
    ensures MergeOf(j, outer, inner, (p.0 + 1, p.1)) == MergeOf(j, outer[1..], inner, p)
  {
    assert outer[1..][p.0] == outer[p.0 + 1];
  }

  /** The result of a join: the merges of the places that are served, each once, in order. */
  ghost predicate Delivers(j: Join, outer: seq<Tuple>, inner: seq<Tuple>, seen: Option<set<Key>>, r: seq<Tuple>)
    requires WellFormed(j) && AllTyped(j.outerAttrs, outer) && AllTyped(j.innerAttrs, inner)
  {
    exists ps :: PlacesOf(j, outer, inner, seen, ps) && InBounds(ps, |outer|, |inner|)
                 && r == MergedAt(j, outer, inner, ps)
  }

  lemma {:induction false} SamePlaces(ps: seq<Place>, qs: seq<Place>)
    requires Lexicographic(ps) && Lexicographic(qs) && forall p: Place :: p in ps <==> p in qs
    ensures ps == qs
    decreases |ps|
  {
    assert |ps| > 0 ==> ps[0] in ps;
    assert |qs| > 0 ==> qs[0] in qs;
    if ps != [] {
      var m, n := |ps| - 1, |qs| - 1;
      LastPlace(ps, qs);
      forall p: Place ensures p in ps[..m] <==> p in qs[..n] {
        LastOut(ps, p);
        LastOut(qs, p);
      }
      SamePlaces(ps[..m], qs[..n]);
      assert ps == ps[..m] + [ps[m]] && qs == qs[..n] + [qs[n]];
    }
  }

  lemma LastPlace(ps: seq<Place>, qs: seq<Place>)
    requires Lexicographic(ps) && Lexicographic(qs) && (forall p: Place :: p in ps <==> p in qs) && ps != [] && qs != []
    ensures ps[|ps| - 1] == qs[|qs| - 1]
  {
    var p, q := ps[|ps| - 1], qs[|qs| - 1];
    assert p in ps && q in qs;
    var x :| 0 <= x < |qs| && qs[x] == p;
    var y :| 0 <= y < |ps| && ps[y] == q;
    assert x == |qs| - 1 || Before(p, q);
    assert y == |ps| - 1 || Before(q, p);
  }

  lemma LastOut(ps: seq<Place>, p: Place)
    requires Lexicographic(ps) && ps != []
    ensures p in ps[..|ps| - 1] <==> p in ps && p != ps[|ps| - 1]
  {
    var m := |ps| - 1;
    assert ps == ps[..m] + [ps[m]];
    forall x | 0 <= x < m ensures ps[x] != ps[m] { assert Before(ps[x], ps[m]); }
  }

  /** There is just one such sequence, and it is what the loop gives. */
  lemma DeliversLoop(j: Join, outer: seq<Tuple>, inner: seq<Tuple>, seen: Option<set<Key>>, r: seq<Tuple>)
    requires WellFormed(j) && AllTyped(j.outerAttrs, outer) && AllTyped(j.innerAttrs, inner)
    ensures Delivers(j, outer, inner, seen, r) <==> r == Loop(j, outer, inner, seen)
  {
    var ps := LoopPlaces(j, outer, inner, seen);
    if Delivers(j, outer, inner, seen, r) {
      var qs :| PlacesOf(j, outer, inner, seen, qs) && InBounds(qs, |outer|, |inner|)
                && r == MergedAt(j, outer, inner, qs);
      SamePlaces(ps, qs);
    }
  }
}
