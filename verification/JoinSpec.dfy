/** What the operators on relations compute, on sequences of tuples. */
module JoinSpec {
  import opened CompositeIndex

  datatype Attribute = Attribute(id: string, domain: Domain)

  type Attributes = seq<Attribute>

  /** A tuple has one field per attribute, of the attribute's domain. */
  predicate Typed(attrs: Attributes, t: Tuple) {
    |t| == |attrs| && forall i {:trigger Has(attrs[i].domain, t[i])} | 0 <= i < |t| :: Has(attrs[i].domain, t[i])
  }

  /** What get_offset answers; Exit stands for the end of the program. */
  datatype Offset = At(i: nat) | Missing | Exit

  predicate FirstWith(attrs: Attributes, id: string, i: nat) {
    i < |attrs| && attrs[i].id == id && forall j | 0 <= j < i :: attrs[j].id != id
  }

  /** Where the first attribute with a name is; its domain has to be the expected one. */
  function GetOffset(attrs: Attributes, id: string, dom: Domain): (r: Offset)
    ensures r.At? ==> FirstWith(attrs, id, r.i) && attrs[r.i].domain == dom
    ensures r.Missing? ==> attrs != [] && forall j | 0 <= j < |attrs| :: attrs[j].id != id
    ensures r.Exit? ==> attrs == [] || exists i: nat :: FirstWith(attrs, id, i) && attrs[i].domain != dom
  {
    if attrs == [] then Exit else OffsetFrom(attrs, id, dom, 0)
  }

  function OffsetFrom(attrs: Attributes, id: string, dom: Domain, k: nat): (r: Offset)
    requires k <= |attrs| && forall j | 0 <= j < k :: attrs[j].id != id
    ensures r.At? ==> FirstWith(attrs, id, r.i) && attrs[r.i].domain == dom
    ensures r.Missing? ==> forall j | 0 <= j < |attrs| :: attrs[j].id != id
    ensures r.Exit? ==> exists i: nat :: FirstWith(attrs, id, i) && attrs[i].domain != dom
    decreases |attrs| - k
  {
    if k == |attrs| then Missing
    else if attrs[k].id == id then
      assert FirstWith(attrs, id, k);
      if attrs[k].domain == dom then At(k) else Exit
    else OffsetFrom(attrs, id, dom, k + 1)
  }

  predicate Found(attrs: Attributes, a: Attribute) {
    GetOffset(attrs, a.id, a.domain).At?
  }

  /** Every attribute of the second list is found in the first one. */
  predicate Resolves(attrs: Attributes, proj: Attributes) {
    forall i {:trigger Found(attrs, proj[i])} | 0 <= i < |proj| :: Found(attrs, proj[i])
  }

  /** Looking for an attribute of the second list in the first one does not end the program. */
  predicate Looked(attrs: Attributes, a: Attribute) {
    !GetOffset(attrs, a.id, a.domain).Exit?
  }

  function FieldOf(attrs: Attributes, t: Tuple, a: Attribute): (f: Field)
    requires Found(attrs, a) && Typed(attrs, t)
    ensures Has(a.domain, f)
  {
    t[GetOffset(attrs, a.id, a.domain).i]
  }

  /** get_projection. */
  function Projection(attrs: Attributes, t: Tuple, proj: Attributes): Key
    requires Typed(attrs, t) && Resolves(attrs, proj) && proj != []
    decreases |proj|
  {
    var current := FieldOf(attrs, t, proj[0]);
    if |proj| == 1 then One(current)
    else
      assert forall i | 0 <= i < |proj| - 1 :: proj[1..][i] == proj[i + 1];
      Pair(current, Projection(attrs, t, proj[1..]))
  }

  /** get_schema. */
  function GetSchema(attrs: Attributes): Schema
    requires attrs != []
    decreases |attrs|
  {
    if |attrs| == 1 then Simple(attrs[0].domain)
    else TupleOf(attrs[0].domain, GetSchema(attrs[1..]))
  }

  /** Lists of attributes with the same domains, one by one. */
  predicate SameDomains(a: Attributes, b: Attributes) {
    |a| == |b| && forall i | 0 <= i < |a| :: a[i].domain == b[i].domain
  }

  /** A projection is a key for every index whose attributes have the same domains. */
  lemma {:induction false} ProjectionFits(attrs: Attributes, t: Tuple, proj: Attributes, on: Attributes)
    requires Typed(attrs, t) && Resolves(attrs, proj) && proj != [] && SameDomains(proj, on)
    ensures Fits(GetSchema(on), Projection(attrs, t, proj))
    decreases |proj|
  {
    if |proj| > 1 {
      assert forall i | 0 <= i < |proj| - 1 :: proj[1..][i] == proj[i + 1];
      ProjectionFits(attrs, t, proj[1..], on[1..]);
    }
  }

  function Fields(attrs: Attributes, t: Tuple, proj: Attributes): (fs: seq<Field>)
    requires Typed(attrs, t) && Resolves(attrs, proj)
    ensures |fs| == |proj| && forall i | 0 <= i < |proj| :: fs[i] == FieldOf(attrs, t, proj[i])
  {
    seq(|proj|, i requires 0 <= i < |proj| => FieldOf(attrs, t, proj[i]))
  }

  /** The fields of a composite key. */
  function KeyFields(key: Key): seq<Field> {
    match key
    case One(f) => [f]
    case Pair(f, rest) => [f] + KeyFields(rest)
  }

  lemma {:induction false} KeyFieldsInjective(a: Key, b: Key)
    requires KeyFields(a) == KeyFields(b)
    ensures a == b
  {
    FieldsNonEmpty(a);
    FieldsNonEmpty(b);
    assert a.f == KeyFields(a)[0] && b.f == KeyFields(b)[0];
    if a.Pair? && b.Pair? {
      assert KeyFields(a.rest) == KeyFields(a)[1..] && KeyFields(b.rest) == KeyFields(b)[1..];
      KeyFieldsInjective(a.rest, b.rest);
    }
  }

  lemma FieldsNonEmpty(a: Key)
    ensures KeyFields(a) != [] && (a.Pair? <==> |KeyFields(a)| > 1)
  {
  }

  lemma {:induction false} ProjectionFields(attrs: Attributes, t: Tuple, proj: Attributes)
    requires Typed(attrs, t) && Resolves(attrs, proj) && proj != []
    ensures KeyFields(Projection(attrs, t, proj)) == Fields(attrs, t, proj)
    decreases |proj|
  {
    if |proj| > 1 {
      assert forall i | 0 <= i < |proj| - 1 :: proj[1..][i] == proj[i + 1];
      ProjectionFields(attrs, t, proj[1..]);
      assert Fields(attrs, t, proj) == [FieldOf(attrs, t, proj[0])] + Fields(attrs, t, proj[1..]);
    }
  }

  /** Two tuples have the same projection exactly when they agree on every pair of attributes. */
  lemma {:induction false} ProjectionAgrees(attrs: Attributes, t: Tuple, proj: Attributes, attrs': Attributes,
                                            t': Tuple, proj': Attributes)
    requires Typed(attrs, t) && Resolves(attrs, proj) && proj != []
    requires Typed(attrs', t') && Resolves(attrs', proj') && |proj'| == |proj|
    ensures Projection(attrs, t, proj) == Projection(attrs', t', proj')
            <==> forall i | 0 <= i < |proj| :: FieldOf(attrs, t, proj[i]) == FieldOf(attrs', t', proj'[i])
  {
    var fs, gs := Fields(attrs, t, proj), Fields(attrs', t', proj');
    ProjectionFields(attrs, t, proj);
    ProjectionFields(attrs', t', proj');
    assert fs == gs <==> forall i | 0 <= i < |proj| :: fs[i] == gs[i];
    if fs == gs {
      KeyFieldsInjective(Projection(attrs, t, proj), Projection(attrs', t', proj'));
    }
  }

  ghost predicate AllTyped(attrs: Attributes, ts: seq<Tuple>) {
    forall i {:trigger Typed(attrs, ts[i])} | 0 <= i < |ts| :: Typed(attrs, ts[i])
  }

  /** The tuples of a relation whose projection is k, in order. */
  function WithKey(attrs: Attributes, ts: seq<Tuple>, proj: Attributes, k: Key): (r: seq<Tuple>)
    requires AllTyped(attrs, ts) && Resolves(attrs, proj) && proj != []
    ensures AllTyped(attrs, r)
  {
    if ts == [] then []
    else
      var n := |ts| - 1;
      WithKey(attrs, ts[..n], proj, k) + if Projection(attrs, ts[n], proj) == k then [ts[n]] else []
  }

  /** The arguments of a join: the attributes of both relations, and the join attributes in each. */
  datatype Join = Join(outerAttrs: Attributes, outerJoin: Attributes, innerAttrs: Attributes, innerJoin: Attributes)

  /** What index_join needs in order not to end the program or misread a key. */
  ghost predicate WellFormed(j: Join) {
    && j.innerJoin != [] && SameDomains(j.outerJoin, j.innerJoin)
    && Resolves(j.outerAttrs, j.outerJoin) && Resolves(j.innerAttrs, j.innerJoin)
    && Resolves(j.innerAttrs, j.innerAttrs)
    && forall i {:trigger Looked(j.innerJoin, j.innerAttrs[i])} | 0 <= i < |j.innerAttrs| ::
       Looked(j.innerJoin, j.innerAttrs[i])
  }

  /** The fields of an inner tuple that are not join attributes, in the order of the attributes. */
  function NotJoined(j: Join, u: Tuple, n: nat): Tuple
    requires WellFormed(j) && Typed(j.innerAttrs, u) && n <= |j.innerAttrs|
  {
    if n == 0 then []
    else
      var a := j.innerAttrs[n - 1];
      var joined := GetOffset(j.innerJoin, a.id, a.domain);
      NotJoined(j, u, n - 1) + if joined.Missing? then [FieldOf(j.innerAttrs, u, a)] else []
  }

  /** The merge of an outer and an inner tuple. */
  function Merged(j: Join, t: Tuple, u: Tuple): Tuple
    requires WellFormed(j) && Typed(j.innerAttrs, u)
  {
    t + NotJoined(j, u, |j.innerAttrs|)
  }

  function OuterKey(j: Join, t: Tuple): Key
    requires WellFormed(j) && Typed(j.outerAttrs, t)
  {
    Projection(j.outerAttrs, t, j.outerJoin)
  }

  /** The inner tuples with a key, in order. */
  function Matching(j: Join, inner: seq<Tuple>, k: Key): (r: seq<Tuple>)
    requires WellFormed(j) && AllTyped(j.innerAttrs, inner)
    ensures AllTyped(j.innerAttrs, r)
  {
    WithKey(j.innerAttrs, inner, j.innerJoin, k)
  }

  /** An outer tuple merged with each of the given inner tuples. */
  function Merges(j: Join, t: Tuple, us: seq<Tuple>): (r: seq<Tuple>)
    requires WellFormed(j) && AllTyped(j.innerAttrs, us)
    ensures |r| == |us| && forall i {:trigger r[i]} | 0 <= i < |r| :: r[i] == Merged(j, t, us[i])
  {
    seq(|us|, i requires 0 <= i < |us| => Merged(j, t, us[i]))
  }

  /** The nested-loop equi-join. */
  function NestedLoop(j: Join, outer: seq<Tuple>, inner: seq<Tuple>): seq<Tuple>
    requires WellFormed(j) && AllTyped(j.outerAttrs, outer) && AllTyped(j.innerAttrs, inner)
  {
    if outer == [] then []
    else Merges(j, outer[0], Matching(j, inner, OuterKey(j, outer[0]))) + NestedLoop(j, outer[1..], inner)
  }

  /** The join in which an outer tuple is left out when an earlier one, or one of those already
  seen, has its key. */
  function FirstOnly(j: Join, outer: seq<Tuple>, inner: seq<Tuple>, seen: set<Key>): seq<Tuple>
    requires WellFormed(j) && AllTyped(j.outerAttrs, outer) && AllTyped(j.innerAttrs, inner)
    decreases |outer|
  {
    if outer == [] then []
    else
      var k := OuterKey(j, outer[0]);
      (if k in seen then [] else Merges(j, outer[0], Matching(j, inner, k))) +
        FirstOnly(j, outer[1..], inner, seen + {k})
  }

  /** No outer tuple that is not the first with its key has a matching inner tuple. */
  ghost predicate RepeatsUnmatched(j: Join, outer: seq<Tuple>, inner: seq<Tuple>)
    requires WellFormed(j) && AllTyped(j.outerAttrs, outer) && AllTyped(j.innerAttrs, inner)
  {
    forall a, b | 0 <= a < b < |outer| && OuterKey(j, outer[a]) == OuterKey(j, outer[b]) ::
      Matching(j, inner, OuterKey(j, outer[b])) == []
  }

  ghost predicate SeenUnmatched(j: Join, outer: seq<Tuple>, inner: seq<Tuple>, seen: set<Key>)
    requires WellFormed(j) && AllTyped(j.outerAttrs, outer) && AllTyped(j.innerAttrs, inner)
  {
    forall b | 0 <= b < |outer| && OuterKey(j, outer[b]) in seen :: Matching(j, inner, OuterKey(j, outer[b])) == []
  }

  /** Serving only the first outer tuple of each key never gives more than the nested loop, and
  gives as much exactly when the others would have found nothing. */
  lemma {:induction false} FirstOnlyCompared(j: Join, outer: seq<Tuple>, inner: seq<Tuple>, seen: set<Key>)
    requires WellFormed(j) && AllTyped(j.outerAttrs, outer) && AllTyped(j.innerAttrs, inner)
    ensures |FirstOnly(j, outer, inner, seen)| <= |NestedLoop(j, outer, inner)|
    ensures RepeatsUnmatched(j, outer, inner) && SeenUnmatched(j, outer, inner, seen)
            ==> FirstOnly(j, outer, inner, seen) == NestedLoop(j, outer, inner)
    ensures |FirstOnly(j, outer, inner, seen)| == |NestedLoop(j, outer, inner)|
            ==> RepeatsUnmatched(j, outer, inner) && SeenUnmatched(j, outer, inner, seen)
    decreases |outer|
  {
    if outer != [] {
      var k := OuterKey(j, outer[0]);
      var rest := outer[1..];
      assert forall i | 0 <= i < |rest| :: rest[i] == outer[i + 1];
      FirstOnlyCompared(j, rest, inner, seen + {k});
      UnmatchedStep(j, outer, inner, seen);
    }
  }

  lemma UnmatchedStep(j: Join, outer: seq<Tuple>, inner: seq<Tuple>, seen: set<Key>)
    requires WellFormed(j) && AllTyped(j.outerAttrs, outer) && AllTyped(j.innerAttrs, inner) && outer != []
    ensures var k := OuterKey(j, outer[0]);
            RepeatsUnmatched(j, outer, inner) && SeenUnmatched(j, outer, inner, seen)
            <==> RepeatsUnmatched(j, outer[1..], inner) && SeenUnmatched(j, outer[1..], inner, seen + {k})
                 && (k in seen ==> Matching(j, inner, k) == [])
  {
  }

  /** The index join gives the nested-loop join exactly when no key of the outer relation that has
  a match occurs twice; distinct outer keys suffice. */
  lemma JoinIsNestedLoop(j: Join, outer: seq<Tuple>, inner: seq<Tuple>)
    requires WellFormed(j) && AllTyped(j.outerAttrs, outer) && AllTyped(j.innerAttrs, inner)
    ensures FirstOnly(j, outer, inner, {}) == NestedLoop(j, outer, inner) <==> RepeatsUnmatched(j, outer, inner)
    ensures (forall a, b | 0 <= a < b < |outer| :: OuterKey(j, outer[a]) != OuterKey(j, outer[b]))
            ==> RepeatsUnmatched(j, outer, inner)
  {
    FirstOnlyCompared(j, outer, inner, {});
  }

  const ID := Attribute("id", Int)
  const K := Attribute("k", Int)

  /** A join of a relation with the primary key id and an attribute k with one that has just k. */
  const BY_K := Join([ID, K], [K], [K], [K])

  lemma JoinByK(t: Tuple, u: Tuple)
    requires Typed(BY_K.outerAttrs, t) && Typed(BY_K.innerAttrs, u)
    ensures WellFormed(BY_K)
    ensures OuterKey(BY_K, t) == One(t[1]) && Merged(BY_K, t, u) == t
    ensures AllTyped(BY_K.innerAttrs, [u]) && Matching(BY_K, [u], One(u[0])) == [u]
  {
    assert FirstWith([K], "k", 0) && GetOffset([K], "k", Int) == At(0);
    assert OffsetFrom([ID, K], "k", Int, 1) == At(1);
    assert Found([K], K) && Found([ID, K], K) && Looked([K], K);
    assert NotJoined(BY_K, u, 0) == [] && NotJoined(BY_K, u, 1) == [];
    assert [u][..0] == [] && WithKey([K], [], [K], One(u[0])) == [];
  }

  /** When two outer tuples have the key of an inner one, the second is not served. */
  lemma SecondNotServed(t: Tuple, t': Tuple, u: Tuple)
    requires Typed(BY_K.outerAttrs, t) && Typed(BY_K.outerAttrs, t') && Typed(BY_K.innerAttrs, u)
    requires t[1] == t'[1] == u[0]
    ensures WellFormed(BY_K) && AllTyped(BY_K.outerAttrs, [t, t']) && AllTyped(BY_K.innerAttrs, [u])
    ensures FirstOnly(BY_K, [t, t'], [u], {}) == [t] && NestedLoop(BY_K, [t, t'], [u]) == [t, t']
  {
    JoinByK(t, u);
    JoinByK(t', u);
    var j, k := BY_K, One(u[0]);
    assert Merges(j, t, [u]) == [t] && Merges(j, t', [u]) == [t'];
    assert [t, t'][1..] == [t'] && [t'][1..] == [];
    assert NestedLoop(j, [t'], [u]) == [t'] + NestedLoop(j, [], [u]) == [t'];
    assert FirstOnly(j, [t'], [u], {} + {k}) == FirstOnly(j, [], [u], {} + {k} + {k}) == [];
    assert FirstOnly(j, [t, t'], [u], {}) == [t] + FirstOnly(j, [t'], [u], {} + {k});
  }

  /** The queues of an index that holds a relation, as sequences. */
  ghost predicate Holds(j: Join, p: map<Key, seq<Tuple>>, inner: seq<Tuple>, gone: set<Key>)
    requires WellFormed(j) && AllTyped(j.innerAttrs, inner)
  {
    forall k :: Waiting(p, k) == if k in gone then [] else Matching(j, inner, k)
  }

  function Waiting(p: map<Key, seq<Tuple>>, k: Key): seq<Tuple> {
    if k in p then p[k] else []
  }

  ghost predicate QueuesTyped(j: Join, p: map<Key, seq<Tuple>>) {
    forall k | k in p :: AllTyped(j.innerAttrs, p[k])
  }

  /** What is still to come from outer tuples, when the index has the given queues: each one takes
  all that is left in the queue of its key. */
  function Output(j: Join, outer: seq<Tuple>, p: map<Key, seq<Tuple>>): seq<Tuple>
    requires WellFormed(j) && AllTyped(j.outerAttrs, outer) && QueuesTyped(j, p)
    decreases |outer|
  {
    if outer == [] then []
    else
      var k := OuterKey(j, outer[0]);
      Merges(j, outer[0], Waiting(p, k)) + Output(j, outer[1..], p[k := []])
  }

  /** Draining the queues of an index that holds the inner relation serves the first outer tuple of
  each key. */
  lemma {:induction false} OutputIsFirstOnly(j: Join, outer: seq<Tuple>, inner: seq<Tuple>, p: map<Key, seq<Tuple>>,
                                             gone: set<Key>)
    requires WellFormed(j) && AllTyped(j.outerAttrs, outer) && AllTyped(j.innerAttrs, inner) && QueuesTyped(j, p)
    requires Holds(j, p, inner, gone)
    ensures Output(j, outer, p) == FirstOnly(j, outer, inner, gone)
    decreases |outer|
  {
    if outer != [] {
      var k := OuterKey(j, outer[0]);
      OutputIsFirstOnly(j, outer[1..], inner, p[k := []], gone + {k});
    }
  }
}
