/** index_scan and index_join on relations: the tuples come from sequential scans of B+ trees. */
module RelationJoin {
  import Tree = BtreeShape
  import Cursors = BtreeCursor
  import Scan = BtreeScan
  import opened Queue
  import opened CompositeIndex
  import opened JoinSpec
  import opened JoinMerge
  import opened JoinPositions
  import opened IndexJoin
  import opened JoinIterator

  /** What tuple pointers lead to. */
  type Memory = map<Tree.Ptr, Tuple>

  /** Every record of a relation is null, or leads to a tuple of the relation's attributes. */
  ghost predicate TuplesOk(nodes: Tree.Nodes, mem: Memory, attrs: Attributes) {
    forall r | r in Tree.Contents(nodes).Values && r != Scan.NULL :: r in mem && Typed(attrs, mem[r])
  }

  predicate Leading(mem: Memory, rs: seq<Tree.Ptr>, attrs: Attributes) {
    forall r | r in rs :: r in mem && Typed(attrs, mem[r])
  }

  /** The tuples that records lead to. */
  function Rows(mem: Memory, rs: seq<Tree.Ptr>, attrs: Attributes): (ts: seq<Tuple>)
    requires Leading(mem, rs, attrs)
    ensures |ts| == |rs| && (forall i | 0 <= i < |rs| :: ts[i] == mem[rs[i]]) && AllTyped(attrs, ts)
  {
    seq(|rs|, i requires 0 <= i < |rs| => mem[rs[i]])
  }

  lemma {:induction false} UpToNullIn(rs: seq<Tree.Ptr>)
    ensures forall r | r in Scan.UpToNull(rs) :: r in rs && r != Scan.NULL
  {
    if rs != [] && rs[0] != Scan.NULL { UpToNullIn(rs[1..]); }
  }

  lemma ScanLeads(nodes: Tree.Nodes, mem: Memory, attrs: Attributes)
    requires TuplesOk(nodes, mem, attrs)
    ensures Leading(mem, Scan.UpToNull(Scan.Records(Tree.Contents(nodes))), attrs)
  {
    UpToNullIn(Scan.Records(Tree.Contents(nodes)));
    Scan.RecordsAreValues(Tree.Contents(nodes));
  }

  /** The tuples that a scan of a relation delivers: in primary-key order, up to a null record. */
  ghost function TableRows(nodes: Tree.Nodes, mem: Memory, attrs: Attributes): (ts: seq<Tuple>)
    requires TuplesOk(nodes, mem, attrs)
    ensures AllTyped(attrs, ts)
  {
    ScanLeads(nodes, mem, attrs);
    Rows(mem, Scan.UpToNull(Scan.Records(Tree.Contents(nodes))), attrs)
  }

  lemma AllRecords(m: map<Tree.Key, Tree.Ptr>)
    requires Scan.NULL !in m.Values
    ensures Scan.UpToNull(Scan.Records(m)) == Scan.Records(m) && |Scan.Records(m)| == |m|
  {
    var rs := Scan.Records(m);
    Scan.RecordsAreValues(m);
    assert rs[..|rs|] == rs && forall r | r in rs :: r in m.Values;
    Scan.UpToNullIs(rs, |rs|);
  }

  /** These are the tuples of the keys in increasing order, up to the first key with a null record, and
  so those of all keys when no record is null. */
  lemma TableRowsInOrder(nodes: Tree.Nodes, mem: Memory, attrs: Attributes)
    requires TuplesOk(nodes, mem, attrs)
    ensures var m, ts := Tree.Contents(nodes), TableRows(nodes, mem, attrs);
            var ks := Scan.InOrder(m.Keys);
            && |ts| <= |ks| == |m|
            && (forall i | 0 <= i < |ts| ::
                  ks[i] in m && m[ks[i]] != Scan.NULL && m[ks[i]] in mem && ts[i] == mem[m[ks[i]]])
            && (|ts| < |ks| ==> ks[|ts|] in m && m[ks[|ts|]] == Scan.NULL)
    ensures Scan.NULL !in Tree.Contents(nodes).Values ==> |TableRows(nodes, mem, attrs)| == |Tree.Contents(nodes)|
  {
    var m := Tree.Contents(nodes);
    var ks, rs := Scan.InOrder(m.Keys), Scan.UpToNull(Scan.Records(m));
    Scan.RecordsAreValues(m);
    Scan.UpToNullStops(Scan.Records(m));
    ScanLeads(nodes, mem, attrs);
    forall i | 0 <= i < |ks| ensures ks[i] in m {
      assert ks[i] in Scan.KeySet(ks);
    }
    forall i | 0 <= i < |rs| ensures rs[i] == m[ks[i]] && rs[i] != Scan.NULL && rs[i] in mem {
      assert rs[i] == Scan.Records(m)[i] && rs[i] in rs;
    }
    if |rs| < |ks| { assert m[ks[|rs|]] in m.Values; }
  }

  /** The iterator seq_scan gives, drained. */
  method ScanTable(bt: Cursors.Relation, mem: Memory, attrs: Attributes) returns (ts: seq<Tuple>)
    requires bt.Valid() && bt.numRecords < 0x2000_0000_0000_0000 && TuplesOk(bt.nodes, mem, attrs)
    ensures ts == TableRows(bt.nodes, mem, attrs) && AllTyped(attrs, ts)
  {
    ghost var changes;
    var rs;
    rs, changes := Scan.Materialize(bt);
    ScanLeads(bt.nodes, mem, attrs);
    ts := Rows(mem, rs, attrs);
  }

  /** index_scan on a relation. */
  method IndexScanTable(bt: Cursors.Relation, mem: Memory, attrs: Attributes, on: Attributes)
    returns (index: Index, ghost queues: map<Key, Fifo<Tuple>>, ghost objects: set<object>)
    requires bt.Valid() && bt.numRecords < 0x2000_0000_0000_0000 && TuplesOk(bt.nodes, mem, attrs)
    requires Resolves(attrs, on) && on != []
    ensures IndexOk(index, GetSchema(on), queues, objects) && fresh(index.Repr) && fresh(objects)
    ensures forall k :: Left(queues, objects, k) == WithKey(attrs, TableRows(bt.nodes, mem, attrs), on, k)
    ensures forall k :: Selects(attrs, TableRows(bt.nodes, mem, attrs), on, k, Left(queues, objects, k))
  {
    var ts := ScanTable(bt, mem, attrs);
    index, queues, objects := IndexScan(attrs, ts, on);
  }

  /** index_join of any outer tuples on the index that index_scan builds of a relation. */
  method JoinWithTable(j: Join, ts: seq<Tuple>, inner: Cursors.Relation, mem: Memory) returns (res: Fifo<Tuple>)
    requires WellFormed(j) && SlotsSuffice(j) && AllTyped(j.outerAttrs, ts)
    requires inner.Valid() && inner.numRecords < 0x2000_0000_0000_0000 && TuplesOk(inner.nodes, mem, j.innerAttrs)
    ensures res.Valid() && fresh(res.Repr)
    ensures var us := TableRows(inner.nodes, mem, j.innerAttrs);
            && res.Contents() == FirstOnly(j, ts, us, {})
            && (res.Contents() == NestedLoop(j, ts, us) <==> RepeatsUnmatched(j, ts, us))
            && Joined(j, ts, us, res.Contents())
  {
    var us := ScanTable(inner, mem, j.innerAttrs);
    res := JoinRelations(j, ts, us);
  }

  /** The join of two relations: a scan of the outer one against an index_scan of the inner one. */
  method JoinTables(j: Join, outer: Cursors.Relation, inner: Cursors.Relation, mem: Memory) returns (res: Fifo<Tuple>)
    requires WellFormed(j) && SlotsSuffice(j)
    requires outer.Valid() && outer.numRecords < 0x2000_0000_0000_0000 && TuplesOk(outer.nodes, mem, j.outerAttrs)
    requires inner.Valid() && inner.numRecords < 0x2000_0000_0000_0000 && TuplesOk(inner.nodes, mem, j.innerAttrs)
    ensures res.Valid() && fresh(res.Repr)
    ensures var ts, us := TableRows(outer.nodes, mem, j.outerAttrs), TableRows(inner.nodes, mem, j.innerAttrs);
            && res.Contents() == FirstOnly(j, ts, us, {})
            && (res.Contents() == NestedLoop(j, ts, us) <==> RepeatsUnmatched(j, ts, us))
            && Joined(j, ts, us, res.Contents())
  {
    var ts := ScanTable(outer, mem, j.outerAttrs);
    res := JoinWithTable(j, ts, inner, mem);
  }

  /** What a scan of two records that are not null delivers. */
  lemma TwoRows(m: map<Tree.Key, Tree.Ptr>, k: Tree.Key, k': Tree.Key)
    requires k < k' && m.Keys == {k, k'} && m[k] != Scan.NULL && m[k'] != Scan.NULL
    ensures Scan.UpToNull(Scan.Records(m)) == [m[k], m[k']]
  {
    var ks := Scan.InOrder(m.Keys);
    Scan.LeastFirst(m.Keys, k);
    AllRecords(m);
    assert |m| == |m.Keys| == 2;
    assert ks[1] in Scan.KeySet(ks);
  }

  lemma OneRow(m: map<Tree.Key, Tree.Ptr>, k: Tree.Key)
    requires m.Keys == {k} && m[k] != Scan.NULL
    ensures Scan.UpToNull(Scan.Records(m)) == [m[k]]
  {
    Scan.LeastFirst(m.Keys, k);
    AllRecords(m);
    assert |m| == |m.Keys| == 1;
  }

  /** Tables of two tuples with different primary keys and the same k, and of a tuple for that k. */
  ghost predicate SameK(outer: Tree.Nodes, inner: Tree.Nodes, mem: Memory, t: Tuple, t': Tuple, u: Tuple) {
    && TuplesOk(outer, mem, BY_K.outerAttrs) && TableRows(outer, mem, BY_K.outerAttrs) == [t, t']
    && TuplesOk(inner, mem, BY_K.innerAttrs) && TableRows(inner, mem, BY_K.innerAttrs) == [u]
  }

  lemma OuterRows(outer: Tree.Nodes, mem: Memory, id: Tree.Key, id': Tree.Key, p: Tree.Ptr, p': Tree.Ptr)
    requires id < id' && Tree.Contents(outer) == map[id := p][id' := p'] && Scan.NULL !in {p, p'}
    requires {p, p'} <= mem.Keys && Typed(BY_K.outerAttrs, mem[p]) && Typed(BY_K.outerAttrs, mem[p'])
    ensures TuplesOk(outer, mem, BY_K.outerAttrs) && TableRows(outer, mem, BY_K.outerAttrs) == [mem[p], mem[p']]
  {
    TwoRows(Tree.Contents(outer), id, id');
  }

  lemma InnerRows(inner: Tree.Nodes, mem: Memory, k: Tree.Key, q: Tree.Ptr)
    requires Tree.Contents(inner) == map[k := q] && Scan.NULL != q && q in mem && Typed(BY_K.innerAttrs, mem[q])
    ensures TuplesOk(inner, mem, BY_K.innerAttrs) && TableRows(inner, mem, BY_K.innerAttrs) == [mem[q]]
  {
    OneRow(Tree.Contents(inner), k);
  }

  lemma SameKRows(outer: Tree.Nodes, inner: Tree.Nodes, id: Tree.Key, id': Tree.Key, k: Tree.Key,
                  p: Tree.Ptr, p': Tree.Ptr, q: Tree.Ptr)
    requires id < id' && p != p' && q !in {p, p'} && Scan.NULL !in {p, p', q}
    requires Tree.Contents(outer) == map[id := p][id' := p'] && Tree.Contents(inner) == map[k := q]
    ensures SameK(outer, inner, ThreeTuples(id, id', k, p, p', q), IdTuple(id, k), IdTuple(id', k), KTuple(k))
  {
    var mem := ThreeTuples(id, id', k, p, p', q);
    OuterRows(outer, mem, id, id', p, p');
    InnerRows(inner, mem, k, q);
  }

  function ThreeTuples(id: Tree.Key, id': Tree.Key, k: Tree.Key, p: Tree.Ptr, p': Tree.Ptr, q: Tree.Ptr): Memory {
    map[p := IdTuple(id, k), p' := IdTuple(id', k), q := KTuple(k)]
  }

  function IdTuple(id: Tree.Key, k: Tree.Key): (t: Tuple)
    ensures Typed(BY_K.outerAttrs, t) && t[1] == IntField(k)
  {
    [IntField(id), IntField(k)]
  }

  function KTuple(k: Tree.Key): (t: Tuple)
    ensures Typed(BY_K.innerAttrs, t) && t[0] == IntField(k)
  {
    [IntField(k)]
  }

  method JoinSameK(outer: Cursors.Relation, inner: Cursors.Relation, mem: Memory, ghost t: Tuple, ghost t': Tuple,
                   ghost u: Tuple)
    returns (res: Fifo<Tuple>)
    requires outer.Valid() && outer.numRecords <= 2 && inner.Valid() && inner.numRecords <= 1
    requires SameK(outer.nodes, inner.nodes, mem, t, t', u)
    requires Typed(BY_K.outerAttrs, t) && Typed(BY_K.outerAttrs, t') && Typed(BY_K.innerAttrs, u)
             && t[1] == t'[1] == u[0]
    ensures WellFormed(BY_K) && SlotsSuffice(BY_K) && AllTyped(BY_K.outerAttrs, [t, t'])
            && AllTyped(BY_K.innerAttrs, [u])
    ensures res.Contents() == [t] && NestedLoop(BY_K, [t, t'], [u]) == [t, t']
  {
    SecondNotServed(t, t', u);
    MergeFits(BY_K, t, u);
    res := JoinTables(BY_K, outer, inner, mem);
  }

  /** Two relations that the operations build, each with its own root. */
  method TwoTables(id: Tree.Key, id': Tree.Key, k: Tree.Key, p: Tree.Ptr, p': Tree.Ptr, q: Tree.Ptr)
    returns (outer: Cursors.Relation, inner: Cursors.Relation)
    ensures outer.Valid() && Tree.Contents(outer.nodes) == map[id := p][id' := p'] && outer.numRecords <= 2
    ensures inner.Valid() && Tree.Contents(inner.nodes) == map[k := q] && inner.numRecords <= 1
  {
    outer := Scan.TwoRecords(id, id', p, p');
    inner := Scan.OneRecord(k, q);
  }

  /** The second of these tuples is missing in the join of the tables. */
  method SecondLeftOut(id: Tree.Key, id': Tree.Key, k: Tree.Key, p: Tree.Ptr, p': Tree.Ptr, q: Tree.Ptr)
    returns (outer: Cursors.Relation, inner: Cursors.Relation, res: Fifo<Tuple>)
    requires id < id' && p != p' && q !in {p, p'} && Scan.NULL !in {p, p', q}
    ensures outer.Valid() && Tree.Contents(outer.nodes) == map[id := p][id' := p']
    ensures inner.Valid() && Tree.Contents(inner.nodes) == map[k := q]
    ensures SameK(outer.nodes, inner.nodes, ThreeTuples(id, id', k, p, p', q), IdTuple(id, k), IdTuple(id', k),
                  KTuple(k))
    ensures WellFormed(BY_K) && SlotsSuffice(BY_K)
    ensures var ts, us := [IdTuple(id, k), IdTuple(id', k)], [KTuple(k)];
            && AllTyped(BY_K.outerAttrs, ts) && AllTyped(BY_K.innerAttrs, us)
            && res.Contents() == [IdTuple(id, k)] && NestedLoop(BY_K, ts, us) == ts
  {
    outer, inner := TwoTables(id, id', k, p, p', q);
    SameKRows(outer.nodes, inner.nodes, id, id', k, p, p', q);
    res := JoinSameK(outer, inner, ThreeTuples(id, id', k, p, p', q), IdTuple(id, k), IdTuple(id', k), KTuple(k));
  }
}
