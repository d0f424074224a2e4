/** The sequential scan of a relation through its B+ tree cursor, and what it costs. */
module BtreeScan {
  import opened Sets
  import opened Wrappers
  import opened BtreeShape
  import opened BtreePath
  import opened BtreeCursor

  const NULL: Ptr := 0

  /** The environment of a seq_scan iterator. */
  class SeqScan {
    const c: Cursor
    ghost var done: seq<Key>      // the keys of the records delivered so far
    ghost var changes: nat        // the cursor's level changes so far

    ghost predicate Valid()
      reads this, c, c.relation, c.ancestorsIdx, c.ancestors
    {
      && c.Valid()
      && Ranked(c.relation.nodes, done)
      && c.Pos() == |done|
      && changes <= 2 * c.OpenedHere()
    }

    /** seq_scan_init: a new cursor, which RL_NewCursor leads down to the first record, and
    RL_MoveToFirst once more. */
    constructor (bt: Relation)
      requires bt.Valid() && bt.numRecords < 0x2000_0000_0000_0000
      ensures Valid() && c.relation == bt && done == [] && fresh(c) && fresh(c.ancestors) && fresh(c.ancestorsIdx)
    {
      var cursor := new Cursor(bt);
      c := cursor;
      done := [];
      changes := cursor.level;
      new;
      var valid, moved := c.RL_MoveToFirst();
      changes := changes + moved;
    }

    /** seq_scan_next: the record at the cursor, which moves on; NULL after the last one, which a
    null record looks like as well. */
    method Next() returns (r: Ptr, ghost k: Key, ghost more: bool)
      requires Valid()
      modifies this`done, this`changes, c`level, c.ancestors, c.ancestorsIdx
      ensures Valid()
      ensures more <==> |old(done)| < c.relation.numRecords
      ensures |done| <= c.relation.numRecords
      ensures if more then done == old(done) + [k] && Stored(c.relation.nodes, k, r) else done == old(done) && r == NULL
    {
      r, k, more := NULL, 0, false;
      var valid := c.IsValid();
      RankLimit(c.relation.nodes, c.relation.pl, c.relation.root, c.CurrNode(), c.EntryIndex());
      if c.relation.nodes[c.relation.root].numKeys() == 0 {
        EmptyRoot(c.relation.nodes, c.relation.pl, c.relation.root);
        return;
      }
      if !valid {
        return;
      }
      more := true;
      r, k := Deliver();
    }

    method Deliver() returns (rec: Ptr, ghost k: Key)
      requires Valid() && c.Pos() < c.relation.numRecords && !c.Exhausted()
      modifies this`done, this`changes, c`level, c.ancestors, c.ancestorsIdx
      ensures Valid() && done == old(done) + [k] && Stored(c.relation.nodes, k, rec)
      ensures |done| <= c.relation.numRecords
    {
      ghost var moved;
      rec, k, moved := c.RL_GetRecord();
      changes := changes + moved;
      moved := c.RL_MoveToNext();
      changes := changes + moved;
      done := done + [k];
    }
  }

  ghost predicate Stored(nodes: Nodes, k: Key, rec: Ptr) {
    k in Contents(nodes) && Contents(nodes)[k] == rec
  }

  lemma RankLimit(nodes: Nodes, pl: Places, root: Ptr, x: Ptr, i: nat)
    requires Consistent(nodes, pl, root, None) && x in nodes && nodes[x].isLeaf && i <= |nodes[x].entries|
    ensures Position(nodes, pl, x, i) <= |Contents(nodes)| == |KeysOf(nodes)|
  {
    ExhaustedIff(nodes, pl, root, x, i);
    RecordCount(nodes);
  }

  /** The i-th key has exactly i stored keys below it. */
  ghost predicate Ranked(nodes: Nodes, ks: seq<Key>) {
    forall i | 0 <= i < |ks| :: ks[i] in KeysOf(nodes) && |KeysBelow(nodes, ks[i])| == i
  }

  /** RL_IsEmpty: a root without keys is an empty leaf, and the relation is empty. */
  lemma EmptyRoot(nodes: Nodes, pl: Places, root: Ptr)
    requires Consistent(nodes, pl, root, None) && |nodes[root].entries| == 0
    ensures |KeysOf(nodes)| == 0
  {
    assert NodeOk(nodes, pl, root);
    forall k | k in KeysOf(nodes) ensures false
    {
      var i := KeyInLeaf(nodes, pl, root, root, k);
    }
    assert KeysOf(nodes) == {};
  }

  ghost predicate Increasing(ks: seq<Key>) {
    forall i, j | 0 <= i < j < |ks| :: ks[i] < ks[j]
  }

  /** Ranked keys are strictly increasing. */
  lemma RankedIncreasing(nodes: Nodes, ks: seq<Key>)
    requires Ranked(nodes, ks)
    ensures Increasing(ks)
  {
    forall i, j | 0 <= i < j < |ks| ensures ks[i] < ks[j]
    {
      if ks[j] < ks[i] { RankGrows(nodes, ks[j], ks[i]); }
    }
  }

  function KeySet(ks: seq<Key>): set<Key> {
    set k | k in ks
  }

  lemma {:induction false} IncreasingSize(ks: seq<Key>)
    requires Increasing(ks)
    ensures |KeySet(ks)| == |ks|
  {
    if ks == [] {
      assert KeySet(ks) == {};
    } else {
      var front, last := ks[..|ks| - 1], ks[|ks| - 1];
      IncreasingSize(front);
      assert last !in KeySet(front) by {
        forall i | 0 <= i < |front| ensures front[i] != last { assert front[i] == ks[i]; }
      }
      assert ks == front + [last];
      assert KeySet(ks) == KeySet(front) + {last};
    }
  }

  lemma {:induction false} Greatest(s: set<Key>) returns (m: Key)
    requires s != {}
    ensures m in s && forall k | k in s :: k <= m
  {
    var x :| x in s;
    m := x;
    if s != {x} {
      var n := Greatest(s - {x});
      m := if n > x then n else x;
      assert forall k | k in s :: k == x || k in s - {x};
    }
  }

  lemma AppendGreatest(front: seq<Key>, m: Key)
    requires Increasing(front) && forall k | k in KeySet(front) :: k < m
    ensures Increasing(front + [m]) && KeySet(front + [m]) == KeySet(front) + {m}
  {
    forall i | 0 <= i < |front| ensures front[i] < m { assert front[i] in KeySet(front); }
  }

  /** A set of keys in increasing order. */
  ghost function InOrder(s: set<Key>): (ks: seq<Key>)
    ensures KeySet(ks) == s && Increasing(ks)
  {
    if s == {} then []
    else
      assert exists m :: m in s && forall k | k in s :: k <= m by { var m := Greatest(s); }
      var m :| m in s && forall k | k in s :: k <= m;
      var front := InOrder(s - {m});
      AppendGreatest(front, m);
      front + [m]
  }

  function Lower(s: set<Key>, b: Key): set<Key> {
    set k | k in s && k < b
  }

  /** In an increasing sequence the keys below the i-th one are the i before it. */
  lemma OrderIsRank(ks: seq<Key>, i: nat)
    requires Increasing(ks) && i < |ks|
    ensures ks[i] in KeySet(ks) && |Lower(KeySet(ks), ks[i])| == i
  {
    var before := ks[..i];
    forall k | k in Lower(KeySet(ks), ks[i]) ensures k in before
    {
      var j :| 0 <= j < |ks| && ks[j] == k;
      assert before[j] == k;
    }
    assert Lower(KeySet(ks), ks[i]) == KeySet(before);
    IncreasingSize(before);
  }

  /** The keys of the relation in order are ranked. */
  lemma InOrderRanked(nodes: Nodes)
    ensures Ranked(nodes, InOrder(KeysOf(nodes))) && |InOrder(KeysOf(nodes))| == |KeysOf(nodes)|
  {
    var ks := InOrder(KeysOf(nodes));
    IncreasingSize(ks);
    forall i | 0 <= i < |ks| ensures ks[i] in KeysOf(nodes) && |KeysBelow(nodes, ks[i])| == i
    {
      OrderIsRank(ks, i);
      assert KeysBelow(nodes, ks[i]) == Lower(KeysOf(nodes), ks[i]);
    }
  }

  /** Ranked keys are the first keys of the relation in order. */
  lemma RankedPrefix(nodes: Nodes, ks: seq<Key>)
    requires Ranked(nodes, ks)
    ensures ks <= InOrder(KeysOf(nodes))
  {
    var all := InOrder(KeysOf(nodes));
    InOrderRanked(nodes);
    RankedIncreasing(nodes, ks);
    IncreasingSize(ks);
    SubsetSize(KeySet(ks), KeysOf(nodes));
    forall i | 0 <= i < |ks| ensures ks[i] == all[i]
    {
      SameRank(nodes, all[i], ks[i]);
    }
  }

  /** The records of a relation in the order of their keys. */
  ghost function Records(m: map<Key, Ptr>): (rs: seq<Ptr>)
    ensures |rs| == |InOrder(m.Keys)| && forall i | 0 <= i < |rs| :: rs[i] == m[InOrder(m.Keys)[i]]
  {
    var ks := InOrder(m.Keys);
    assert forall i | 0 <= i < |ks| :: ks[i] in KeySet(ks);
    seq(|ks|, i requires 0 <= i < |ks| => m[ks[i]])
  }

  lemma RecordsAreValues(m: map<Key, Ptr>)
    ensures |Records(m)| == |m| && forall r :: r in Records(m) <==> r in m.Values
  {
    var ks := InOrder(m.Keys);
    IncreasingSize(ks);
    assert |m| == |m.Keys|;
    forall r | r in m.Values ensures r in Records(m)
    {
      var k :| k in m && m[k] == r;
      assert k in KeySet(ks);
      var i :| 0 <= i < |ks| && ks[i] == k;
      assert Records(m)[i] == r;
    }
    forall i | 0 <= i < |ks| ensures Records(m)[i] in m.Values { assert ks[i] in KeySet(ks); }
  }

  /** What comes before the first null pointer. */
  function UpToNull(rs: seq<Ptr>): seq<Ptr> {
    if rs == [] || rs[0] == NULL then [] else [rs[0]] + UpToNull(rs[1..])
  }

  /** The part of a sequence before its first null. */
  predicate BeforeNull(rs: seq<Ptr>, all: seq<Ptr>) {
    rs <= all && NULL !in rs && (|rs| < |all| ==> all[|rs|] == NULL)
  }

  lemma {:induction false} UpToNullStops(all: seq<Ptr>)
    ensures BeforeNull(UpToNull(all), all)
  {
    if all != [] && all[0] != NULL {
      UpToNullStops(all[1..]);
      assert all == [all[0]] + all[1..];
    }
  }

  lemma {:induction false} UpToNullIs(rs: seq<Ptr>, n: nat)
    requires n <= |rs| && NULL !in rs[..n] && (n == |rs| || rs[n] == NULL)
    ensures UpToNull(rs) == rs[..n]
    ensures n == |rs| <==> NULL !in rs
  {
    if n > 0 {
      assert rs[0] == rs[..n][0] && rs[1..][..n - 1] == rs[..n][1..] && rs == [rs[0]] + rs[1..];
      UpToNullIs(rs[1..], n - 1);
      assert rs[..n] == [rs[0]] + rs[1..][..n - 1];
    }
  }

  ghost predicate Delivered(nodes: Nodes, ks: seq<Key>, rs: seq<Ptr>) {
    |ks| == |rs| && forall i | 0 <= i < |ks| :: Stored(nodes, ks[i], rs[i])
  }

  /** Where the loop of materialize ends: at the end of the relation, or at a null record. */
  ghost predicate Stopped(nodes: Nodes, n: nat, ks: seq<Key>, done: seq<Key>) {
    (done == ks && |ks| == n) || exists k :: done == ks + [k] && Stored(nodes, k, NULL)
  }

  lemma DeliveredOne(nodes: Nodes, ks: seq<Key>, rs: seq<Ptr>, k: Key, r: Ptr)
    requires Delivered(nodes, ks, rs) && NULL !in rs && Stored(nodes, k, r) && r != NULL
    ensures Delivered(nodes, ks + [k], rs + [r]) && NULL !in rs + [r]
  {
  }

  /** The loop of materialize: get_next until it answers NULL. */
  method Drain(it: SeqScan) returns (rs: seq<Ptr>, ghost ks: seq<Key>)
    requires it.Valid() && it.done == []
    modifies it`done, it`changes, it.c`level, it.c.ancestors, it.c.ancestorsIdx
    ensures it.Valid() && Delivered(it.c.relation.nodes, ks, rs) && NULL !in rs
    ensures Stopped(it.c.relation.nodes, it.c.relation.numRecords, ks, it.done)
  {
    var r;
    ghost var k, more;
    rs, ks := [], [];
    r, k, more := it.Next();
    while r != NULL
      invariant it.Valid() && |it.done| <= it.c.relation.numRecords
      invariant if more then it.done == ks + [k] && Stored(it.c.relation.nodes, k, r)
                else it.done == ks && r == NULL && |ks| == it.c.relation.numRecords
      invariant Delivered(it.c.relation.nodes, ks, rs) && NULL !in rs
      decreases it.c.relation.numRecords - |ks|
    {
      DeliveredOne(it.c.relation.nodes, ks, rs, k, r);
      rs, ks := rs + [r], ks + [k];
      r, k, more := it.Next();
    }
  }

  /** Records delivered for the first keys in order, up to the end or to a null record. */
  lemma FirstRecords(m: map<Key, Ptr>, ks: seq<Key>, rs: seq<Ptr>)
    requires |rs| == |ks| && ks <= InOrder(m.Keys) && NULL !in rs
    requires forall i | 0 <= i < |ks| :: ks[i] in m && m[ks[i]] == rs[i]
    requires var all := InOrder(m.Keys); |ks| == |all| || (all[|ks|] in m && m[all[|ks|]] == NULL)
    ensures rs == UpToNull(Records(m))
    ensures rs == Records(m) <==> NULL !in m.Values
  {
    var all := Records(m);
    RecordsAreValues(m);
    assert all[..|rs|] == rs;
    UpToNullIs(all, |rs|);
  }

  /** What has been delivered when the loop stops is all records in the order of their keys, up to
  the first null one. */
  lemma StoppedAtNull(nodes: Nodes, n: nat, ks: seq<Key>, rs: seq<Ptr>, done: seq<Key>)
    requires Ranked(nodes, done) && n == |Contents(nodes)|
    requires Delivered(nodes, ks, rs) && NULL !in rs && Stopped(nodes, n, ks, done)
    ensures rs == UpToNull(Records(Contents(nodes)))
    ensures rs == Records(Contents(nodes)) <==> NULL !in Contents(nodes).Values
  {
    var m := Contents(nodes);
    RankedPrefix(nodes, done);
    RecordsAreValues(m);
    assert m.Keys == KeysOf(nodes);
    if done != ks {
      var k :| done == ks + [k] && Stored(nodes, k, NULL);
      assert InOrder(m.Keys)[|ks|] == done[|ks|] == k;
    }
    FirstRecords(m, ks, rs);
  }

  /** A whole scan delivers the records in strictly increasing order of their keys, each once, up
  to the first null one, which materialize takes for the end; so it delivers all of them exactly
  when none is null.  It changes the cursor's level at most twice per tree edge. */
  method Materialize(bt: Relation) returns (rs: seq<Ptr>, ghost changes: nat)
    requires bt.Valid() && bt.numRecords < 0x2000_0000_0000_0000
    ensures rs == UpToNull(Records(Contents(bt.nodes)))
    ensures rs == Records(Contents(bt.nodes)) <==> NULL !in Contents(bt.nodes).Values
    ensures BeforeNull(rs, Records(Contents(bt.nodes)))
    ensures changes <= 2 * (|bt.nodes| - 1)
  {
    var it := new SeqScan(bt);
    ghost var ks;
    rs, ks := Drain(it);
    changes := it.changes;
    StoppedAtNull(bt.nodes, bt.numRecords, ks, rs, it.done);
    UpToNullStops(Records(Contents(bt.nodes)));
    OpenedPath(bt.nodes, bt.pl, bt.root, it.c.ancestors[..], it.c.ancestorsIdx[..], it.c.level);
  }

  /** The least key of a set comes first. */
  lemma LeastFirst(s: set<Key>, k: Key)
    requires k in s && forall j | j in s :: k <= j
    ensures InOrder(s) != [] && InOrder(s)[0] == k
  {
    var ks := InOrder(s);
    assert k in KeySet(ks);
    assert ks[0] in KeySet(ks);
  }

  /** Nothing comes before a null record under the least key. */
  lemma NullFirst(m: map<Key, Ptr>, k: Key)
    requires k in m && m[k] == NULL && forall j | j in m :: k <= j
    ensures UpToNull(Records(m)) == []
  {
    LeastFirst(m.Keys, k);
  }

  /** A put through any cursor, with the number of records that it leaves. */
  method PutRecord(c: Cursor, key: Key, rec: Ptr)
    requires c.Valid() && c.relation.numRecords + 1 < 0x2000_0000_0000_0000
    modifies c.relation, c`level, c.ancestors, c.ancestorsIdx
    ensures c.Valid() && Contents(c.relation.nodes) == old(Contents(c.relation.nodes))[key := rec]
    ensures c.relation.numRecords <= old(c.relation.numRecords) + 1
  {
    PutSize(Contents(c.relation.nodes), key, rec);
    c.RL_PutRecord(key, rec);
  }

  method OneRecord(k: Key, a: Ptr) returns (bt: Relation)
    ensures bt.Valid() && fresh(bt) && Contents(bt.nodes) == map[k := a] && bt.numRecords <= 1
  {
    bt := new Relation();
    assert bt.numRecords == |Contents(bt.nodes)| == 0;
    var c := new Cursor(bt);
    PutRecord(c, k, a);
  }

  method TwoRecords(k: Key, j: Key, a: Ptr, b: Ptr) returns (bt: Relation)
    ensures bt.Valid() && fresh(bt) && Contents(bt.nodes) == map[k := a][j := b] && bt.numRecords <= 2
  {
    bt := OneRecord(k, a);
    var c := new Cursor(bt);
    PutRecord(c, j, b);
  }

  /** It does happen: a relation with a null record under its least key, and any record under another
  one, of which a scan delivers nothing. */
  method NullEndsScan(k: Key, j: Key, rec: Ptr) returns (bt: Relation, rs: seq<Ptr>)
    requires k < j && rec != NULL
    ensures bt.Valid() && Contents(bt.nodes) == map[k := NULL, j := rec] && rs == []
  {
    bt := TwoRecords(k, j, NULL, rec);
    NullFirst(Contents(bt.nodes), k);
    ghost var changes;
    rs, changes := Materialize(bt);
  }
}
