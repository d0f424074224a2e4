/** The iterator of index_join. */
module JoinIterator {
  import opened Wrappers
  import opened Queue
  import opened CompositeIndex
  import opened JoinSpec
  import opened JoinMerge
  import opened JoinPositions
  import opened IndexJoin

  /** What all the queues hold. */
  ghost predicate Hold(queues: map<Key, Fifo<Tuple>>, objects: set<object>, p: map<Key, seq<Tuple>>)
    requires QueuesOk(queues, objects)
    reads objects
  {
    p.Keys == queues.Keys && forall k | k in queues :: queues[k].Contents() == p[k]
  }

  /** What is still to come when an outer tuple is being merged with the queue of its key. */
  function FromCurrent(j: Join, t: Tuple, outer: seq<Tuple>, p: map<Key, seq<Tuple>>): seq<Tuple>
    requires WellFormed(j) && AllTyped(j.outerAttrs, outer) && Typed(j.outerAttrs, t) && QueuesTyped(j, p)
  {
    var k := OuterKey(j, t);
    Merges(j, t, Waiting(p, k)) + Output(j, outer, p[k := []])
  }

  /** Only what is in the queues matters, not whether a queue is empty or missing. */
  lemma {:induction false} OutputSame(j: Join, outer: seq<Tuple>, p: map<Key, seq<Tuple>>, p': map<Key, seq<Tuple>>)
    requires WellFormed(j) && AllTyped(j.outerAttrs, outer) && QueuesTyped(j, p) && QueuesTyped(j, p')
    requires forall k :: Waiting(p, k) == Waiting(p', k)
    ensures Output(j, outer, p) == Output(j, outer, p')
    decreases |outer|
  {
    if outer != [] {
      var k := OuterKey(j, outer[0]);
      var q, q' := p[k := []], p'[k := []];
      forall l ensures Waiting(q, l) == Waiting(q', l) {
        assert Waiting(p, l) == Waiting(p', l);
      }
      OutputSame(j, outer[1..], q, q');
    }
  }

  /** With an empty queue the current outer tuple gives nothing more. */
  lemma NothingWaiting(j: Join, t: Tuple, outer: seq<Tuple>, p: map<Key, seq<Tuple>>)
    requires WellFormed(j) && AllTyped(j.outerAttrs, outer) && Typed(j.outerAttrs, t) && QueuesTyped(j, p)
    requires Waiting(p, OuterKey(j, t)) == []
    ensures FromCurrent(j, t, outer, p) == Output(j, outer, p)
  {
    OutputSame(j, outer, p, p[OuterKey(j, t) := []]);
  }

  lemma OutputUnfolds(j: Join, outer: seq<Tuple>, p: map<Key, seq<Tuple>>)
    requires WellFormed(j) && AllTyped(j.outerAttrs, outer) && QueuesTyped(j, p) && outer != []
    ensures Typed(j.outerAttrs, outer[0]) && AllTyped(j.outerAttrs, outer[1..])
    ensures Output(j, outer, p) == FromCurrent(j, outer[0], outer[1..], p)
  {
  }

  lemma RestTyped(attrs: Attributes, ts: seq<Tuple>)
    requires AllTyped(attrs, ts) && ts != []
    ensures Typed(attrs, ts[0]) && AllTyped(attrs, ts[1..])
  {
  }

  lemma MergesSplit(j: Join, t: Tuple, us: seq<Tuple>)
    requires WellFormed(j) && AllTyped(j.innerAttrs, us) && us != []
    ensures Merges(j, t, us) == [Merged(j, t, us[0])] + Merges(j, t, us[1..])
  {
  }

  /** What the current queue holds comes first, and then what the other queues give. */
  lemma CurrentFirst(j: Join, t: Tuple, outer: seq<Tuple>, p: map<Key, seq<Tuple>>, us: seq<Tuple>)
    requires WellFormed(j) && AllTyped(j.outerAttrs, outer) && Typed(j.outerAttrs, t) && QueuesTyped(j, p)
    requires AllTyped(j.innerAttrs, us)
    ensures var k := OuterKey(j, t);
            QueuesTyped(j, p[k := us]) && QueuesTyped(j, p[k := []])
            && FromCurrent(j, t, outer, p[k := us]) == Merges(j, t, us) + Output(j, outer, p[k := []])
  {
    var k := OuterKey(j, t);
    assert p[k := us][k := []] == p[k := []];
  }

  lemma Regroup(x: Tuple, a: seq<Tuple>, b: seq<Tuple>)
    ensures ([x] + a) + b == [x] + (a + b)
  {
  }

  /** The first inner tuple waiting for the current outer one comes next. */
  lemma OneWaiting(j: Join, t: Tuple, outer: seq<Tuple>, p: map<Key, seq<Tuple>>)
    requires WellFormed(j) && AllTyped(j.outerAttrs, outer) && Typed(j.outerAttrs, t) && QueuesTyped(j, p)
    requires Waiting(p, OuterKey(j, t)) != []
    ensures var k := OuterKey(j, t);
            && QueuesTyped(j, p[k := p[k][1..]]) && Typed(j.innerAttrs, p[k][0])
            && FromCurrent(j, t, outer, p) == [Merged(j, t, p[k][0])] + FromCurrent(j, t, outer, p[k := p[k][1..]])
  {
    var k := OuterKey(j, t);
    var us := p[k];
    RestTyped(j.innerAttrs, us);
    MergesSplit(j, t, us);
    CurrentFirst(j, t, outer, p, us);
    CurrentFirst(j, t, outer, p, us[1..]);
    Regroup(Merged(j, t, us[0]), Merges(j, t, us[1..]), Output(j, outer, p[k := []]));
    assert p[k := us] == p;
  }

  class JoinEnv {
    const j: Join
    const index: Index
    var outer: seq<Tuple>                     // what the outer iterator has still to deliver
    var currentInner: Fifo?<Tuple>
    var currentOuter: Option<Tuple>           // None is the null pointer
    ghost var key: Key                        // the key of the current queue
    ghost var left: map<Key, seq<Tuple>>      // what is in the queues
    ghost const queues: map<Key, Fifo<Tuple>>
    ghost const objects: set<object>

    /** The index and its queues. */
    ghost predicate Base()
      reads this`left, index, index.Repr, objects
    {
      && WellFormed(j)
      && IndexOk(index, GetSchema(j.innerJoin), queues, objects)
      && Hold(queues, objects, left)
    }

    /** Where the join is. */
    ghost predicate Current()
      reads this
    {
      && WellFormed(j) && AllTyped(j.outerAttrs, outer) && QueuesTyped(j, left) && left.Keys == queues.Keys
      && (currentOuter.Some? ==> Typed(j.outerAttrs, currentOuter.value))
      && (currentInner != null ==>
            && key in queues && currentInner == queues[key]
            && if currentOuter.Some? then key == OuterKey(j, currentOuter.value) else left[key] == [])
    }

    ghost predicate Valid()
      reads this, index, index.Repr, objects
    {
      Base() && Current() && this !in objects && this !in index.Repr && SlotsSuffice(j)
    }

    /** The tuples still to come. */
    ghost function Remaining(): seq<Tuple>
      requires Current()
      reads this
    {
      if currentInner == null || currentOuter == None then Output(j, outer, left)
      else FromCurrent(j, currentOuter.value, outer, left)
    }

    /** index_join and index_join_init, on an index that index_scan has built. */
    constructor (j: Join, outer: seq<Tuple>, ghost inner: seq<Tuple>, index: Index,
                 ghost queues: map<Key, Fifo<Tuple>>, ghost objects: set<object>)
      requires WellFormed(j) && SlotsSuffice(j) && AllTyped(j.outerAttrs, outer) && AllTyped(j.innerAttrs, inner)
      requires IndexOk(index, GetSchema(j.innerJoin), queues, objects)
      requires forall k :: Left(queues, objects, k) == Matching(j, inner, k)
      ensures Valid() && this.j == j && this.objects == objects
      ensures Remaining() == FirstOnly(j, outer, inner, {})
    {
      this.j, this.index, this.outer := j, index, outer;
      this.queues, this.objects := queues, objects;
      currentInner := null;
      currentOuter := None;
      key := One(IntField(0));
      left := Contents(j, queues, objects, inner);
      new;
      OutputIsFirstOnly(j, outer, inner, left, {});
    }

    /** The body of the loop of index_join_next: the next outer tuple, and the queue of its key. */
    method NextOuter()
      requires Valid() && outer != [] && (currentInner == null || left[key] == [])
      modifies this`outer, this`currentInner, this`currentOuter, this`key
      ensures Valid() && Remaining() == old(Remaining())
      ensures currentOuter.Some? && outer == old(outer)[1..]
    {
      RestTyped(j.outerAttrs, outer);
      var proj, found := LookupOuter(outer[0]);
      TakeOuter(proj, found);
    }

    method TakeOuter(proj: Key, found: Option<Fifo<Tuple>>)
      requires Current() && outer != [] && (currentInner == null || left[key] == [])
      requires Typed(j.outerAttrs, outer[0]) && proj == OuterKey(j, outer[0])
      requires found == if proj in queues then Some(queues[proj]) else None
      modifies this`outer, this`currentInner, this`currentOuter, this`key
      ensures Current() && Remaining() == old(Remaining())
      ensures currentOuter.Some? && outer == old(outer)[1..]
    {
      if currentInner != null && currentOuter.Some? {
        NothingWaiting(j, currentOuter.value, outer, left);
      }
      OutputUnfolds(j, outer, left);
      currentOuter := Some(outer[0]);
      key := proj;
      outer := outer[1..];
      currentInner := match found case None => null case Some(l) => l;
      if currentInner == null {
        NothingWaiting(j, currentOuter.value, outer, left);
      }
    }

    /** The projection of an outer tuple, and its queue. */
    method LookupOuter(t: Tuple) returns (proj: Key, found: Option<Fifo<Tuple>>)
      requires Base() && Typed(j.outerAttrs, t)
      ensures proj == OuterKey(j, t)
      ensures found == if proj in queues then Some(queues[proj]) else None
    {
      ProjectionFits(j.outerAttrs, t, j.outerJoin, j.innerJoin);
      proj := GetProjection(j.outerAttrs, t, j.outerJoin);
      found := index.Lookup(proj);
      assert index.Find(proj) == found;
    }

    /** current_inner is null or empty. */
    method InnerEmpty() returns (empty: bool)
      requires Valid()
      ensures empty <==> currentInner == null || left[key] == []
    {
      empty := true;
      if currentInner != null {
        empty := currentInner.Empty();
      }
    }

    /** The loop of index_join_next: on to an outer tuple with inner tuples waiting for it. */
    method Advance()
      requires Valid()
      modifies this`outer, this`currentInner, this`currentOuter, this`key
      ensures Valid() && Remaining() == old(Remaining())
      ensures if currentOuter == None then Remaining() == [] else currentInner != null && left[key] != []
    {
      while true
        invariant Valid() && Remaining() == old(Remaining())
        decreases |outer|
      {
        var empty := InnerEmpty();
        if !empty {
          break;
        }
        if outer == [] {
          Exhausted();
          break;
        }
        NextOuter();
      }
    }

    /** The outer iterator has no more tuples: current_outer becomes null. */
    method Exhausted()
      requires Valid() && outer == [] && (currentInner == null || left[key] == [])
      modifies this`currentOuter
      ensures Valid() && Remaining() == old(Remaining()) == [] && currentOuter == None
    {
      if currentInner != null && currentOuter.Some? {
        NothingWaiting(j, currentOuter.value, outer, left);
      }
      currentOuter := None;
    }

    /** index_join_next. */
    method Next() returns (r: Option<Tuple>)
      requires Valid()
      modifies this, objects
      ensures Valid()
      ensures r == None ==> old(Remaining()) == [] == Remaining()
      ensures r.Some? ==> old(Remaining()) == [r.value] + Remaining() && |r.value| <= Slots(j)
    {
      Advance();
      if currentOuter == None {
        return None;
      }
      var merged := ServeInner();
      r := Some(merged);
    }

    /** fifo_get on the current queue, and the merge. */
    method ServeInner() returns (merged: Tuple)
      requires Valid() && currentOuter.Some? && currentInner != null && left[key] != []
      modifies this`left, objects
      ensures Valid() && old(Remaining()) == [merged] + Remaining() && |merged| <= Slots(j)
    {
      var u := GetFirst(currentInner, key, index, queues, objects, left);
      StepLeft();
      merged := MergeTuples(j, currentOuter.value, u);
    }

    ghost method StepLeft()
      requires Current() && currentOuter.Some? && currentInner != null && left[key] != []
      modifies this`left
      ensures left == old(left)[key := old(left)[key][1..]] && Current()
      ensures Typed(j.innerAttrs, old(left)[key][0])
      ensures old(Remaining()) == [Merged(j, currentOuter.value, old(left)[key][0])] + Remaining()
    {
      OneWaiting(j, currentOuter.value, outer, left);
      left := left[key := left[key][1..]];
    }
  }

  /** fifo_get on one of the queues. */
  method GetFirst(l: Fifo<Tuple>, ghost key: Key, ghost index: Index, ghost queues: map<Key, Fifo<Tuple>>,
                  ghost objects: set<object>, ghost p: map<Key, seq<Tuple>>)
    returns (u: Tuple)
    requires IndexOk(index, index.sch, queues, objects) && Hold(queues, objects, p)
    requires key in queues && queues[key] == l && p[key] != []
    modifies objects
    ensures IndexOk(index, index.sch, queues, objects) && Hold(queues, objects, p[key := p[key][1..]])
    ensures u == p[key][0]
  {
    u := PopFirst(l, key, queues, objects, p);
  }

  method PopFirst(l: Fifo<Tuple>, ghost key: Key, ghost queues: map<Key, Fifo<Tuple>>, ghost objects: set<object>,
                  ghost p: map<Key, seq<Tuple>>)
    returns (u: Tuple)
    requires QueuesOk(queues, objects) && Hold(queues, objects, p)
    requires key in queues && queues[key] == l && p[key] != []
    modifies objects
    ensures QueuesOk(queues, objects) && Hold(queues, objects, p[key := p[key][1..]])
    ensures u == p[key][0]
  {
    u := GetHead(l, key, queues, objects);
  }

  method GetHead(l: Fifo<Tuple>, ghost key: Key, ghost queues: map<Key, Fifo<Tuple>>, ghost objects: set<object>)
    returns (u: Tuple)
    requires QueuesOk(queues, objects) && key in queues && queues[key] == l && l.Contents() != []
    modifies l
    ensures QueuesOk(queues, objects)
    ensures u == old(l.Contents())[0] && l.Contents() == old(l.Contents())[1..]
    ensures forall k | k in queues && k != key :: queues[k].Contents() == old(queues[k].Contents())
  {
    var h := l.Get();
    u := h.data;
    assert forall k | k in queues && k != key :: queues[k].Repr == old(queues[k].Repr) && queues[k].Valid();
  }

  /** The contents of queues that hold a relation. */
  ghost function Contents(j: Join, queues: map<Key, Fifo<Tuple>>, objects: set<object>, inner: seq<Tuple>)
    : (p: map<Key, seq<Tuple>>)
    requires WellFormed(j) && AllTyped(j.innerAttrs, inner) && QueuesOk(queues, objects)
    requires forall k :: Left(queues, objects, k) == Matching(j, inner, k)
    reads objects
    ensures Hold(queues, objects, p) && QueuesTyped(j, p) && Holds(j, p, inner, {})
  {
    var p := map k | k in queues :: queues[k].Contents();
    assert forall k | k in queues :: p[k] == Left(queues, objects, k) == Matching(j, inner, k);
    assert forall k :: Waiting(p, k) == Left(queues, objects, k);
    p
  }

  /** The slots suffice for what has been merged so far and for the next field. */
  lemma SlotFor(j: Join, t: Tuple, u: Tuple, n: nat)
    requires WellFormed(j) && SlotsSuffice(j) && Typed(j.outerAttrs, t) && Typed(j.innerAttrs, u)
    requires n < |j.innerAttrs|
    ensures |t| + |NotJoined(j, u, n + 1)| <= Slots(j)
  {
    SlotsSufficeExactly(j, t, u);
    NotJoinedGrows(j, u, n + 1, |j.innerAttrs|);
  }

  lemma {:induction false} NotJoinedGrows(j: Join, u: Tuple, m: nat, n: nat)
    requires WellFormed(j) && Typed(j.innerAttrs, u) && m <= n <= |j.innerAttrs|
    ensures |NotJoined(j, u, m)| <= |NotJoined(j, u, n)|
  {
    if m < n { NotJoinedGrows(j, u, m, n - 1); }
  }

  /** The end of index_join_next: slots are allocated, the outer tuple is copied into them, and then
  the fields of the inner tuple that are not join attributes. */
  method MergeTuples(j: Join, t: Tuple, u: Tuple) returns (r: Tuple)
    requires WellFormed(j) && SlotsSuffice(j) && Typed(j.outerAttrs, t) && Typed(j.innerAttrs, u)
    ensures r == Merged(j, t, u) && |r| <= Slots(j)
  {
    SlotsSufficeExactly(j, t, u);
    var newT := new Field[Slots(j)](_ => IntField(0));
    forall i | 0 <= i < |t| {
      newT[i] := t[i];
    }
    var n := CopyFields(j, t, u, newT);
    r := newT[..|t| + n];
  }

  method CopyFields(j: Join, t: Tuple, u: Tuple, newT: array<Field>) returns (n: nat)
    requires WellFormed(j) && SlotsSuffice(j) && Typed(j.outerAttrs, t) && Typed(j.innerAttrs, u)
    requires |t| <= newT.Length == Slots(j) && newT[..|t|] == t
    modifies newT
    ensures |t| + n <= newT.Length && newT[..|t| + n] == Merged(j, t, u)
  {
    n := 0;
    var l := 0;
    while l < |j.innerAttrs|
      invariant 0 <= l <= |j.innerAttrs|
      invariant n == |NotJoined(j, u, l)| && |t| + n <= newT.Length
      invariant newT[..|t| + n] == t + NotJoined(j, u, l)
    {
      var a := j.innerAttrs[l];
      var ofs := FindOffset(j.innerAttrs, a.id, a.domain);
      var joined := FindOffset(j.innerJoin, a.id, a.domain);
      assert Found(j.innerAttrs, a);
      if joined.Missing? {
        SlotFor(j, t, u, l);
        WriteSlot(newT, |t| + n, u[ofs.i]);
        n := n + 1;
      }
      l := l + 1;
    }
  }

  method WriteSlot(a: array<Field>, i: nat, f: Field)
    requires i < a.Length
    modifies a
    ensures a[..i + 1] == old(a[..i]) + [f]
  {
    a[i] := f;
  }

  /** index_scan of the inner relation, index_join, and materialize: the queue of all results. */
  method JoinRelations(j: Join, outer: seq<Tuple>, inner: seq<Tuple>) returns (res: Fifo<Tuple>)
    requires WellFormed(j) && SlotsSuffice(j) && AllTyped(j.outerAttrs, outer) && AllTyped(j.innerAttrs, inner)
    ensures res.Valid() && fresh(res.Repr)
    ensures res.Contents() == FirstOnly(j, outer, inner, {})
    ensures res.Contents() == NestedLoop(j, outer, inner) <==> RepeatsUnmatched(j, outer, inner)
    ensures Joined(j, outer, inner, res.Contents())
  {
    var index, queues, objects := IndexScan(j.innerAttrs, inner, j.innerJoin);
    var it := new JoinEnv(j, outer, inner, index, queues, objects);
    res := Materialize(it);
    JoinIsNestedLoop(j, outer, inner);
    JoinedIs(j, outer, inner, res.Contents());
  }

  /** The result has the merges of the first outer tuple of each key with all inner tuples that agree
  with it, each once, by outer and then by inner position; and it has the merges of all pairs that
  agree in this way exactly when no key with a match is repeated. */
  ghost predicate Joined(j: Join, outer: seq<Tuple>, inner: seq<Tuple>, r: seq<Tuple>)
    requires WellFormed(j) && AllTyped(j.outerAttrs, outer) && AllTyped(j.innerAttrs, inner)
  {
    && Delivers(j, outer, inner, Some({}), r)
    && (Delivers(j, outer, inner, None, r) <==> RepeatsUnmatched(j, outer, inner))
  }

  lemma JoinedIs(j: Join, outer: seq<Tuple>, inner: seq<Tuple>, r: seq<Tuple>)
    requires WellFormed(j) && AllTyped(j.outerAttrs, outer) && AllTyped(j.innerAttrs, inner)
    requires r == FirstOnly(j, outer, inner, {})
    ensures Joined(j, outer, inner, r)
  {
    DeliversLoop(j, outer, inner, Some({}), r);
    DeliversLoop(j, outer, inner, None, r);
    JoinIsNestedLoop(j, outer, inner);
  }

  /** materialize. */
  method Materialize(it: JoinEnv) returns (res: Fifo<Tuple>)
    requires it.Valid()
    modifies it, it.objects
    ensures res.Valid() && fresh(res.Repr) && res.Contents() == old(it.Remaining())
  {
    res := new Fifo<Tuple>();
    var more := true;
    while more
      invariant it.Valid() && Separate(it, res) && fresh(res.Repr)
      invariant res.Contents() + it.Remaining() == old(it.Remaining())
      invariant !more ==> it.Remaining() == []
      decreases more, |it.Remaining()|
    {
      more := MaterializeOne(it, res);
    }
  }

  /** The result shares nothing with the join. */
  ghost predicate Separate(it: JoinEnv, res: Fifo<Tuple>)
    reads it, it.index, res, res.Repr
  {
    res.Valid() && it !in res.Repr && it.index !in res.Repr && res.Repr !! it.objects && res.Repr !! it.index.Repr
  }

  lemma Reassociate(done: seq<Tuple>, t: Tuple, rest: seq<Tuple>)
    ensures (done + [t]) + rest == done + ([t] + rest)
  {
  }

  method MaterializeOne(it: JoinEnv, res: Fifo<Tuple>) returns (more: bool)
    requires it.Valid() && Separate(it, res)
    modifies it, it.objects, res.Repr
    ensures it.Valid() && Separate(it, res) && fresh(res.Repr - old(res.Repr))
    ensures res.Contents() + it.Remaining() == old(res.Contents()) + old(it.Remaining())
    ensures if more then |it.Remaining()| < |old(it.Remaining())| else it.Remaining() == []
  {
    var a := NextBeside(it, res);
    more := a.Some?;
    if more {
      ghost var done, rest := res.Contents(), it.Remaining();
      PutResult(it, res, a.value);
      Reassociate(done, a.value, rest);
    }
  }

  /** The next tuple of the join; the result list stays as it is. */
  method NextBeside(it: JoinEnv, res: Fifo<Tuple>) returns (a: Option<Tuple>)
    requires it.Valid() && Separate(it, res)
    modifies it, it.objects
    ensures it.Valid() && Separate(it, res) && res.Repr == old(res.Repr) && res.Contents() == old(res.Contents())
    ensures a == None ==> old(it.Remaining()) == [] == it.Remaining()
    ensures a.Some? ==> old(it.Remaining()) == [a.value] + it.Remaining()
  {
    a := it.Next();
  }

  method PutResult(it: JoinEnv, res: Fifo<Tuple>, t: Tuple)
    requires it.Valid() && Separate(it, res)
    modifies res.Repr
    ensures it.Valid() && Separate(it, res) && fresh(res.Repr - old(res.Repr))
    ensures it.Remaining() == old(it.Remaining()) && res.Contents() == old(res.Contents()) + [t]
  {
    PutLastResult(res, t);
  }

  /** fifo_put of make_elem. */
  method PutLastResult(res: Fifo<Tuple>, t: Tuple)
    requires res.Valid()
    modifies res.Repr
    ensures res.Valid() && res.Contents() == old(res.Contents()) + [t]
    ensures old(res.Repr) <= res.Repr && fresh(res.Repr - old(res.Repr))
  {
    var e := new Elem(t);
    res.Put(e);
  }
}
