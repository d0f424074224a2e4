/** What every step of the locking protocol keeps, and why no lock, box or key is lost. */
module BstSafety {
  import opened Wrappers
  import opened BstProtocol
  import opened BstShape

  /** A lock is held by exactly the thread whose program counter says so. */
  ghost predicate LocksOk(s: State) {
    && s.locks.Keys == s.nodes.Keys
    && (forall t | 0 <= t < |s.threads| :: s.threads[t].pc.Held() <= s.nodes.Keys)
    && (forall b, t | b in s.locks && 0 <= t < |s.threads| ::
          s.locks[b] == Some(t) <==> b in s.threads[t].pc.Held())
    && (forall b | b in s.locks && s.locks[b].Some? :: s.locks[b].value < |s.threads|)
  }

  /** The child that a search for x takes at a node with another key. */
  predicate Toward(nodes: Nodes, b: BoxId, x: Key, c: BoxId) {
    && b in nodes && nodes[b].Node? && nodes[b].key != x
    && c == if x < nodes[b].key then nodes[b].left else nodes[b].right
  }

  /** The search key lies in the interval of the box a thread holds, and the facts
  pushdown_left has established are still true. */
  ghost predicate PcOk(s: State, rng: Ranges, t: nat)
    requires t < |s.threads|
  {
    var op := s.threads[t].op;
    match s.threads[t].pc
    case Idle => true
    case WantRoot => true
    case At(b) => b in s.nodes && b in rng && rng[b].Has(op.key)
    case Want(b, c) => Toward(s.nodes, b, op.key, c) && b in rng && rng[b].Has(op.key)
    case Got(b, c) => Toward(s.nodes, b, op.key, c) && b in rng && rng[b].Has(op.key)
    case PushWant(p, q) => op.Delete? && Binds(s.nodes, p, op.key) && s.nodes[p].right == q
    case PushGot(p, q) => op.Delete? && Binds(s.nodes, p, op.key) && s.nodes[p].right == q && q in s.nodes
    case PushWantLeft(p, q, l) => op.Delete? && Binds(s.nodes, p, op.key) && Doomed(s.nodes, p, q, l)
    case PushGotLeft(p, q, l) => op.Delete? && Binds(s.nodes, p, op.key) && Doomed(s.nodes, p, q, l) && l in s.nodes
    case PushTurned(o, p) =>
      op.Delete? && Binds(s.nodes, p, op.key) && o in s.nodes && s.nodes[o].Node? && s.nodes[o].left == p
    case Unlock(b, _) => b in s.nodes
    case Done(_) => true
  }

  ghost predicate Inv(s: State, rng: Ranges) {
    && Shape(s.nodes, s.root, rng)
    && LocksOk(s)
    && forall t | 0 <= t < |s.threads| :: PcOk(s, rng, t)
  }

  lemma InitialInv(s: State)
    requires Initial(s)
    ensures Inv(s, map[s.root := Interval(LOW, HIGH)])
    ensures Contents(s.nodes) == map[]
  {
  }

  /** The interval map after a step: only filling, rotating and splicing change it. */
  ghost function RangesAfter(s: State, t: nat, s': State, rng: Ranges): Ranges
    requires Inv(s, rng) && Step(s, t, s')
  {
    assert PcOk(s, rng, t);
    match s.threads[t].pc
    case At(b) =>
      if s.nodes[b].Null? && s.threads[t].op.Insert? && s'.nodes[b].Node?
        then FilledRanges(rng, b, s.threads[t].op.key, s'.nodes[b].left, s'.nodes[b].right) else rng
    case PushGot(p, q) => if s.nodes[q].Node? then TurnedRanges(s.nodes, rng, p, q) else rng
    case PushGotLeft(p, q, l) => SplicedRanges(s.nodes, rng, p, q, l)
    case _ => rng
  }

  /** Only the stepping thread's program counter moves. */
  predicate OthersStay(s: State, t: nat, s': State) {
    && s'.root == s.root && |s'.threads| == |s.threads| && t < |s.threads|
    && s'.threads[t].op == s.threads[t].op
    && forall i | 0 <= i < |s.threads| && i != t :: s'.threads[i] == s.threads[i]
  }

  lemma StepStays(s: State, t: nat, s': State)
    requires Step(s, t, s')
    ensures OthersStay(s, t, s')
  {
  }

  /** What a thread knows depends only on the boxes it holds; wider intervals do no harm. */
  lemma PcFrame(s: State, rng: Ranges, s': State, rng': Ranges, i: nat)
    requires i < |s.threads| && i < |s'.threads| && s'.threads[i] == s.threads[i] && PcOk(s, rng, i)
    requires forall b | b in s.threads[i].pc.Held() ::
               && b in s.nodes && b in s'.nodes && s'.nodes[b] == s.nodes[b]
               && b in rng && b in rng' && rng[b].Within(rng'[b])
    ensures PcOk(s', rng', i)
  {
  }

  /** Locking and unlocking leave the heap alone; a lock is taken only when it is free. */
  lemma LockStep(s: State, t: nat, s': State, rng: Ranges)
    requires Inv(s, rng) && Step(s, t, s') && s'.nodes == s.nodes && !s.threads[t].pc.PushGotLeft?
    ensures Inv(s', rng)
  {
    StepStays(s, t, s');
    assert PcOk(s, rng, t);
    forall i | 0 <= i < |s'.threads| ensures PcOk(s', rng, i)
    {
      if i != t {
        assert PcOk(s, rng, i);
        PcFrame(s, rng, s', rng, i);
      } else {
        match s.threads[t].pc
        case At(b) => assert Splits(s.nodes, rng, b);
        case Got(b, c) => assert Splits(s.nodes, rng, b);
        case PushTurned(o, p) => assert Splits(s.nodes, rng, o);
        case _ =>
      }
    }
    LocksAfter(s, t, s', rng);
  }

  lemma AcquireLocks(s: State, b: BoxId, t: nat, pc: PC)
    requires LocksOk(s) && t < |s.threads| && s.IsFree(b) && pc.Held() == s.threads[t].pc.Held() + {b}
    ensures LocksOk(s.Acquire(b, t).Goto(t, pc))
  {
  }

  lemma ReleaseLocks(s: State, b: BoxId, t: nat, pc: PC)
    requires LocksOk(s) && t < |s.threads| && b in s.threads[t].pc.Held() && pc.Held() == s.threads[t].pc.Held() - {b}
    ensures LocksOk(s.Release(b).Goto(t, pc))
  {
  }

  lemma KeepLocks(s: State, nodes: Nodes, t: nat, pc: PC)
    requires LocksOk(s) && t < |s.threads| && pc.Held() == s.threads[t].pc.Held() && nodes.Keys == s.nodes.Keys
    ensures LocksOk(s.(nodes := nodes).Goto(t, pc))
  {
  }

  lemma LocksAfter(s: State, t: nat, s': State, rng: Ranges)
    requires Inv(s, rng) && Step(s, t, s') && s'.nodes == s.nodes && !s.threads[t].pc.PushGotLeft?
    ensures LocksOk(s')
  {
    var pc' := s'.threads[t].pc;
    assert PcOk(s, rng, t);
    match s.threads[t].pc
    case WantRoot => AcquireLocks(s, s.root, t, pc');
    case Want(b, c) => AcquireLocks(s, c, t, pc');
    case PushWant(p, q) => AcquireLocks(s, q, t, pc');
    case PushWantLeft(p, q, l) => AcquireLocks(s, l, t, pc');
    case Got(b, c) =>
      OneParent(s.nodes, s.root, rng, c, b, b);
      ReleaseLocks(s, b, t, pc');
    case PushTurned(o, p) =>
      OneParent(s.nodes, s.root, rng, p, o, o);
      ReleaseLocks(s, o, t, pc');
    case Unlock(b, _) => ReleaseLocks(s, b, t, pc');
    case _ => KeepLocks(s, s.nodes, t, pc');
  }

  /** A thread other than t holds none of t's boxes. */
  lemma HeldApart(s: State, t: nat, i: nat)
    requires LocksOk(s) && t < |s.threads| && i < |s.threads| && i != t
    ensures s.threads[t].pc.Held() !! s.threads[i].pc.Held()
  {
  }

  lemma FillStep(s: State, t: nat, b: BoxId, l: BoxId, r: BoxId, rng: Ranges)
    requires Inv(s, rng) && t < |s.threads| && s.threads[t].pc == At(b) && s.nodes[b].Null? && s.threads[t].op.Insert?
    requires l !in s.nodes && r !in s.nodes && l != r
    ensures var x := s.threads[t].op.key;
            var s' := Filled(s, t, b, x, s.threads[t].op.val, l, r);
            Inv(s', FilledRanges(rng, b, x, l, r)) && Contents(s'.nodes) == Contents(s.nodes)[x := s.threads[t].op.val]
  {
    assert PcOk(s, rng, t);
    var x, v := s.threads[t].op.key, s.threads[t].op.val;
    var s', rng' := Filled(s, t, b, x, v, l, r), FilledRanges(rng, b, x, l, r);
    FillShape(s.nodes, s.root, rng, b, x, v, l, r, s'.nodes, rng');
    FillContents(s.nodes, s.root, rng, b, x, v, l, r, s'.nodes);
    forall i | 0 <= i < |s'.threads| ensures PcOk(s', rng', i)
    {
      if i != t {
        assert PcOk(s, rng, i);
        HeldApart(s, t, i);
        PcFrame(s, rng, s', rng', i);
      }
    }
    forall c, i | c in s'.locks && 0 <= i < |s'.threads|
      ensures s'.locks[c] == Some(i) <==> c in s'.threads[i].pc.Held()
    {
      assert c in s.locks ==> (s.locks[c] == Some(i) <==> c in s.threads[i].pc.Held());
      assert s.threads[i].pc.Held() <= s.nodes.Keys;
    }
  }

  lemma WriteStep(s: State, t: nat, b: BoxId, v: Ptr, rng: Ranges)
    requires Inv(s, rng) && t < |s.threads| && s.threads[t].pc == At(b) && b in s.nodes && s.nodes[b].Node?
    ensures var s' := s.(nodes := s.nodes[b := s.nodes[b].(value := v)]).Goto(t, Unlock(b, NULL));
            Inv(s', rng) && Contents(s'.nodes) == Contents(s.nodes)[s.nodes[b].key := v]
  {
    assert PcOk(s, rng, t);
    var nodes' := s.nodes[b := s.nodes[b].(value := v)];
    var s' := s.(nodes := nodes').Goto(t, Unlock(b, NULL));
    WriteShape(s.nodes, s.root, rng, b, v, nodes');
    WriteContents(s.nodes, s.root, rng, b, v, nodes');
    KeepLocks(s, nodes', t, Unlock(b, NULL));
    forall i | 0 <= i < |s'.threads| ensures PcOk(s', rng, i)
    {
      if i != t {
        assert PcOk(s, rng, i);
        HeldApart(s, t, i);
        PcFrame(s, rng, s', rng, i);
      }
    }
  }

  lemma TurnStep(s: State, t: nat, p: BoxId, q: BoxId, rng: Ranges)
    requires Inv(s, rng) && t < |s.threads| && s.threads[t].pc == PushGot(p, q)
    requires p in s.nodes && s.nodes[p].Node? && q in s.nodes && s.nodes[q].Node?
    ensures var s' := s.(nodes := Turned(s.nodes, p, q)).Goto(t, PushTurned(p, q));
            Inv(s', TurnedRanges(s.nodes, rng, p, q)) && Contents(s'.nodes) == Contents(s.nodes)
  {
    assert PcOk(s, rng, t);
    var nodes', rng' := Turned(s.nodes, p, q), TurnedRanges(s.nodes, rng, p, q);
    var s' := s.(nodes := nodes').Goto(t, PushTurned(p, q));
    TurnShape(s.nodes, s.root, rng, p, q, nodes', rng');
    TurnContents(s.nodes, s.root, rng, p, q);
    OneParent(s.nodes, s.root, rng, q, p, p);
    KeepLocks(s, nodes', t, PushTurned(p, q));
    forall i | 0 <= i < |s'.threads| ensures PcOk(s', rng', i)
    {
      if i != t {
        assert PcOk(s, rng, i);
        HeldApart(s, t, i);
        PcFrame(s, rng, s', rng', i);
      }
    }
  }

  lemma SpliceStep(s: State, t: nat, p: BoxId, q: BoxId, l: BoxId, rng: Ranges)
    requires Inv(s, rng) && t < |s.threads| && s.threads[t].pc == PushGotLeft(p, q, l)
    ensures p in s.nodes && s.nodes[p].Node? && l in s.nodes
    ensures var s' := s.(nodes := Spliced(s.nodes, p, q, l), locks := s.locks - {q, l}).Goto(t, Unlock(p, NULL));
            Inv(s', SplicedRanges(s.nodes, rng, p, q, l))
              && Contents(s'.nodes) == Contents(s.nodes) - {s.threads[t].op.key}
  {
    assert PcOk(s, rng, t);
    var nodes', rng' := Spliced(s.nodes, p, q, l), SplicedRanges(s.nodes, rng, p, q, l);
    var s' := s.(nodes := nodes', locks := s.locks - {q, l}).Goto(t, Unlock(p, NULL));
    SpliceShape(s.nodes, s.root, rng, p, q, l, nodes', rng');
    SpliceContents(s.nodes, s.root, rng, p, q, l);
    OneParent(s.nodes, s.root, rng, q, p, p);
    OneParent(s.nodes, s.root, rng, l, p, p);
    forall i | 0 <= i < |s'.threads|
      ensures PcOk(s', rng', i)
    {
      if i != t {
        assert PcOk(s, rng, i);
        HeldApart(s, t, i);
        PcFrame(s, rng, s', rng', i);
      }
    }
    SpliceLocks(s, t, p, q, l);
  }

  lemma SpliceLocks(s: State, t: nat, p: BoxId, q: BoxId, l: BoxId)
    requires LocksOk(s) && t < |s.threads| && s.threads[t].pc == PushGotLeft(p, q, l) && p != q && p != l
    ensures {p, q, l} <= s.nodes.Keys
    ensures LocksOk(s.(nodes := Spliced(s.nodes, p, q, l), locks := s.locks - {q, l}).Goto(t, Unlock(p, NULL)))
  {
    var s' := s.(nodes := Spliced(s.nodes, p, q, l), locks := s.locks - {q, l}).Goto(t, Unlock(p, NULL));
    assert s.threads[t].pc.Held() == {p, q, l};
    forall i | 0 <= i < |s'.threads| ensures s'.threads[i].pc.Held() <= s'.nodes.Keys
    {
      if i != t { HeldApart(s, t, i); }
    }
    forall c, i | c in s'.locks && 0 <= i < |s'.threads|
      ensures s'.locks[c] == Some(i) <==> c in s'.threads[i].pc.Held()
    {
      assert s.locks[c] == Some(i) <==> c in s.threads[i].pc.Held();
    }
  }

  /** The abstract effect of an operation and its answer, as in the functional specification. */
  function Apply(op: Op, m: map<Key, Ptr>): (map<Key, Ptr>, Ptr) {
    match op
    case Insert(k, v) => (m[k := v], NULL)
    case Lookup(k) => (m, if k in m then m[k] else NULL)
    case Delete(k) => (m - {k}, NULL)
  }

  /** What a step does to the abstract map and to the stepping operation: it takes effect, and
  then the map changes and the operation answers as the operation does atomically, or the map
  stays and the operation is as effective as it was. */
  ghost predicate Atomic(s: State, t: nat, s': State)
    requires t < |s.threads| && |s'.threads| == |s.threads|
  {
    var pc, pc' := s.threads[t].pc, s'.threads[t].pc;
    if TakesEffect(s, t) then
      && !pc.Effective() && pc'.Unlock?
      && (Contents(s'.nodes), pc'.result) == Apply(s.threads[t].op, Contents(s.nodes))
    else
      && Contents(s'.nodes) == Contents(s.nodes)
      && pc'.Effective() == pc.Effective()
      && (pc.Effective() ==> pc'.result == pc.result)
  }

  /** Every step keeps the invariant and is atomic or invisible. */
  lemma StepKeepsInv(s: State, t: nat, s': State, rng: Ranges)
    requires Inv(s, rng) && Step(s, t, s')
    ensures Inv(s', RangesAfter(s, t, s', rng)) && OthersStay(s, t, s') && Atomic(s, t, s')
  {
    StepStays(s, t, s');
    match s.threads[t].pc
    case At(b) => VisitKeepsInv(s, t, b, s', rng);
    case PushGot(p, q) => PushKeepsInv(s, t, s', rng);
    case PushGotLeft(p, q, l) => PushKeepsInv(s, t, s', rng);
    case _ => LockStep(s, t, s', rng);
  }

  lemma PushKeepsInv(s: State, t: nat, s': State, rng: Ranges)
    requires Inv(s, rng) && Step(s, t, s') && (s.threads[t].pc.PushGot? || s.threads[t].pc.PushGotLeft?)
    ensures Inv(s', RangesAfter(s, t, s', rng)) && |s'.threads| == |s.threads| && Atomic(s, t, s')
  {
    assert PcOk(s, rng, t);
    match s.threads[t].pc
    case PushGot(p, q) =>
      if s.nodes[q].Node? {
        TurnStep(s, t, p, q, rng);
      } else {
        LockStep(s, t, s', rng);
      }
    case PushGotLeft(p, q, l) => SpliceStep(s, t, p, q, l, rng);
  }

  lemma VisitKeepsInv(s: State, t: nat, b: BoxId, s': State, rng: Ranges)
    requires Inv(s, rng) && Step(s, t, s') && s.threads[t].pc == At(b)
    ensures Inv(s', RangesAfter(s, t, s', rng)) && |s'.threads| == |s.threads| && Atomic(s, t, s')
  {
    StepStays(s, t, s');
    if s.nodes[b].Null? {
      VisitEmpty(s, t, b, s', rng);
    } else if s.threads[t].op.Insert? && s.nodes[b].key == s.threads[t].op.key {
      WriteStep(s, t, b, s.threads[t].op.val, rng);
    } else {
      LockStep(s, t, s', rng);
      PresentAt(s.nodes, s.root, rng, b);
    }
  }

  lemma VisitEmpty(s: State, t: nat, b: BoxId, s': State, rng: Ranges)
    requires Inv(s, rng) && Step(s, t, s') && s.threads[t].pc == At(b) && s.nodes[b].Null?
    ensures Inv(s', RangesAfter(s, t, s', rng)) && |s'.threads| == |s.threads| && Atomic(s, t, s')
  {
    var op := s.threads[t].op;
    if op.Insert? {
      var l: BoxId, r: BoxId :|
        l !in s.nodes && r !in s.nodes && l != r && s' == Filled(s, t, b, op.key, op.val, l, r);
      FillStep(s, t, b, l, r, rng);
      assert s'.nodes[b] == Node(op.key, op.val, l, r);
    } else {
      LockStep(s, t, s', rng);
      assert PcOk(s, rng, t);
      AbsentAtNull(s.nodes, s.root, rng, b, op.key);
      ApplyAbsent(op, Contents(s.nodes));
    }
  }

  lemma ApplyAbsent(op: Op, m: map<Key, Ptr>)
    requires !op.Insert? && op.key !in m
    ensures Apply(op, m) == (m, NULL)
  {
    assert m - {op.key} == m;
  }
}
