/** Freeing is safe, nobody deadlocks, and every run of finitely many operations is finite. */
module BstLiveness {
  import opened Sets
  import opened Wrappers
  import opened BstProtocol
  import opened BstShape
  import opened BstSafety

  // ---- intervals and freeing

  /** A box's interval never shrinks, except that of the box a deleter has locked and rotates. */
  lemma RangesOnlyWiden(s: State, t: nat, s': State, rng: Ranges, b: BoxId)
    requires Inv(s, rng) && Step(s, t, s') && b in s.nodes && b in s'.nodes
    ensures b in RangesAfter(s, t, s', rng)
    ensures rng[b].Within(RangesAfter(s, t, s', rng)[b]) ||
            (s.threads[t].pc.PushGot? && s.threads[t].pc.q == b && s.locks[b] == Some(t))
  {
    StepKeepsInv(s, t, s', rng);
    assert PcOk(s, rng, t);
    match s.threads[t].pc
    case At(c) =>
      if s.nodes[c].Null? && s.threads[t].op.Insert? {
        var x := s.threads[t].op.key;
        var l: BoxId, r: BoxId :|
          l !in s.nodes && r !in s.nodes && l != r && s' == Filled(s, t, c, x, s.threads[t].op.val, l, r);
        assert s'.nodes[c] == Node(x, s.threads[t].op.val, l, r);
      }
    case PushGotLeft(p, q, l) =>
      SpliceShape(s.nodes, s.root, rng, p, q, l, s'.nodes, RangesAfter(s, t, s', rng));
    case _ =>
  }

  /** Every box named by the heap or by a thread is allocated. */
  lemma NothingDangles(s: State, rng: Ranges)
    requires Inv(s, rng)
    ensures forall b, c :: IsChild(s.nodes, c, b) ==> c in s.nodes
    ensures forall i | 0 <= i < |s.threads| :: s.threads[i].pc.Refs() <= s.nodes.Keys
  {
    forall b, c | IsChild(s.nodes, c, b) ensures c in s.nodes { assert Splits(s.nodes, rng, b); }
    forall i | 0 <= i < |s.threads| ensures s.threads[i].pc.Refs() <= s.nodes.Keys
    {
      assert PcOk(s, rng, i) && s.threads[i].pc.Held() <= s.nodes.Keys;
      match s.threads[i].pc
      case Want(b, c) => assert IsChild(s.nodes, c, b);
      case PushWant(p, q) => assert IsChild(s.nodes, q, p);
      case PushWantLeft(p, q, l) => assert IsChild(s.nodes, l, p);
      case _ =>
    }
  }

  /** Only the thread that holds a box's parent can name the box without holding it. */
  lemma RefsHoldParent(s: State, rng: Ranges, i: nat, b: BoxId)
    requires Inv(s, rng) && i < |s.threads| && b in s.threads[i].pc.Refs() && b !in s.threads[i].pc.Held()
    ensures exists p | p in s.threads[i].pc.Held() :: IsChild(s.nodes, b, p)
  {
    assert PcOk(s, rng, i);
    match s.threads[i].pc
    case Want(p, c) => assert p in s.threads[i].pc.Held() && IsChild(s.nodes, b, p);
    case PushWant(p, q) => assert p in s.threads[i].pc.Held() && IsChild(s.nodes, b, p);
    case PushWantLeft(p, q, l) => assert p in s.threads[i].pc.Held() && IsChild(s.nodes, b, p);
    case _ =>
  }

  /** When pushdown_left frees q and l, no other thread can name them, only p points to them,
  neither is the root, and afterwards nothing names them any more. */
  lemma FreeIsSafe(s: State, t: nat, s': State, rng: Ranges, p: BoxId, q: BoxId, l: BoxId)
    requires Inv(s, rng) && Step(s, t, s') && s.threads[t].pc == PushGotLeft(p, q, l)
    ensures p != q && q != l && l != p && q != s.root && l != s.root
    ensures s.locks[q] == Some(t) && s.locks[l] == Some(t)
    ensures forall i | 0 <= i < |s.threads| && i != t :: q !in s.threads[i].pc.Refs() && l !in s.threads[i].pc.Refs()
    ensures forall c :: (IsChild(s.nodes, q, c) || IsChild(s.nodes, l, c)) ==> c == p
    ensures s'.nodes.Keys == s.nodes.Keys - {q, l}
    ensures forall c :: !IsChild(s'.nodes, q, c) && !IsChild(s'.nodes, l, c)
    ensures forall i | 0 <= i < |s'.threads| :: q !in s'.threads[i].pc.Refs() && l !in s'.threads[i].pc.Refs()
  {
    assert PcOk(s, rng, t);
    OneParent(s.nodes, s.root, rng, q, p, p);
    OneParent(s.nodes, s.root, rng, l, p, p);
    forall c | IsChild(s.nodes, q, c) ensures c == p { OneParent(s.nodes, s.root, rng, q, p, c); }
    forall c | IsChild(s.nodes, l, c) ensures c == p { OneParent(s.nodes, s.root, rng, l, p, c); }
    assert q in s.threads[t].pc.Held() && l in s.threads[t].pc.Held();
    forall i | 0 <= i < |s.threads| && i != t
      ensures q !in s.threads[i].pc.Refs() && l !in s.threads[i].pc.Refs()
    {
      HeldApart(s, t, i);
      if q in s.threads[i].pc.Refs() { RefsHoldParent(s, rng, i, q); }
      if l in s.threads[i].pc.Refs() { RefsHoldParent(s, rng, i, l); }
    }
    StepKeepsInv(s, t, s', rng);
    NothingDangles(s', RangesAfter(s, t, s', rng));
  }

  // ---- deadlock freedom

  /** The box a thread is waiting for, if it is about to acquire a lock. */
  function Awaited(s: State, t: nat): Option<BoxId>
    requires t < |s.threads|
  {
    match s.threads[t].pc
    case WantRoot => Some(s.root)
    case Want(_, c) => Some(c)
    case PushWant(_, q) => Some(q)
    case PushWantLeft(_, _, l) => Some(l)
    case _ => None
  }

  ghost predicate CanStep(s: State, t: nat) {
    exists s' :: Step(s, t, s')
  }

  lemma FreshBox(used: set<BoxId>) returns (b: BoxId)
    ensures forall c | c in used :: c < b
  {
    if used == {} {
      b := 0;
    } else {
      var c :| c in used;
      var d := FreshBox(used - {c});
      b := if c < d then d else c + 1;
      assert used == (used - {c}) + {c};
    }
  }

  lemma UnblockedCanStep(s: State, t: nat, rng: Ranges)
    requires Inv(s, rng) && t < |s.threads| && !s.threads[t].pc.Done?
    requires Awaited(s, t).Some? ==> s.IsFree(Awaited(s, t).value)
    ensures CanStep(s, t)
  {
    assert PcOk(s, rng, t) && s.threads[t].pc.Held() <= s.nodes.Keys;
    match s.threads[t].pc
    case Idle => assert Step(s, t, s.Goto(t, WantRoot));
    case WantRoot => assert Step(s, t, s.Acquire(s.root, t).Goto(t, At(s.root)));
    case At(b) => VisitCanStep(s, t, b, rng);
    case Want(b, c) => assert Step(s, t, s.Acquire(c, t).Goto(t, Got(b, c)));
    case Got(b, c) => assert Step(s, t, s.Release(b).Goto(t, At(c)));
    case PushWant(p, q) => assert Step(s, t, s.Acquire(q, t).Goto(t, PushGot(p, q)));
    case PushGot(p, q) =>
      var s' := if s.nodes[q].Null? then s.Goto(t, PushWantLeft(p, q, s.nodes[p].left))
                else s.(nodes := Turned(s.nodes, p, q)).Goto(t, PushTurned(p, q));
      assert Step(s, t, s');
    case PushWantLeft(p, q, l) => assert Step(s, t, s.Acquire(l, t).Goto(t, PushGotLeft(p, q, l)));
    case PushGotLeft(p, q, l) =>
      assert Step(s, t, s.(nodes := Spliced(s.nodes, p, q, l), locks := s.locks - {q, l}).Goto(t, Unlock(p, NULL)));
    case PushTurned(o, p) => assert Step(s, t, s.Release(o).Goto(t, PushWant(p, s.nodes[p].right)));
    case Unlock(b, r) => assert Step(s, t, s.Release(b).Goto(t, Done(r)));
  }

  lemma VisitCanStep(s: State, t: nat, b: BoxId, rng: Ranges)
    requires Inv(s, rng) && t < |s.threads| && s.threads[t].pc == At(b) && b in s.nodes
    ensures CanStep(s, t)
  {
    var op := s.threads[t].op;
    match s.nodes[b]
    case Null =>
      if op.Insert? {
        var l := FreshBox(s.nodes.Keys);
        assert Step(s, t, Filled(s, t, b, op.key, op.val, l, l + 1));
      } else {
        assert Step(s, t, s.Goto(t, Unlock(b, NULL)));
      }
    case Node(y, v, l, r) =>
      var s' := if op.key < y then s.Goto(t, Want(b, l))
                else if y < op.key then s.Goto(t, Want(b, r))
                else match op
                  case Insert(_, w) => s.(nodes := s.nodes[b := s.nodes[b].(value := w)]).Goto(t, Unlock(b, NULL))
                  case Lookup(_) => s.Goto(t, Unlock(b, v))
                  case Delete(_) => s.Goto(t, PushWant(b, r));
      assert Step(s, t, s');
  }

  ghost function Ancestors(nodes: Nodes, rng: Ranges, b: BoxId): set<BoxId> {
    set a | a in nodes && Below(nodes, rng, b, a)
  }

  /** A child has all its parent's ancestors and the parent itself. */
  lemma ChildIsDeeper(nodes: Nodes, root: BoxId, rng: Ranges, c: BoxId, p: BoxId)
    requires Shape(nodes, root, rng) && IsChild(nodes, c, p)
    ensures Ancestors(nodes, rng, p) < Ancestors(nodes, rng, c)
  {
    OneParent(nodes, root, rng, c, p, p);
    assert Splits(nodes, rng, p);
    assert p in Ancestors(nodes, rng, c) && p !in Ancestors(nodes, rng, p);
    forall a | a in Ancestors(nodes, rng, p) ensures a in Ancestors(nodes, rng, c) {}
  }

  /** The box a blocked thread waits for is the root or the child of a box it holds, and not a
  box it holds itself. */
  lemma AwaitedIsChild(s: State, t: nat, rng: Ranges)
    requires Inv(s, rng) && t < |s.threads| && Awaited(s, t).Some?
    ensures var w := Awaited(s, t).value;
            && w in s.nodes && w !in s.threads[t].pc.Held() && w in s.threads[t].pc.Refs() + {s.root}
    ensures var w := Awaited(s, t).value;
            s.threads[t].pc.WantRoot? || exists p | p in s.threads[t].pc.Held() :: IsChild(s.nodes, w, p)
  {
    assert PcOk(s, rng, t);
    NothingDangles(s, rng);
    var w := Awaited(s, t).value;
    match s.threads[t].pc
    case WantRoot =>
    case Want(b, c) => OneParent(s.nodes, s.root, rng, c, b, b); RefsHoldParent(s, rng, t, w);
    case PushWant(p, q) => OneParent(s.nodes, s.root, rng, q, p, p); RefsHoldParent(s, rng, t, w);
    case PushWantLeft(p, q, l) => OneParent(s.nodes, s.root, rng, l, p, p); RefsHoldParent(s, rng, t, w);
  }

  /** If i waits for a box that j holds, and j is waiting too, then j waits further down. */
  lemma OwnerWaitsDeeper(s: State, rng: Ranges, i: nat, j: nat)
    requires Inv(s, rng) && i < |s.threads| && j < |s.threads| && i != j
    requires Awaited(s, i).Some? && Awaited(s, j).Some? && Awaited(s, i).value in s.threads[j].pc.Held()
    ensures Ancestors(s.nodes, rng, Awaited(s, i).value) < Ancestors(s.nodes, rng, Awaited(s, j).value)
  {
    var w, w' := Awaited(s, i).value, Awaited(s, j).value;
    AwaitedIsChild(s, i, rng);
    assert PcOk(s, rng, j);
    if s.threads[j].pc.PushWantLeft? && w == s.threads[j].pc.q {
      var p := s.threads[j].pc.p;
      OneParent(s.nodes, s.root, rng, w, p, p);
      var h :| h in s.threads[i].pc.Held() && IsChild(s.nodes, w, h);
      OneParent(s.nodes, s.root, rng, w, p, h);
      HeldApart(s, i, j);
      assert false;
    }
    ChildIsDeeper(s.nodes, s.root, rng, w', w);
  }

  /** How far down a waiting thread can still be followed. */
  ghost function WaitRank(s: State, t: nat, rng: Ranges): nat
    requires t < |s.threads|
  {
    if Awaited(s, t).None? then 0
    else |s.nodes.Keys - Ancestors(s.nodes, rng, Awaited(s, t).value)| + 1
  }

  lemma Holder(s: State, t: nat, rng: Ranges) returns (j: nat)
    requires Inv(s, rng) && t < |s.threads| && Awaited(s, t).Some? && !s.IsFree(Awaited(s, t).value)
    ensures j < |s.threads| && j != t && Awaited(s, t).value in s.threads[j].pc.Held()
    ensures Awaited(s, t).value in s.locks && s.locks[Awaited(s, t).value] == Some(j) && !s.threads[j].pc.Done?
  {
    AwaitedIsChild(s, t, rng);
    var w := Awaited(s, t).value;
    j := s.locks[w].value;
    assert s.locks[w] == Some(j) && w in s.threads[j].pc.Held();
  }

  /** The thread that holds what a blocked thread waits for. */
  lemma NextOwner(s: State, t: nat, rng: Ranges) returns (j: nat)
    requires Inv(s, rng) && t < |s.threads| && Awaited(s, t).Some? && !s.IsFree(Awaited(s, t).value)
    ensures j < |s.threads| && !s.threads[j].pc.Done? && WaitRank(s, j, rng) < WaitRank(s, t, rng)
  {
    j := Holder(s, t, rng);
    if Awaited(s, j).Some? { DeeperRank(s, t, j, rng); }
  }

  lemma DeeperRank(s: State, t: nat, j: nat, rng: Ranges)
    requires Inv(s, rng) && t < |s.threads| && j < |s.threads| && Awaited(s, t).Some? && Awaited(s, j).Some?
    requires t != j && Awaited(s, t).value in s.threads[j].pc.Held()
    ensures WaitRank(s, j, rng) < WaitRank(s, t, rng)
  {
    var w, v := Awaited(s, t).value, Awaited(s, j).value;
    OwnerWaitsDeeper(s, rng, t, j);
    SmallerRest(s.nodes.Keys, Ancestors(s.nodes, rng, w), Ancestors(s.nodes, rng, v));
  }

  /** Follow the chain of owners from a blocked thread to one that can step. */
  lemma SomeoneRuns(s: State, t: nat, rng: Ranges) returns (i: nat)
    requires Inv(s, rng) && t < |s.threads| && !s.threads[t].pc.Done?
    ensures i < |s.threads| && CanStep(s, i)
    decreases WaitRank(s, t, rng)
  {
    if Awaited(s, t).None? || s.IsFree(Awaited(s, t).value) {
      UnblockedCanStep(s, t, rng);
      i := t;
    } else {
      var j := NextOwner(s, t, rng);
      i := SomeoneRuns(s, j, rng);
    }
  }

  lemma SmallerRest<T>(all: set<T>, a: set<T>, b: set<T>)
    requires a < b <= all
    ensures |all - b| < |all - a|
  {
    assert all - b <= all - a;
    var x :| x in b && x !in a;
    assert x in all - a && x !in all - b;
    SmallerSet(all - b, all - a);
  }

  /** Deadlock freedom: while an operation is unfinished, some thread can take a step. */
  lemma NoDeadlock(s: State, t: nat, rng: Ranges)
    requires Inv(s, rng) && t < |s.threads| && !s.threads[t].pc.Done?
    ensures exists i :: 0 <= i < |s.threads| && CanStep(s, i)
  {
    var i := SomeoneRuns(s, t, rng);
  }
}
