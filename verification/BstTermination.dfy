/** A potential that every step of every thread lowers: runs of the protocol are finite. */
module BstTermination {
  import opened Sets
  import opened Wrappers
  import opened BstProtocol
  import opened BstShape
  import opened BstSafety

  ghost function SumOf(xs: seq<nat>): nat {
    if xs == [] then 0 else SumOf(xs[..|xs| - 1]) + xs[|xs| - 1]
  }

  lemma {:induction false} SumMono(xs: seq<nat>, ys: seq<nat>)
    requires |xs| == |ys| && forall i | 0 <= i < |xs| :: xs[i] <= ys[i]
    ensures SumOf(xs) <= SumOf(ys)
  {
    if xs != [] { SumMono(xs[..|xs| - 1], ys[..|ys| - 1]); }
  }

  lemma {:induction false} SumLess(xs: seq<nat>, ys: seq<nat>, t: nat)
    requires |xs| == |ys| && t < |xs| && xs[t] < ys[t] && forall i | 0 <= i < |xs| :: xs[i] <= ys[i]
    ensures SumOf(xs) < SumOf(ys)
  {
    var n := |xs| - 1;
    if t == n { SumMono(xs[..n], ys[..n]); } else { SumLess(xs[..n], ys[..n], t); }
  }

  lemma {:induction false} SumBound(xs: seq<nat>, c: nat)
    requires forall i | 0 <= i < |xs| :: xs[i] <= c
    ensures SumOf(xs) <= |xs| * c
  {
    if xs != [] {
      SumBound(xs[..|xs| - 1], c);
      assert |xs| * c == (|xs| - 1) * c + c;
    }
  }

  function Unfilled(th: Thread): nat {
    if th.op.Insert? && !th.pc.Effective() then 1 else 0
  }

  /** How many insertions may still add boxes. */
  ghost function Pending(threads: seq<Thread>): nat {
    SumOf(seq(|threads|, i requires 0 <= i < |threads| => Unfilled(threads[i])))
  }

  ghost function Desc(nodes: Nodes, rng: Ranges, b: BoxId): set<BoxId> {
    set a | a in nodes && Below(nodes, rng, a, b)
  }

  /** The lowest box a descending thread works on. */
  function Focus(pc: PC): Option<BoxId> {
    match pc
    case At(b) => Some(b)
    case Want(b, _) => Some(b)
    case Got(b, _) => Some(b)
    case PushWant(p, _) => Some(p)
    case PushGot(p, _) => Some(p)
    case PushWantLeft(p, _, _) => Some(p)
    case PushGotLeft(p, _, _) => Some(p)
    case PushTurned(_, p) => Some(p)
    case _ => None
  }

  /** How many boxes a thread may still go down to. */
  ghost function Ahead(s: State, rng: Ranges, pc: PC): nat {
    if Focus(pc).Some? then |Desc(s.nodes, rng, Focus(pc).value)| else |s.nodes|
  }

  function Phase(pc: PC): nat {
    match pc
    case Idle => 7
    case WantRoot => 6
    case At(_) => 7
    case Want(_, _) => 6
    case Got(_, _) => 5
    case PushTurned(_, _) => 7
    case PushWant(_, _) => 6
    case PushGot(_, _) => 5
    case PushWantLeft(_, _, _) => 4
    case PushGotLeft(_, _, _) => 3
    case Unlock(_, _) => 1
    case Done(_) => 0
  }

  ghost function Cost(s: State, rng: Ranges, pc: PC): nat {
    (if pc.Effective() then 0 else 8 * (Ahead(s, rng, pc) + 2 * Pending(s.threads))) + Phase(pc)
  }

  ghost function Costs(s: State, rng: Ranges): seq<nat> {
    seq(|s.threads|, i requires 0 <= i < |s.threads| => Cost(s, rng, s.threads[i].pc))
  }

  ghost function Potential(s: State, rng: Ranges): nat {
    SumOf(Costs(s, rng))
  }

  /** The pending count drops by one exactly when an insertion takes effect. */
  lemma PendingAfter(s: State, t: nat, s': State, rng: Ranges)
    requires Inv(s, rng) && Step(s, t, s')
    ensures Pending(s'.threads) <= Pending(s.threads)
    ensures TakesEffect(s, t) && s.threads[t].op.Insert? ==> Pending(s'.threads) < Pending(s.threads)
  {
    StepKeepsInv(s, t, s', rng);
    PendingChange(s.threads, t, s'.threads);
  }

  lemma PendingChange(before: seq<Thread>, t: nat, after: seq<Thread>)
    requires |before| == |after| && t < |before| && forall i | 0 <= i < |before| && i != t :: after[i] == before[i]
    requires before[t].op == after[t].op && (before[t].pc.Effective() ==> after[t].pc.Effective())
    ensures Pending(after) <= Pending(before)
    ensures Unfilled(after[t]) < Unfilled(before[t]) ==> Pending(after) < Pending(before)
  {
    var xs := seq(|before|, i requires 0 <= i < |before| => Unfilled(before[i]));
    var ys := seq(|after|, i requires 0 <= i < |after| => Unfilled(after[i]));
    SumMono(ys, xs);
    if Unfilled(after[t]) < Unfilled(before[t]) { SumLess(ys, xs, t); }
  }

  /** What a step can add below a box not involved in it: two boxes, and only by a fill. */
  lemma DescAfter(s: State, t: nat, s': State, rng: Ranges, b: BoxId)
    requires Inv(s, rng) && Step(s, t, s') && b !in s.threads[t].pc.Held()
    ensures |Desc(s'.nodes, RangesAfter(s, t, s', rng), b)| + 2 * Pending(s'.threads)
            <= |Desc(s.nodes, rng, b)| + 2 * Pending(s.threads)
  {
    PendingAfter(s, t, s', rng);
    assert PcOk(s, rng, t);
    var rng' := RangesAfter(s, t, s', rng);
    var before, after := Desc(s.nodes, rng, b), Desc(s'.nodes, rng', b);
    match s.threads[t].pc
    case At(c) =>
      if s.nodes[c].Null? && s.threads[t].op.Insert? {
        FilledBelow(s, t, s', rng, c, b);
      } else {
        if s.nodes[c].Node? && s'.nodes != s.nodes {
          WriteShape(s.nodes, s.root, rng, c, s.threads[t].op.val, s'.nodes);
        }
        SubsetSize(after, before);
      }
    case PushGot(p, q) =>
      if s.nodes[q].Node? { TurnShape(s.nodes, s.root, rng, p, q, s'.nodes, rng'); }
      SubsetSize(after, before);
    case PushGotLeft(p, q, l) =>
      SpliceShape(s.nodes, s.root, rng, p, q, l, s'.nodes, rng');
      SubsetSize(after, before);
    case _ =>
  }

  lemma FilledBelow(s: State, t: nat, s': State, rng: Ranges, c: BoxId, b: BoxId)
    requires Inv(s, rng) && Step(s, t, s') && s.threads[t].pc == At(c) && s.nodes[c].Null? && s.threads[t].op.Insert?
             && b != c
    ensures |Desc(s'.nodes, RangesAfter(s, t, s', rng), b)| <= |Desc(s.nodes, rng, b)| + 2
    ensures |s'.nodes| <= |s.nodes| + 2
  {
    assert PcOk(s, rng, t);
    var op := s.threads[t].op;
    var l: BoxId, r: BoxId :|
      l !in s.nodes && r !in s.nodes && l != r && s' == Filled(s, t, c, op.key, op.val, l, r);
    assert s'.nodes[c] == Node(op.key, op.val, l, r);
    var rng' := RangesAfter(s, t, s', rng);
    FillShape(s.nodes, s.root, rng, c, op.key, op.val, l, r, s'.nodes, rng');
    var before := Desc(s.nodes, rng, b);
    SubsetSize(Desc(s'.nodes, rng', b), before + {l, r});
    assert |before + {l, r}| <= |before| + 2;
    assert s'.nodes.Keys == s.nodes.Keys + {l, r};
    assert |s'.nodes.Keys| <= |s.nodes.Keys| + 2;
  }

  lemma SizeAfter(s: State, t: nat, s': State, rng: Ranges)
    requires Inv(s, rng) && Step(s, t, s')
    ensures |s'.nodes| + 2 * Pending(s'.threads) <= |s.nodes| + 2 * Pending(s.threads)
  {
    PendingAfter(s, t, s', rng);
    assert PcOk(s, rng, t);
    match s.threads[t].pc
    case At(c) =>
      if s.nodes[c].Null? && s.threads[t].op.Insert? {
        FilledBelow(s, t, s', rng, c, c + 1);
      } else {
        assert s'.nodes.Keys == s.nodes.Keys && |s'.nodes.Keys| == |s.nodes.Keys|;
      }
    case PushGot(p, q) =>
      assert s'.nodes.Keys == s.nodes.Keys && |s'.nodes.Keys| == |s.nodes.Keys|;
    case PushGotLeft(p, q, l) =>
      assert s'.nodes.Keys <= s.nodes.Keys;
      SubsetSize(s'.nodes.Keys, s.nodes.Keys);
    case _ =>
  }

  /** No step makes another thread's remaining work longer. */
  lemma OtherCost(s: State, t: nat, s': State, rng: Ranges, i: nat)
    requires Inv(s, rng) && Step(s, t, s') && i < |s.threads| && i != t
    ensures Cost(s', RangesAfter(s, t, s', rng), s.threads[i].pc) <= Cost(s, rng, s.threads[i].pc)
  {
    match Focus(s.threads[i].pc)
    case None => SizeAfter(s, t, s', rng);
    case Some(b) =>
      HeldApart(s, t, i);
      assert b in s.threads[i].pc.Held();
      DescAfter(s, t, s', rng, b);
  }

  /** Fewer boxes lie below a child than below its parent. */
  lemma DescShrinks(nodes: Nodes, root: BoxId, rng: Ranges, c: BoxId, p: BoxId)
    requires Shape(nodes, root, rng) && IsChild(nodes, c, p)
    ensures |Desc(nodes, rng, c)| < |Desc(nodes, rng, p)|
  {
    OneParent(nodes, root, rng, c, p, p);
    assert Splits(nodes, rng, p) && Splits(nodes, rng, c);
    assert c in Desc(nodes, rng, p) && c !in Desc(nodes, rng, c);
    assert Desc(nodes, rng, c) <= Desc(nodes, rng, p);
    SmallerSet(Desc(nodes, rng, c), Desc(nodes, rng, p));
  }

  /** The root is not below itself. */
  lemma BelowRoot(nodes: Nodes, root: BoxId, rng: Ranges)
    requires Shape(nodes, root, rng)
    ensures |Desc(nodes, rng, root)| < |nodes|
  {
    assert Splits(nodes, rng, root);
    assert root !in Desc(nodes, rng, root) && root in nodes.Keys;
    SmallerSet(Desc(nodes, rng, root), nodes.Keys);
  }

  /** The stepping thread goes down a level, or goes on to a later phase on the same level. */
  lemma OwnAhead(s: State, t: nat, s': State, rng: Ranges)
    requires Inv(s, rng) && Step(s, t, s') && !s.threads[t].pc.At? && !s'.threads[t].pc.Effective()
    ensures !s.threads[t].pc.Effective()
    ensures var a, a' := Ahead(s, rng, s.threads[t].pc), Ahead(s', RangesAfter(s, t, s', rng), s'.threads[t].pc);
            a' < a || (a' == a && Phase(s'.threads[t].pc) < Phase(s.threads[t].pc))
  {
    assert PcOk(s, rng, t);
    match s.threads[t].pc
    case WantRoot => BelowRoot(s.nodes, s.root, rng);
    case Got(b, c) => DescShrinks(s.nodes, s.root, rng, c, b);
    case PushGot(p, q) =>
      if s.nodes[q].Node? { TurnedCost(s, t, p, q, rng); }
    case _ =>
  }

  lemma OwnCost(s: State, t: nat, s': State, rng: Ranges)
    requires Inv(s, rng) && Step(s, t, s')
    ensures Cost(s', RangesAfter(s, t, s', rng), s'.threads[t].pc) < Cost(s, rng, s.threads[t].pc)
  {
    PendingAfter(s, t, s', rng);
    if s'.threads[t].pc.Effective() {
      EffectiveCost(s, t, s', rng);
    } else if s.threads[t].pc.At? {
      VisitAhead(s, t, s', rng);
    } else {
      OwnAhead(s, t, s', rng);
    }
  }

  lemma EffectiveCost(s: State, t: nat, s': State, rng: Ranges)
    requires Inv(s, rng) && Step(s, t, s') && s'.threads[t].pc.Effective()
    ensures Phase(s'.threads[t].pc) < Phase(s.threads[t].pc)
  {
  }

  lemma VisitAhead(s: State, t: nat, s': State, rng: Ranges)
    requires Inv(s, rng) && Step(s, t, s') && s.threads[t].pc.At? && !s'.threads[t].pc.Effective()
    ensures !s.threads[t].pc.Effective() && Phase(s'.threads[t].pc) < Phase(s.threads[t].pc)
    ensures Ahead(s', RangesAfter(s, t, s', rng), s'.threads[t].pc) == Ahead(s, rng, s.threads[t].pc)
  {
  }

  lemma TurnedCost(s: State, t: nat, p: BoxId, q: BoxId, rng: Ranges)
    requires Inv(s, rng) && t < |s.threads| && s.threads[t].pc == PushGot(p, q)
    requires p in s.nodes && s.nodes[p].Node? && q in s.nodes && s.nodes[q].Node?
    ensures |Desc(Turned(s.nodes, p, q), TurnedRanges(s.nodes, rng, p, q), q)| < |Desc(s.nodes, rng, p)|
  {
    assert PcOk(s, rng, t);
    var nodes', rng' := Turned(s.nodes, p, q), TurnedRanges(s.nodes, rng, p, q);
    TurnShape(s.nodes, s.root, rng, p, q, nodes', rng');
    OneParent(s.nodes, s.root, rng, q, p, p);
    assert q in Desc(s.nodes, rng, p);
    assert Desc(nodes', rng', q) <= Desc(s.nodes, rng, p) - {q};
    SmallerSet(Desc(nodes', rng', q), Desc(s.nodes, rng, p));
  }

  /** Every step of every thread lowers the potential. */
  lemma PotentialDrops(s: State, t: nat, s': State, rng: Ranges)
    requires Inv(s, rng) && Step(s, t, s')
    ensures Potential(s', RangesAfter(s, t, s', rng)) < Potential(s, rng)
  {
    StepKeepsInv(s, t, s', rng);
    var rng' := RangesAfter(s, t, s', rng);
    var xs, ys := Costs(s', rng'), Costs(s, rng);
    OwnCost(s, t, s', rng);
    forall i | 0 <= i < |xs| ensures xs[i] <= ys[i]
    {
      if i != t { OtherCost(s, t, s', rng, i); }
    }
    SumLess(xs, ys, t);
  }

  lemma InitialPotential(s: State)
    requires Initial(s)
    ensures Potential(s, map[s.root := Interval(LOW, HIGH)]) <= |s.threads| * (16 * Pending(s.threads) + 15)
  {
    assert |s.nodes| == 1;
    SumBound(Costs(s, map[s.root := Interval(LOW, HIGH)]), 16 * Pending(s.threads) + 15);
  }
}
