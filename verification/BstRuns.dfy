/** Whole executions of the search tree: linearizable, memory safe, deadlock free, finite. */
module BstRuns {
  import opened Sets
  import opened Wrappers
  import opened BstProtocol
  import opened BstShape
  import opened BstSafety
  import L = BstLiveness
  import T = BstTermination

  /** The longest possible execution of the given operations. */
  ghost function StepBound(threads: seq<Thread>): nat {
    |threads| * (16 * T.Pending(threads) + 15)
  }

  /** What holds after some steps from an initial state with the given threads; `left` bounds the
  number of steps that may follow. */
  ghost predicate Good(threads: seq<Thread>, s: State, rng: Ranges, left: int) {
    && Inv(s, rng)
    && SameOps(threads, s.threads)
    && |s.nodes| + 2 * T.Pending(s.threads) <= 1 + 2 * T.Pending(threads)
    && T.Potential(s, rng) <= left
    && |s.nodes| == 1 + 2 * |Contents(s.nodes)|
  }

  ghost predicate SameOps(threads: seq<Thread>, threads': seq<Thread>) {
    && |threads'| == |threads|
    && forall t | 0 <= t < |threads| :: threads'[t].op == threads[t].op
  }

  lemma GoodInitially(s: State)
    requires Initial(s)
    ensures Good(s.threads, s, map[s.root := Interval(LOW, HIGH)], StepBound(s.threads))
  {
    InitialInv(s);
    T.InitialPotential(s);
    assert |s.nodes| == 1;
  }

  lemma GoodNext(threads: seq<Thread>, s: State, rng: Ranges, left: int, t: nat, s': State)
    requires Good(threads, s, rng, left) && Step(s, t, s')
    ensures Good(threads, s', RangesAfter(s, t, s', rng), left - 1) && s'.root == s.root
  {
    InvNext(s, t, s', rng);
    T.SizeAfter(s, t, s', rng);
    T.PotentialDrops(s, t, s', rng);
    BoxCount(s, t, s', rng);
  }

  lemma GoodAfter(threads: seq<Thread>, s: State, rng: Ranges, left: int, t: nat, s': State) returns (rng': Ranges)
    requires Good(threads, s, rng, left) && Step(s, t, s')
    ensures Good(threads, s', rng', left - 1) && s'.root == s.root
  {
    rng' := RangesAfter(s, t, s', rng);
    GoodNext(threads, s, rng, left, t, s');
  }

  lemma InvNext(s: State, t: nat, s': State, rng: Ranges)
    requires Inv(s, rng) && Step(s, t, s')
    ensures Inv(s', RangesAfter(s, t, s', rng)) && s'.root == s.root && SameOps(s.threads, s'.threads)
  {
    StepKeepsInv(s, t, s', rng);
  }

  /** What holds after n steps of an execution. */
  ghost predicate GoodAt(states: seq<State>, n: nat, rng: Ranges)
    requires n < |states|
  {
    Good(states[0].threads, states[n], rng, StepBound(states[0].threads) - n) && states[n].root == states[0].root
  }

  lemma StartGood(states: seq<State>, sched: seq<nat>) returns (rng: Ranges)
    requires IsRun(states, sched)
    ensures GoodAt(states, 0, rng)
  {
    rng := map[states[0].root := Interval(LOW, HIGH)];
    GoodInitially(states[0]);
  }

  lemma StepGood(states: seq<State>, sched: seq<nat>, n: nat, rng: Ranges) returns (rng': Ranges)
    requires IsRun(states, sched) && 0 < n <= |sched| && GoodAt(states, n - 1, rng)
    ensures GoodAt(states, n, rng')
  {
    assert StepAt(states, sched, n - 1);
    rng' := GoodAfter(states[0].threads, states[n - 1], rng, StepBound(states[0].threads) - (n - 1), sched[n - 1],
                      states[n]);
  }

  ghost predicate HasRanges(states: seq<State>, n: nat)
    requires n < |states|
  {
    exists rng :: GoodAt(states, n, rng)
  }

  lemma FirstRanges(states: seq<State>, sched: seq<nat>, n: nat)
    requires IsRun(states, sched) && n == 0
    ensures HasRanges(states, n)
  {
    var rng := StartGood(states, sched);
  }

  lemma NextRanges(states: seq<State>, sched: seq<nat>, n: nat)
    requires IsRun(states, sched) && 0 < n <= |sched|
    ensures HasRanges(states, n - 1) ==> HasRanges(states, n)
  {
    if HasRanges(states, n - 1) {
      var rng :| GoodAt(states, n - 1, rng);
      rng := StepGood(states, sched, n, rng);
    }
  }

  lemma {:induction false} AlwaysRanges(states: seq<State>, sched: seq<nat>, n: nat)
    requires IsRun(states, sched) && n <= |sched|
    ensures HasRanges(states, n)
    decreases n
  {
    if !HasRanges(states, n) {
      if n == 0 {
        FirstRanges(states, sched, n);
      } else {
        NextRanges(states, sched, n);
        AlwaysRanges(states, sched, n - 1);
      }
    }
  }

  /** The invariant holds throughout, and each step has spent some of the initial potential. */
  lemma RunInv(states: seq<State>, sched: seq<nat>, n: nat) returns (rng: Ranges)
    requires IsRun(states, sched) && n <= |sched|
    ensures GoodAt(states, n, rng)
  {
    AlwaysRanges(states, sched, n);
    rng :| GoodAt(states, n, rng);
  }

  /** Two boxes come with each new key and two go with each deleted key: none is leaked. */
  lemma BoxCount(s: State, t: nat, s': State, rng: Ranges)
    requires Inv(s, rng) && Step(s, t, s') && |s.nodes| == 1 + 2 * |Contents(s.nodes)|
    ensures |s'.nodes| == 1 + 2 * |Contents(s'.nodes)|
  {
    StepKeepsInv(s, t, s', rng);
    match s.threads[t].pc
    case At(b) =>
      if s.nodes[b].Null? && s.threads[t].op.Insert? {
        FillCount(s, t, b, s', rng);
      } else {
        VisitCount(s, t, b, s', rng);
      }
    case PushGot(p, q) => SameSize(s.nodes, s'.nodes);
    case PushGotLeft(p, q, l) => SpliceCount(s, t, p, q, l, s', rng);
    case _ =>
  }

  lemma FillCount(s: State, t: nat, b: BoxId, s': State, rng: Ranges)
    requires Inv(s, rng) && Step(s, t, s') && s.threads[t].pc == At(b) && s.nodes[b].Null? && s.threads[t].op.Insert?
    requires Atomic(s, t, s')
    ensures |s'.nodes| == |s.nodes| + 2 && |Contents(s'.nodes)| == |Contents(s.nodes)| + 1
  {
    assert PcOk(s, rng, t);
    var m, op := Contents(s.nodes), s.threads[t].op;
    AbsentAtNull(s.nodes, s.root, rng, b, op.key);
    assert Contents(s'.nodes) == m[op.key := op.val];
    var l: BoxId, r: BoxId :|
      l !in s.nodes && r !in s.nodes && l != r && s' == Filled(s, t, b, op.key, op.val, l, r);
    SameSize(s'.nodes, s.nodes[l := Null][r := Null]);
  }

  lemma VisitCount(s: State, t: nat, b: BoxId, s': State, rng: Ranges)
    requires Inv(s, rng) && Step(s, t, s') && s.threads[t].pc == At(b) && !(s.nodes[b].Null? && s.threads[t].op.Insert?)
    requires Atomic(s, t, s')
    ensures |s'.nodes| == |s.nodes| && |Contents(s'.nodes)| == |Contents(s.nodes)|
  {
  }

  lemma SpliceCount(s: State, t: nat, p: BoxId, q: BoxId, l: BoxId, s': State, rng: Ranges)
    requires Inv(s, rng) && Step(s, t, s') && s.threads[t].pc == PushGotLeft(p, q, l)
    requires Atomic(s, t, s')
    ensures |s'.nodes| == |s.nodes| - 2 && |Contents(s'.nodes)| == |Contents(s.nodes)| - 1
  {
    assert PcOk(s, rng, t);
    var m, x := Contents(s.nodes), s.threads[t].op.key;
    L.FreeIsSafe(s, t, s', rng, p, q, l);
    PresentAt(s.nodes, s.root, rng, p);
    assert Contents(s'.nodes) == m - {x};
    assert |s'.nodes.Keys| == |s.nodes.Keys - {q, l}| == |s.nodes.Keys| - 2;
    assert |(m - {x}).Keys| == |m.Keys - {x}| == |m.Keys| - 1;
  }

  // ---- linearizability

  /** The operations that have taken effect after n steps, in the order in which they did. */
  ghost function Log(states: seq<State>, sched: seq<nat>, n: nat): seq<nat>
    requires n <= |sched| < |states|
  {
    if n == 0 then []
    else if TakesEffect(states[n - 1], sched[n - 1]) then Log(states, sched, n - 1) + [sched[n - 1]]
    else Log(states, sched, n - 1)
  }

  predicate InRange(threads: seq<Thread>, log: seq<nat>) {
    forall j | 0 <= j < |log| :: log[j] < |threads|
  }

  /** The map obtained by running the logged operations one after the other. */
  function Replay(threads: seq<Thread>, log: seq<nat>): map<Key, Ptr>
    requires InRange(threads, log)
  {
    if log == [] then map[]
    else Apply(threads[log[|log| - 1]].op, Replay(threads, log[..|log| - 1])).0
  }

  /** What the j-th logged operation answers in that sequential execution. */
  function Answer(threads: seq<Thread>, log: seq<nat>, j: nat): Ptr
    requires InRange(threads, log) && j < |log|
  {
    Apply(threads[log[j]].op, Replay(threads, log[..j])).1
  }

  /** log is a sequential execution that explains state s. */
  ghost predicate Explains(threads: seq<Thread>, log: seq<nat>, s: State)
    requires |threads| == |s.threads|
  {
    && InRange(threads, log)
    && Contents(s.nodes) == Replay(threads, log)
    && (forall t | 0 <= t < |threads| :: s.threads[t].pc.Effective() <==> t in log)
    && (forall j, k | 0 <= j < k < |log| :: log[j] != log[k])
    && (forall j: nat | j < |log| :: Answered(threads, log, s, j))
  }

  /** The j-th operation of the log has its answer. */
  ghost predicate Answered(threads: seq<Thread>, log: seq<nat>, s: State, j: nat)
    requires |threads| == |s.threads| && InRange(threads, log) && j < |log|
  {
    s.threads[log[j]].pc.Effective() && s.threads[log[j]].pc.result == Answer(threads, log, j)
  }

  lemma ExplainsEffect(threads: seq<Thread>, log: seq<nat>, s: State, t: nat, s': State)
    requires SameOps(threads, s.threads) && OthersStay(s, t, s') && Atomic(s, t, s') && TakesEffect(s, t)
    requires Explains(threads, log, s)
    ensures Explains(threads, log + [t], s')
  {
    var log' := log + [t];
    assert log'[..|log|] == log;
    forall j: nat | j < |log'| ensures Answered(threads, log', s', j)
    {
      if j < |log| {
        assert Answered(threads, log, s, j);
        AnswerPrefix(threads, log, t, j);
      }
    }
  }

  lemma AnswerPrefix(threads: seq<Thread>, log: seq<nat>, t: nat, j: nat)
    requires InRange(threads, log) && t < |threads| && j < |log|
    ensures InRange(threads, log + [t]) && Answer(threads, log + [t], j) == Answer(threads, log, j)
  {
    assert (log + [t])[..j] == log[..j];
  }

  lemma ExplainsNext(threads: seq<Thread>, log: seq<nat>, s: State, t: nat, s': State)
    requires SameOps(threads, s.threads) && OthersStay(s, t, s') && Atomic(s, t, s')
    requires Explains(threads, log, s)
    ensures Explains(threads, if TakesEffect(s, t) then log + [t] else log, s')
  {
    if TakesEffect(s, t) {
      ExplainsEffect(threads, log, s, t, s');
    } else {
      forall j: nat | j < |log| ensures Answered(threads, log, s', j) { assert Answered(threads, log, s, j); }
    }
  }

  /** The logged order after n steps explains the state after n steps. */
  ghost predicate ExplainedAt(states: seq<State>, sched: seq<nat>, n: nat)
    requires n <= |sched| < |states|
  {
    |states[n].threads| == |states[0].threads| && Explains(states[0].threads, Log(states, sched, n), states[n])
  }

  lemma ExplainedStep(states: seq<State>, sched: seq<nat>, n: nat)
    requires IsRun(states, sched) && 0 < n <= |sched| && ExplainedAt(states, sched, n - 1)
    ensures ExplainedAt(states, sched, n)
  {
    var rng := RunInv(states, sched, n - 1);
    assert StepAt(states, sched, n - 1);
    StepKeepsInv(states[n - 1], sched[n - 1], states[n], rng);
    ExplainsNext(states[0].threads, Log(states, sched, n - 1), states[n - 1], sched[n - 1], states[n]);
  }

  lemma ExplainedInitially(states: seq<State>, sched: seq<nat>)
    requires IsRun(states, sched)
    ensures ExplainedAt(states, sched, 0)
  {
    InitialInv(states[0]);
  }

  /** Linearizability: after any number of steps of any interleaving, the logged order is a
  sequential execution that produces the heap's map and every answer given so far. */
  lemma {:induction false} Linearizable(states: seq<State>, sched: seq<nat>, n: nat)
    requires IsRun(states, sched) && n <= |sched|
    ensures ExplainedAt(states, sched, n)
  {
    if n == 0 {
      ExplainedInitially(states, sched);
    } else {
      Linearizable(states, sched, n - 1);
      ExplainedStep(states, sched, n);
    }
  }

  lemma {:induction false} LogGrows(states: seq<State>, sched: seq<nat>, i: nat, n: nat)
    requires i <= n <= |sched| < |states|
    ensures Log(states, sched, i) <= Log(states, sched, n)
  {
    if i < n { LogGrows(states, sched, i, n - 1); }
  }

  /** Real time: an operation that returned before another was called precedes it in the order. */
  lemma RealTimeOrder(states: seq<State>, sched: seq<nat>, i: nat, n: nat, j: nat, k: nat)
    requires IsRun(states, sched) && i <= n <= |sched|
    requires j < |Log(states, sched, n)| && k < |Log(states, sched, n)|
    requires var log := Log(states, sched, n);
             && log[j] < |states[i].threads| && states[i].threads[log[j]].pc.Done?
             && log[k] < |states[i].threads| && states[i].threads[log[k]].pc.Idle?
    ensures j < k
  {
    LogGrows(states, sched, i, n);
    EffectiveIsLogged(states, sched, i);
    NothingTwice(states, sched, n);
    PrefixOrder(Log(states, sched, i), Log(states, sched, n), j, k);
  }

  lemma EffectiveIsLogged(states: seq<State>, sched: seq<nat>, n: nat)
    requires IsRun(states, sched) && n <= |sched|
    ensures forall t | 0 <= t < |states[n].threads| ::
              states[n].threads[t].pc.Effective() <==> t in Log(states, sched, n)
  {
    Linearizable(states, sched, n);
  }

  lemma NothingTwice(states: seq<State>, sched: seq<nat>, n: nat)
    requires IsRun(states, sched) && n <= |sched|
    ensures var log := Log(states, sched, n); forall j, k | 0 <= j < k < |log| :: log[j] != log[k]
  {
    Linearizable(states, sched, n);
  }

  lemma PrefixOrder(prefix: seq<nat>, log: seq<nat>, j: nat, k: nat)
    requires prefix <= log && j < |log| && k < |log| && log[j] in prefix && log[k] !in prefix
    requires forall j, k | 0 <= j < k < |log| :: log[j] != log[k]
    ensures j < k
  {
  }

  // ---- progress

  /** A finite set of operations has only finite executions. */
  lemma RunsAreFinite(states: seq<State>, sched: seq<nat>)
    requires IsRun(states, sched)
    ensures |sched| <= StepBound(states[0].threads)
  {
    var _ := RunInv(states, sched, |sched|);
  }

  /** An execution that cannot be continued has finished every operation, released every lock
  and answered every operation as the logged order does. */
  lemma StuckMeansFinished(states: seq<State>, sched: seq<nat>)
    requires IsRun(states, sched)
    requires forall i | 0 <= i < |states[|sched|].threads| :: !L.CanStep(states[|sched|], i)
    ensures var s := states[|sched|];
            && (forall t | 0 <= t < |s.threads| :: s.threads[t].pc.Done?)
            && (forall b | b in s.nodes :: s.IsFree(b))
    ensures var s, log := states[|sched|], Log(states, sched, |sched|);
            && |s.threads| == |states[0].threads| && InRange(states[0].threads, log)
               && (forall t | 0 <= t < |s.threads| :: t in log)
            && forall j | 0 <= j < |log| :: s.threads[log[j]].pc == Done(Answer(states[0].threads, log, j))
  {
    AllDone(states, sched);
    Linearizable(states, sched, |sched|);
    var s, log := states[|sched|], Log(states, sched, |sched|);
    forall j | 0 <= j < |log| ensures s.threads[log[j]].pc == Done(Answer(states[0].threads, log, j)) {
      assert Answered(states[0].threads, log, s, j);
    }
  }

  lemma AllDone(states: seq<State>, sched: seq<nat>)
    requires IsRun(states, sched)
    requires forall i | 0 <= i < |states[|sched|].threads| :: !L.CanStep(states[|sched|], i)
    ensures var s := states[|sched|];
            && (forall t | 0 <= t < |s.threads| :: s.threads[t].pc.Done?)
            && (forall b | b in s.nodes :: s.IsFree(b))
  {
    var rng := RunInv(states, sched, |sched|);
    var s := states[|sched|];
    forall t | 0 <= t < |s.threads| ensures s.threads[t].pc.Done?
    {
      if !s.threads[t].pc.Done? { L.NoDeadlock(s, t, rng); }
    }
    forall b | b in s.nodes ensures s.IsFree(b)
    {
      assert s.locks[b].Some? ==> b in s.threads[s.locks[b].value].pc.Held();
    }
  }

  /** At every point of every execution: no dangling reference, the root is allocated and stays
  the same box, there are exactly two boxes per stored key besides one more, and never more
  boxes than two per insertion besides the first. */
  lemma RunsAreMemorySafe(states: seq<State>, sched: seq<nat>, n: nat)
    requires IsRun(states, sched) && n <= |sched|
    ensures var s := states[n];
            && s.root == states[0].root && s.root in s.nodes
            && (forall b, c :: IsChild(s.nodes, c, b) ==> c in s.nodes)
            && (forall i | 0 <= i < |s.threads| :: s.threads[i].pc.Refs() <= s.nodes.Keys)
            && |s.nodes| == 1 + 2 * |Contents(s.nodes)|
            && |s.nodes| <= 1 + 2 * T.Pending(states[0].threads)
  {
    var rng := RunInv(states, sched, n);
    L.NothingDangles(states[n], rng);
  }

  /** Whenever a deletion frees two boxes in an execution, it holds their locks, no other thread
  can name them, and nothing names them afterwards. */
  lemma RunsFreeSafely(states: seq<State>, sched: seq<nat>, n: nat, p: BoxId, q: BoxId, l: BoxId)
    requires IsRun(states, sched) && n < |sched|
    requires sched[n] < |states[n].threads| && states[n].threads[sched[n]].pc == PushGotLeft(p, q, l)
    ensures var s, s' := states[n], states[n + 1];
            && q != l && s.root !in {q, l} && s'.nodes.Keys == s.nodes.Keys - {q, l}
            && q in s.locks && l in s.locks && s.locks[q] == s.locks[l] == Some(sched[n])
            && (forall i | 0 <= i < |s.threads| && i != sched[n] :: s.threads[i].pc.Refs() !! {q, l})
            && (forall i | 0 <= i < |s'.threads| :: s'.threads[i].pc.Refs() !! {q, l})
            && (forall c :: !IsChild(s'.nodes, q, c) && !IsChild(s'.nodes, l, c))
  {
    var rng := RunInv(states, sched, n);
    assert StepAt(states, sched, n);
    L.FreeIsSafe(states[n], sched[n], states[n + 1], rng, p, q, l);
  }
}
