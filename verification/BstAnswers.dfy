/** Linearizability in terms of the operations and their answers alone: a lookup answers what the
last update of its key before it has left, and so does the heap at the end. */
module BstAnswers {
  import opened BstProtocol
  import opened BstShape
  import opened BstSafety
  import opened BstRuns

  /** The operation writes or removes the key. */
  predicate Updates(op: Op, k: Key) {
    op.key == k && !op.Lookup?
  }

  /** None of the operations at positions from i up to j of the order updates the key. */
  predicate Untouched(threads: seq<Thread>, log: seq<nat>, i: int, j: int, k: Key)
    requires InRange(threads, log) && 0 <= i && j <= |log|
  {
    forall x | i <= x < j :: !Updates(threads[log[x]].op, k)
  }

  /** The last update of the key before position j of the order is at position i. */
  predicate LastUpdate(threads: seq<Thread>, log: seq<nat>, i: nat, j: nat, k: Key)
    requires InRange(threads, log) && j <= |log|
  {
    i < j && Updates(threads[log[i]].op, k) && Untouched(threads, log, i + 1, j, k)
  }

  /** After the last update of a key its value is what an insertion has written; after a deletion, or
  without any update, the key is absent. */
  lemma {:induction false} ReplayAt(threads: seq<Thread>, log: seq<nat>, j: nat, k: Key)
    requires InRange(threads, log) && j <= |log|
    ensures Untouched(threads, log, 0, j, k) ==> k !in Replay(threads, log[..j])
    ensures forall i: nat | LastUpdate(threads, log, i, j, k) ::
              var op, m := threads[log[i]].op, Replay(threads, log[..j]);
              if op.Insert? then k in m && m[k] == op.val else k !in m
  {
    if j > 0 {
      ReplayAt(threads, log, j - 1, k);
      assert log[..j][..j - 1] == log[..j - 1];
      if Updates(threads[log[j - 1]].op, k) {
        assert forall i: nat | LastUpdate(threads, log, i, j, k) :: i == j - 1;
      } else {
        assert forall i: nat | LastUpdate(threads, log, i, j, k) :: LastUpdate(threads, log, i, j - 1, k);
      }
    }
  }

  /** What a lookup at position j of the order has to answer. */
  ghost predicate AnswersLast(threads: seq<Thread>, log: seq<nat>, j: nat, result: Ptr)
    requires InRange(threads, log) && j < |log|
  {
    var op := threads[log[j]].op;
    if op.Lookup? then
      && (Untouched(threads, log, 0, j, op.key) ==> result == NULL)
      && (forall i: nat | LastUpdate(threads, log, i, j, op.key) ::
            result == if threads[log[i]].op.Insert? then threads[log[i]].op.val else NULL)
    else result == NULL
  }

  lemma AnswerIsLast(threads: seq<Thread>, log: seq<nat>, j: nat)
    requires InRange(threads, log) && j < |log|
    ensures AnswersLast(threads, log, j, Answer(threads, log, j))
  {
    ReplayAt(threads, log, j, threads[log[j]].op.key);
  }

  /** What the boxes hold for a key after all operations of the order. */
  ghost predicate HeapHolds(threads: seq<Thread>, log: seq<nat>, nodes: Nodes, k: Key)
    requires InRange(threads, log)
  {
    && (Untouched(threads, log, 0, |log|, k) ==> forall b :: !Binds(nodes, b, k))
    && (forall i: nat | LastUpdate(threads, log, i, |log|, k) ::
          if threads[log[i]].op.Insert? then
            exists b :: Binds(nodes, b, k) && nodes[b].value == threads[log[i]].op.val
          else forall b :: !Binds(nodes, b, k))
  }

  lemma HeapIsLast(threads: seq<Thread>, log: seq<nat>, nodes: Nodes, k: Key)
    requires InRange(threads, log) && Stores(nodes, Replay(threads, log))
    ensures HeapHolds(threads, log, nodes, k)
  {
    ReplayAt(threads, log, |log|, k);
    assert log[..|log|] == log;
    if k in Replay(threads, log) {
      var b :| Binds(nodes, b, k);
      assert nodes[b].value == Replay(threads, log)[k];
    } else {
      forall b ensures !Binds(nodes, b, k) {}
    }
  }

  /** The order has exactly the operations that have taken effect, each once. */
  ghost predicate EachOnce(s: State, log: seq<nat>) {
    && InRange(s.threads, log)
    && (forall t | 0 <= t < |s.threads| :: s.threads[t].pc.Effective() <==> t in log)
    && (forall j, k | 0 <= j < k < |log| :: log[j] != log[k])
  }

  /** An operation that has returned before another one is called comes before it. */
  ghost predicate RespectsTime(states: seq<State>, n: nat, log: seq<nat>)
    requires n < |states|
  {
    forall i, j, k | 0 <= i <= n && 0 <= j < |log| && 0 <= k < |log| &&
                     log[j] < |states[i].threads| && log[k] < |states[i].threads| &&
                     states[i].threads[log[j]].pc.Done? && states[i].threads[log[k]].pc.Idle? :: j < k
  }

  /** Every operation of the order has answered what the last update before it requires. */
  ghost predicate AnswersRight(s: State, log: seq<nat>) {
    EachOnce(s, log) && forall j: nat | j < |log| :: RightAt(s, log, j)
  }

  ghost predicate RightAt(s: State, log: seq<nat>, j: nat)
    requires InRange(s.threads, log) && j < |log|
  {
    s.threads[log[j]].pc.Effective() && AnswersLast(s.threads, log, j, s.threads[log[j]].pc.result)
  }

  /** Linearizability, outright: at each point of each execution there is an order of the operations
  that have taken effect, each once, which respects real time, in which every answer is what the last
  update before it requires, and after which the boxes hold what the last updates have left. */
  lemma LinearizableOutright(states: seq<State>, sched: seq<nat>, n: nat)
    requires IsRun(states, sched) && n <= |sched|
    ensures SameOps(states[0].threads, states[n].threads)
    ensures var log := Log(states, sched, n);
            && AnswersRight(states[n], log) && RespectsTime(states, n, log)
            && forall k: Key :: HeapHolds(states[n].threads, log, states[n].nodes, k)
  {
    var log := Log(states, sched, n);
    Linearizable(states, sched, n);
    OpsStay(states, sched, n);
    ReplaySame(states[0].threads, states[n].threads, log);
    forall j: nat | j < |log| ensures RightAt(states[n], log, j) {
      AnswerHere(states, sched, n, j);
    }
    TimeRespected(states, sched, n);
    var rng := RunInv(states, sched, n);
    ContentsStored(states[n].nodes, states[n].root, rng);
    forall k: Key ensures HeapHolds(states[n].threads, log, states[n].nodes, k) {
      HeapIsLast(states[n].threads, log, states[n].nodes, k);
    }
  }

  lemma OpsStay(states: seq<State>, sched: seq<nat>, n: nat)
    requires IsRun(states, sched) && n <= |sched|
    ensures SameOps(states[0].threads, states[n].threads)
  {
    var rng := RunInv(states, sched, n);
  }

  lemma {:induction false} ReplaySame(threads: seq<Thread>, threads': seq<Thread>, log: seq<nat>)
    requires SameOps(threads, threads') && InRange(threads, log)
    ensures Replay(threads, log) == Replay(threads', log)
  {
    if log != [] { ReplaySame(threads, threads', log[..|log| - 1]); }
  }

  lemma AnswerHere(states: seq<State>, sched: seq<nat>, n: nat, j: nat)
    requires IsRun(states, sched) && n <= |sched| && ExplainedAt(states, sched, n) && j < |Log(states, sched, n)|
    requires SameOps(states[0].threads, states[n].threads)
    ensures RightAt(states[n], Log(states, sched, n), j)
  {
    var log := Log(states, sched, n);
    assert Answered(states[0].threads, log, states[n], j);
    ReplaySame(states[0].threads, states[n].threads, log[..j]);
    AnswerIsLast(states[n].threads, log, j);
  }

  lemma TimeRespected(states: seq<State>, sched: seq<nat>, n: nat)
    requires IsRun(states, sched) && n <= |sched|
    ensures RespectsTime(states, n, Log(states, sched, n))
  {
    var log := Log(states, sched, n);
    forall i, j, k | 0 <= i <= n && 0 <= j < |log| && 0 <= k < |log| &&
                     log[j] < |states[i].threads| && log[k] < |states[i].threads| &&
                     states[i].threads[log[j]].pc.Done? && states[i].threads[log[k]].pc.Idle?
      ensures j < k
    {
      RealTimeOrder(states, sched, i, n, j, k);
    }
  }

  /** An execution that cannot be continued has returned all these answers. */
  lemma StuckAnswers(states: seq<State>, sched: seq<nat>)
    requires IsRun(states, sched)
    requires forall i | 0 <= i < |states[|sched|].threads| :: !L.CanStep(states[|sched|], i)
    ensures var s, log := states[|sched|], Log(states, sched, |sched|);
            AnswersRight(s, log) && forall t | 0 <= t < |s.threads| :: s.threads[t].pc.Done? && t in log
  {
    StuckMeansFinished(states, sched);
    LinearizableOutright(states, sched, |sched|);
  }

  /** The step at which an operation takes effect, box by box: a lookup answers the value of the box
  that has its key, or null if there is none; after an insertion a box has the key and the value;
  after a deletion none has the key. */
  lemma StepAnswers(s: State, t: nat, s': State, rng: Ranges)
    requires Inv(s, rng) && Step(s, t, s') && TakesEffect(s, t)
    ensures t < |s'.threads| && s'.threads[t].pc.Unlock?
    ensures var op, r := s.threads[t].op, s'.threads[t].pc.result;
            match op
            case Lookup(k) => if exists b :: Binds(s.nodes, b, k)
                              then exists b :: Binds(s.nodes, b, k) && s.nodes[b].value == r else r == NULL
            case Insert(k, v) => exists b :: Binds(s'.nodes, b, k) && s'.nodes[b].value == v
            case Delete(k) => forall b :: !Binds(s'.nodes, b, k)
  {
    StepKeepsInv(s, t, s', rng);
    BoxesAreMap(s, s', rng, RangesAfter(s, t, s', rng));
    var k := s.threads[t].op.key;
    Bound(s.nodes, Contents(s.nodes), k);
    Bound(s'.nodes, Contents(s'.nodes), k);
  }

  lemma BoxesAreMap(s: State, s': State, rng: Ranges, rng': Ranges)
    requires Inv(s, rng) && Inv(s', rng')
    ensures Stores(s.nodes, Contents(s.nodes)) && Stores(s'.nodes, Contents(s'.nodes))
  {
    ContentsStored(s.nodes, s.root, rng);
    ContentsStored(s'.nodes, s'.root, rng');
  }

  /** No step, of whatever kind, makes the box of a key that the operation does not update come, go or
  change its value; and only the step of its effect does so for the key of the operation. */
  lemma StepLeaves(s: State, t: nat, s': State, rng: Ranges, k: Key)
    requires Inv(s, rng) && Step(s, t, s') && (TakesEffect(s, t) ==> !Updates(s.threads[t].op, k))
    ensures SameBinding(s.nodes, s'.nodes, k)
  {
    StepKeepsInv(s, t, s', rng);
    BoxesAreMap(s, s', rng, RangesAfter(s, t, s', rng));
    SameBindings(s.nodes, s'.nodes, Contents(s.nodes), Contents(s'.nodes), k);
  }

  /** The key has a box before if and only if after, with the same value. */
  ghost predicate SameBinding(nodes: Nodes, nodes': Nodes, k: Key) {
    && ((exists b :: Binds(nodes, b, k)) <==> exists b :: Binds(nodes', b, k))
    && forall a, b | Binds(nodes, a, k) && Binds(nodes', b, k) :: nodes[a].value == nodes'[b].value
  }

  lemma Bound(nodes: Nodes, m: map<Key, Ptr>, k: Key)
    requires Stores(nodes, m)
    ensures k in m <==> exists b :: Binds(nodes, b, k)
    ensures k in m ==> exists b :: Binds(nodes, b, k) && nodes[b].value == m[k]
    ensures forall b | Binds(nodes, b, k) :: k in m && nodes[b].value == m[k]
  {
    if k in m {
      var b :| Binds(nodes, b, k);
      assert nodes[b].value == m[k];
    }
  }

  lemma SameBindings(nodes: Nodes, nodes': Nodes, m: map<Key, Ptr>, m': map<Key, Ptr>, k: Key)
    requires Stores(nodes, m) && Stores(nodes', m') && (k in m <==> k in m') && (k in m ==> m[k] == m'[k])
    ensures SameBinding(nodes, nodes', k)
  {
    Bound(nodes, m, k);
    Bound(nodes', m', k);
  }
}
