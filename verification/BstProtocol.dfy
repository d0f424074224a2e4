/** The hand-over-hand locking protocol of the concurrent search tree, as a step system.

A box (`tree_t`) is an identifier that owns a lock and holds either nothing or a
node (`tree`).  A thread runs one operation; it advances by one lock operation, or by the
straight-line code between two lock operations, at a time.  Steps of different threads
interleave arbitrarily. */
module BstProtocol {
  import opened Wrappers

  /** The C type `int`. */
  type Key = k: int | -0x8000_0000 <= k < 0x8000_0000 witness 0

  /** Values are untyped pointers; `NULL` is what `lookup` answers for an absent key. */
  type Ptr = int

  const NULL: Ptr := 0

  type BoxId = nat

  datatype Content = Null | Node(key: Key, value: Ptr, left: BoxId, right: BoxId)

  datatype Op = Insert(key: Key, val: Ptr) | Lookup(key: Key) | Delete(key: Key)

  /** Where a thread stands.  The boxes a program counter names are the local variables
  of the C code at that point. */
  datatype PC =
    | Idle                                                 // not called yet
    | WantRoot                                             // blocked on the root's lock
    | At(cur: BoxId)                                       // holds cur, top of the search loop
    | Want(cur: BoxId, child: BoxId)                       // holds cur, blocked on child
    | Got(cur: BoxId, child: BoxId)                        // holds both, about to release cur
    | PushWant(p: BoxId, q: BoxId)                         // pushdown_left holds p, blocked on q
    | PushGot(p: BoxId, q: BoxId)                          // holds p and q
    | PushWantLeft(p: BoxId, q: BoxId, l: BoxId)           // q is empty, blocked on l
    | PushGotLeft(p: BoxId, q: BoxId, l: BoxId)            // holds all three
    | PushTurned(top: BoxId, p: BoxId)                     // rotated, about to release top
    | Unlock(cur: BoxId, result: Ptr)                      // took effect, about to release cur
    | Done(result: Ptr)
  {
    /** The boxes whose locks a thread holds at this point. */
    function Held(): set<BoxId> {
      match this
      case Idle => {}
      case WantRoot => {}
      case At(b) => {b}
      case Want(b, _) => {b}
      case Got(b, c) => {b, c}
      case PushWant(p, _) => {p}
      case PushGot(p, q) => {p, q}
      case PushWantLeft(p, q, _) => {p, q}
      case PushGotLeft(p, q, l) => {p, q, l}
      case PushTurned(o, p) => {o, p}
      case Unlock(b, _) => {b}
      case Done(_) => {}
    }

    /** Every box a thread at this point may still dereference. */
    function Refs(): set<BoxId> {
      Held() +
      match this
      case Want(_, c) => {c}
      case PushWant(_, q) => {q}
      case PushWantLeft(_, _, l) => {l}
      case _ => {}
    }

    /** The operation has taken effect. */
    predicate Effective() {
      Unlock? || Done?
    }
  }

  datatype Thread = Thread(op: Op, pc: PC)

  datatype State = State(nodes: map<BoxId, Content>, locks: map<BoxId, Option<nat>>, root: BoxId, threads: seq<Thread>)
  {
    function Goto(t: nat, pc: PC): State
      requires t < |threads|
    {
      this.(threads := threads[t := threads[t].(pc := pc)])
    }

    predicate IsFree(b: BoxId) {
      b in locks && locks[b] == None
    }

    function Acquire(b: BoxId, t: nat): State {
      this.(locks := locks[b := Some(t)])
    }

    function Release(b: BoxId): State {
      this.(locks := locks[b := None])
    }
  }

  /** The state right after treebox_new: one empty, unlocked box; no operation called. */
  predicate Initial(s: State) {
    && s.nodes == map[s.root := Null]
    && s.locks == map[s.root := None]
    && forall t | 0 <= t < |s.threads| :: s.threads[t].pc == Idle
  }

  /** Insertion into an empty box: two fresh empty boxes, both unlocked, and the new node. */
  function Filled(s: State, t: nat, b: BoxId, x: Key, v: Ptr, l: BoxId, r: BoxId): State
    requires t < |s.threads|
  {
    s.(nodes := s.nodes[l := Null][r := Null][b := Node(x, v, l, r)],
       locks := s.locks[l := None][r := None]).Goto(t, Unlock(b, NULL))
  }

  /** turn_left on boxes p and q = right child of p: the node of q moves to p, the node of p to q. */
  function Turned(nodes: map<BoxId, Content>, p: BoxId, q: BoxId): map<BoxId, Content>
    requires p in nodes && q in nodes && nodes[p].Node? && nodes[q].Node?
  {
    var l, r := nodes[p], nodes[q];
    nodes[q := l.(right := r.left)][p := r.(left := q)]
  }

  /** The end of pushdown_left: p takes over the content of l; boxes q and l are freed. */
  function Spliced(nodes: map<BoxId, Content>, p: BoxId, q: BoxId, l: BoxId): map<BoxId, Content>
    requires l in nodes
  {
    nodes[p := nodes[l]] - {q, l}
  }

  /** The top of the search loop: the code from reading `tgt->t` to the next lock operation. */
  ghost predicate Visit(s: State, t: nat, b: BoxId, s': State)
    requires t < |s.threads| && b in s.nodes
  {
    var op := s.threads[t].op;
    match s.nodes[b]
    case Null =>
      if op.Insert? then
        exists l: BoxId, r: BoxId ::
          l !in s.nodes && r !in s.nodes && l != r && s' == Filled(s, t, b, op.key, op.val, l, r)
      else
        s' == s.Goto(t, Unlock(b, NULL))
    case Node(y, v, l, r) =>
      if op.key < y then
        s' == s.Goto(t, Want(b, l))
      else if y < op.key then
        s' == s.Goto(t, Want(b, r))
      else match op
        case Insert(_, w) => s' == s.(nodes := s.nodes[b := s.nodes[b].(value := w)]).Goto(t, Unlock(b, NULL))
        case Lookup(_) => s' == s.Goto(t, Unlock(b, v))
        case Delete(_) => s' == s.Goto(t, PushWant(b, r))
  }

  /** Thread t takes one step from s to s'.  A thread blocked on a lock that is taken has no
  step, nor has one that would dereference a box that is not allocated. */
  ghost predicate Step(s: State, t: nat, s': State)
  {
    t < |s.threads| &&
    match s.threads[t].pc
    case Idle => s' == s.Goto(t, WantRoot)
    case WantRoot => s.IsFree(s.root) && s' == s.Acquire(s.root, t).Goto(t, At(s.root))
    case At(b) => b in s.nodes && Visit(s, t, b, s')
    case Want(b, c) => s.IsFree(c) && s' == s.Acquire(c, t).Goto(t, Got(b, c))
    case Got(b, c) => b in s.locks && s' == s.Release(b).Goto(t, At(c))
    case PushWant(p, q) => s.IsFree(q) && s' == s.Acquire(q, t).Goto(t, PushGot(p, q))
    case PushGot(p, q) =>
      && p in s.nodes && q in s.nodes && s.nodes[p].Node?
      && s' == (if s.nodes[q].Null? then
                  s.Goto(t, PushWantLeft(p, q, s.nodes[p].left))
                else
                  s.(nodes := Turned(s.nodes, p, q)).Goto(t, PushTurned(p, q)))
    case PushWantLeft(p, q, l) => s.IsFree(l) && s' == s.Acquire(l, t).Goto(t, PushGotLeft(p, q, l))
    case PushGotLeft(p, q, l) =>
      && p in s.nodes && q in s.nodes && l in s.nodes
      && s' == s.(nodes := Spliced(s.nodes, p, q, l), locks := s.locks - {q, l}).Goto(t, Unlock(p, NULL))
    case PushTurned(o, p) =>
      && o in s.locks && p in s.nodes && s.nodes[p].Node?
      && s' == s.Release(o).Goto(t, PushWant(p, s.nodes[p].right))
    case Unlock(b, r) => b in s.locks && s' == s.Release(b).Goto(t, Done(r))
    case Done(_) => false
  }

  /** The step at which an operation takes effect: filling an empty box, reading an empty box,
  writing or reading the value under the key, or the final splice of a deletion. */
  predicate TakesEffect(s: State, t: nat)
  {
    t < |s.threads| &&
    match s.threads[t].pc
    case At(b) => b in s.nodes &&
                  (s.nodes[b].Null? || (s.nodes[b].key == s.threads[t].op.key && !s.threads[t].op.Delete?))
    case PushGotLeft(_, _, _) => true
    case _ => false
  }

  /** A finite execution: states[i] goes to states[i+1] by a step of thread sched[i]. */
  ghost predicate IsRun(states: seq<State>, sched: seq<nat>)
  {
    && |states| == |sched| + 1
    && Initial(states[0])
    && forall i {:trigger StepAt(states, sched, i)} | 0 <= i < |sched| :: StepAt(states, sched, i)
  }

  ghost predicate StepAt(states: seq<State>, sched: seq<nat>, i: nat)
    requires i < |sched| < |states|
  {
    Step(states[i], sched[i], states[i + 1])
  }
}
