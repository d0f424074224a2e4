/** The functional search tree that specifies the C code, and the map it implements. */
module BstFunctional {
  import opened BstProtocol

  datatype Tree = E | T(left: Tree, key: Key, value: Ptr, right: Tree)

  function Lookup(x: Key, t: Tree): Ptr {
    match t
    case E => NULL
    case T(a, y, v, b) => if x < y then Lookup(x, a) else if y < x then Lookup(x, b) else v
  }

  function Insert(x: Key, v: Ptr, t: Tree): Tree {
    match t
    case E => T(E, x, v, E)
    case T(a, y, w, b) =>
      if x < y then T(Insert(x, v, a), y, w, b) else if y < x then T(a, y, w, Insert(x, v, b)) else T(a, x, v, b)
  }

  function PushdownLeft(a: Tree, bc: Tree): Tree {
    match bc
    case E => a
    case T(b, y, v, c) => T(PushdownLeft(a, b), y, v, c)
  }

  function Delete(x: Key, t: Tree): Tree {
    match t
    case E => E
    case T(a, y, v, b) =>
      if x < y then T(Delete(x, a), y, v, b) else if y < x then T(a, y, v, Delete(x, b)) else PushdownLeft(a, b)
  }

  /** A search tree with all keys strictly between lo and hi. */
  predicate Sorted(t: Tree, lo: int, hi: int) {
    t.T? ==> lo < t.key < hi && Sorted(t.left, lo, t.key) && Sorted(t.right, t.key, hi)
  }

  /** A search tree of any keys. */
  predicate Ordered(t: Tree) {
    Sorted(t, -0x8000_0001, 0x8000_0000)
  }

  /** The keys and values at the nodes of a tree, wherever they are. */
  function Bindings(t: Tree): map<Key, Ptr> {
    match t
    case E => map[]
    case T(a, y, v, b) => Joined(Bindings(a), y, v, Bindings(b))
  }

  function Joined(a: map<Key, Ptr>, y: Key, v: Ptr, b: map<Key, Ptr>): map<Key, Ptr> {
    a + map[y := v] + b
  }

  lemma PutLeft(a: map<Key, Ptr>, y: Key, v: Ptr, b: map<Key, Ptr>, x: Key, w: Ptr)
    requires x != y && x !in b
    ensures Joined(a[x := w], y, v, b) == Joined(a, y, v, b)[x := w]
  {
  }

  lemma PutRight(a: map<Key, Ptr>, y: Key, v: Ptr, b: map<Key, Ptr>, x: Key, w: Ptr)
    ensures Joined(a, y, v, b[x := w]) == Joined(a, y, v, b)[x := w]
  {
  }

  lemma PutHere(a: map<Key, Ptr>, y: Key, v: Ptr, b: map<Key, Ptr>, w: Ptr)
    requires y !in b
    ensures Joined(a, y, w, b) == Joined(a, y, v, b)[y := w]
  {
  }

  lemma CutLeft(a: map<Key, Ptr>, y: Key, v: Ptr, b: map<Key, Ptr>, x: Key)
    requires x != y && x !in b
    ensures Joined(a - {x}, y, v, b) == Joined(a, y, v, b) - {x}
  {
  }

  lemma CutRight(a: map<Key, Ptr>, y: Key, v: Ptr, b: map<Key, Ptr>, x: Key)
    requires x != y && x !in a
    ensures Joined(a, y, v, b - {x}) == Joined(a, y, v, b) - {x}
  {
  }

  lemma CutHere(a: map<Key, Ptr>, y: Key, v: Ptr, b: map<Key, Ptr>)
    requires y !in a && y !in b
    ensures a + b == Joined(a, y, v, b) - {y}
  {
  }

  lemma JoinLeft(a: map<Key, Ptr>, b: map<Key, Ptr>, y: Key, v: Ptr, c: map<Key, Ptr>)
    ensures Joined(a + b, y, v, c) == a + Joined(b, y, v, c)
  {
  }

  lemma {:induction false} BindingsInRange(t: Tree, lo: int, hi: int)
    requires Sorted(t, lo, hi)
    ensures forall k | k in Bindings(t) :: lo < k < hi
  {
    if t.T? {
      BindingsInRange(t.left, lo, t.key);
      BindingsInRange(t.right, t.key, hi);
    }
  }

  /** In a search tree the functional lookup finds every node. */
  lemma {:induction false} LookupFinds(x: Key, t: Tree, lo: int, hi: int)
    requires Sorted(t, lo, hi)
    ensures Lookup(x, t) == if x in Bindings(t) then Bindings(t)[x] else NULL
  {
    if t.T? {
      LookupFinds(x, t.left, lo, t.key);
      LookupFinds(x, t.right, t.key, hi);
      BindingsInRange(t.left, lo, t.key);
      BindingsInRange(t.right, t.key, hi);
    }
  }

  /** Insertion stays sorted, binds the key and keeps every other binding. */
  lemma {:induction false} InsertBinds(x: Key, v: Ptr, t: Tree, lo: int, hi: int)
    requires Sorted(t, lo, hi) && lo < x < hi
    ensures Sorted(Insert(x, v, t), lo, hi)
    ensures Bindings(Insert(x, v, t)) == Bindings(t)[x := v]
  {
    if t.T? {
      BindingsInRange(t.left, lo, t.key);
      BindingsInRange(t.right, t.key, hi);
      var a, b := Bindings(t.left), Bindings(t.right);
      if x < t.key {
        InsertBinds(x, v, t.left, lo, t.key);
        PutLeft(a, t.key, t.value, b, x, v);
      } else if t.key < x {
        InsertBinds(x, v, t.right, t.key, hi);
        PutRight(a, t.key, t.value, b, x, v);
      } else {
        PutHere(a, t.key, t.value, b, v);
      }
    }
  }

  lemma {:induction false} Widen(t: Tree, lo: int, mid: int, hi: int)
    requires Sorted(t, lo, mid) && mid <= hi
    ensures Sorted(t, lo, hi)
  {
    if t.T? { Widen(t.right, t.key, mid, hi); }
  }

  /** pushdown_left joins two trees, keeping order and every binding of both. */
  lemma {:induction false} PushdownBinds(a: Tree, bc: Tree, lo: int, mid: int, hi: int)
    requires lo < mid < hi && Sorted(a, lo, mid) && Sorted(bc, mid, hi)
    ensures Sorted(PushdownLeft(a, bc), lo, hi)
    ensures Bindings(PushdownLeft(a, bc)) == Bindings(a) + Bindings(bc)
  {
    if bc.E? {
      Widen(a, lo, mid, hi);
    } else {
      PushdownBinds(a, bc.left, lo, mid, bc.key);
      JoinLeft(Bindings(a), Bindings(bc.left), bc.key, bc.value, Bindings(bc.right));
    }
  }

  /** Deletion stays sorted, removes exactly the key and keeps every other binding. */
  lemma {:induction false} DeleteUnbinds(x: Key, t: Tree, lo: int, hi: int)
    requires Sorted(t, lo, hi)
    ensures Sorted(Delete(x, t), lo, hi)
    ensures Bindings(Delete(x, t)) == Bindings(t) - {x}
  {
    if t.T? {
      BindingsInRange(t.left, lo, t.key);
      BindingsInRange(t.right, t.key, hi);
      var a, b := Bindings(t.left), Bindings(t.right);
      if x < t.key {
        DeleteUnbinds(x, t.left, lo, t.key);
        CutLeft(a, t.key, t.value, b, x);
      } else if t.key < x {
        DeleteUnbinds(x, t.right, t.key, hi);
        CutRight(a, t.key, t.value, b, x);
      } else {
        PushdownBinds(t.left, t.right, lo, t.key, hi);
        CutHere(a, t.key, t.value, b);
      }
    }
  }
}
