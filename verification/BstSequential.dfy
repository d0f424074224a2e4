/** The C functions run by one thread: loops over the box heap that compute the functional tree. */
module BstSequential {
  import opened BstProtocol
  import F = BstFunctional

  /** A tree together with the box each of its nodes and empty leaves sits in. */
  datatype Layout =
    | Leaf(box: BoxId)
    | Branch(box: BoxId, left: Layout, key: Key, value: Ptr, right: Layout)

  function Boxes(t: Layout): set<BoxId> {
    {t.box} + if t.Leaf? then {} else Boxes(t.left) + Boxes(t.right)
  }

  /** The heap holds t, and no box is used twice. */
  predicate Holds(nodes: map<BoxId, Content>, t: Layout) {
    && t.box in nodes
    && match t
       case Leaf(b) => nodes[b] == Null
       case Branch(b, l, k, v, r) =>
         && nodes[b] == Node(k, v, l.box, r.box)
         && b !in Boxes(l) && b !in Boxes(r) && Boxes(l) !! Boxes(r)
         && Holds(nodes, l) && Holds(nodes, r)
  }

  function Erase(t: Layout): F.Tree {
    match t
    case Leaf(_) => F.E
    case Branch(_, l, k, v, r) => F.T(Erase(l), k, v, Erase(r))
  }

  lemma {:induction false} BoxesAllocated(nodes: map<BoxId, Content>, t: Layout)
    requires Holds(nodes, t)
    ensures Boxes(t) <= nodes.Keys
  {
    if t.Branch? {
      BoxesAllocated(nodes, t.left);
      BoxesAllocated(nodes, t.right);
    }
  }

  lemma {:induction false} HoldsFrame(nodes: map<BoxId, Content>, nodes': map<BoxId, Content>, t: Layout)
    requires Holds(nodes, t) && forall b | b in nodes && b in Boxes(t) :: b in nodes' && nodes'[b] == nodes[b]
    ensures Holds(nodes', t)
  {
    BoxesAllocated(nodes, t);
    if t.Branch? {
      HoldsFrame(nodes, nodes', t.left);
      HoldsFrame(nodes, nodes', t.right);
    }
  }

  /** The part of the tree above a box: the way from the root down to it. */
  datatype Path =
    | Top
    | LeftOf(up: Path, box: BoxId, key: Key, value: Ptr, right: Layout)
    | RightOf(up: Path, box: BoxId, left: Layout, key: Key, value: Ptr)

  function Plug(p: Path, t: Layout): Layout {
    match p
    case Top => t
    case LeftOf(up, b, k, v, r) => Plug(up, Branch(b, t, k, v, r))
    case RightOf(up, b, l, k, v) => Plug(up, Branch(b, l, k, v, t))
  }

  function PlugTree(p: Path, t: F.Tree): F.Tree {
    match p
    case Top => t
    case LeftOf(up, _, k, v, r) => PlugTree(up, F.T(t, k, v, Erase(r)))
    case RightOf(up, _, l, k, v) => PlugTree(up, F.T(Erase(l), k, v, t))
  }

  /** A search for x goes this way. */
  predicate Follows(p: Path, x: Key) {
    match p
    case Top => true
    case LeftOf(up, _, k, _, _) => x < k && Follows(up, x)
    case RightOf(up, _, _, k, _) => k < x && Follows(up, x)
  }

  lemma {:induction false} ErasePlug(p: Path, t: Layout)
    ensures Erase(Plug(p, t)) == PlugTree(p, Erase(t))
  {
    match p
    case Top =>
    case LeftOf(up, b, k, v, r) => ErasePlug(up, Branch(b, t, k, v, r));
    case RightOf(up, b, l, k, v) => ErasePlug(up, Branch(b, l, k, v, t));
  }

  lemma {:induction false} PathCommutes(p: Path, x: Key, v: Ptr, t: F.Tree)
    requires Follows(p, x)
    ensures F.Insert(x, v, PlugTree(p, t)) == PlugTree(p, F.Insert(x, v, t))
    ensures F.Delete(x, PlugTree(p, t)) == PlugTree(p, F.Delete(x, t))
    ensures F.Lookup(x, PlugTree(p, t)) == F.Lookup(x, t)
  {
    match p
    case Top =>
    case LeftOf(up, _, k, w, r) => PathCommutes(up, x, v, F.T(t, k, w, Erase(r)));
    case RightOf(up, _, l, k, w) => PathCommutes(up, x, v, F.T(Erase(l), k, w, t));
  }

  /** The subtree at the end of a path is in the heap. */
  lemma {:induction false} PlugInside(nodes: map<BoxId, Content>, p: Path, t: Layout)
    requires Holds(nodes, Plug(p, t))
    ensures Holds(nodes, t) && Boxes(t) <= Boxes(Plug(p, t))
  {
    match p
    case Top =>
    case LeftOf(up, b, k, v, r) => PlugInside(nodes, up, Branch(b, t, k, v, r));
    case RightOf(up, b, l, k, v) => PlugInside(nodes, up, Branch(b, l, k, v, t));
  }

  /** From the heap nodes, where t sits in a larger tree, to nodes', where t' sits in its box:
  nothing outside t changes, and the boxes t' adds are new. */
  ghost predicate Replaces(nodes: map<BoxId, Content>, nodes': map<BoxId, Content>, t: Layout, t': Layout) {
    && t'.box == t.box && Holds(nodes', t')
    && (forall b | b in nodes && b !in Boxes(t) :: b in nodes' && nodes'[b] == nodes[b])
    && Boxes(t') * nodes.Keys <= Boxes(t)
  }

  lemma ReplaceLeft(nodes: map<BoxId, Content>, nodes': map<BoxId, Content>, b: BoxId, t: Layout, t': Layout, k: Key,
                    v: Ptr, r: Layout)
    requires Holds(nodes, Branch(b, t, k, v, r)) && Replaces(nodes, nodes', t, t')
    ensures Replaces(nodes, nodes', Branch(b, t, k, v, r), Branch(b, t', k, v, r))
    ensures Boxes(Branch(b, t', k, v, r)) == (Boxes(Branch(b, t, k, v, r)) - Boxes(t)) + Boxes(t')
  {
    BoxesAllocated(nodes, r);
    HoldsFrame(nodes, nodes', r);
  }

  lemma ReplaceRight(nodes: map<BoxId, Content>, nodes': map<BoxId, Content>, b: BoxId, l: Layout, t: Layout,
                     t': Layout, k: Key, v: Ptr)
    requires Holds(nodes, Branch(b, l, k, v, t)) && Replaces(nodes, nodes', t, t')
    ensures Replaces(nodes, nodes', Branch(b, l, k, v, t), Branch(b, l, k, v, t'))
    ensures Boxes(Branch(b, l, k, v, t')) == (Boxes(Branch(b, l, k, v, t)) - Boxes(t)) + Boxes(t')
  {
    BoxesAllocated(nodes, l);
    HoldsFrame(nodes, nodes', l);
  }

  lemma Regroup<A>(w: set<A>, s: set<A>, s': set<A>, t: set<A>, t': set<A>)
    requires t <= s <= w && s' == (s - t) + t'
    ensures (w - s) + s' == (w - t) + t'
  {
  }

  /** Replacing the subtree at the end of a path replaces it in the whole tree. */
  lemma {:induction false} PlugReplace(nodes: map<BoxId, Content>, nodes': map<BoxId, Content>, p: Path, t: Layout,
                                       t': Layout)
    requires Holds(nodes, Plug(p, t)) && Replaces(nodes, nodes', t, t')
    ensures Holds(nodes', Plug(p, t')) && Plug(p, t').box == Plug(p, t).box
    ensures Boxes(t) <= Boxes(Plug(p, t)) && Boxes(Plug(p, t')) == (Boxes(Plug(p, t)) - Boxes(t)) + Boxes(t')
  {
    match p
    case Top =>
    case LeftOf(up, b, k, v, r) =>
      var s, s' := Branch(b, t, k, v, r), Branch(b, t', k, v, r);
      PlugInside(nodes, up, s);
      ReplaceLeft(nodes, nodes', b, t, t', k, v, r);
      PlugReplace(nodes, nodes', up, s, s');
      Regroup(Boxes(Plug(up, s)), Boxes(s), Boxes(s'), Boxes(t), Boxes(t'));
    case RightOf(up, b, l, k, v) =>
      var s, s' := Branch(b, l, k, v, t), Branch(b, l, k, v, t');
      PlugInside(nodes, up, s);
      ReplaceRight(nodes, nodes', b, l, t, t', k, v);
      PlugReplace(nodes, nodes', up, s, s');
      Regroup(Boxes(Plug(up, s)), Boxes(s), Boxes(s'), Boxes(t), Boxes(t'));
  }

  /** turn_left turns the tree at p; the four subtrees stay where they are. */
  lemma TurnReplaces(nodes: map<BoxId, Content>, t: Layout)
    requires Holds(nodes, t) && t.Branch? && t.right.Branch?
    ensures t.box in nodes && t.right.box in nodes && nodes[t.box].Node? && nodes[t.right.box].Node?
            && t.box != t.right.box
    ensures Replaces(nodes, Turned(nodes, t.box, t.right.box), t, Rotated(t))
    ensures Boxes(Rotated(t)) == Boxes(t)
  {
    TurnHolds(nodes, t);
  }

  lemma TurnHolds(nodes: map<BoxId, Content>, t: Layout)
    requires Holds(nodes, t) && t.Branch? && t.right.Branch?
    ensures t.box in nodes && t.right.box in nodes && nodes[t.box].Node? && nodes[t.right.box].Node?
    ensures Holds(Turned(nodes, t.box, t.right.box), Rotated(t)) && Boxes(Rotated(t)) == Boxes(t)
  {
    var nodes' := Turned(nodes, t.box, t.right.box);
    HoldsFrame(nodes, nodes', t.left);
    HoldsFrame(nodes, nodes', t.right.left);
    HoldsFrame(nodes, nodes', t.right.right);
    assert Holds(nodes', Rotated(t).left);
  }

  function Rotated(t: Layout): Layout
    requires t.Branch? && t.right.Branch?
  {
    var q := t.right;
    Branch(t.box, Branch(q.box, t.left, t.key, t.value, q.left), q.key, q.value, q.right)
  }

  /** The final splice puts the left subtree into the box of the doomed node. */
  lemma SpliceReplaces(nodes: map<BoxId, Content>, t: Layout)
    requires Holds(nodes, t) && t.Branch? && t.right.Leaf?
    ensures t.box in nodes && t.left.box in nodes
    ensures var t' := t.left.(box := t.box);
            && Replaces(nodes, Spliced(nodes, t.box, t.right.box, t.left.box), t, t')
            && Boxes(t') == Boxes(t) - {t.right.box, t.left.box}
  {
    var nodes' := Spliced(nodes, t.box, t.right.box, t.left.box);
    if t.left.Branch? {
      HoldsFrame(nodes, nodes', t.left.left);
      HoldsFrame(nodes, nodes', t.left.right);
    }
  }

  /** The way down into the box the doomed node was turned into. */
  function Lower(path: Path, t: Layout): Path
    requires t.Branch? && t.right.Branch?
  {
    LeftOf(path, t.box, t.right.key, t.right.value, t.right.right)
  }

  /** What is left to do when t's node is doomed: drop it, keeping the order of the others. */
  function Goal(path: Path, t: Layout): F.Tree
    requires t.Branch?
  {
    PlugTree(path, F.PushdownLeft(Erase(t.left), Erase(t.right)))
  }

  /** One round of pushdown_left keeps the heap's boxes and the goal. */
  lemma TurnRound(nodes: map<BoxId, Content>, path: Path, t: Layout)
    requires Holds(nodes, Plug(path, t)) && t.Branch? && t.right.Branch?
    ensures t.box in nodes && t.right.box in nodes && nodes[t.box].Node? && nodes[t.right.box].Node?
            && t.box != t.right.box
    ensures var whole := Plug(Lower(path, t), Rotated(t).left);
            && whole == Plug(path, Rotated(t)) && whole.box == Plug(path, t).box && Boxes(whole) == Boxes(Plug(path, t))
            && Holds(Turned(nodes, t.box, t.right.box), whole)
            && Holds(Turned(nodes, t.box, t.right.box), Rotated(t).left)
    ensures Goal(Lower(path, t), Rotated(t).left) == Goal(path, t)
  {
    PlugInside(nodes, path, t);
    TurnReplaces(nodes, t);
    PlugReplace(nodes, Turned(nodes, t.box, t.right.box), path, t, Rotated(t));
  }

  /** The last round reaches the goal and frees the two boxes. */
  lemma SpliceRound(nodes: map<BoxId, Content>, path: Path, t: Layout)
    requires Holds(nodes, Plug(path, t)) && t.Branch? && t.right.Leaf?
    ensures t.box in nodes && t.left.box in nodes
    ensures var whole := Plug(path, t.left.(box := t.box));
            && whole.box == Plug(path, t).box && Boxes(whole) == Boxes(Plug(path, t)) - {t.right.box, t.left.box}
            && Holds(Spliced(nodes, t.box, t.right.box, t.left.box), whole)
            && Erase(whole) == Goal(path, t)
  {
    PlugInside(nodes, path, t);
    SpliceReplaces(nodes, t);
    PlugReplace(nodes, Spliced(nodes, t.box, t.right.box, t.left.box), path, t, t.left.(box := t.box));
    ErasePlug(path, t.left.(box := t.box));
  }

  lemma FillReplaces(nodes: map<BoxId, Content>, t: Layout, x: Key, v: Ptr, l: BoxId, r: BoxId)
    requires Holds(nodes, t) && t.Leaf? && l !in nodes && r !in nodes && l != r
    ensures var t' := Branch(t.box, Leaf(l), x, v, Leaf(r));
            && Replaces(nodes, nodes[l := Null][r := Null][t.box := Node(x, v, l, r)], t, t')
            && Boxes(t') == Boxes(t) + {l, r}
  {
    var nodes' := nodes[l := Null][r := Null][t.box := Node(x, v, l, r)];
    assert Holds(nodes', Leaf(l)) && Holds(nodes', Leaf(r));
    assert Boxes(Leaf(l)) == {l} && Boxes(Leaf(r)) == {r};
  }

  lemma WriteReplaces(nodes: map<BoxId, Content>, t: Layout, v: Ptr)
    requires Holds(nodes, t) && t.Branch?
    ensures t.box in nodes && nodes[t.box].Node?
    ensures Replaces(nodes, nodes[t.box := nodes[t.box].(value := v)], t, t.(value := v))
    ensures Boxes(t.(value := v)) == Boxes(t)
  {
    var nodes' := nodes[t.box := nodes[t.box].(value := v)];
    HoldsFrame(nodes, nodes', t.left);
    HoldsFrame(nodes, nodes', t.right);
  }

  class Treebox {
    var nodes: map<BoxId, Content>
    const root: BoxId
    ghost var layout: Layout

    /** The boxes form one tree; nothing else is allocated. */
    ghost predicate Shaped()
      reads this
    {
      Holds(nodes, layout) && layout.box == root && nodes.Keys == Boxes(layout)
    }

    ghost predicate Valid()
      reads this
    {
      Shaped() && F.Ordered(Tree())
    }

    /** The map the tree in the heap stands for. */
    ghost function Contents(): map<Key, Ptr>
      reads this
    {
      F.Bindings(Tree())
    }

    ghost function Tree(): F.Tree
      reads this
    {
      Erase(layout)
    }

    constructor ()
      ensures Valid() && Tree() == F.E && Contents() == map[]
    {
      root := 0;
      nodes := map[0 := Null];
      layout := Leaf(0);
    }

    method Fresh() returns (l: BoxId, r: BoxId)
      ensures l !in nodes && r !in nodes && l != r
    {
      var rest := nodes.Keys;
      l := 0;
      while rest != {}
        invariant rest <= nodes.Keys && forall b | b in nodes.Keys && b !in rest :: b < l
        decreases rest
      {
        var b :| b in rest;
        rest := rest - {b};
        if l <= b { l := b + 1; }
      }
      r := l + 1;
    }

    method Insert(x: Key, v: Ptr)
      requires Valid()
      modifies this
      ensures Valid() && Tree() == F.Insert(x, v, old(Tree()))
      ensures Contents() == old(Contents())[x := v]
    {
      F.InsertBinds(x, v, Tree(), -0x8000_0001, 0x8000_0000);
      var tgt := root;
      ghost var path, t := Top, layout;
      while nodes[tgt].Node? && nodes[tgt].key != x
        invariant Holds(nodes, layout) && Plug(path, t) == layout && t.box == tgt && Follows(path, x)
        invariant Holds(nodes, t)
        decreases t
      {
        var p := nodes[tgt];
        if x < p.key {
          tgt := p.left;
          path, t := LeftOf(path, t.box, t.key, t.value, t.right), t.left;
        } else {
          tgt := p.right;
          path, t := RightOf(path, t.box, t.left, t.key, t.value), t.right;
        }
      }
      ErasePlug(path, t);
      PathCommutes(path, x, v, Erase(t));
      ghost var t' := t.(box := tgt);
      if nodes[tgt].Null? {
        var p1, p2 := Fresh();
        t' := Branch(tgt, Leaf(p1), x, v, Leaf(p2));
        FillReplaces(nodes, t, x, v, p1, p2);
        PlugReplace(nodes, nodes[p1 := Null][p2 := Null][tgt := Node(x, v, p1, p2)], path, t, t');
        nodes := nodes[p1 := Null][p2 := Null];
        nodes := nodes[tgt := Node(x, v, p1, p2)];
      } else {
        t' := t.(value := v);
        WriteReplaces(nodes, t, v);
        PlugReplace(nodes, nodes[tgt := nodes[tgt].(value := v)], path, t, t');
        nodes := nodes[tgt := nodes[tgt].(value := v)];
      }
      ErasePlug(path, t');
      layout := Plug(path, t');
    }

    method Lookup(x: Key) returns (v: Ptr)
      requires Valid()
      ensures v == F.Lookup(x, Tree())
      ensures v == if x in Contents() then Contents()[x] else NULL
    {
      F.LookupFinds(x, Tree(), -0x8000_0001, 0x8000_0000);
      var tgt := root;
      ghost var path, t := Top, layout;
      while nodes[tgt].Node? && nodes[tgt].key != x
        invariant Plug(path, t) == layout && t.box == tgt && Follows(path, x) && Holds(nodes, t)
        decreases t
      {
        var p := nodes[tgt];
        if x < p.key {
          tgt := p.left;
          path, t := LeftOf(path, t.box, t.key, t.value, t.right), t.left;
        } else {
          tgt := p.right;
          path, t := RightOf(path, t.box, t.left, t.key, t.value), t.right;
        }
      }
      ErasePlug(path, t);
      PathCommutes(path, x, NULL, Erase(t));
      v := if nodes[tgt].Null? then NULL else nodes[tgt].value;
    }

    /** turn_left: the four writes of the C code, on the two nodes and their boxes. */
    method TurnLeft(tgl: BoxId, tgr: BoxId)
      requires tgl in nodes && tgr in nodes && nodes[tgl].Node? && nodes[tgr].Node? && tgl != tgr
      modifies this`nodes
      ensures nodes == Turned(old(nodes), tgl, tgr)
    {
      var r := nodes[tgr];
      var mid := r.left;
      var l := nodes[tgl];
      l := l.(right := mid);
      r := r.(left := tgr);
      nodes := nodes[tgl := r];
      nodes := nodes[tgr := l];
    }

    /** pushdown_left: rotate the doomed node at the end of the path down until its right box is
    empty, then let its left subtree take its place and free two boxes. */
    method PushdownLeft(tgp0: BoxId, ghost path0: Path, ghost t0: Layout)
      requires Shaped() && layout == Plug(path0, t0) && t0.Branch? && t0.box == tgp0
      modifies this
      ensures Shaped() && Tree() == Goal(path0, t0)
    {
      var tgp := tgp0;
      ghost var path, t := path0, t0;
      PlugInside(nodes, path, t);
      while nodes[nodes[tgp].right].Node?
        invariant Shaped() && layout == Plug(path, t) && t.Branch? && t.box == tgp
        invariant Holds(nodes, t)
        invariant Goal(path, t) == Goal(path0, t0)
        decreases t.right
      {
        var tgq := nodes[tgp].right;
        TurnRound(nodes, path, t);
        TurnLeft(tgp, tgq);
        layout := Plug(path, Rotated(t));
        path, t := Lower(path, t), Rotated(t).left;
        tgp := tgq;
      }
      var tgq, tgl := nodes[tgp].right, nodes[tgp].left;
      SpliceRound(nodes, path, t);
      nodes := Spliced(nodes, tgp, tgq, tgl);
      layout := Plug(path, t.left.(box := tgp));
    }

    method Delete(x: Key)
      requires Valid()
      modifies this
      ensures Valid() && Tree() == F.Delete(x, old(Tree()))
      ensures Contents() == old(Contents()) - {x}
    {
      F.DeleteUnbinds(x, Tree(), -0x8000_0001, 0x8000_0000);
      var tgt := root;
      ghost var path, t := Top, layout;
      while nodes[tgt].Node? && nodes[tgt].key != x
        invariant Plug(path, t) == layout && t.box == tgt && Follows(path, x) && Holds(nodes, t)
        decreases t
      {
        var p := nodes[tgt];
        if x < p.key {
          tgt := p.left;
          path, t := LeftOf(path, t.box, t.key, t.value, t.right), t.left;
        } else {
          tgt := p.right;
          path, t := RightOf(path, t.box, t.left, t.key, t.value), t.right;
        }
      }
      ErasePlug(path, t);
      PathCommutes(path, x, NULL, Erase(t));
      if nodes[tgt].Node? {
        PushdownLeft(tgt, path, t);
      }
    }
  }
}
