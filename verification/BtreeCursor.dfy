/** Relations and their cursors: the loops and recursions of the C library, on a heap of nodes. */
module BtreeCursor {
  import opened Sets
  import opened Wrappers
  import opened BtreeShape
  import opened BtreePath
  import opened BtreePut

  class Relation {
    var nodes: Nodes
    var root: Ptr
    var numRecords: nat
    var depth: nat
    ghost var pl: Places

    ghost predicate Valid()
      reads this
    {
      Consistent(nodes, pl, root, None) && numRecords == |Contents(nodes)| && depth == pl[root].height
    }

    /** RL_NewRelation: one empty leaf. */
    constructor ()
      ensures Valid() && Contents(nodes) == map[]
    {
      root := 1;
      nodes := map[1 := BtNode(true, true, true, 0, [])];
      numRecords := 0;
      depth := 0;
      pl := map[1 := Place(0, KMAX, 0)];
      new;
      StoredIsContents(nodes, map[]);
    }

    /** An address that is not in use. */
    method NewNode() returns (d: Ptr)
      ensures d !in nodes
    {
      var rest := nodes.Keys;
      d := 1;
      while rest != {}
        invariant rest <= nodes.Keys && forall b | b in nodes.Keys && b !in rest :: b < d
        decreases rest
      {
        var b :| b in rest;
        rest := rest - {b};
        if d <= b { d := b + 1; }
      }
    }

    /** splitnode: distribute the FANOUT entries of node x and the new one over x and a new node;
    the result is the entry for x's parent. */
    method SplitNode(x: Ptr, entry: Entry) returns (up: Entry)
      requires x in nodes && |nodes[x].entries| == FANOUT
      modifies this`nodes
      ensures var n := old(nodes[x]);
              var g := n.(entries := InsertAt(n.entries, RecordIndex(n.entries, entry.key), entry));
              && up.ptr !in old(nodes) && up.key == g.entries[MIDDLE].key
              && nodes == old(nodes)[x := LeftHalf(g)][up.ptr := RightHalf(g)]
    {
      var n := nodes[x];
      var tgtIdx := FindRecordIndex(n, entry.key);
      var d := NewNode();
      var all := CopyEntries(n.entries, tgtIdx, entry);
      ghost var g := n.(entries := InsertAt(n.entries, tgtIdx, entry));
      var left := CopyLeft(n.entries, tgtIdx, entry, all);
      var right := CopyRight(all, if n.isLeaf then MIDDLE else MIDDLE + 1);
      var newNode := BtNode(n.isLeaf, false, n.Last, if n.isLeaf then 0 else all[MIDDLE].ptr, right);
      assert all[MIDDLE] == g.entries[MIDDLE];
      assert newNode == RightHalf(g);
      nodes := nodes[x := n.(Last := false, entries := left)][d := newNode];
      up := Entry(all[MIDDLE].key, d);
    }
  }

  /** The loops of splitnode that copy all entries, the new one included, to one array. */
  method CopyEntries(es: seq<Entry>, tgtIdx: nat, entry: Entry) returns (all: array<Entry>)
    requires |es| == FANOUT && tgtIdx <= FANOUT
    ensures fresh(all) && all[..] == InsertAt(es, tgtIdx, entry)
  {
    all := new Entry[FANOUT + 1];
    var i := 0;
    while i < tgtIdx
      invariant 0 <= i <= tgtIdx && all[..i] == es[..i]
    {
      all[i] := es[i];
      i := i + 1;
    }
    all[tgtIdx] := entry;
    assert all[..tgtIdx] == es[..tgtIdx];
    while i < FANOUT
      invariant tgtIdx <= i <= FANOUT && all[..tgtIdx] == es[..tgtIdx] && all[tgtIdx] == entry
      invariant forall j | tgtIdx <= j < i :: all[j + 1] == es[j]
    {
      all[i + 1] := es[i];
      i := i + 1;
    }
  }

  /** The first node keeps its first entries; they are overwritten only from the new entry on. */
  method CopyLeft(es: seq<Entry>, tgtIdx: nat, entry: Entry, all: array<Entry>) returns (left: seq<Entry>)
    requires |es| == FANOUT && tgtIdx <= FANOUT && all[..] == InsertAt(es, tgtIdx, entry)
    ensures left == InsertAt(es, tgtIdx, entry)[..MIDDLE]
  {
    ghost var g := InsertAt(es, tgtIdx, entry);
    left := es;
    if tgtIdx < MIDDLE {
      var i := tgtIdx;
      while i < MIDDLE
        invariant tgtIdx <= i <= MIDDLE && |left| == FANOUT && left[..i] == g[..i]
      {
        assert all[i] == all[..][i];
        left := left[i := all[i]];
        i := i + 1;
      }
    }
    left := left[..MIDDLE];
  }

  method CopyRight(all: array<Entry>, first: nat) returns (right: seq<Entry>)
    requires all.Length == FANOUT + 1 && first <= FANOUT + 1
    ensures right == all[first..]
  {
    var i := first;
    right := [];
    while i < FANOUT + 1
      invariant first <= i <= FANOUT + 1 && right == all[first..i]
    {
      right := right + [all[i]];
      i := i + 1;
    }
  }

  /** findChildIndex. */
  method FindChildIndex(n: BtNode, key: Key) returns (r: int)
    requires n.numKeys() > 0
    ensures r == ChildIndex(n.entries, key)
  {
    var i := 0;
    while i < n.numKeys()
      invariant 0 <= i <= n.numKeys() && forall j | 0 <= j < i :: n.entries[j].key <= key
    {
      if key < n.entries[i].key { return i - 1; }
      i := i + 1;
    }
    return n.numKeys() - 1;
  }

  /** findRecordIndex. */
  method FindRecordIndex(n: BtNode, key: Key) returns (r: nat)
    ensures r == RecordIndex(n.entries, key)
  {
    if n.numKeys() == 0 { return 0; }
    var i := 0;
    while i <= n.numKeys() - 1
      invariant 0 <= i <= n.numKeys() && forall j | 0 <= j < i :: n.entries[j].key < key
    {
      if key <= n.entries[i].key { return i; }
      i := i + 1;
    }
    return n.numKeys();
  }

  /** The shifting loops of putEntry, on a node's array of which n slots are in use. */
  method ShiftInsert(a: array<Entry>, n: nat, tgtIdx: nat, e: Entry)
    requires tgtIdx <= n < a.Length
    modifies a
    ensures a[..n + 1] == InsertAt(old(a[..n]), tgtIdx, e)
  {
    var i := n;
    while i > tgtIdx
      invariant tgtIdx <= i <= n
      invariant forall j | 0 <= j < i :: a[j] == old(a[j])
      invariant forall j | i < j <= n :: a[j] == old(a[j - 1])
    {
      a[i] := a[i - 1];
      i := i - 1;
    }
    a[tgtIdx] := e;
  }

  method InsertEntry(es: seq<Entry>, tgtIdx: nat, e: Entry) returns (es': seq<Entry>)
    requires tgtIdx <= |es| < FANOUT
    ensures es' == InsertAt(es, tgtIdx, e)
  {
    var a := new Entry[FANOUT](i => if 0 <= i < |es| then es[i] else e);
    assert a[..|es|] == es;
    ShiftInsert(a, |es|, tgtIdx, e);
    es' := a[..|es| + 1];
  }

  /** A path to level lvl - 1 whose next node is `node`. */
  ghost predicate Entering(nodes: Nodes, root: Ptr, anc: seq<Ptr>, idx: seq<int>, node: Ptr, lvl: nat) {
    lvl < |anc| && lvl < |idx| && Prefix(nodes, root, anc[..lvl] + [node], idx[..lvl], lvl)
  }

  /** The path enters its own node at level lvl, and after writing an index there, a child. */
  lemma EnterChild(nodes: Nodes, root: Ptr, anc: seq<Ptr>, idx: seq<int>, lvl: nat)
    requires lvl < |anc| && lvl + 1 < |idx| && lvl + 1 < |anc| && Prefix(nodes, root, anc, idx, lvl)
    requires !nodes[anc[lvl]].isLeaf && -1 <= idx[lvl] < |nodes[anc[lvl]].entries|
    requires nodes[anc[lvl]].Child(idx[lvl]) in nodes
    ensures Entering(nodes, root, anc, idx, nodes[anc[lvl]].Child(idx[lvl]), lvl + 1)
  {
    var c := nodes[anc[lvl]].Child(idx[lvl]);
    var a, x := anc[..lvl + 1] + [c], idx[..lvl + 1];
    forall i | 0 <= i < lvl + 1 ensures EdgeAt(nodes, a, x, i)
    {
      if i < lvl { assert EdgeAt(nodes, anc, idx, i); }
    }
  }

  lemma EnteringSets(nodes: Nodes, root: Ptr, anc: seq<Ptr>, idx: seq<int>, node: Ptr, lvl: nat, anc': seq<Ptr>,
                     idx': seq<int>)
    requires Entering(nodes, root, anc, idx, node, lvl)
    requires |anc'| == |anc| && |idx'| == |idx| && anc'[..lvl] == anc[..lvl] && anc'[lvl] == node
             && idx'[..lvl] == idx[..lvl]
    ensures Prefix(nodes, root, anc', idx', lvl)
  {
    var a, x := anc[..lvl] + [node], idx[..lvl];
    forall i | 0 <= i <= lvl ensures anc'[i] == a[i] { if i < lvl { assert anc'[i] == anc'[..lvl][i]; } }
    forall i | 0 <= i < lvl ensures EdgeAt(nodes, anc', idx', i)
    {
      assert EdgeAt(nodes, a, x, i);
      assert idx'[i] == idx'[..lvl][i];
    }
  }

  lemma RecordCount(nodes: Nodes)
    ensures |Contents(nodes)| == |KeysOf(nodes)|
  {
    assert Contents(nodes).Keys == KeysOf(nodes);
    assert |Contents(nodes)| == |Contents(nodes).Keys|;
  }

  /** The start of the first leaf is position 0. */
  /** One entry back in a leaf is one record back. */
  lemma BackPosition(nodes: Nodes, pl: Places, root: Ptr, x: Ptr, i: nat)
    requires Consistent(nodes, pl, root, None) && x in nodes && nodes[x].isLeaf && i <= |nodes[x].entries|
    ensures i > 0 ==> Position(nodes, pl, x, i) == Position(nodes, pl, x, i - 1) + 1
  {
    if i > 0 { PositionStep(nodes, pl, root, x, i - 1); }
  }

  lemma FirstPosition(nodes: Nodes, pl: Places, root: Ptr, x: Ptr)
    requires Consistent(nodes, pl, root, None) && x in nodes && nodes[x].isLeaf && pl[x].lo == 0
    ensures Position(nodes, pl, x, 0) == 0
  {
    assert NodeOk(nodes, pl, x);
    forall k | k in KeysBelow(nodes, Bound(nodes, pl, x, 0)) ensures false
    {
      var i := KeyInLeaf(nodes, pl, root, x, k);
    }
    assert KeysBelow(nodes, Bound(nodes, pl, x, 0)) == {};
  }

  class Cursor {
    const relation: Relation
    var level: int
    const ancestorsIdx: array<int>
    const ancestors: array<Ptr>

    ghost predicate Arrays() {
      && ancestorsIdx.Length == MAX_TREE_DEPTH && ancestors.Length == MAX_TREE_DEPTH
      && ancestorsIdx as object != ancestors as object
    }

    /** The cursor is a whole root-to-leaf path of the relation. */
    ghost predicate Valid()
      reads this, relation, ancestorsIdx, ancestors
    {
      && Arrays() && relation.Valid() && 0 <= level < MAX_TREE_DEPTH
      && CursorOk(relation.nodes, relation.root, ancestors[..], ancestorsIdx[..], level)
    }

    /** The node the cursor is at, and its index there. */
    function CurrNode(): Ptr
      reads this, ancestors
      requires 0 <= level < ancestors.Length
    {
      ancestors[level]
    }

    function EntryIndex(): int
      reads this, ancestorsIdx
      requires 0 <= level < ancestorsIdx.Length
    {
      ancestorsIdx[level]
    }

    /** How many records come before the cursor. */
    ghost function Pos(): nat
      reads this, relation, ancestorsIdx, ancestors
      requires Valid()
    {
      Position(relation.nodes, relation.pl, CurrNode(), EntryIndex())
    }

    /** RL_NewCursor: at the first record. */
    constructor (relation: Relation)
      requires relation.Valid() && relation.numRecords < 0x2000_0000_0000_0000
      ensures this.relation == relation && Valid() && Pos() == 0 && fresh(ancestors) && fresh(ancestorsIdx)
      ensures level == relation.depth
    {
      this.relation := relation;
      level := -1;
      ancestorsIdx := new int[MAX_TREE_DEPTH];
      ancestors := new Ptr[MAX_TREE_DEPTH];
      new;
      RecordCount(relation.nodes);
      DepthFits(relation.nodes, relation.pl, relation.root);
      MoveToFirst(relation.root, 0);
      FirstPosition(relation.nodes, relation.pl, relation.root, CurrNode());
    }

    /** moveToFirst: go down along the first children. */
    method MoveToFirst(node: Ptr, lvl: nat)
      requires Arrays() && Consistent(relation.nodes, relation.pl, relation.root, None)
      requires Entering(relation.nodes, relation.root, ancestors[..], ancestorsIdx[..], node, lvl)
      requires node in relation.nodes && lvl + relation.pl[node].height < MAX_TREE_DEPTH
      modifies this`level, ancestors, ancestorsIdx
      ensures lvl <= level < MAX_TREE_DEPTH && ancestors[lvl] == node
      ensures level == lvl + relation.pl[node].height
      ensures ancestors[..lvl] == old(ancestors[..lvl]) && ancestorsIdx[..lvl] == old(ancestorsIdx[..lvl])
      ensures CursorOk(relation.nodes, relation.root, ancestors[..], ancestorsIdx[..], level)
      ensures ancestorsIdx[level] == 0 && relation.pl[ancestors[level]].lo == relation.pl[node].lo
      decreases relation.pl[node].height
    {
      ancestors[lvl] := node;
      level := lvl;
      ancestorsIdx[lvl] := if relation.nodes[node].isLeaf then 0 else -1;
      EnteringSets(relation.nodes, relation.root, old(ancestors[..]), old(ancestorsIdx[..]), node, lvl, ancestors[..],
                   ancestorsIdx[..]);
      assert NodeOk(relation.nodes, relation.pl, node);
      if !relation.nodes[node].isLeaf {
        assert KidOk(relation.nodes, relation.pl, node, -1);
        EnterChild(relation.nodes, relation.root, ancestors[..], ancestorsIdx[..], lvl);
        label Below:
        MoveToFirst(relation.nodes[node].ptr0, lvl + 1);
        assert ancestors[lvl] == ancestors[..lvl + 1][lvl] == old@Below(ancestors[..lvl + 1])[lvl] == node;
        assert ancestors[..lvl] == ancestors[..lvl + 1][..lvl] && ancestorsIdx[..lvl] == ancestorsIdx[..lvl + 1][..lvl];
      }
    }

    /** moveToLast: go down along the last children, to past the last entry. */
    method MoveToLast(node: Ptr, lvl: nat)
      requires Arrays() && Consistent(relation.nodes, relation.pl, relation.root, None)
      requires Entering(relation.nodes, relation.root, ancestors[..], ancestorsIdx[..], node, lvl)
      requires node in relation.nodes && lvl + relation.pl[node].height < MAX_TREE_DEPTH
      modifies this`level, ancestors, ancestorsIdx
      ensures lvl <= level < MAX_TREE_DEPTH && ancestors[lvl] == node
      ensures level == lvl + relation.pl[node].height
      ensures ancestors[..lvl] == old(ancestors[..lvl]) && ancestorsIdx[..lvl] == old(ancestorsIdx[..lvl])
      ensures CursorOk(relation.nodes, relation.root, ancestors[..], ancestorsIdx[..], level)
      ensures ancestorsIdx[level] == |relation.nodes[ancestors[level]].entries|
      ensures relation.pl[ancestors[level]].hi == relation.pl[node].hi
      decreases relation.pl[node].height
    {
      var n := relation.nodes[node];
      ancestors[lvl] := node;
      level := lvl;
      ancestorsIdx[lvl] := if n.isLeaf then n.numKeys() else n.numKeys() - 1;
      EnteringSets(relation.nodes, relation.root, old(ancestors[..]), old(ancestorsIdx[..]), node, lvl, ancestors[..],
                   ancestorsIdx[..]);
      assert NodeOk(relation.nodes, relation.pl, node);
      if !n.isLeaf {
        assert KidOk(relation.nodes, relation.pl, node, n.numKeys() - 1);
        EnterChild(relation.nodes, relation.root, ancestors[..], ancestorsIdx[..], lvl);
        label Below:
        MoveToLast(n.entries[n.numKeys() - 1].ptr, lvl + 1);
        assert ancestors[lvl] == ancestors[..lvl + 1][lvl] == old@Below(ancestors[..lvl + 1])[lvl] == node;
        assert ancestors[..lvl] == ancestors[..lvl + 1][..lvl] && ancestorsIdx[..lvl] == ancestorsIdx[..lvl + 1][..lvl];
      }
    }

    /** moveToKey: go down from `node`, which is entered at level lvl, taking the child for the key. */
    method MoveToKey(node: Ptr, key: Key, lvl: nat)
      requires Arrays() && Consistent(relation.nodes, relation.pl, relation.root, None)
      requires Entering(relation.nodes, relation.root, ancestors[..], ancestorsIdx[..], node, lvl)
      requires node in relation.nodes && lvl + relation.pl[node].height < MAX_TREE_DEPTH
      modifies this`level, ancestors, ancestorsIdx
      ensures lvl <= level < MAX_TREE_DEPTH && ancestors[lvl] == node
      ensures ancestors[..lvl] == old(ancestors[..lvl]) && ancestorsIdx[..lvl] == old(ancestorsIdx[..lvl])
      ensures CursorOk(relation.nodes, relation.root, ancestors[..], ancestorsIdx[..], level)
      ensures Searched(relation.nodes, ancestors[..], ancestorsIdx[..], lvl, level, key)
      decreases relation.pl[node].height
    {
      ancestors[lvl] := node;
      level := lvl;
      EnteringSets(relation.nodes, relation.root, old(ancestors[..]), old(ancestorsIdx[..]), node, lvl, ancestors[..],
                   ancestorsIdx[..]);
      assert NodeOk(relation.nodes, relation.pl, node);
      if relation.nodes[node].isLeaf {
        var r := FindRecordIndex(relation.nodes[node], key);
        ancestorsIdx[lvl] := r;
        EnteringSets(relation.nodes, relation.root, old(ancestors[..]), old(ancestorsIdx[..]), node, lvl,
                     ancestors[..], ancestorsIdx[..]);
      } else {
        var i := FindChildIndex(relation.nodes[node], key);
        ancestorsIdx[lvl] := i;
        EnteringSets(relation.nodes, relation.root, old(ancestors[..]), old(ancestorsIdx[..]), node, lvl,
                     ancestors[..], ancestorsIdx[..]);
        assert KidOk(relation.nodes, relation.pl, node, i);
        var child := if i == -1 then relation.nodes[node].ptr0 else relation.nodes[node].entries[i].ptr;
        EnterChild(relation.nodes, relation.root, ancestors[..], ancestorsIdx[..], lvl);
        label Below:
        MoveToKey(child, key, lvl + 1);
        assert ancestors[lvl] == ancestors[..lvl + 1][lvl] == old@Below(ancestors[..lvl + 1])[lvl] == node;
        assert ancestorsIdx[lvl] == ancestorsIdx[..lvl + 1][lvl] == old@Below(ancestorsIdx[..lvl + 1])[lvl] == i;
        assert ancestors[..lvl] == ancestors[..lvl + 1][..lvl] && ancestorsIdx[..lvl] == ancestorsIdx[..lvl + 1][..lvl];
      }
    }

    /** Not isValid: past the last record. */
    predicate Exhausted()
      reads this, relation, ancestorsIdx, ancestors
      requires Valid()
    {
      var n := relation.nodes[CurrNode()];
      EntryIndex() == n.numKeys() && n.Last
    }

    /** isValid. */
    method IsValid() returns (b: bool)
      requires Valid()
      ensures b <==> Pos() < relation.numRecords
      ensures b <==> !Exhausted()
    {
      var n := relation.nodes[CurrNode()];
      b := !(EntryIndex() == n.numKeys() && n.Last);
      ExhaustedIff(relation.nodes, relation.pl, relation.root, CurrNode(), EntryIndex());
      RecordCount(relation.nodes);
    }

    /** isFirst. */
    method IsFirst() returns (b: bool)
      requires Valid()
      ensures b <==> EntryIndex() == 0 && relation.nodes[CurrNode()].First
      ensures b ==> Pos() == 0
    {
      b := EntryIndex() == 0 && relation.nodes[CurrNode()].First;
      assert NodeOk(relation.nodes, relation.pl, CurrNode());
      if b { FirstPosition(relation.nodes, relation.pl, relation.root, CurrNode()); }
    }

    /** AscendToParent: up until the node at the cursor's level is surely responsible for the key, and
    no further. */
    method AscendToParent(key: Key)
      requires Valid0(level)
      modifies this`level
      ensures 0 <= level <= old(level) && Valid0(level)
      ensures var p := relation.pl[ancestors[level]]; p.lo <= key < p.hi
      ensures forall l | level <= l <= old(level) :: ancestors[l] in relation.nodes
      ensures level > 0 ==> Covers(relation.nodes[ancestors[level]], key)
      ensures forall l | level < l <= old(level) :: !Covers(relation.nodes[ancestors[l]], key)
      decreases level
    {
      assert NodeOk(relation.nodes, relation.pl, CurrNode());
      if level == 0 { return; }
      NodeParentCovers(relation.nodes[CurrNode()], key);
      NodeParentInRange(relation.nodes, relation.pl, relation.root, CurrNode(), key);
      if IsNodeParent(relation.nodes[CurrNode()], key) {
        return;
      }
      level := level - 1;
      AscendToParent(key);
    }

    /** The path down to level lvl is a path of a valid relation. */
    ghost predicate Valid0(lvl: int)
      reads this, relation, ancestorsIdx, ancestors
    {
      && Arrays() && relation.Valid() && 0 <= lvl < MAX_TREE_DEPTH
      && Prefix(relation.nodes, relation.root, ancestors[..], ancestorsIdx[..], lvl)
    }

    /** goToKey: climb only as far as needed, then descend; the result is the cursor that a
    descent from the root gives. */
    method GoToKey(key: Key)
      requires Valid()
      modifies this`level, ancestors, ancestorsIdx
      ensures AtLeaf(key)
    {
      ghost var l0 := level;
      PathPlaces(relation.nodes, relation.pl, relation.root, None, ancestors[..], ancestorsIdx[..], level, 0);
      assert NodeOk(relation.nodes, relation.pl, CurrNode());
      AscendToParent(key);
      PathPlaces(relation.nodes, relation.pl, relation.root, None, ancestors[..], ancestorsIdx[..], l0, level);
      PrefixEnters(relation.nodes, relation.root, ancestors[..], ancestorsIdx[..], level);
      SearchDown(key);
    }

    /** moveToNext: one index further in the leaf; at its end, up while at a last child, one child
    further, and down to the start of the next leaf.  `moved` counts the level changes. */
    method MoveToNext() returns (ghost moved: nat)
      requires Valid()
      modifies this`level, ancestors, ancestorsIdx
      ensures Valid()
      ensures old(Exhausted()) ==> CurrNode() == old(CurrNode()) && EntryIndex() == old(EntryIndex()) && moved == 0
      ensures !old(Exhausted()) && old(EntryIndex()) < |relation.nodes[old(CurrNode())].entries| ==>
                CurrNode() == old(CurrNode()) && EntryIndex() == old(EntryIndex()) + 1 && moved == 0
      ensures !old(Exhausted()) && old(EntryIndex()) == |relation.nodes[old(CurrNode())].entries| ==>
                && EntryIndex() == 0 && relation.pl[CurrNode()].lo == relation.pl[old(CurrNode())].hi
                && moved == 2 * (|Opened(relation.nodes, relation.pl, relation.root, relation.pl[CurrNode()].lo)|
                                - |Opened(relation.nodes, relation.pl, relation.root, relation.pl[old(CurrNode())].lo)|)
    {
      moved := 0;
      var valid := IsValid();
      if !valid { return; }
      ghost var anc, idx, l := ancestors[..], ancestorsIdx[..], level;
      AscendFromLast();
      ghost var a := level;
      if relation.nodes[CurrNode()].isLeaf {
        ancestorsIdx[level] := ancestorsIdx[level] + 1;
        NextInLeaf(relation.nodes, relation.root, anc, idx, l, a, ancestorsIdx[..]);
      } else {
        NextSubtree(l);
        moved := (l - a) + (level - a);
      }
    }

    /** From an inner node on the path to the start of its next child's subtree. */
    method NextSubtree(ghost l: nat)
      requires Arrays() && relation.Valid() && 0 <= level < l < MAX_TREE_DEPTH
      requires CursorOk(relation.nodes, relation.root, ancestors[..], ancestorsIdx[..], l)
      requires !relation.nodes[CurrNode()].isLeaf && -1 <= EntryIndex() < |relation.nodes[CurrNode()].entries| - 1
      requires relation.pl[ancestors[level + 1]].hi == relation.pl[ancestors[l]].hi
      modifies this`level, ancestors, ancestorsIdx
      ensures Valid() && level == l && EntryIndex() == 0
      ensures relation.pl[CurrNode()].lo == relation.pl[old(ancestors[l])].hi
      ensures |Opened(relation.nodes, relation.pl, relation.root, relation.pl[CurrNode()].lo)|
           == |Opened(relation.nodes, relation.pl, relation.root, relation.pl[old(ancestors[l])].lo)| + (l - old(level))
    {
      ghost var nodes, pl, root := relation.nodes, relation.pl, relation.root;
      ghost var anc, idx, a := ancestors[..], ancestorsIdx[..], level;
      ancestorsIdx[level] := ancestorsIdx[level] + 1;
      NextChild(nodes, pl, root, anc, idx, l, a, ancestorsIdx[..]);
      var child := relation.nodes[CurrNode()].entries[EntryIndex()].ptr;
      MoveToFirst(child, level + 1);
      assert ancestors[..][..a + 1] == anc[..a + 1];
      NextOpens(nodes, pl, root, anc, idx, ancestors[..], ancestorsIdx[..], l, a);
    }

    /** The climb of moveToNext: up while the index is at the last pointer. */
    method AscendFromLast()
      requires Valid() && !Exhausted()
      modifies this`level
      ensures 0 <= level <= old(level)
      ensures var n := relation.nodes[ancestors[old(level)]];
              if old(EntryIndex()) < |n.entries| then level == old(level)
              else
                && level < old(level)
                && relation.pl[ancestors[level + 1]].hi == relation.pl[ancestors[old(level)]].hi
                && ancestors[level] in relation.nodes && !relation.nodes[ancestors[level]].isLeaf
                && -1 <= ancestorsIdx[level] < |relation.nodes[ancestors[level]].entries| - 1
    {
      ghost var nodes, pl, root := relation.nodes, relation.pl, relation.root;
      ghost var anc, idx, l := ancestors[..], ancestorsIdx[..], level;
      assert NodeOk(nodes, pl, anc[l]) && NodeOk(nodes, pl, root);
      while level > 0 && EntryIndex() == LastPointer(relation.nodes[CurrNode()])
        invariant 0 <= level <= l
        invariant level == l || (pl[anc[level + 1]].hi == pl[anc[l]].hi && idx[l] == |nodes[anc[l]].entries|)
        decreases level
      {
        if level < l { ClimbLast(nodes, pl, root, anc, idx, level, l); }
        level := level - 1;
      }
      if level < l { ClimbStops(nodes, pl, root, anc, idx, level, l); }
    }

    /** moveToPrev: one index back in the leaf; at its start, up while at a first child, one child
    back, and down to past the last entry of the previous leaf. */
    method MoveToPrev()
      requires Valid()
      modifies this`level, ancestors, ancestorsIdx
      ensures Valid()
      ensures var n := relation.nodes[old(CurrNode())];
              if old(EntryIndex()) == 0 && n.First then
                CurrNode() == old(CurrNode()) && EntryIndex() == 0
              else if old(EntryIndex()) > 0 then
                CurrNode() == old(CurrNode()) && EntryIndex() == old(EntryIndex()) - 1
              else
                && EntryIndex() == |relation.nodes[CurrNode()].entries|
                && relation.pl[CurrNode()].hi == relation.pl[old(CurrNode())].lo
    {
      var first := IsFirst();
      if first { return; }
      ghost var anc, idx, l := ancestors[..], ancestorsIdx[..], level;
      AscendFromFirst();
      ghost var a := level;
      if relation.nodes[CurrNode()].isLeaf {
        ancestorsIdx[level] := ancestorsIdx[level] - 1;
        PrevInLeaf(relation.nodes, relation.root, anc, idx, l, a, ancestorsIdx[..]);
      } else {
        PrevSubtree(l);
      }
    }

    /** From an inner node on the path to the end of its previous child's subtree. */
    method PrevSubtree(ghost l: nat)
      requires Arrays() && relation.Valid() && 0 <= level < l < MAX_TREE_DEPTH
      requires CursorOk(relation.nodes, relation.root, ancestors[..], ancestorsIdx[..], l)
      requires !relation.nodes[CurrNode()].isLeaf && 0 <= EntryIndex() < |relation.nodes[CurrNode()].entries|
      requires relation.pl[ancestors[level + 1]].lo == relation.pl[ancestors[l]].lo
      modifies this`level, ancestors, ancestorsIdx
      ensures Valid() && EntryIndex() == |relation.nodes[CurrNode()].entries|
      ensures relation.pl[CurrNode()].hi == relation.pl[old(ancestors[l])].lo
    {
      ghost var nodes, pl, root := relation.nodes, relation.pl, relation.root;
      ghost var anc, idx, a := ancestors[..], ancestorsIdx[..], level;
      ancestorsIdx[level] := ancestorsIdx[level] - 1;
      PrevChild(nodes, pl, root, anc, idx, l, a, ancestorsIdx[..]);
      var n := relation.nodes[CurrNode()];
      var child := if EntryIndex() == -1 then n.ptr0 else n.entries[EntryIndex()].ptr;
      MoveToLast(child, level + 1);
    }

    /** The climb of moveToPrev: up while the index is at the first pointer. */
    method AscendFromFirst()
      requires Valid() && !(EntryIndex() == 0 && relation.nodes[CurrNode()].First)
      modifies this`level
      ensures 0 <= level <= old(level)
      ensures if old(EntryIndex()) > 0 then level == old(level)
              else
                && level < old(level)
                && relation.pl[ancestors[level + 1]].lo == relation.pl[ancestors[old(level)]].lo
                && ancestors[level] in relation.nodes && !relation.nodes[ancestors[level]].isLeaf
                && 0 <= ancestorsIdx[level] < |relation.nodes[ancestors[level]].entries|
    {
      ghost var nodes, pl, root := relation.nodes, relation.pl, relation.root;
      ghost var anc, idx, l := ancestors[..], ancestorsIdx[..], level;
      assert NodeOk(nodes, pl, anc[l]) && NodeOk(nodes, pl, root);
      while level > 0 && EntryIndex() == FirstPointer(relation.nodes[CurrNode()])
        invariant 0 <= level <= l
        invariant level == l || (pl[anc[level + 1]].lo == pl[anc[l]].lo && idx[l] == 0)
        decreases level
      {
        if level < l { ClimbFirst(nodes, pl, root, anc, idx, level, l); }
        level := level - 1;
      }
      if level < l { ClimbStopsFirst(nodes, pl, root, anc, idx, level, l); }
    }

    /** RL_MoveToFirst. */
    method RL_MoveToFirst() returns (valid: bool, ghost moved: nat)
      requires Valid()
      modifies this`level, ancestors, ancestorsIdx
      ensures Valid() && moved == relation.depth && moved <= OpenedHere()
      ensures Pos() == 0 && EntryIndex() == 0 && relation.pl[CurrNode()].lo == 0
      ensures valid <==> relation.numRecords > 0
    {
      PathPlaces(relation.nodes, relation.pl, relation.root, None, ancestors[..], ancestorsIdx[..], level, 0);
      assert NodeOk(relation.nodes, relation.pl, CurrNode());
      level := -1;
      MoveToFirst(relation.root, 0);
      moved := level;
      FirstPosition(relation.nodes, relation.pl, relation.root, CurrNode());
      OpenedPath(relation.nodes, relation.pl, relation.root, ancestors[..], ancestorsIdx[..], level);
      valid := IsValid();
    }

    /** RL_MoveToNext: one record further, unless past the last one. */
    method RL_MoveToNext() returns (ghost moved: nat)
      requires Valid()
      modifies this`level, ancestors, ancestorsIdx
      ensures Valid()
      ensures Pos() == if old(Pos()) < relation.numRecords then old(Pos()) + 1 else old(Pos())
      ensures moved == 2 * (OpenedHere() - old(OpenedHere()))
    {
      RecordCount(relation.nodes);
      ExhaustedIff(relation.nodes, relation.pl, relation.root, CurrNode(), EntryIndex());
      moved := ToRecord();
      PastRecord();
    }

    /** moveToNext from a record, or from past the last one. */
    method PastRecord()
      requires Valid() && (Exhausted() || EntryIndex() < |relation.nodes[CurrNode()].entries|)
      modifies this`level, ancestors, ancestorsIdx
      ensures Valid() && OpenedHere() == old(OpenedHere())
      ensures Pos() == if old(Exhausted()) then old(Pos()) else old(Pos()) + 1
    {
      ghost var x, i := CurrNode(), EntryIndex();
      ghost var moved := MoveToNext();
      if i < |relation.nodes[x].entries| {
        PositionStep(relation.nodes, relation.pl, relation.root, x, i);
        assert NodeOk(relation.nodes, relation.pl, x);
      }
    }

    /** How many nodes other than the root start at or before the cursor's leaf. */
    ghost function OpenedHere(): nat
      reads this, relation, ancestorsIdx, ancestors
      requires Valid()
    {
      |Opened(relation.nodes, relation.pl, relation.root, relation.pl[CurrNode()].lo)|
    }

    /** RL_MoveToPrevious: one record back, unless at the first one. */
    method RL_MoveToPrevious()
      requires Valid()
      modifies this`level, ancestors, ancestorsIdx
      ensures Valid()
      ensures Pos() == if old(Pos()) > 0 then old(Pos()) - 1 else 0
    {
      if EntryIndex() == 0 {
        BackToLeafEnd();
      }
      BackOneRecord();
    }

    /** moveToPrev from behind a record, or from the start. */
    method BackOneRecord()
      requires Valid() && (EntryIndex() > 0 || (Pos() == 0 && EntryIndex() == 0 && relation.nodes[CurrNode()].First))
      modifies this`level, ancestors, ancestorsIdx
      ensures Valid()
      ensures Pos() == if old(Pos()) > 0 then old(Pos()) - 1 else 0
    {
      ghost var x, i := CurrNode(), EntryIndex();
      MoveToPrev();
      BackPosition(relation.nodes, relation.pl, relation.root, x, i);
    }

    /** moveToPrev at the start of a leaf: to the equivalent end of the leaf before it, if any. */
    method BackToLeafEnd()
      requires Valid() && EntryIndex() == 0
      modifies this`level, ancestors, ancestorsIdx
      ensures Valid() && Pos() == old(Pos())
      ensures EntryIndex() > 0 || (Pos() == 0 && EntryIndex() == 0 && relation.nodes[CurrNode()].First)
    {
      ghost var x0 := CurrNode();
      MoveToPrev();
      if !relation.nodes[x0].First {
        NextLeafFilled(relation.nodes, relation.pl, relation.root, CurrNode(), x0);
      } else {
        assert NodeOk(relation.nodes, relation.pl, x0);
        FirstPosition(relation.nodes, relation.pl, relation.root, x0);
      }
    }

    /** RL_GetKey: the key of the record at the cursor's position; the cursor stays there. */
    method RL_GetKey() returns (k: Key)
      requires Valid() && !Exhausted()
      modifies this`level, ancestors, ancestorsIdx
      ensures Valid() && Pos() == old(Pos()) && !Exhausted()
      ensures k in Contents(relation.nodes) && |KeysBelow(relation.nodes, k)| == Pos()
      ensures old(EntryIndex()) < |relation.nodes[old(CurrNode())].entries| ==> CurrNode() == old(CurrNode())
    {
      var _ := ToRecord();
      k := relation.nodes[CurrNode()].entries[EntryIndex()].key;
      KeyAt(relation.nodes, CurrNode(), EntryIndex());
    }

    /** RL_GetRecord: the record at the cursor's position. */
    method RL_GetRecord() returns (r: Ptr, ghost k: Key, ghost moved: nat)
      requires Valid() && !Exhausted()
      modifies this`level, ancestors, ancestorsIdx
      ensures Valid() && Pos() == old(Pos()) && !Exhausted()
      ensures moved == 2 * (OpenedHere() - old(OpenedHere()))
      ensures k in Contents(relation.nodes) && |KeysBelow(relation.nodes, k)| == Pos()
      ensures r == Contents(relation.nodes)[k]
    {
      moved := ToRecord();
      k := relation.nodes[CurrNode()].entries[EntryIndex()].key;
      r := relation.nodes[CurrNode()].entries[EntryIndex()].ptr;
      KeyAt(relation.nodes, CurrNode(), EntryIndex());
      ContentsStored(relation.nodes, relation.pl, relation.root, None);
    }

    /** From the end of a leaf to the equivalent position at the start of the next one, if any. */
    method ToRecord() returns (ghost moved: nat)
      requires Valid()
      modifies this`level, ancestors, ancestorsIdx
      ensures Valid() && Pos() == old(Pos()) && Exhausted() == old(Exhausted())
      ensures !Exhausted() ==> EntryIndex() < |relation.nodes[CurrNode()].entries|
      ensures moved == 2 * (OpenedHere() - old(OpenedHere()))
      ensures old(EntryIndex()) < |relation.nodes[old(CurrNode())].entries| ==> CurrNode() == old(CurrNode())
    {
      ghost var x0 := CurrNode();
      moved := 0;
      if EntryIndex() == relation.nodes[CurrNode()].numKeys() {
        moved := MoveToNext();
        if !relation.nodes[x0].Last {
          NextLeafFilled(relation.nodes, relation.pl, relation.root, x0, CurrNode());
        }
      }
    }

    /** RL_MoveToKey: to the key's position; true exactly if the relation has the key. */
    method RL_MoveToKey(key: Key) returns (found: bool)
      requires Valid()
      modifies this`level, ancestors, ancestorsIdx
      ensures Valid() && Pos() == |KeysBelow(relation.nodes, key)|
      ensures found <==> key in Contents(relation.nodes)
    {
      GoToKey(key);
      SearchPosition(relation.nodes, relation.pl, relation.root, CurrNode(), key);
      var valid := IsValid();
      if !valid {
        AllBelow(relation.nodes, key);
        RecordCount(relation.nodes);
        return false;
      }
      var k := RL_GetKey();
      found := k == key;
      SameRank(relation.nodes, key, k);
    }

    /** What putEntry is called with: at a leaf, the cursor of a search for the key and a record for
    it; higher up, the entry that the split one level down has produced.  m is the relation wanted. */
    ghost predicate PutReady(e: Entry, key: Key, m: map<Key, Ptr>)
      reads this, relation, ancestorsIdx, ancestors
      requires Arrays() && -1 <= level < MAX_TREE_DEPTH
    {
      if level >= 0 && ancestors[level] in relation.nodes && relation.nodes[ancestors[level]].isLeaf then
        && AtLeaf(key) && e.key == key && m == Contents(relation.nodes)[key := e.ptr]
      else
        && Pending(relation.nodes, relation.pl, relation.root, ancestors[..], ancestorsIdx[..], level, e, key)
        && Contents(relation.nodes) == m && relation.numRecords + 1 == |m|
        && relation.depth == relation.pl[relation.root].height
    }

    /** The relation is m, and the cursor is at the key as after a descent from the root. */
    ghost predicate PutDone(key: Key, m: map<Key, Ptr>)
      reads this, relation, ancestorsIdx, ancestors
    {
      AtLeaf(key) && Contents(relation.nodes) == m
    }

    /** putEntry: insert at the cursor's level, splitting full nodes upwards as far as necessary. */
    method PutEntry(newEntry: Entry, key: Key, ghost m: map<Key, Ptr>)
      requires Arrays() && -1 <= level < MAX_TREE_DEPTH && |m| < 0x2000_0000_0000_0000
      requires PutReady(newEntry, key, m)
      modifies relation, this`level, ancestors, ancestorsIdx
      ensures PutDone(key, m)
      decreases level + 1
    {
      if level == -1 {
        PutRoot(newEntry, key, m);
        return;
      }
      var n := relation.nodes[CurrNode()];
      if n.isLeaf {
        assert SizeOk(relation.nodes, relation.root, None, CurrNode());
        if EntryIndex() < n.numKeys() && n.entries[EntryIndex()].key == newEntry.key {
          PutExisting(newEntry, key);
        } else if n.numKeys() < FANOUT {
          PutNew(newEntry, key);
        } else {
          var up := SplitLeaf(newEntry, key, m);
          PutEntry(up, key, m);
        }
      } else if n.numKeys() < FANOUT {
        PutInNode(newEntry, key, m);
      } else {
        AboveIsInner(relation.nodes, relation.root, ancestors[..], ancestorsIdx[..], level, newEntry, key, relation.pl);
        var up := SplitInner(newEntry, key, m);
        PutEntry(up, key, m);
      }
    }

    /** The cursor of a search for the key, in the leaf responsible for it. */
    ghost predicate AtLeaf(key: Key)
      reads this, relation, ancestorsIdx, ancestors
    {
      && Valid()
      && IsDescent(relation.nodes, relation.root, ancestors[..], ancestorsIdx[..], level, key)
      && relation.pl[ancestors[level]].lo <= key < relation.pl[ancestors[level]].hi
    }

    /** The key exists: its record is replaced. */
    method PutExisting(e: Entry, key: Key)
      requires AtLeaf(key) && e.key == key && Present(relation.nodes[CurrNode()].entries, key)
      modifies relation`nodes
      ensures PutDone(key, old(Contents(relation.nodes))[key := e.ptr])
    {
      var n := relation.nodes[CurrNode()];
      var i := EntryIndex();
      StoreRecord(relation.nodes, relation.pl, relation.root, CurrNode(), key, e.ptr);
      PutSize(Contents(relation.nodes), key, e.ptr);
      assert SizeOk(relation.nodes, relation.root, None, CurrNode());
      WriteLeaf(n.(entries := n.entries[i := n.entries[i].(ptr := e.ptr)]), key, e.ptr);
    }

    /** The key is new and the leaf has room: one more record. */
    method PutNew(e: Entry, key: Key)
      requires AtLeaf(key) && e.key == key && !Present(relation.nodes[CurrNode()].entries, key)
      requires |relation.nodes[CurrNode()].entries| < FANOUT
      modifies relation`nodes, relation`numRecords
      ensures PutDone(key, old(Contents(relation.nodes))[key := e.ptr])
    {
      var n := relation.nodes[CurrNode()];
      var es := InsertEntry(n.entries, EntryIndex(), e);
      StoreRecord(relation.nodes, relation.pl, relation.root, CurrNode(), key, e.ptr);
      PutSize(Contents(relation.nodes), key, e.ptr);
      relation.numRecords := relation.numRecords + 1;
      WriteLeaf(n.(entries := es), key, e.ptr);
    }

    /** The root has been split: a new root with the old one and the new half below it. */
    method PutRoot(e: Entry, key: Key, ghost m: map<Key, Ptr>)
      requires Arrays() && level == -1 && PutReady(e, key, m) && |m| < 0x2000_0000_0000_0000
      modifies relation, this`level, ancestors, ancestorsIdx
      ensures PutDone(key, m)
    {
      GrowRoot(e, key, m);
      SearchDown(key);
    }

    /** The new root, at the top of the cursor's path. */
    method GrowRoot(e: Entry, key: Key, ghost m: map<Key, Ptr>)
      requires Arrays() && level == -1 && PutReady(e, key, m) && |m| < 0x2000_0000_0000_0000
      modifies relation, this`level, ancestors
      ensures level == 0 && relation.Valid() && Contents(relation.nodes) == m
      ensures CurrNode() == relation.root && relation.pl[relation.root].height < MAX_TREE_DEPTH
      ensures relation.pl[relation.root].lo <= key < relation.pl[relation.root].hi
    {
      var r := relation.NewNode();
      RootPending(relation.nodes, relation.pl, relation.root, ancestors[..], ancestorsIdx[..], e, key, r);
      relation.nodes := relation.nodes[r := NewRoot(relation.root, e)];
      relation.pl := relation.pl[r := Place(0, KMAX, relation.pl[relation.root].height + 1)];
      relation.root := r;
      relation.depth := relation.depth + 1;
      relation.numRecords := relation.numRecords + 1;
      ancestors[0] := r;
      level := 0;
      RecordCount(relation.nodes);
      DepthFits(relation.nodes, relation.pl, relation.root);
    }

    /** The leaf is written back with the record in it; the cursor already points at it. */
    method WriteLeaf(n: BtNode, key: Key, rec: Ptr)
      requires Arrays() && 0 <= level < MAX_TREE_DEPTH
      requires Consistent(relation.nodes, relation.pl, relation.root, None)
      requires IsDescent(relation.nodes, relation.root, ancestors[..], ancestorsIdx[..], level, key)
      requires relation.pl[ancestors[level]].lo <= key < relation.pl[ancestors[level]].hi
      requires n == WithRecord(relation.nodes[CurrNode()], key, rec) && |n.entries| <= FANOUT
      requires relation.numRecords == |Contents(relation.nodes)[key := rec]|
               && relation.depth == relation.pl[relation.root].height
      modifies relation`nodes
      ensures PutDone(key, old(Contents(relation.nodes))[key := rec])
    {
      StoreRecord(relation.nodes, relation.pl, relation.root, CurrNode(), key, rec);
      NotOver(relation.nodes[CurrNode() := n], relation.pl, relation.root, CurrNode());
      StoredDescent(relation.nodes, relation.pl, relation.root, ancestors[..], ancestorsIdx[..], level, key, rec);
      relation.nodes := relation.nodes[CurrNode() := n];
    }

    /** The leaf is full and the key is new: the leaf is split, and its parent has an entry to take. */
    method SplitLeaf(e: Entry, key: Key, ghost m: map<Key, Ptr>) returns (up: Entry)
      requires AtLeaf(key) && e.key == key && m == Contents(relation.nodes)[key := e.ptr]
      requires !Present(relation.nodes[CurrNode()].entries, key) && |relation.nodes[CurrNode()].entries| == FANOUT
      modifies relation, this`level
      ensures level == old(level) - 1 && PutReady(up, key, m)
    {
      ghost var nodes, pl, x := relation.nodes, relation.pl, CurrNode();
      up := relation.SplitNode(CurrNode(), e);
      LeafSplitDone(nodes, pl, relation.root, ancestors[..], ancestorsIdx[..], level, key, e.ptr, up.ptr,
                    relation.nodes);
      StepUp(up, key, m, SplitPlaces(pl, x, up.ptr, up.key));
    }

    /** The entry that a split has produced is for the parent. */
    method StepUp(up: Entry, key: Key, ghost m: map<Key, Ptr>, ghost pl: Places)
      requires Arrays() && 0 <= level < MAX_TREE_DEPTH
      requires Waiting(relation.nodes, pl, relation.root, ancestors[..], ancestorsIdx[..], level - 1, up, key)
      requires Contents(relation.nodes) == m && relation.numRecords + 1 == |m|
      requires relation.root in pl && relation.depth == pl[relation.root].height
      modifies relation`pl, this`level
      ensures level == old(level) - 1 && PutReady(up, key, m)
    {
      relation.pl := pl;
      level := level - 1;
    }

    /** An inner node with room takes the entry; the cursor is rebuilt from there down. */
    method PutInNode(e: Entry, key: Key, ghost m: map<Key, Ptr>)
      requires Arrays() && 0 <= level < MAX_TREE_DEPTH && PutReady(e, key, m)
      requires CurrNode() in relation.nodes && !relation.nodes[CurrNode()].isLeaf
               && |relation.nodes[CurrNode()].entries| < FANOUT
      requires |m| < 0x2000_0000_0000_0000
      modifies relation, this`level, ancestors, ancestorsIdx
      ensures PutDone(key, m)
    {
      var n := relation.nodes[CurrNode()];
      var es := InsertEntry(n.entries, EntryIndex() + 1, e);
      TakeReady(relation.nodes, relation.pl, relation.root, ancestors[..], ancestorsIdx[..], level, e, key,
                relation.nodes[CurrNode() := n.(entries := es)]);
      relation.nodes := relation.nodes[CurrNode() := n.(entries := es)];
      relation.numRecords := relation.numRecords + 1;
      SearchDown(key);
    }

    /** moveToKey from the node at the cursor's level, which is responsible for the key. */
    method SearchDown(key: Key)
      requires Arrays() && 0 <= level < MAX_TREE_DEPTH && relation.Valid()
      requires Entering(relation.nodes, relation.root, ancestors[..], ancestorsIdx[..], CurrNode(), level)
      requires CurrNode() in relation.nodes && level + relation.pl[CurrNode()].height < MAX_TREE_DEPTH
      requires relation.pl[CurrNode()].lo <= key < relation.pl[CurrNode()].hi
      modifies this`level, ancestors, ancestorsIdx
      ensures AtLeaf(key)
    {
      ghost var from := level;
      MoveToKey(CurrNode(), key, level);
      ShortcutIsDescent(relation.nodes, relation.pl, relation.root, ancestors[..], ancestorsIdx[..], from, level, key);
    }

    /** The inner node is full: it is split, and its parent has an entry to take. */
    method SplitInner(e: Entry, key: Key, ghost m: map<Key, Ptr>) returns (up: Entry)
      requires Arrays() && 0 <= level < MAX_TREE_DEPTH && PutReady(e, key, m)
      requires CurrNode() in relation.nodes && !relation.nodes[CurrNode()].isLeaf
               && |relation.nodes[CurrNode()].entries| == FANOUT
      modifies relation, this`level
      ensures level == old(level) - 1 && PutReady(up, key, m)
    {
      ghost var nodes, pl, p := relation.nodes, relation.pl, CurrNode();
      up := relation.SplitNode(CurrNode(), e);
      InnerSplitDone(nodes, pl, relation.root, ancestors[..], ancestorsIdx[..], level, e, key, up.ptr, relation.nodes);
      StepUp(up, key, m, SplitPlaces(pl, p, up.ptr, up.key));
    }

    /** RL_PutRecord: the relation is updated at the key, and the cursor is one position past it. */
    method RL_PutRecord(key: Key, rec: Ptr)
      requires Valid() && relation.numRecords + 1 < 0x2000_0000_0000_0000
      modifies relation, this`level, ancestors, ancestorsIdx
      ensures Valid() && Contents(relation.nodes) == old(Contents(relation.nodes))[key := rec]
      ensures Pos() == |KeysBelow(relation.nodes, key)| + 1
    {
      ghost var m := Contents(relation.nodes)[key := rec];
      GoToKey(key);
      PutSize(Contents(relation.nodes), key, rec);
      PutEntry(Entry(key, rec), key, m);
      StepPast(key);
    }

    /** From a stored key's record to one position past it. */
    method StepPast(key: Key)
      requires AtLeaf(key) && key in Contents(relation.nodes)
      modifies this`level, ancestors, ancestorsIdx
      ensures Valid() && Pos() == |KeysBelow(relation.nodes, key)| + 1
    {
      SearchPosition(relation.nodes, relation.pl, relation.root, CurrNode(), key);
      RecordCount(relation.nodes);
      RankBound(relation.nodes, key);
      var _ := RL_MoveToNext();
    }
  }

  /** lastpointer and firstpointer. */
  function LastPointer(n: BtNode): int {
    if n.isLeaf then n.numKeys() else n.numKeys() - 1
  }

  function FirstPointer(n: BtNode): int {
    if n.isLeaf then 0 else -1
  }

  /** Climbing from a last child keeps the end of the range. */
  lemma ClimbLast(nodes: Nodes, pl: Places, root: Ptr, anc: seq<Ptr>, idx: seq<int>, i: nat, l: nat)
    requires Consistent(nodes, pl, root, None) && CursorOk(nodes, root, anc, idx, l) && i < l
    requires idx[i] == LastPointer(nodes[anc[i]])
    ensures pl[anc[i]].hi == pl[anc[i + 1]].hi
  {
    assert EdgeAt(nodes, anc, idx, i);
    assert NodeOk(nodes, pl, anc[i]) && KidOk(nodes, pl, anc[i], idx[i]);
  }

  /** The climb stops at a node with a further child: the root's last child ends with the key space. */
  lemma ClimbStops(nodes: Nodes, pl: Places, root: Ptr, anc: seq<Ptr>, idx: seq<int>, a: nat, l: nat)
    requires Consistent(nodes, pl, root, None) && CursorOk(nodes, root, anc, idx, l) && a < l
    requires pl[anc[a + 1]].hi == pl[anc[l]].hi && !nodes[anc[l]].Last
    requires a == 0 || idx[a] != LastPointer(nodes[anc[a]])
    ensures !nodes[anc[a]].isLeaf && -1 <= idx[a] < |nodes[anc[a]].entries| - 1
  {
    assert EdgeAt(nodes, anc, idx, a);
    assert NodeOk(nodes, pl, anc[l]) && NodeOk(nodes, pl, root);
    if idx[a] == LastPointer(nodes[anc[a]]) {
      ClimbLast(nodes, pl, root, anc, idx, a, l);
      assert false;
    }
  }

  /** The next index of the same leaf. */
  lemma NextInLeaf(nodes: Nodes, root: Ptr, anc: seq<Ptr>, idx: seq<int>, l: nat, a: nat, idx': seq<int>)
    requires CursorOk(nodes, root, anc, idx, l) && a <= l && nodes[anc[a]].isLeaf && |idx'| == |idx|
    requires idx' == idx[a := idx[a] + 1] && (a == l ==> idx[l] < |nodes[anc[l]].entries|)
    ensures a == l && CursorOk(nodes, root, anc, idx', l)
  {
    assert a < l ==> EdgeAt(nodes, anc, idx, a);
    forall i | 0 <= i < l ensures EdgeAt(nodes, anc, idx', i) { assert EdgeAt(nodes, anc, idx, i); }
  }

  /** The next child starts where the current one ends, and can be entered. */
  lemma NextChild(nodes: Nodes, pl: Places, root: Ptr, anc: seq<Ptr>, idx: seq<int>, l: nat, a: nat, idx': seq<int>)
    requires Consistent(nodes, pl, root, None) && CursorOk(nodes, root, anc, idx, l) && a < l
    requires |anc| == |idx| == MAX_TREE_DEPTH && !nodes[anc[a]].isLeaf && -1 <= idx[a] < |nodes[anc[a]].entries| - 1
    requires idx' == idx[a := idx[a] + 1]
    ensures var c := nodes[anc[a]].Child(idx[a] + 1);
            && c in nodes && Entering(nodes, root, anc, idx', c, a + 1)
            && pl[c].lo == pl[anc[a + 1]].hi && pl[c].height == pl[anc[a + 1]].height == l - (a + 1)
  {
    assert EdgeAt(nodes, anc, idx, a);
    assert NodeOk(nodes, pl, anc[a]) && KidOk(nodes, pl, anc[a], idx[a]) && KidOk(nodes, pl, anc[a], idx[a] + 1);
    PathPlaces(nodes, pl, root, None, anc, idx, l, a + 1);
    assert NodeOk(nodes, pl, anc[l]);
    forall i | 0 <= i < a ensures EdgeAt(nodes, anc, idx', i) { assert EdgeAt(nodes, anc, idx, i); }
    EnterChild(nodes, root, anc, idx', a);
  }

  /** Climbing from a first child keeps the start of the range. */
  lemma ClimbFirst(nodes: Nodes, pl: Places, root: Ptr, anc: seq<Ptr>, idx: seq<int>, i: nat, l: nat)
    requires Consistent(nodes, pl, root, None) && CursorOk(nodes, root, anc, idx, l) && i < l
    requires idx[i] == FirstPointer(nodes[anc[i]])
    ensures pl[anc[i]].lo == pl[anc[i + 1]].lo
  {
    assert EdgeAt(nodes, anc, idx, i);
    assert NodeOk(nodes, pl, anc[i]) && KidOk(nodes, pl, anc[i], idx[i]);
  }

  lemma ClimbStopsFirst(nodes: Nodes, pl: Places, root: Ptr, anc: seq<Ptr>, idx: seq<int>, a: nat, l: nat)
    requires Consistent(nodes, pl, root, None) && CursorOk(nodes, root, anc, idx, l) && a < l
    requires pl[anc[a + 1]].lo == pl[anc[l]].lo && !nodes[anc[l]].First
    requires a == 0 || idx[a] != FirstPointer(nodes[anc[a]])
    ensures !nodes[anc[a]].isLeaf && 0 <= idx[a] < |nodes[anc[a]].entries|
  {
    assert EdgeAt(nodes, anc, idx, a);
    assert NodeOk(nodes, pl, anc[l]) && NodeOk(nodes, pl, root);
    if idx[a] == FirstPointer(nodes[anc[a]]) {
      ClimbFirst(nodes, pl, root, anc, idx, a, l);
      assert false;
    }
  }

  lemma PrevInLeaf(nodes: Nodes, root: Ptr, anc: seq<Ptr>, idx: seq<int>, l: nat, a: nat, idx': seq<int>)
    requires CursorOk(nodes, root, anc, idx, l) && a <= l && nodes[anc[a]].isLeaf && |idx'| == |idx|
    requires idx' == idx[a := idx[a] - 1] && (a == l ==> idx[l] > 0)
    ensures a == l && CursorOk(nodes, root, anc, idx', l)
  {
    assert a < l ==> EdgeAt(nodes, anc, idx, a);
    forall i | 0 <= i < l ensures EdgeAt(nodes, anc, idx', i) { assert EdgeAt(nodes, anc, idx, i); }
  }

  /** The previous child ends where the current one starts, and can be entered. */
  lemma PrevChild(nodes: Nodes, pl: Places, root: Ptr, anc: seq<Ptr>, idx: seq<int>, l: nat, a: nat, idx': seq<int>)
    requires Consistent(nodes, pl, root, None) && CursorOk(nodes, root, anc, idx, l) && a < l
    requires |anc| == |idx| == MAX_TREE_DEPTH && !nodes[anc[a]].isLeaf && 0 <= idx[a] < |nodes[anc[a]].entries|
    requires idx' == idx[a := idx[a] - 1]
    ensures var c := nodes[anc[a]].Child(idx[a] - 1);
            && c in nodes && Entering(nodes, root, anc, idx', c, a + 1)
            && pl[c].hi == pl[anc[a + 1]].lo && pl[c].height == l - (a + 1)
  {
    assert EdgeAt(nodes, anc, idx, a);
    assert NodeOk(nodes, pl, anc[a]) && KidOk(nodes, pl, anc[a], idx[a]) && KidOk(nodes, pl, anc[a], idx[a] - 1);
    PathPlaces(nodes, pl, root, None, anc, idx, l, a + 1);
    assert NodeOk(nodes, pl, anc[l]);
    forall i | 0 <= i < a ensures EdgeAt(nodes, anc, idx', i) { assert EdgeAt(nodes, anc, idx, i); }
    EnterChild(nodes, root, anc, idx', a);
  }

  /** A leaf after another one is not the root, so it has records; the positions meet. */
  lemma NextLeafFilled(nodes: Nodes, pl: Places, root: Ptr, x: Ptr, y: Ptr)
    requires Consistent(nodes, pl, root, None) && x in nodes && nodes[x].isLeaf && y in nodes && nodes[y].isLeaf
    requires pl[y].lo == pl[x].hi
    ensures |nodes[y].entries| > 0 && |nodes[x].entries| > 0
    ensures Position(nodes, pl, y, 0) == Position(nodes, pl, x, |nodes[x].entries|)
  {
    assert NodeOk(nodes, pl, x) && NodeOk(nodes, pl, y) && NodeOk(nodes, pl, root);
    assert SizeOk(nodes, root, None, x) && SizeOk(nodes, root, None, y);
    PositionAcross(nodes, pl, root, x, y);
  }

  /** The index a search ends at is the position of the key. */
  lemma SearchPosition(nodes: Nodes, pl: Places, root: Ptr, x: Ptr, key: Key)
    requires Consistent(nodes, pl, root, None) && x in nodes && nodes[x].isLeaf && pl[x].lo <= key < pl[x].hi
    ensures Position(nodes, pl, x, RecordIndex(nodes[x].entries, key)) == |KeysBelow(nodes, key)|
  {
    assert NodeOk(nodes, pl, x);
    var i := RecordIndex(nodes[x].entries, key);
    var b := Bound(nodes, pl, x, i);
    forall k | k in KeysBelow(nodes, b) ensures k < key
    {
      if k >= key {
        var j := KeyInLeaf(nodes, pl, root, x, k);
      }
    }
    assert KeysBelow(nodes, b) == KeysBelow(nodes, key);
  }

  /** If every record is below the key, the key is not there. */
  lemma AllBelow(nodes: Nodes, key: Key)
    ensures |KeysBelow(nodes, key)| >= |KeysOf(nodes)| ==> key !in KeysOf(nodes)
  {
    SubsetSize(KeysBelow(nodes, key), KeysOf(nodes));
    if key in KeysOf(nodes) { SubsetSize(KeysBelow(nodes, key), KeysOf(nodes) - {key}); }
  }

  /** Of two keys, the lower stored one has fewer stored keys below it. */
  lemma RankGrows(nodes: Nodes, a: Key, b: Key)
    requires a in KeysOf(nodes) && a < b
    ensures |KeysBelow(nodes, a)| < |KeysBelow(nodes, b)|
  {
    SubsetSize(KeysBelow(nodes, a) + {a}, KeysBelow(nodes, b));
    assert |KeysBelow(nodes, a) + {a}| == |KeysBelow(nodes, a)| + 1;
  }

  /** Two keys of the same rank, one of them stored: either they agree or the other is not stored. */
  lemma SameRank(nodes: Nodes, key: Key, k: Key)
    requires k in KeysOf(nodes) && |KeysBelow(nodes, k)| == |KeysBelow(nodes, key)|
    ensures key in KeysOf(nodes) <==> k == key
  {
    if key in KeysOf(nodes) {
      if k < key { RankGrows(nodes, k, key); } else if key < k { RankGrows(nodes, key, k); }
    }
  }

  lemma RankBound(nodes: Nodes, key: Key)
    ensures key in KeysOf(nodes) ==> |KeysBelow(nodes, key)| < |KeysOf(nodes)|
  {
    if key in KeysOf(nodes) {
      SubsetSize(KeysBelow(nodes, key) + {key}, KeysOf(nodes));
    }
  }

  /** A path is still a path when the node at its end gets other entries. */
  lemma GrownPath(nodes: Nodes, pl: Places, root: Ptr, anc: seq<Ptr>, idx: seq<int>, l: nat, v: Nodes)
    requires Consistent(nodes, pl, root, None) && Prefix(nodes, root, anc, idx, l)
    requires anc[l] in v && forall y | y in nodes && y != anc[l] :: y in v && v[y] == nodes[y]
    ensures Prefix(v, root, anc, idx, l)
    ensures forall j | 0 <= j < l :: v[anc[j]] == nodes[anc[j]]
  {
    forall j | 0 <= j < l ensures anc[j] in v && v[anc[j]] == nodes[anc[j]]
    {
      PathDistinct(nodes, pl, root, None, anc, idx, l, j);
    }
    PrefixFrame(nodes, v, root, anc, idx, l);
  }

  /** Storing the record does not move the cursor of the search for its key. */
  lemma StoredDescent(nodes: Nodes, pl: Places, root: Ptr, anc: seq<Ptr>, idx: seq<int>, l: nat, key: Key, rec: Ptr)
    requires Consistent(nodes, pl, root, None) && IsDescent(nodes, root, anc, idx, l, key)
    ensures IsDescent(nodes[anc[l] := WithRecord(nodes[anc[l]], key, rec)], root, anc, idx, l, key)
  {
    var n, i := nodes[anc[l]], idx[l];
    var v := nodes[anc[l] := WithRecord(n, key, rec)];
    GrownPath(nodes, pl, root, anc, idx, l, v);
    RecordIndexIs(v[anc[l]].entries, key, i);
  }

  lemma RecordIndexIs(es: seq<Entry>, key: Key, i: nat)
    requires i <= |es| && (forall j | 0 <= j < i :: es[j].key < key) && (i < |es| ==> key <= es[i].key)
    ensures RecordIndex(es, key) == i
  {
  }

  /** A full leaf with the record added is split: its parent has an entry to take. */
  lemma LeafSplitReady(nodes: Nodes, pl: Places, root: Ptr, anc: seq<Ptr>, idx: seq<int>, level: nat, key: Key,
                       rec: Ptr, d: Ptr, nodes': Nodes)
    requires Consistent(nodes, pl, root, None) && CursorOk(nodes, root, anc, idx, level)
    requires pl[anc[level]].lo <= key < pl[anc[level]].hi
    requires |nodes[anc[level]].entries| == FANOUT && !Present(nodes[anc[level]].entries, key) && d !in nodes
    requires var g := WithRecord(nodes[anc[level]], key, rec); |g.entries| == FANOUT + 1 ==>
             nodes' == nodes[anc[level] := LeftHalf(g)][d := RightHalf(g)]
    ensures |WithRecord(nodes[anc[level]], key, rec).entries| == FANOUT + 1
    ensures var sep := WithRecord(nodes[anc[level]], key, rec).entries[MIDDLE].key;
            var pl' := SplitPlaces(pl, anc[level], d, sep);
            && Pending(nodes', pl', root, anc, idx, level - 1, Entry(sep, d), key)
            && pl'[root].height == pl[root].height
    ensures Contents(nodes') == Contents(nodes)[key := rec] && key !in Contents(nodes)
  {
    var x := anc[level];
    var v := nodes[x := WithRecord(nodes[x], key, rec)];
    assert NodeOk(nodes, pl, x);
    WithRecordOk(nodes[x], key, rec);
    StoreRecord(nodes, pl, root, x, key, rec);
    GrownPath(nodes, pl, root, anc, idx, level, v);
    SplitPending(v, pl, root, anc, idx, level, d, key, nodes');
  }

  /** What a node that takes the pending entry needs for the rest of the search. */
  lemma TakeReady(nodes: Nodes, pl: Places, root: Ptr, anc: seq<Ptr>, idx: seq<int>, level: nat, e: Entry, key: Key,
                  nodes': Nodes)
    requires Pending(nodes, pl, root, anc, idx, level, e, key) && |nodes[anc[level]].entries| < FANOUT
    requires nodes' == nodes[anc[level] := WithChild(nodes[anc[level]], idx[level], e)]
    requires |Contents(nodes)| < 0x2000_0000_0000_0000
    ensures Consistent(nodes', pl, root, None) && Contents(nodes') == Contents(nodes)
    ensures Entering(nodes', root, anc, idx, anc[level], level)
    ensures level + pl[anc[level]].height < MAX_TREE_DEPTH
  {
    TakePending(nodes, pl, root, anc, idx, level, e, key, nodes');
    RecordCount(nodes');
    DepthFits(nodes', pl, root);
    PathPlaces(nodes', pl, root, None, anc, idx, level, 0);
    PrefixEnters(nodes', root, anc, idx, level);
  }

  /** A pending entry is for an inner node, or for a new root. */
  lemma AboveIsInner(nodes: Nodes, root: Ptr, anc: seq<Ptr>, idx: seq<int>, level: int, e: Entry, key: Key, pl: Places)
    requires Pending(nodes, pl, root, anc, idx, level, e, key)
    ensures level >= 0 ==> anc[level] in nodes && !nodes[anc[level]].isLeaf && |nodes[anc[level]].entries| <= FANOUT
  {
    if level >= 0 {
      var p := anc[level];
      assert SizeOk(nodes[p := WithChild(nodes[p], idx[level], e)], root, Some(p), p);
    }
  }

  /** A full inner node that is to take an entry is split in turn. */
  lemma InnerSplitReady(nodes: Nodes, pl: Places, root: Ptr, anc: seq<Ptr>, idx: seq<int>, level: nat, e: Entry,
                        key: Key, d: Ptr, nodes': Nodes)
    requires Pending(nodes, pl, root, anc, idx, level, e, key) && |nodes[anc[level]].entries| == FANOUT && d !in nodes
    requires var n := nodes[anc[level]];
             var g := n.(entries := InsertAt(n.entries, RecordIndex(n.entries, e.key), e));
             nodes' == nodes[anc[level] := LeftHalf(g)][d := RightHalf(g)]
    ensures var n := nodes[anc[level]];
            var sep := InsertAt(n.entries, RecordIndex(n.entries, e.key), e)[MIDDLE].key;
            var pl' := SplitPlaces(pl, anc[level], d, sep);
            && Pending(nodes', pl', root, anc, idx, level - 1, Entry(sep, d), key)
            && pl'[root].height == pl[root].height
    ensures Contents(nodes') == Contents(nodes)
  {
    PendingIndex(nodes, pl, root, anc, idx, level, e, key);
    OverPending(nodes, pl, root, anc, idx, level, e, key, d, nodes');
  }

  /** The entry that a split has produced waits for an inner node, or for a new root. */
  ghost predicate Waiting(nodes: Nodes, pl: Places, root: Ptr, anc: seq<Ptr>, idx: seq<int>, level: int, e: Entry,
                          key: Key) {
    && Pending(nodes, pl, root, anc, idx, level, e, key)
    && (level >= 0 ==> anc[level] in nodes && !nodes[anc[level]].isLeaf && |nodes[anc[level]].entries| <= FANOUT)
  }

  lemma LeafSplitDone(nodes: Nodes, pl: Places, root: Ptr, anc: seq<Ptr>, idx: seq<int>, level: nat, key: Key,
                      rec: Ptr, d: Ptr, nodes': Nodes)
    requires Consistent(nodes, pl, root, None) && CursorOk(nodes, root, anc, idx, level)
    requires pl[anc[level]].lo <= key < pl[anc[level]].hi
    requires |nodes[anc[level]].entries| == FANOUT && !Present(nodes[anc[level]].entries, key) && d !in nodes
    requires var g := WithRecord(nodes[anc[level]], key, rec); |g.entries| == FANOUT + 1 ==>
             nodes' == nodes[anc[level] := LeftHalf(g)][d := RightHalf(g)]
    ensures |WithRecord(nodes[anc[level]], key, rec).entries| == FANOUT + 1
    ensures var sep := WithRecord(nodes[anc[level]], key, rec).entries[MIDDLE].key;
            var pl' := SplitPlaces(pl, anc[level], d, sep);
            && Waiting(nodes', pl', root, anc, idx, level - 1, Entry(sep, d), key)
            && pl'[root].height == pl[root].height
    ensures Contents(nodes') == Contents(nodes)[key := rec] && |Contents(nodes')| == |Contents(nodes)| + 1
  {
    LeafSplitReady(nodes, pl, root, anc, idx, level, key, rec, d, nodes');
    PutSize(Contents(nodes), key, rec);
    var sep := WithRecord(nodes[anc[level]], key, rec).entries[MIDDLE].key;
    AboveIsInner(nodes', root, anc, idx, level - 1, Entry(sep, d), key, SplitPlaces(pl, anc[level], d, sep));
  }

  lemma InnerSplitDone(nodes: Nodes, pl: Places, root: Ptr, anc: seq<Ptr>, idx: seq<int>, level: nat, e: Entry,
                       key: Key, d: Ptr, nodes': Nodes)
    requires Pending(nodes, pl, root, anc, idx, level, e, key) && |nodes[anc[level]].entries| == FANOUT && d !in nodes
    requires var n := nodes[anc[level]];
             var g := n.(entries := InsertAt(n.entries, RecordIndex(n.entries, e.key), e));
             nodes' == nodes[anc[level] := LeftHalf(g)][d := RightHalf(g)]
    ensures var n := nodes[anc[level]];
            var sep := InsertAt(n.entries, RecordIndex(n.entries, e.key), e)[MIDDLE].key;
            var pl' := SplitPlaces(pl, anc[level], d, sep);
            Waiting(nodes', pl', root, anc, idx, level - 1, Entry(sep, d), key) && pl'[root].height == pl[root].height
    ensures Contents(nodes') == Contents(nodes)
  {
    InnerSplitReady(nodes, pl, root, anc, idx, level, e, key, d, nodes');
    var n := nodes[anc[level]];
    var sep := InsertAt(n.entries, RecordIndex(n.entries, e.key), e)[MIDDLE].key;
    AboveIsInner(nodes', root, anc, idx, level - 1, Entry(sep, d), key, SplitPlaces(pl, anc[level], d, sep));
  }

  lemma PrefixEnters(nodes: Nodes, root: Ptr, anc: seq<Ptr>, idx: seq<int>, lvl: nat)
    requires Prefix(nodes, root, anc, idx, lvl) && lvl < |idx|
    ensures Entering(nodes, root, anc, idx, anc[lvl], lvl)
  {
    var a, x := anc[..lvl] + [anc[lvl]], idx[..lvl];
    forall i | 0 <= i < lvl ensures EdgeAt(nodes, a, x, i) { assert EdgeAt(nodes, anc, idx, i); }
  }

  /** The leaf a descent for k from node x ends in. */
  lemma LeafFor(nodes: Nodes, pl: Places, root: Ptr, x: Ptr, k: int) returns (y: Ptr)
    requires Consistent(nodes, pl, root, None) && x in nodes && pl[x].lo <= k < pl[x].hi
    ensures y in nodes && nodes[y].isLeaf && pl[y].lo <= k < pl[y].hi
    decreases pl[x].height
  {
    assert NodeOk(nodes, pl, x);
    if nodes[x].isLeaf {
      y := x;
    } else {
      var i := ChildIndex(nodes[x].entries, k);
      assert KidOk(nodes, pl, x, i);
      ChildIndexRange(nodes, pl, x, i, k);
      y := LeafFor(nodes, pl, root, nodes[x].Child(i), k);
    }
  }

  /** isValid tests exactly whether a record follows. */
  lemma ExhaustedIff(nodes: Nodes, pl: Places, root: Ptr, x: Ptr, i: nat)
    requires Consistent(nodes, pl, root, None) && x in nodes && nodes[x].isLeaf && i <= |nodes[x].entries|
    ensures Position(nodes, pl, x, i) <= |KeysOf(nodes)|
    ensures i == |nodes[x].entries| && nodes[x].Last <==> Position(nodes, pl, x, i) == |KeysOf(nodes)|
  {
    assert NodeOk(nodes, pl, x);
    var b := Bound(nodes, pl, x, i);
    SubsetSize(KeysBelow(nodes, b), KeysOf(nodes));
    if i == |nodes[x].entries| && nodes[x].Last {
      assert KeysBelow(nodes, b) == KeysOf(nodes);
    } else if i < |nodes[x].entries| {
      KeyAt(nodes, x, i);
      assert b in KeysOf(nodes) && b !in KeysBelow(nodes, b);
    } else {
      var y := LeafFor(nodes, pl, root, root, pl[x].hi);
      assert NodeOk(nodes, pl, y) && SizeOk(nodes, root, None, y) && Apart(pl, x, y);
      assert x != root;
      assert NodeOk(nodes, pl, root);
      if y == root { Below(nodes, pl, root, None, x); }
      KeyAt(nodes, y, 0);
      assert nodes[y].entries[0].key in KeysOf(nodes) && nodes[y].entries[0].key !in KeysBelow(nodes, b);
    }
  }
}
