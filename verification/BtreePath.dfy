/** Root-to-leaf paths in a consistent tree: searching, ordering, and how deep a tree can be. */
module BtreePath {
  import opened Sets
  import opened Wrappers
  import opened BtreeShape

  /** anc[..l + 1] with idx[..l] is a way from the root down to anc[l]. */
  ghost predicate Prefix(nodes: Nodes, root: Ptr, anc: seq<Ptr>, idx: seq<int>, l: nat) {
    && l < |anc| && l <= |idx| && anc[0] == root
    && (forall i | 0 <= i <= l :: anc[i] in nodes)
    && (forall i {:trigger EdgeAt(nodes, anc, idx, i)} | 0 <= i < l :: EdgeAt(nodes, anc, idx, i))
  }

  predicate EdgeAt(nodes: Nodes, anc: seq<Ptr>, idx: seq<int>, i: nat) {
    && i + 1 < |anc| && i < |idx| && anc[i] in nodes && !nodes[anc[i]].isLeaf
    && -1 <= idx[i] < |nodes[anc[i]].entries|
    && anc[i + 1] == nodes[anc[i]].Child(idx[i])
  }

  /** A cursor: a path that ends in a leaf, at one of its records or past its last one. */
  ghost predicate CursorOk(nodes: Nodes, root: Ptr, anc: seq<Ptr>, idx: seq<int>, l: nat) {
    && Prefix(nodes, root, anc, idx, l) && l < |idx|
    && nodes[anc[l]].isLeaf && 0 <= idx[l] <= |nodes[anc[l]].entries|
  }

  /** From level `from` down, the path is the one a search for key takes. */
  ghost predicate Searched(nodes: Nodes, anc: seq<Ptr>, idx: seq<int>, from: nat, l: nat, key: Key) {
    && from <= l < |anc| && l < |idx| && (forall i | from <= i <= l :: anc[i] in nodes)
    && (forall i | from <= i < l :: idx[i] == ChildIndex(nodes[anc[i]].entries, key))
    && idx[l] == RecordIndex(nodes[anc[l]].entries, key)
  }

  /** The cursor a descent from the root ends with. */
  ghost predicate IsDescent(nodes: Nodes, root: Ptr, anc: seq<Ptr>, idx: seq<int>, l: nat, key: Key) {
    CursorOk(nodes, root, anc, idx, l) && Searched(nodes, anc, idx, 0, l, key)
  }

  /** The descent for a key determines the whole cursor. */
  lemma {:induction false} DescentUnique(nodes: Nodes, root: Ptr, anc: seq<Ptr>, idx: seq<int>, l: nat,
                                         anc': seq<Ptr>, idx': seq<int>, l': nat, key: Key, i: nat)
    requires IsDescent(nodes, root, anc, idx, l, key) && IsDescent(nodes, root, anc', idx', l', key)
    requires i <= l
    ensures i <= l' && anc'[i] == anc[i] && idx'[i] == idx[i] && (i == l <==> i == l')
  {
    if i > 0 {
      DescentUnique(nodes, root, anc, idx, l, anc', idx', l', key, i - 1);
      assert EdgeAt(nodes, anc, idx, i - 1) && EdgeAt(nodes, anc', idx', i - 1);
    }
    if i < l { assert EdgeAt(nodes, anc, idx, i); }
    if i < l' { assert EdgeAt(nodes, anc', idx', i); }
  }

  /** Going down a path heights drop by one and ranges shrink. */
  lemma {:induction false} PathPlaces(nodes: Nodes, pl: Places, root: Ptr, over: Option<Ptr>, anc: seq<Ptr>,
                                      idx: seq<int>, l: nat, i: nat)
    requires Consistent(nodes, pl, root, over) && Prefix(nodes, root, anc, idx, l) && i <= l
    ensures pl[anc[l]].height == pl[anc[i]].height - (l - i)
    ensures pl[anc[i]].lo <= pl[anc[l]].lo && pl[anc[l]].hi <= pl[anc[i]].hi
    ensures pl[anc[i]].height == pl[root].height - i
    decreases l
  {
    if l > 0 {
      assert EdgeAt(nodes, anc, idx, l - 1);
      PathPlaces(nodes, pl, root, over, anc, idx, l - 1, if i < l then i else 0);
      assert NodeOk(nodes, pl, anc[l - 1]) && KidOk(nodes, pl, anc[l - 1], idx[l - 1]);
      InnerBounds(nodes, pl, anc[l - 1], idx[l - 1]);
    }
  }

  lemma InnerBounds(nodes: Nodes, pl: Places, x: Ptr, i: int)
    requires x in nodes && x in pl && NodeOk(nodes, pl, x) && !nodes[x].isLeaf && -1 <= i < |nodes[x].entries|
    ensures pl[x].lo <= LowAt(nodes[x], pl[x], i) < HighAt(nodes[x], pl[x], i) <= pl[x].hi
  {
  }

  /** A path that reaches a node responsible for key is the one a search for key takes. */
  lemma {:induction false} PathIsSearch(nodes: Nodes, pl: Places, root: Ptr, anc: seq<Ptr>, idx: seq<int>, l: nat,
                                        key: Key, i: nat)
    requires Consistent(nodes, pl, root, None) && Prefix(nodes, root, anc, idx, l) && i < l
    requires pl[anc[l]].lo <= key < pl[anc[l]].hi
    ensures anc[i] in nodes && idx[i] == ChildIndex(nodes[anc[i]].entries, key)
  {
    assert EdgeAt(nodes, anc, idx, i);
    assert Prefix(nodes, root, anc, idx, l);
    PathPlaces(nodes, pl, root, None, anc, idx, l, i + 1);
    PathPlaces(nodes, pl, root, None, anc, idx, l, i);
    assert NodeOk(nodes, pl, anc[i]) && KidOk(nodes, pl, anc[i], idx[i]);
    ChildIndexRange(nodes, pl, anc[i], idx[i], key);
  }

  /** isNodeParent: true only for a node that is responsible for the key. */
  predicate IsNodeParent(n: BtNode, key: Key)
    requires !n.isLeaf ==> n.entries != []
  {
    if n.isLeaf then
      |n.entries| == 0 ||
      ((key >= n.entries[0].key || n.First) && (key <= n.entries[|n.entries| - 1].key || n.Last))
    else
      var i := ChildIndex(n.entries, key);
      i != -1 && i != |n.entries| - 1
  }

  predicate SomeAtMost(es: seq<Entry>, key: Key) {
    exists i :: 0 <= i < |es| && es[i].key <= key
  }

  predicate SomeAtLeast(es: seq<Entry>, key: Key) {
    exists i :: 0 <= i < |es| && key <= es[i].key
  }

  /** The node's own entries tell that it is responsible for the key: the key is between two of them,
  or the node is a leaf at an end of the tree, or the only node there is. */
  predicate Covers(n: BtNode, key: Key) {
    if n.isLeaf then
      n.entries == [] || ((n.First || SomeAtMost(n.entries, key)) && (n.Last || SomeAtLeast(n.entries, key)))
    else
      SomeAtMost(n.entries, key) && key + 1 < KMAX && SomeAtLeast(n.entries, key + 1)
  }

  /** In a sorted node it is enough to look at the ends. */
  lemma AtEnds(es: seq<Entry>, key: Key)
    requires Sorted(es) && es != []
    ensures SomeAtMost(es, key) <==> es[0].key <= key
    ensures SomeAtLeast(es, key) <==> key <= es[|es| - 1].key
  {
    assert forall i | 0 <= i < |es| :: es[0].key <= es[i].key <= es[|es| - 1].key;
  }

  /** That is when isNodeParent says so. */
  lemma NodeParentCovers(n: BtNode, key: Key)
    requires Sorted(n.entries) && (!n.isLeaf ==> n.entries != [])
    ensures IsNodeParent(n, key) <==> Covers(n, key)
  {
    if n.entries != [] {
      AtEnds(n.entries, key);
      if !n.isLeaf {
        if key + 1 < KMAX { AtEnds(n.entries, key + 1); }
        ChildIndexEnds(n.entries, key);
      }
    }
  }

  lemma ChildIndexEnds(es: seq<Entry>, key: Key)
    requires Sorted(es) && es != []
    ensures ChildIndex(es, key) != -1 <==> es[0].key <= key
    ensures ChildIndex(es, key) != |es| - 1 <==> key < es[|es| - 1].key
  {
  }

  lemma NodeParentInRange(nodes: Nodes, pl: Places, root: Ptr, x: Ptr, key: Key)
    requires Consistent(nodes, pl, root, None) && x in nodes
    ensures !nodes[x].isLeaf ==> nodes[x].entries != []
    ensures IsNodeParent(nodes[x], key) ==> pl[x].lo <= key < pl[x].hi
  {
    assert NodeOk(nodes, pl, x) && SizeOk(nodes, root, None, x);
  }

  /** A search that starts at a node responsible for the key ends in the leaf responsible for it. */
  lemma {:induction false} SearchInRange(nodes: Nodes, pl: Places, root: Ptr, anc: seq<Ptr>, idx: seq<int>, from: nat,
                                         l: nat, key: Key)
    requires Consistent(nodes, pl, root, None) && CursorOk(nodes, root, anc, idx, l) && from <= l
    requires Searched(nodes, anc, idx, from, l, key) && pl[anc[from]].lo <= key < pl[anc[from]].hi
    ensures pl[anc[l]].lo <= key < pl[anc[l]].hi
    decreases l - from
  {
    if from < l {
      assert EdgeAt(nodes, anc, idx, from);
      assert NodeOk(nodes, pl, anc[from]) && KidOk(nodes, pl, anc[from], idx[from]);
      ChildIndexRange(nodes, pl, anc[from], idx[from], key);
      SearchInRange(nodes, pl, root, anc, idx, from + 1, l, key);
    }
  }

  /** The shortcut is exact: a path whose upper part is any valid path to a node responsible for
  the key, and whose lower part was searched, is the descent from the root. */
  lemma ShortcutIsDescent(nodes: Nodes, pl: Places, root: Ptr, anc: seq<Ptr>, idx: seq<int>, from: nat, l: nat,
                          key: Key)
    requires Consistent(nodes, pl, root, None) && CursorOk(nodes, root, anc, idx, l) && from <= l
    requires Searched(nodes, anc, idx, from, l, key) && pl[anc[from]].lo <= key < pl[anc[from]].hi
    ensures IsDescent(nodes, root, anc, idx, l, key) && pl[anc[l]].lo <= key < pl[anc[l]].hi
  {
    SearchInRange(nodes, pl, root, anc, idx, from, l, key);
    forall i | 0 <= i < l ensures anc[i] in nodes && idx[i] == ChildIndex(nodes[anc[i]].entries, key)
    {
      PathIsSearch(nodes, pl, root, anc, idx, l, key, i);
    }
  }

  // ---- positions in key order

  /** The stored keys below a bound. */
  ghost function KeysBelow(nodes: Nodes, b: int): set<Key> {
    set k | k in KeysOf(nodes) && k < b
  }

  /** The key bound of index i of leaf x: the key there, or the end of the leaf's range. */
  function Bound(nodes: Nodes, pl: Places, x: Ptr, i: nat): int
    requires x in nodes && x in pl
  {
    if i < |nodes[x].entries| then nodes[x].entries[i].key else pl[x].hi
  }

  /** The number of records before index i of leaf x.  The end of a leaf and the start of the
  next one are the same position. */
  ghost function Position(nodes: Nodes, pl: Places, x: Ptr, i: nat): nat
    requires x in nodes && x in pl
  {
    |KeysBelow(nodes, Bound(nodes, pl, x, i))|
  }

  lemma KeyAt(nodes: Nodes, x: Ptr, i: nat)
    requires x in nodes && nodes[x].isLeaf && i < |nodes[x].entries|
    ensures HasAt(nodes, x, i, nodes[x].entries[i].key) && nodes[x].entries[i].key in KeysOf(nodes)
  {
  }

  /** A stored key in the range of a leaf is in that leaf. */
  lemma KeyInLeaf(nodes: Nodes, pl: Places, root: Ptr, x: Ptr, k: Key) returns (i: nat)
    requires Consistent(nodes, pl, root, None) && x in nodes && nodes[x].isLeaf && pl[x].lo <= k < pl[x].hi
             && k in KeysOf(nodes)
    ensures HasAt(nodes, x, i, k)
  {
    var y: Ptr, j: nat :| y in nodes && nodes[y].isLeaf && j < |nodes[y].entries| && nodes[y].entries[j].key == k;
    OnePlace(nodes, pl, root, None, x, y, j, k);
    i := j;
  }

  /** One index further in a leaf is one record further. */
  lemma PositionStep(nodes: Nodes, pl: Places, root: Ptr, x: Ptr, i: nat)
    requires Consistent(nodes, pl, root, None) && x in nodes && nodes[x].isLeaf && i < |nodes[x].entries|
    ensures KeysBelow(nodes, Bound(nodes, pl, x, i + 1)) ==
            KeysBelow(nodes, Bound(nodes, pl, x, i)) + {nodes[x].entries[i].key}
    ensures Position(nodes, pl, x, i + 1) == Position(nodes, pl, x, i) + 1
    ensures nodes[x].entries[i].key in KeysOf(nodes)
  {
    assert NodeOk(nodes, pl, x);
    KeyAt(nodes, x, i);
    var a, b := Bound(nodes, pl, x, i), Bound(nodes, pl, x, i + 1);
    forall k | k in KeysBelow(nodes, b) && k !in KeysBelow(nodes, a) ensures k == a
    {
      var j := KeyInLeaf(nodes, pl, root, x, k);
    }
    assert KeysBelow(nodes, b) == KeysBelow(nodes, a) + {nodes[x].entries[i].key};
  }

  /** The end of a leaf and the start of the leaf after it are the same position. */
  lemma PositionAcross(nodes: Nodes, pl: Places, root: Ptr, x: Ptr, y: Ptr)
    requires Consistent(nodes, pl, root, None) && x in nodes && nodes[x].isLeaf && y in nodes && nodes[y].isLeaf
    requires pl[x].hi == pl[y].lo
    ensures Position(nodes, pl, x, |nodes[x].entries|) == Position(nodes, pl, y, 0)
  {
    assert NodeOk(nodes, pl, y);
    forall k | k in KeysBelow(nodes, Bound(nodes, pl, y, 0)) ensures k < pl[y].lo
    {
      if k >= pl[y].lo {
        var j := KeyInLeaf(nodes, pl, root, y, k);
      }
    }
    assert KeysBelow(nodes, Bound(nodes, pl, y, 0)) == KeysBelow(nodes, pl[x].hi);
  }

  /** The node on a path at the height of n, when n starts inside the range of the path's leaf end. */
  lemma NodeOnPath(nodes: Nodes, pl: Places, root: Ptr, anc: seq<Ptr>, idx: seq<int>, l: nat, n: Ptr)
    requires Consistent(nodes, pl, root, None) && CursorOk(nodes, root, anc, idx, l) && n in nodes
    requires pl[anc[l]].lo <= pl[n].lo < pl[anc[l]].hi
    ensures pl[n].height <= l && anc[l - pl[n].height] == n && l == pl[root].height
  {
    assert NodeOk(nodes, pl, anc[l]) && NodeOk(nodes, pl, n);
    PathPlaces(nodes, pl, root, None, anc, idx, l, 0);
    var i := l - pl[n].height;
    PathPlaces(nodes, pl, root, None, anc, idx, l, i);
    assert anc[i] != n ==> Apart(pl, anc[i], n);
  }

  /** The nodes other than the root whose range starts at or before b. */
  ghost function Opened(nodes: Nodes, pl: Places, root: Ptr, b: int): set<Ptr> {
    set n | n in nodes && n in pl && n != root && pl[n].lo <= b
  }

  ghost function NodesBetween(anc: seq<Ptr>, a: nat, l: nat): set<Ptr>
    requires l < |anc|
  {
    set i | a < i <= l :: anc[i]
  }

  lemma {:induction false} BetweenSize(nodes: Nodes, pl: Places, root: Ptr, anc: seq<Ptr>, idx: seq<int>, a: nat,
                                       l: nat)
    requires Consistent(nodes, pl, root, None) && Prefix(nodes, root, anc, idx, l) && a <= l
    ensures |NodesBetween(anc, a, l)| == l - a
  {
    if a < l {
      BetweenSize(nodes, pl, root, anc, idx, a, l - 1);
      assert NodesBetween(anc, a, l) == NodesBetween(anc, a, l - 1) + {anc[l]};
      forall i | a < i <= l - 1 ensures anc[i] != anc[l]
      {
        PathPlaces(nodes, pl, root, None, anc, idx, l, i);
      }
    } else {
      assert NodesBetween(anc, a, l) == {};
    }
  }

  /** All nodes of a path but the root are open at its leaf. */
  lemma OpenedPath(nodes: Nodes, pl: Places, root: Ptr, anc: seq<Ptr>, idx: seq<int>, l: nat)
    requires Consistent(nodes, pl, root, None) && CursorOk(nodes, root, anc, idx, l)
    ensures l <= |Opened(nodes, pl, root, pl[anc[l]].lo)| < |nodes|
  {
    BetweenSize(nodes, pl, root, anc, idx, 0, l);
    forall i | 0 < i <= l ensures anc[i] in Opened(nodes, pl, root, pl[anc[l]].lo)
    {
      PathPlaces(nodes, pl, root, None, anc, idx, l, i);
    }
    var open := Opened(nodes, pl, root, pl[anc[l]].lo);
    SubsetSize(NodesBetween(anc, 0, l), open);
    SubsetSize(open, nodes.Keys - {root});
    assert |nodes.Keys - {root}| == |nodes.Keys| - 1;
  }

  /** Moving from a leaf to the next one opens exactly the nodes below the level climbed to. */
  lemma NextOpens(nodes: Nodes, pl: Places, root: Ptr, anc: seq<Ptr>, idx: seq<int>, anc': seq<Ptr>, idx': seq<int>,
                  l: nat, a: nat)
    requires Consistent(nodes, pl, root, None)
    requires CursorOk(nodes, root, anc, idx, l) && CursorOk(nodes, root, anc', idx', l) && a < l
    requires anc'[..a + 1] == anc[..a + 1]
    requires pl[anc[l]].hi == pl[anc'[l]].lo == pl[anc'[a + 1]].lo
    ensures |Opened(nodes, pl, root, pl[anc'[l]].lo)| == |Opened(nodes, pl, root, pl[anc[l]].lo)| + (l - a)
  {
    var before, after := Opened(nodes, pl, root, pl[anc[l]].lo), Opened(nodes, pl, root, pl[anc'[l]].lo);
    var entered := NodesBetween(anc', a, l);
    assert NodeOk(nodes, pl, anc[l]) && NodeOk(nodes, pl, anc'[l]);
    BetweenSize(nodes, pl, root, anc', idx', a, l);
    forall i | a < i <= l ensures anc'[i] in after && anc'[i] !in before
    {
      PathPlaces(nodes, pl, root, None, anc', idx', l, i);
      PathPlaces(nodes, pl, root, None, anc', idx', i, a + 1);
      PathPlaces(nodes, pl, root, None, anc', idx', i, 0);
    }
    forall n | n in after && n !in before ensures n in entered
    {
      if pl[n].lo < pl[anc[l]].hi {
        NodeOnPath(nodes, pl, root, anc, idx, l, n);
        PathPlaces(nodes, pl, root, None, anc, idx, l, l - pl[n].height);
      } else {
        NodeOnPath(nodes, pl, root, anc', idx', l, n);
        var i := l - pl[n].height;
        if i <= a {
          assert anc'[i] == anc'[..a + 1][i] == anc[i];
          PathPlaces(nodes, pl, root, None, anc, idx, l, i);
        }
      }
    }
    assert after == before + entered;
  }

  // ---- depth

  function Pow8(n: nat): nat {
    if n == 0 then 1 else 8 * Pow8(n - 1)
  }

  ghost function KeysIn(nodes: Nodes, lo: int, hi: int): set<Key> {
    set k | k in KeysOf(nodes) && lo <= k < hi
  }

  lemma KeysInSplit(nodes: Nodes, a: int, b: int, c: int)
    requires a <= b <= c
    ensures |KeysIn(nodes, a, c)| == |KeysIn(nodes, a, b)| + |KeysIn(nodes, b, c)|
  {
    assert KeysIn(nodes, a, c) == KeysIn(nodes, a, b) + KeysIn(nodes, b, c);
  }

  /** The first i + 1 entries of a leaf are i + 1 keys. */
  lemma {:induction false} LeafCount(nodes: Nodes, pl: Places, x: Ptr, i: nat)
    requires x in nodes && x in pl && NodeOk(nodes, pl, x) && nodes[x].isLeaf && i <= |nodes[x].entries|
    ensures |KeysIn(nodes, pl[x].lo, Bound(nodes, pl, x, i))| >= i
  {
    if i > 0 {
      LeafCount(nodes, pl, x, i - 1);
      var a, b := Bound(nodes, pl, x, i - 1), Bound(nodes, pl, x, i);
      KeysInSplit(nodes, pl[x].lo, a, b);
      KeyAt(nodes, x, i - 1);
      assert nodes[x].entries[i - 1].key in KeysIn(nodes, a, b);
      SubsetSize({nodes[x].entries[i - 1].key}, KeysIn(nodes, a, b));
    }
  }

  /** A node other than the root at height h holds at least 8 ^ (h + 1) records below it. */
  lemma {:induction false} SubtreeCount(nodes: Nodes, pl: Places, root: Ptr, x: Ptr)
    requires Consistent(nodes, pl, root, None) && x in nodes && x != root
    ensures |KeysIn(nodes, pl[x].lo, pl[x].hi)| >= Pow8(pl[x].height + 1)
    decreases pl[x].height, 0, 0
  {
    assert NodeOk(nodes, pl, x) && SizeOk(nodes, root, None, x);
    if nodes[x].isLeaf {
      LeafCount(nodes, pl, x, |nodes[x].entries|);
      assert Pow8(1) == 8;
    } else {
      var m := |nodes[x].entries|;
      KidsCount(nodes, pl, root, x, m - 1);
      Mul(m + 1, 8, Pow8(pl[x].height));
    }
  }

  lemma Mul(a: nat, b: nat, c: nat)
    requires a >= b
    ensures a * c >= b * c
  {
  }

  /** The children of an inner node up to index i hold their share. */
  lemma {:induction false} KidsCount(nodes: Nodes, pl: Places, root: Ptr, x: Ptr, i: int)
    requires Consistent(nodes, pl, root, None) && x in nodes && !nodes[x].isLeaf && -1 <= i < |nodes[x].entries|
    ensures pl[x].height >= 1
    ensures |KeysIn(nodes, pl[x].lo, HighAt(nodes[x], pl[x], i))| >= (i + 2) * Pow8(pl[x].height)
    decreases pl[x].height - 1, 1, i + 1
  {
    assert NodeOk(nodes, pl, x) && KidOk(nodes, pl, x, i);
    var c, q := nodes[x].Child(i), Pow8(pl[x].height);
    OneParent(nodes, pl, root, None, x, i, x, i);
    InnerBounds(nodes, pl, x, i);
    SubtreeCount(nodes, pl, root, c);
    if i > -1 {
      KidsCount(nodes, pl, root, x, i - 1);
      KeysInSplit(nodes, pl[x].lo, LowAt(nodes[x], pl[x], i), HighAt(nodes[x], pl[x], i));
      assert (i + 2) * q == (i + 1) * q + q;
    }
  }

  /** A tree of depth d >= 1 stores at least 2 * 8^d records. */
  lemma DepthBound(nodes: Nodes, pl: Places, root: Ptr)
    requires Consistent(nodes, pl, root, None) && pl[root].height >= 1
    ensures |KeysOf(nodes)| >= 2 * Pow8(pl[root].height)
  {
    assert NodeOk(nodes, pl, root);
    var m := |nodes[root].entries|;
    KidsCount(nodes, pl, root, root, m - 1);
    Mul(m + 1, 2, Pow8(pl[root].height));
    SubsetSize(KeysIn(nodes, 0, KMAX), KeysOf(nodes));
  }

  lemma {:induction false} Pow8Mono(a: nat, b: nat)
    requires a <= b
    ensures Pow8(a) <= Pow8(b)
  {
    if a < b { Pow8Mono(a, b - 1); }
  }

  const MAX_TREE_DEPTH := 20

  lemma Pow8Of20()
    ensures Pow8(20) == 0x1000_0000_0000_0000
  {
    assert Pow8(5) == 0x8000;
    assert Pow8(10) == 0x4000_0000;
    assert Pow8(15) == 0x2000_0000_0000;
  }

  /** The cursor's arrays are long enough for every relation with fewer than 2^61 records. */
  lemma DepthFits(nodes: Nodes, pl: Places, root: Ptr)
    requires Consistent(nodes, pl, root, None) && |KeysOf(nodes)| < 0x2000_0000_0000_0000
    ensures pl[root].height < MAX_TREE_DEPTH
  {
    if pl[root].height >= MAX_TREE_DEPTH {
      DepthBound(nodes, pl, root);
      Pow8Mono(20, pl[root].height);
      Pow8Of20();
    }
  }
}
