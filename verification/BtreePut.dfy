/** Cascading splits: what is true between the split of a node and the insertion of its new half
into the parent. */
module BtreePut {
  import opened Wrappers
  import opened BtreeShape
  import opened BtreePath

  /** Level `level` of the cursor's path is about to take the entry e that a split below it has
  produced (level -1: the root itself was split).  With the entry added the tree is consistent,
  up to the size of that one node. */
  ghost predicate Pending(nodes: Nodes, pl: Places, root: Ptr, anc: seq<Ptr>, idx: seq<int>, level: int, e: Entry,
                          key: Key) {
    && -1 <= level < |anc| && level < |idx|
    && root in nodes && root in pl
    && if level == -1 then
         forall r | r !in nodes ::
           Consistent(nodes[r := NewRoot(root, e)], pl[r := Place(0, KMAX, pl[root].height + 1)], r, None)
       else
         var p := anc[level];
         && Prefix(nodes, root, anc, idx, level)
         && !nodes[p].isLeaf && -1 <= idx[level] < |nodes[p].entries|
         && Consistent(nodes[p := WithChild(nodes[p], idx[level], e)], pl, root, Some(p))
         && pl[p].lo <= key < pl[p].hi
         && (forall j | 0 <= j < level :: anc[j] != p)
  }

  /** The node at the end of a path is none of the nodes above it. */
  lemma PathDistinct(nodes: Nodes, pl: Places, root: Ptr, over: Option<Ptr>, anc: seq<Ptr>, idx: seq<int>, l: nat,
                     i: nat)
    requires Consistent(nodes, pl, root, over) && Prefix(nodes, root, anc, idx, l) && i < l
    ensures anc[i] != anc[l]
  {
    PathPlaces(nodes, pl, root, over, anc, idx, l, i);
  }

  /** A path stays a path when only nodes at or below its end change. */
  lemma PrefixFrame(nodes: Nodes, nodes': Nodes, root: Ptr, anc: seq<Ptr>, idx: seq<int>, l: nat)
    requires Prefix(nodes, root, anc, idx, l)
    requires forall i | 0 <= i < l :: anc[i] in nodes' && nodes'[anc[i]] == nodes[anc[i]]
    requires anc[l] in nodes'
    ensures Prefix(nodes', root, anc, idx, l)
  {
    forall i | 0 <= i < l ensures EdgeAt(nodes', anc, idx, i) { assert EdgeAt(nodes, anc, idx, i); }
  }

  lemma SplitPendingTop(v: Nodes, pl: Places, root: Ptr, d: Ptr, nodes': Nodes)
    requires Consistent(v, pl, root, Some(root)) && |v[root].entries| == FANOUT + 1 && d !in v
    requires nodes' == v[root := LeftHalf(v[root])][d := RightHalf(v[root])]
    ensures var sep := v[root].entries[MIDDLE].key;
            var pl' := SplitPlaces(pl, root, d, sep);
            forall r | r !in nodes' ::
              Consistent(nodes'[r := NewRoot(root, Entry(sep, d))], pl'[r := Place(0, KMAX, pl'[root].height + 1)], r,
                         None)
  {
    forall r | r !in nodes'
      ensures var sep := v[root].entries[MIDDLE].key;
              var pl' := SplitPlaces(pl, root, d, sep);
              Consistent(nodes'[r := NewRoot(root, Entry(sep, d))], pl'[r := Place(0, KMAX, pl'[root].height + 1)], r,
                         None)
    {
      SplitTop(v, pl, root, d, r);
    }
  }

  /** The path above a node that was split is still a path, of nodes other than the two halves. */
  lemma SplitPath(v: Nodes, pl: Places, root: Ptr, anc: seq<Ptr>, idx: seq<int>, level: nat, d: Ptr, nodes': Nodes)
    requires Prefix(v, root, anc, idx, level) && level >= 1
    requires Consistent(v, pl, root, Some(anc[level])) && |v[anc[level]].entries| == FANOUT + 1 && d !in v
    requires nodes' == v[anc[level] := LeftHalf(v[anc[level]])][d := RightHalf(v[anc[level]])]
    ensures Prefix(nodes', root, anc, idx, level - 1)
    ensures nodes'[anc[level - 1]] == v[anc[level - 1]] && !v[anc[level - 1]].isLeaf
    ensures -1 <= idx[level - 1] < |v[anc[level - 1]].entries| && v[anc[level - 1]].Child(idx[level - 1]) == anc[level]
    ensures forall j | 0 <= j < level - 1 :: anc[j] != anc[level - 1]
    ensures pl[anc[level - 1]].lo <= pl[anc[level]].lo && pl[anc[level]].hi <= pl[anc[level - 1]].hi
  {
    assert EdgeAt(v, anc, idx, level - 1);
    PathPlaces(v, pl, root, Some(anc[level]), anc, idx, level, level - 1);
    forall j | 0 <= j < level ensures anc[j] in v && nodes'[anc[j]] == v[anc[j]]
    {
      PathDistinct(v, pl, root, Some(anc[level]), anc, idx, level, j);
    }
    PrefixFrame(v, nodes', root, anc, idx, level - 1);
    forall j | 0 <= j < level - 1 ensures anc[j] != anc[level - 1]
    {
      PathDistinct(v, pl, root, Some(anc[level]), anc, idx, level - 1, j);
    }
  }

  /** Writing the two halves of a node that is too large hands its parent an entry to take. */
  lemma SplitPending(v: Nodes, pl: Places, root: Ptr, anc: seq<Ptr>, idx: seq<int>, level: nat, d: Ptr, key: Key,
                     nodes': Nodes)
    requires Prefix(v, root, anc, idx, level) && level < |idx|
    requires Consistent(v, pl, root, Some(anc[level])) && |v[anc[level]].entries| == FANOUT + 1 && d !in v
    requires pl[anc[level]].lo <= key < pl[anc[level]].hi
    requires nodes' == v[anc[level] := LeftHalf(v[anc[level]])][d := RightHalf(v[anc[level]])]
    ensures var sep := v[anc[level]].entries[MIDDLE].key;
            Pending(nodes', SplitPlaces(pl, anc[level], d, sep), root, anc, idx, level - 1, Entry(sep, d), key)
    ensures Contents(nodes') == Contents(v)
  {
    var x := anc[level];
    var sep := v[x].entries[MIDDLE].key;
    SplitContents(v, pl, root, x, d, nodes');
    if level == 0 {
      SplitPendingTop(v, pl, root, d, nodes');
    } else {
      SplitPath(v, pl, root, anc, idx, level, d, nodes');
      SplitPendingInner(v, pl, root, anc, idx, level, d, key, nodes');
    }
  }

  lemma SplitPendingInner(v: Nodes, pl: Places, root: Ptr, anc: seq<Ptr>, idx: seq<int>, level: nat, d: Ptr, key: Key,
                          nodes': Nodes)
    requires 1 <= level < |anc| && level < |idx| && anc[level] in v
    requires Prefix(nodes', root, anc, idx, level - 1) && root in v
    requires Consistent(v, pl, root, Some(anc[level])) && |v[anc[level]].entries| == FANOUT + 1 && d !in v
    requires nodes' == v[anc[level] := LeftHalf(v[anc[level]])][d := RightHalf(v[anc[level]])]
    requires anc[level - 1] in v && nodes'[anc[level - 1]] == v[anc[level - 1]] && !v[anc[level - 1]].isLeaf
    requires -1 <= idx[level - 1] < |v[anc[level - 1]].entries| && v[anc[level - 1]].Child(idx[level - 1]) == anc[level]
    requires forall j | 0 <= j < level - 1 :: anc[j] != anc[level - 1]
    requires pl[anc[level]].lo <= key < pl[anc[level]].hi
    requires pl[anc[level - 1]].lo <= pl[anc[level]].lo && pl[anc[level]].hi <= pl[anc[level - 1]].hi
    ensures var sep := v[anc[level]].entries[MIDDLE].key;
            Pending(nodes', SplitPlaces(pl, anc[level], d, sep), root, anc, idx, level - 1, Entry(sep, d), key)
  {
    var x, p, i := anc[level], anc[level - 1], idx[level - 1];
    var sep := v[x].entries[MIDDLE].key;
    SplitChild(v, pl, root, x, d, p, i);
    assert nodes'[p := WithChild(nodes'[p], i, Entry(sep, d))] == SplitUnder(v, x, d, p, i);
  }

  /** The relation depends on the leaves only. */
  lemma SameLeaves(nodes: Nodes, nodes': Nodes, pl: Places, root: Ptr, over: Option<Ptr>)
    requires Consistent(nodes', pl, root, over)
    requires forall x | x in nodes && nodes[x].isLeaf :: x in nodes' && nodes'[x] == nodes[x]
    requires forall x | x in nodes' && nodes'[x].isLeaf :: x in nodes && nodes'[x] == nodes[x]
    ensures Contents(nodes') == Contents(nodes)
  {
    var m := Contents(nodes');
    ContentsStored(nodes', pl, root, over);
    forall x: Ptr, i: nat, k: Key | HasAt(nodes, x, i, k) ensures k in m && m[k] == nodes[x].entries[i].ptr
    {
      assert HasAt(nodes', x, i, k);
    }
    forall k | k in m ensures exists x: Ptr, i: nat :: HasAt(nodes, x, i, k)
    {
      var x: Ptr, i: nat :| HasAt(nodes', x, i, k);
      assert HasAt(nodes, x, i, k);
    }
    StoredIsContents(nodes, m);
  }

  /** A node with room takes the pending entry and the tree is whole again. */
  lemma TakePending(nodes: Nodes, pl: Places, root: Ptr, anc: seq<Ptr>, idx: seq<int>, level: nat, e: Entry, key: Key,
                    nodes': Nodes)
    requires Pending(nodes, pl, root, anc, idx, level, e, key) && |nodes[anc[level]].entries| < FANOUT
    requires nodes' == nodes[anc[level] := WithChild(nodes[anc[level]], idx[level], e)]
    ensures Consistent(nodes', pl, root, None) && Contents(nodes') == Contents(nodes)
    ensures Prefix(nodes', root, anc, idx, level)
  {
    NotOver(nodes', pl, root, anc[level]);
    SameLeaves(nodes, nodes', pl, root, None);
    PrefixFrame(nodes, nodes', root, anc, idx, level);
  }

  /** A full node that takes the pending entry is too large and is split in turn. */
  lemma OverPending(nodes: Nodes, pl: Places, root: Ptr, anc: seq<Ptr>, idx: seq<int>, level: nat, e: Entry, key: Key,
                    d: Ptr, nodes': Nodes)
    requires Pending(nodes, pl, root, anc, idx, level, e, key) && |nodes[anc[level]].entries| == FANOUT && d !in nodes
    requires var n := WithChild(nodes[anc[level]], idx[level], e);
             nodes' == nodes[anc[level] := LeftHalf(n)][d := RightHalf(n)]
    ensures var sep := WithChild(nodes[anc[level]], idx[level], e).entries[MIDDLE].key;
            Pending(nodes', SplitPlaces(pl, anc[level], d, sep), root, anc, idx, level - 1, Entry(sep, d), key)
    ensures Contents(nodes') == Contents(nodes)
  {
    var v := nodes[anc[level] := WithChild(nodes[anc[level]], idx[level], e)];
    PrefixFrame(nodes, v, root, anc, idx, level);
    SameLeaves(nodes, v, pl, root, Some(anc[level]));
    SplitPending(v, pl, root, anc, idx, level, d, key, nodes');
  }

  /** A split root gets a new root above it. */
  lemma RootPending(nodes: Nodes, pl: Places, root: Ptr, anc: seq<Ptr>, idx: seq<int>, e: Entry, key: Key, r: Ptr)
    requires Pending(nodes, pl, root, anc, idx, -1, e, key) && r !in nodes
    ensures var nodes', pl' := nodes[r := NewRoot(root, e)], pl[r := Place(0, KMAX, pl[root].height + 1)];
            Consistent(nodes', pl', r, None) && Contents(nodes') == Contents(nodes)
  {
    var nodes', pl' := nodes[r := NewRoot(root, e)], pl[r := Place(0, KMAX, pl[root].height + 1)];
    assert Consistent(nodes', pl', r, None);
    SameLeaves(nodes, nodes', pl', r, None);
  }

  /** splitnode finds the place of the new entry by key: it is the one after the split child. */
  lemma PendingIndex(nodes: Nodes, pl: Places, root: Ptr, anc: seq<Ptr>, idx: seq<int>, level: nat, e: Entry, key: Key)
    requires Pending(nodes, pl, root, anc, idx, level, e, key)
    ensures RecordIndex(nodes[anc[level]].entries, e.key) == idx[level] + 1
  {
    var p, i := anc[level], idx[level];
    var n := nodes[p];
    var v := nodes[p := WithChild(n, i, e)];
    assert NodeOk(v, pl, p);
    var es, es' := n.entries, v[p].entries;
    assert es'[i + 1] == e;
    assert i >= 0 ==> es'[i] == es[i] && es'[i].key < es'[i + 1].key;
    assert i + 1 < |es| ==> es'[i + 2] == es[i + 1] && es'[i + 1].key < es'[i + 2].key;
    forall j | 0 <= j < i + 1 ensures es[j].key < e.key { assert es'[j] == es[j]; }
  }
}
