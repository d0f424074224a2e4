/** The B+ tree's node heap: what a consistent tree is and what inserting and splitting do to it.

Every node carries a place: the half-open key range [lo, hi) it is responsible for and its
height.  A node's separators cut its range among its children, and two nodes of the same height
have disjoint ranges; nothing else is needed to make the heap a balanced search tree. */
module BtreeShape {
  import opened Wrappers

  const FANOUT := 15
  const MIDDLE := 8
  const KMAX := 0x1_0000_0000_0000_0000

  /** The C type size_t. */
  type Key = k: int | 0 <= k < 0x1_0000_0000_0000_0000 witness 0

  /** A raw pointer: to a child node, or to a record. */
  type Ptr = nat

  datatype Entry = Entry(key: Key, ptr: Ptr)

  /** numKeys is the length of entries; a leaf does not use ptr0. */
  datatype BtNode = BtNode(isLeaf: bool, First: bool, Last: bool, ptr0: Ptr, entries: seq<Entry>)
  {
    function numKeys(): nat { |entries| }

    /** The child at index i, where index -1 is ptr0. */
    function Child(i: int): Ptr
      requires -1 <= i < |entries|
    {
      if i == -1 then ptr0 else entries[i].ptr
    }
  }

  datatype Place = Place(lo: int, hi: int, height: nat)

  type Nodes = map<Ptr, BtNode>
  type Places = map<Ptr, Place>

  predicate Sorted(es: seq<Entry>) {
    forall i, j | 0 <= i < j < |es| :: es[i].key < es[j].key
  }

  function LowAt(n: BtNode, p: Place, i: int): int
    requires -1 <= i < |n.entries|
  {
    if i == -1 then p.lo else n.entries[i].key
  }

  function HighAt(n: BtNode, p: Place, i: int): int
    requires -1 <= i < |n.entries|
  {
    if i + 1 < |n.entries| then n.entries[i + 1].key else p.hi
  }

  /** Child i of x exists, one level down, and is responsible for the keys between its separators. */
  predicate KidOk(nodes: Nodes, pl: Places, x: Ptr, i: int) {
    && x in nodes && x in pl && -1 <= i < |nodes[x].entries|
    && var c := nodes[x].Child(i);
    && c in nodes && c in pl
    && pl[x].height >= 1
    && pl[c] == Place(LowAt(nodes[x], pl[x], i), HighAt(nodes[x], pl[x], i), pl[x].height - 1)
  }

  ghost predicate NodeOk(nodes: Nodes, pl: Places, x: Ptr)
    requires x in nodes && x in pl
  {
    var n, p := nodes[x], pl[x];
    && 0 <= p.lo < p.hi <= KMAX
    && (n.First <==> p.lo == 0) && (n.Last <==> p.hi == KMAX)
    && Sorted(n.entries)
    && (n.isLeaf <==> p.height == 0)
    && (forall i | 0 <= i < |n.entries| :: p.lo <= n.entries[i].key < p.hi)
    && (!n.isLeaf ==>
          && n.entries != []
          && p.lo < n.entries[0].key
          && forall i {:trigger KidOk(nodes, pl, x, i)} | -1 <= i < |n.entries| :: KidOk(nodes, pl, x, i))
  }

  /** Fill limits; `over` names a node that may be one entry too large because it is about to split. */
  predicate SizeOk(nodes: Nodes, root: Ptr, over: Option<Ptr>, x: Ptr)
    requires x in nodes
  {
    && |nodes[x].entries| <= (if over == Some(x) then FANOUT + 1 else FANOUT)
    && (x != root ==> |nodes[x].entries| >= if nodes[x].isLeaf then MIDDLE else MIDDLE - 1)
  }

  predicate Apart(pl: Places, a: Ptr, b: Ptr) {
    a in pl && b in pl && pl[a].height == pl[b].height ==> pl[a].hi <= pl[b].lo || pl[b].hi <= pl[a].lo
  }

  ghost predicate Consistent(nodes: Nodes, pl: Places, root: Ptr, over: Option<Ptr>) {
    && nodes.Keys == pl.Keys
    && root in nodes && pl[root].lo == 0 && pl[root].hi == KMAX
    && (forall x | x in nodes :: pl[x].height <= pl[root].height)
    && (forall x {:trigger NodeOk(nodes, pl, x)} | x in nodes :: NodeOk(nodes, pl, x))
    && (forall x {:trigger SizeOk(nodes, root, over, x)} | x in nodes :: SizeOk(nodes, root, over, x))
    && (forall a, b {:trigger Apart(pl, a, b)} | a in nodes && b in nodes && a != b :: Apart(pl, a, b))
  }

  // ---- the records

  /** Leaf x has key k at index i. */
  predicate HasAt(nodes: Nodes, x: Ptr, i: nat, k: Key) {
    x in nodes && nodes[x].isLeaf && i < |nodes[x].entries| && nodes[x].entries[i].key == k
  }

  ghost function KeysOf(nodes: Nodes): set<Key> {
    set x: Ptr, i: nat | x in nodes && nodes[x].isLeaf && i < |nodes[x].entries| :: nodes[x].entries[i].key
  }

  ghost function RecordOf(nodes: Nodes, k: Key): Ptr
    requires k in KeysOf(nodes)
  {
    assert exists x: Ptr, i: nat :: HasAt(nodes, x, i, k) by {
      var x: Ptr, i: nat :| x in nodes && nodes[x].isLeaf && i < |nodes[x].entries| && nodes[x].entries[i].key == k;
      assert HasAt(nodes, x, i, k);
    }
    var x: Ptr, i: nat :| HasAt(nodes, x, i, k);
    nodes[x].entries[i].ptr
  }

  /** The relation the heap stores: records by key. */
  ghost function Contents(nodes: Nodes): map<Key, Ptr> {
    map k | k in KeysOf(nodes) :: RecordOf(nodes, k)
  }

  ghost predicate Stores(nodes: Nodes, m: map<Key, Ptr>) {
    && (forall x: Ptr, i: nat, k: Key | HasAt(nodes, x, i, k) :: k in m && m[k] == nodes[x].entries[i].ptr)
    && (forall k | k in m :: exists x: Ptr, i: nat :: HasAt(nodes, x, i, k))
  }

  lemma StoredIsContents(nodes: Nodes, m: map<Key, Ptr>)
    requires Stores(nodes, m)
    ensures Contents(nodes) == m
  {
  }

  /** A leaf that is responsible for k is the only place k can be. */
  lemma OnePlace(nodes: Nodes, pl: Places, root: Ptr, over: Option<Ptr>, x: Ptr, y: Ptr, i: nat, k: Key)
    requires Consistent(nodes, pl, root, over) && x in nodes && nodes[x].isLeaf && pl[x].lo <= k < pl[x].hi
    requires HasAt(nodes, y, i, k)
    ensures x == y
  {
    assert NodeOk(nodes, pl, x) && NodeOk(nodes, pl, y) && (x != y ==> Apart(pl, x, y));
  }

  lemma ContentsStored(nodes: Nodes, pl: Places, root: Ptr, over: Option<Ptr>)
    requires Consistent(nodes, pl, root, over)
    ensures Stores(nodes, Contents(nodes))
  {
    var m := Contents(nodes);
    forall x: Ptr, i: nat, k: Key | HasAt(nodes, x, i, k) ensures k in m && m[k] == nodes[x].entries[i].ptr
    {
      assert k in KeysOf(nodes);
      var y: Ptr, j: nat :| HasAt(nodes, y, j, k) && RecordOf(nodes, k) == nodes[y].entries[j].ptr;
      assert NodeOk(nodes, pl, x);
      OnePlace(nodes, pl, root, over, x, y, j, k);
    }
    forall k | k in m ensures exists x: Ptr, i: nat :: HasAt(nodes, x, i, k)
    {
      var x: Ptr, i: nat :| x in nodes && nodes[x].isLeaf && i < |nodes[x].entries| && nodes[x].entries[i].key == k;
      assert HasAt(nodes, x, i, k);
    }
  }

  // ---- searching in one node

  /** The last index whose key is at most `key`, or -1. */
  function ChildIndex(es: seq<Entry>, key: Key): (i: int)
    ensures -1 <= i < |es|
    ensures i + 1 < |es| ==> key < es[i + 1].key
    ensures forall j | 0 <= j <= i :: es[j].key <= key
  {
    if es == [] || key < es[0].key then -1 else 1 + ChildIndex(es[1..], key)
  }

  /** The first index whose key is at least `key`, or the length. */
  function RecordIndex(es: seq<Entry>, key: Key): (i: nat)
    ensures i <= |es|
    ensures i < |es| ==> key <= es[i].key
    ensures forall j | 0 <= j < i :: es[j].key < key
  {
    if es == [] || key <= es[0].key then 0 else 1 + RecordIndex(es[1..], key)
  }

  /** Only one child of x is responsible for the key, and it is the one the search takes. */
  lemma ChildIndexRange(nodes: Nodes, pl: Places, x: Ptr, i: int, key: Key)
    requires x in nodes && x in pl && NodeOk(nodes, pl, x) && !nodes[x].isLeaf && -1 <= i < |nodes[x].entries|
    requires pl[x].lo <= key < pl[x].hi
    ensures LowAt(nodes[x], pl[x], i) <= key < HighAt(nodes[x], pl[x], i) <==> i == ChildIndex(nodes[x].entries, key)
    ensures KidOk(nodes, pl, x, i)
  {
  }

  /** A node has at most one parent, which refers to it once. */
  lemma OneParent(nodes: Nodes, pl: Places, root: Ptr, over: Option<Ptr>, p: Ptr, i: int, q: Ptr, j: int)
    requires Consistent(nodes, pl, root, over)
    requires p in nodes && !nodes[p].isLeaf && -1 <= i < |nodes[p].entries|
    requires q in nodes && !nodes[q].isLeaf && -1 <= j < |nodes[q].entries|
    requires nodes[p].Child(i) == nodes[q].Child(j)
    ensures p == q && i == j && nodes[p].Child(i) != root && nodes[p].Child(i) != p
  {
    var c := nodes[p].Child(i);
    assert NodeOk(nodes, pl, p) && NodeOk(nodes, pl, q) && NodeOk(nodes, pl, root);
    assert KidOk(nodes, pl, p, i) && KidOk(nodes, pl, q, j);
    assert NodeOk(nodes, pl, c);
    assert p != q ==> Apart(pl, p, q);
    assert pl[p].lo <= pl[c].lo < pl[p].hi && pl[q].lo <= pl[c].lo < pl[q].hi;
    ChildIndexRange(nodes, pl, p, i, pl[c].lo);
    ChildIndexRange(nodes, pl, q, j, pl[c].lo);
  }

  // ---- storing a record in a leaf

  function InsertAt(es: seq<Entry>, i: nat, e: Entry): seq<Entry>
    requires i <= |es|
  {
    es[..i] + [e] + es[i..]
  }

  lemma SortedInsert(es: seq<Entry>, i: nat, e: Entry)
    requires Sorted(es) && i <= |es|
    requires i > 0 ==> es[i - 1].key < e.key
    requires i < |es| ==> e.key < es[i].key
    ensures Sorted(InsertAt(es, i, e))
  {
  }

  /** The entry for `key`, if the leaf has one, is at the index the search returns. */
  predicate Present(es: seq<Entry>, key: Key) {
    var i := RecordIndex(es, key);
    i < |es| && es[i].key == key
  }

  lemma PresentIff(es: seq<Entry>, key: Key)
    requires Sorted(es)
    ensures Present(es, key) <==> exists j :: 0 <= j < |es| && es[j].key == key
  {
  }

  /** A leaf with the record of `key` stored: replaced, or inserted in order. */
  function WithRecord(n: BtNode, key: Key, rec: Ptr): BtNode {
    var i := RecordIndex(n.entries, key);
    if Present(n.entries, key) then n.(entries := n.entries[i := n.entries[i].(ptr := rec)])
    else n.(entries := InsertAt(n.entries, i, Entry(key, rec)))
  }

  /** e' is in the sequence with the entry at i replaced by, or with an entry inserted at i, e. */
  lemma InsertedEntries(es: seq<Entry>, i: nat, e: Entry, e': Entry)
    requires i <= |es|
    ensures e' in InsertAt(es, i, e) <==> e' == e || e' in es
  {
  }

  lemma UpdatedEntries(es: seq<Entry>, i: nat, r: Ptr, e': Entry)
    requires Sorted(es) && i < |es|
    ensures e' in es[i := Entry(es[i].key, r)] <==> if e'.key == es[i].key then e'.ptr == r else e' in es
  {
    var es' := es[i := Entry(es[i].key, r)];
    assert es'[i] == Entry(es[i].key, r);
    if e' in es && e'.key != es[i].key {
      var j :| 0 <= j < |es| && es[j] == e';
      assert es'[j] == e';
    }
  }

  lemma WithRecordOk(n: BtNode, key: Key, rec: Ptr)
    requires Sorted(n.entries)
    ensures Sorted(WithRecord(n, key, rec).entries)
    ensures |WithRecord(n, key, rec).entries| == |n.entries| + if Present(n.entries, key) then 0 else 1
    ensures forall k: Key, r: Ptr :: Entry(k, r) in WithRecord(n, key, rec).entries <==>
              if k == key then r == rec else Entry(k, r) in n.entries
  {
    var es, i := n.entries, RecordIndex(n.entries, key);
    PresentIff(es, key);
    forall k: Key, r: Ptr
      ensures Entry(k, r) in WithRecord(n, key, rec).entries <==> if k == key then r == rec else Entry(k, r) in es
    {
      if Present(es, key) {
        UpdatedEntries(es, i, rec, Entry(k, r));
      } else {
        InsertedEntries(es, i, Entry(key, rec), Entry(k, r));
      }
    }
    if !Present(es, key) {
      if i > 0 { assert es[i - 1].key < key; }
      SortedInsert(es, i, Entry(key, rec));
    }
  }

  /** Storing a record in the leaf responsible for its key keeps the tree consistent, except that
  the leaf may now have one entry too many, and updates the relation at that key. */
  lemma StoreRecord(nodes: Nodes, pl: Places, root: Ptr, x: Ptr, key: Key, rec: Ptr)
    requires Consistent(nodes, pl, root, None)
    requires x in nodes && nodes[x].isLeaf && pl[x].lo <= key < pl[x].hi
    ensures var nodes' := nodes[x := WithRecord(nodes[x], key, rec)];
            && Consistent(nodes', pl, root, Some(x))
            && Contents(nodes') == Contents(nodes)[key := rec]
            && (key in Contents(nodes) <==> Present(nodes[x].entries, key))
  {
    var n := nodes[x];
    var nodes' := nodes[x := WithRecord(n, key, rec)];
    assert NodeOk(nodes, pl, x) && SizeOk(nodes, root, None, x);
    WithRecordOk(n, key, rec);
    forall y | y in nodes' ensures NodeOk(nodes', pl, y) { StoreNodeOk(nodes, pl, root, x, key, rec, y); }
    forall y | y in nodes' ensures SizeOk(nodes', root, Some(x), y) { assert SizeOk(nodes, root, None, y); }
    forall a, b | a in nodes' && b in nodes' && a != b ensures Apart(pl, a, b) { assert a in nodes && Apart(pl, a, b); }
    StoreContents(nodes, pl, root, x, key, rec);
    StoredHere(nodes, pl, root, x, key);
  }

  lemma StoreNodeOk(nodes: Nodes, pl: Places, root: Ptr, x: Ptr, key: Key, rec: Ptr, y: Ptr)
    requires Consistent(nodes, pl, root, None) && y in nodes
    requires x in nodes && nodes[x].isLeaf && pl[x].lo <= key < pl[x].hi
    ensures NodeOk(nodes[x := WithRecord(nodes[x], key, rec)], pl, y)
  {
    var nodes' := nodes[x := WithRecord(nodes[x], key, rec)];
    assert NodeOk(nodes, pl, y);
    if y == x {
      WithRecordOk(nodes[x], key, rec);
      forall i | 0 <= i < |nodes'[x].entries| ensures pl[x].lo <= nodes'[x].entries[i].key < pl[x].hi
      {
        var e := nodes'[x].entries[i];
        assert e in nodes'[x].entries && e == Entry(e.key, e.ptr);
      }
    } else if !nodes[y].isLeaf {
      forall i | -1 <= i < |nodes'[y].entries| ensures KidOk(nodes', pl, y, i) { assert KidOk(nodes, pl, y, i); }
    }
  }

  /** What is stored after the record has been added was there, or is the record. */
  lemma StoredWasThere(nodes: Nodes, pl: Places, root: Ptr, x: Ptr, key: Key, rec: Ptr, y: Ptr, i: nat, k: Key)
    requires Consistent(nodes, pl, root, None)
    requires x in nodes && nodes[x].isLeaf && pl[x].lo <= key < pl[x].hi
    requires HasAt(nodes[x := WithRecord(nodes[x], key, rec)], y, i, k)
    ensures var m' := Contents(nodes)[key := rec];
            k in m' && m'[k] == nodes[x := WithRecord(nodes[x], key, rec)][y].entries[i].ptr
  {
    var n, nodes' := nodes[x], nodes[x := WithRecord(nodes[x], key, rec)];
    assert NodeOk(nodes, pl, x);
    WithRecordOk(n, key, rec);
    ContentsStored(nodes, pl, root, None);
    if y == x {
      var e := nodes'[y].entries[i];
      assert e == Entry(e.key, e.ptr) && e in WithRecord(n, key, rec).entries;
      if k != key {
        var j: nat :| j < |n.entries| && n.entries[j] == e;
        assert HasAt(nodes, x, j, k);
      }
    } else {
      assert HasAt(nodes, y, i, k);
      if k == key { OnePlace(nodes, pl, root, None, x, y, i, k); }
    }
  }

  /** What was stored before is still there, with the record in addition. */
  lemma StoredIsThere(nodes: Nodes, pl: Places, root: Ptr, x: Ptr, key: Key, rec: Ptr, k: Key) returns (y: Ptr, i: nat)
    requires Consistent(nodes, pl, root, None)
    requires x in nodes && nodes[x].isLeaf && pl[x].lo <= key < pl[x].hi && k in Contents(nodes)[key := rec]
    ensures HasAt(nodes[x := WithRecord(nodes[x], key, rec)], y, i, k)
  {
    var n, nodes' := nodes[x], nodes[x := WithRecord(nodes[x], key, rec)];
    assert NodeOk(nodes, pl, x);
    WithRecordOk(n, key, rec);
    if k == key {
      assert Entry(key, rec) in nodes'[x].entries;
      y := x;
      i :| i < |nodes'[x].entries| && nodes'[x].entries[i] == Entry(key, rec);
    } else {
      ContentsStored(nodes, pl, root, None);
      y, i :| HasAt(nodes, y, i, k);
      if y == x {
        var e := n.entries[i];
        assert e == Entry(k, e.ptr) && e in n.entries;
        i :| i < |nodes'[x].entries| && nodes'[x].entries[i] == e;
      }
    }
  }

  lemma StoreContents(nodes: Nodes, pl: Places, root: Ptr, x: Ptr, key: Key, rec: Ptr)
    requires Consistent(nodes, pl, root, None)
    requires x in nodes && nodes[x].isLeaf && pl[x].lo <= key < pl[x].hi
    ensures var nodes' := nodes[x := WithRecord(nodes[x], key, rec)];
            Contents(nodes') == Contents(nodes)[key := rec]
  {
    var nodes', m' := nodes[x := WithRecord(nodes[x], key, rec)], Contents(nodes)[key := rec];
    forall y: Ptr, i: nat, k: Key | HasAt(nodes', y, i, k) ensures k in m' && m'[k] == nodes'[y].entries[i].ptr
    {
      StoredWasThere(nodes, pl, root, x, key, rec, y, i, k);
    }
    forall k | k in m' ensures exists y: Ptr, i: nat :: HasAt(nodes', y, i, k)
    {
      var y, i := StoredIsThere(nodes, pl, root, x, key, rec, k);
    }
    StoredIsContents(nodes', m');
  }

  /** A key is in the relation exactly when it is in the leaf responsible for it. */
  lemma StoredHere(nodes: Nodes, pl: Places, root: Ptr, x: Ptr, key: Key)
    requires Consistent(nodes, pl, root, None)
    requires x in nodes && nodes[x].isLeaf && pl[x].lo <= key < pl[x].hi
    ensures key in Contents(nodes) <==> Present(nodes[x].entries, key)
  {
    var n := nodes[x];
    assert NodeOk(nodes, pl, x);
    ContentsStored(nodes, pl, root, None);
    PresentIff(n.entries, key);
    if Present(n.entries, key) {
      assert HasAt(nodes, x, RecordIndex(n.entries, key), key);
    }
    if key in Contents(nodes) {
      var y: Ptr, i: nat :| HasAt(nodes, y, i, key);
      OnePlace(nodes, pl, root, None, x, y, i, key);
    }
  }

  // ---- splitting a node

  /** The two halves of a node with FANOUT + 1 entries, and the key that separates them: a leaf
  copies its middle key up, an inner node moves it up. */
  function LeftHalf(n: BtNode): BtNode
    requires |n.entries| == FANOUT + 1
  {
    n.(Last := false, entries := n.entries[..MIDDLE])
  }

  function RightHalf(n: BtNode): BtNode
    requires |n.entries| == FANOUT + 1
  {
    if n.isLeaf then BtNode(true, false, n.Last, 0, n.entries[MIDDLE..])
    else BtNode(false, false, n.Last, n.entries[MIDDLE].ptr, n.entries[MIDDLE + 1..])
  }

  /** The parent's new entry for the right half goes right after the entry of the left half. */
  function WithChild(p: BtNode, i: int, e: Entry): BtNode
    requires -1 <= i < |p.entries|
  {
    p.(entries := InsertAt(p.entries, i + 1, e))
  }

  function SplitPlaces(pl: Places, x: Ptr, d: Ptr, sep: Key): Places
    requires x in pl
  {
    pl[x := pl[x].(hi := sep)][d := pl[x].(lo := sep)]
  }

  /** Both halves are good nodes of their own, d being a fresh address. */
  lemma HalvesOk(nodes: Nodes, pl: Places, root: Ptr, x: Ptr, d: Ptr, nodes': Nodes)
    requires Consistent(nodes, pl, root, Some(x)) && x in nodes && |nodes[x].entries| == FANOUT + 1 && d !in nodes
    requires nodes' == nodes[x := LeftHalf(nodes[x])][d := RightHalf(nodes[x])]
    ensures var sep := nodes[x].entries[MIDDLE].key;
            && pl[x].lo < sep < pl[x].hi
            && NodeOk(nodes', SplitPlaces(pl, x, d, sep), x) && NodeOk(nodes', SplitPlaces(pl, x, d, sep), d)
  {
    var n := nodes[x];
    var sep, es := n.entries[MIDDLE].key, n.entries;
    var pl' := SplitPlaces(pl, x, d, sep);
    assert NodeOk(nodes, pl, x);
    assert es[0].key < es[MIDDLE].key;
    if !n.isLeaf {
      forall i | -1 <= i < MIDDLE ensures KidOk(nodes', pl', x, i)
      {
        assert KidOk(nodes, pl, x, i);
        OneParent(nodes, pl, root, Some(x), x, i, x, i);
      }
      forall i | -1 <= i < FANOUT - MIDDLE ensures KidOk(nodes', pl', d, i)
      {
        assert KidOk(nodes, pl, x, i + MIDDLE + 1);
        OneParent(nodes, pl, root, Some(x), x, i + MIDDLE + 1, x, i + MIDDLE + 1);
      }
    }
  }

  /** A node that does not refer to x is not affected by splitting x. */
  lemma UninvolvedOk(nodes: Nodes, pl: Places, root: Ptr, over: Option<Ptr>, y: Ptr, nodes': Nodes, pl': Places)
    requires Consistent(nodes, pl, root, over) && y in nodes
    requires y in nodes' && nodes'[y] == nodes[y] && y in pl' && pl'[y] == pl[y]
    requires !nodes[y].isLeaf ==> forall i | -1 <= i < |nodes[y].entries| ::
               var c := nodes[y].Child(i); c in nodes ==> c in nodes' && c in pl' && pl'[c] == pl[c]
    ensures NodeOk(nodes', pl', y)
  {
    assert NodeOk(nodes, pl, y);
    if !nodes[y].isLeaf {
      forall i | -1 <= i < |nodes[y].entries| ensures KidOk(nodes', pl', y, i) { assert KidOk(nodes, pl, y, i); }
    }
  }

  lemma SplitApart(nodes: Nodes, pl: Places, root: Ptr, over: Option<Ptr>, x: Ptr, d: Ptr, sep: Key, a: Ptr, b: Ptr)
    requires Consistent(nodes, pl, root, over) && x in nodes && d !in nodes && pl[x].lo < sep < pl[x].hi
    requires (a in nodes || a == d) && (b in nodes || b == d) && a != b
    ensures Apart(SplitPlaces(pl, x, d, sep), a, b)
  {
    if a in nodes && b in nodes {
      assert Apart(pl, a, b);
    } else if a in nodes && a != x {
      assert Apart(pl, a, x);
    } else if b in nodes && b != x {
      assert Apart(pl, b, x);
    }
  }

  /** The state of the heap once child x of p, at index i, has been split and p has taken the new
  entry (p may now be the one that is too large). */
  function SplitUnder(nodes: Nodes, x: Ptr, d: Ptr, p: Ptr, i: int): Nodes
    requires x in nodes && |nodes[x].entries| == FANOUT + 1 && p in nodes && -1 <= i < |nodes[p].entries|
  {
    var e := Entry(nodes[x].entries[MIDDLE].key, d);
    nodes[x := LeftHalf(nodes[x])][d := RightHalf(nodes[x])][p := WithChild(nodes[p], i, e)]
  }

  /** The children of a node with a new entry after index i, and the keys they are for. */
  lemma WithChildAt(n: BtNode, p: Place, i: int, e: Entry, j: int)
    requires -1 <= i < |n.entries| && -1 <= j <= |n.entries|
    ensures var n', j0 := WithChild(n, i, e), if j <= i then j else j - 1;
            && n'.Child(j) == (if j == i + 1 then e.ptr else n.Child(j0))
            && LowAt(n', p, j) == (if j == i + 1 then e.key else LowAt(n, p, j0))
            && HighAt(n', p, j) == (if j == i then e.key else HighAt(n, p, j0))
  {
  }

  lemma SplitKidOk(nodes: Nodes, pl: Places, root: Ptr, x: Ptr, d: Ptr, p: Ptr, i: int, j: int)
    requires Consistent(nodes, pl, root, Some(x)) && x in nodes && |nodes[x].entries| == FANOUT + 1 && d !in nodes
    requires p in nodes && p != x && !nodes[p].isLeaf && -1 <= i < |nodes[p].entries| && nodes[p].Child(i) == x
    requires -1 <= j <= |nodes[p].entries|
    ensures KidOk(SplitUnder(nodes, x, d, p, i), SplitPlaces(pl, x, d, nodes[x].entries[MIDDLE].key), p, j)
  {
    var n, sep := nodes[p], nodes[x].entries[MIDDLE].key;
    var j0 := if j <= i then j else j - 1;
    assert NodeOk(nodes, pl, p) && KidOk(nodes, pl, p, i) && KidOk(nodes, pl, p, j0);
    OneParent(nodes, pl, root, Some(x), p, j0, p, j0);
    assert j0 != i ==> n.Child(j0) != x by {
      if n.Child(j0) == x { OneParent(nodes, pl, root, Some(x), p, i, p, j0); }
    }
    WithChildAt(n, pl[p], i, Entry(sep, d), j);
  }

  lemma SplitParentOk(nodes: Nodes, pl: Places, root: Ptr, x: Ptr, d: Ptr, p: Ptr, i: int)
    requires Consistent(nodes, pl, root, Some(x)) && x in nodes && |nodes[x].entries| == FANOUT + 1 && d !in nodes
    requires p in nodes && !nodes[p].isLeaf && -1 <= i < |nodes[p].entries| && nodes[p].Child(i) == x
    ensures x != p
    ensures NodeOk(SplitUnder(nodes, x, d, p, i), SplitPlaces(pl, x, d, nodes[x].entries[MIDDLE].key), p)
  {
    var n, sep := nodes[p], nodes[x].entries[MIDDLE].key;
    var nodes', pl' := SplitUnder(nodes, x, d, p, i), SplitPlaces(pl, x, d, sep);
    OneParent(nodes, pl, root, Some(x), p, i, p, i);
    assert NodeOk(nodes, pl, x) && NodeOk(nodes, pl, p) && KidOk(nodes, pl, p, i);
    assert nodes[x].entries[0].key < sep;
    SortedInsert(n.entries, i + 1, Entry(sep, d));
    var es' := nodes'[p].entries;
    assert es'[0] == if i == -1 then Entry(sep, d) else n.entries[0];
    forall k | 0 <= k < |es'| ensures pl[p].lo <= es'[k].key < pl[p].hi
    {
      if k <= i { assert es'[k] == n.entries[k]; } else if k > i + 1 { assert es'[k] == n.entries[k - 1]; }
    }
    forall j | -1 <= j < |es'| ensures KidOk(nodes', pl', p, j)
    {
      SplitKidOk(nodes, pl, root, x, d, p, i, j);
    }
  }

  lemma SplitNodeOk(nodes: Nodes, pl: Places, root: Ptr, x: Ptr, d: Ptr, p: Ptr, i: int, y: Ptr)
    requires Consistent(nodes, pl, root, Some(x)) && x in nodes && |nodes[x].entries| == FANOUT + 1 && d !in nodes
    requires p in nodes && !nodes[p].isLeaf && -1 <= i < |nodes[p].entries| && nodes[p].Child(i) == x
    requires y in nodes || y == d
    ensures x != p
    ensures NodeOk(SplitUnder(nodes, x, d, p, i), SplitPlaces(pl, x, d, nodes[x].entries[MIDDLE].key), y)
  {
    var nodes', pl' := SplitUnder(nodes, x, d, p, i), SplitPlaces(pl, x, d, nodes[x].entries[MIDDLE].key);
    SplitParentOk(nodes, pl, root, x, d, p, i);
    if y == x || y == d {
      var halves := nodes[x := LeftHalf(nodes[x])][d := RightHalf(nodes[x])];
      HalvesOk(nodes, pl, root, x, d, halves);
      HalfFrame(halves, pl', nodes', y);
    } else if y != p {
      forall j | -1 <= j < |nodes[y].entries| && !nodes[y].isLeaf ensures nodes[y].Child(j) != x
      {
        if nodes[y].Child(j) == x { OneParent(nodes, pl, root, Some(x), p, i, y, j); }
      }
      UninvolvedOk(nodes, pl, root, Some(x), y, nodes', pl');
    }
  }

  lemma SplitSizeOk(nodes: Nodes, root: Ptr, x: Ptr, d: Ptr, p: Ptr, i: int, y: Ptr)
    requires x in nodes && |nodes[x].entries| == FANOUT + 1 && d !in nodes && x != p && (y in nodes || y == d)
    requires p in nodes && -1 <= i < |nodes[p].entries| && p != d
    requires SizeOk(nodes, root, Some(x), p) && (y in nodes ==> SizeOk(nodes, root, Some(x), y))
    ensures SizeOk(SplitUnder(nodes, x, d, p, i), root, Some(p), y)
  {
  }

  lemma SplitConsistent(nodes: Nodes, pl: Places, root: Ptr, x: Ptr, d: Ptr, p: Ptr, i: int)
    requires Consistent(nodes, pl, root, Some(x)) && x in nodes && |nodes[x].entries| == FANOUT + 1 && d !in nodes
    requires p in nodes && p != x && !nodes[p].isLeaf && -1 <= i < |nodes[p].entries| && nodes[p].Child(i) == x
             && x != root
    requires pl[x].lo < nodes[x].entries[MIDDLE].key < pl[x].hi
    ensures Consistent(SplitUnder(nodes, x, d, p, i), SplitPlaces(pl, x, d, nodes[x].entries[MIDDLE].key), root,
                       Some(p))
  {
    var sep := nodes[x].entries[MIDDLE].key;
    var nodes', pl' := SplitUnder(nodes, x, d, p, i), SplitPlaces(pl, x, d, sep);
    forall y | y in nodes' ensures NodeOk(nodes', pl', y) { SplitNodeOk(nodes, pl, root, x, d, p, i, y); }
    forall y | y in nodes' ensures SizeOk(nodes', root, Some(p), y)
    {
      assert SizeOk(nodes, root, Some(x), p) && (y in nodes ==> SizeOk(nodes, root, Some(x), y));
      SplitSizeOk(nodes, root, x, d, p, i, y);
    }
    forall a, b | a in nodes' && b in nodes' && a != b ensures Apart(pl', a, b)
    {
      SplitApart(nodes, pl, root, Some(x), x, d, sep, a, b);
    }
  }

  lemma NotOver(nodes: Nodes, pl: Places, root: Ptr, p: Ptr)
    requires Consistent(nodes, pl, root, Some(p)) && p in nodes && |nodes[p].entries| <= FANOUT
    ensures Consistent(nodes, pl, root, None)
  {
    forall y | y in nodes ensures SizeOk(nodes, root, None, y) { assert SizeOk(nodes, root, Some(p), y); }
  }

  /** Splitting a node that is too large leaves a consistent tree in which only its parent may be
  too large, and the same records. */
  lemma SplitChild(nodes: Nodes, pl: Places, root: Ptr, x: Ptr, d: Ptr, p: Ptr, i: int)
    requires Consistent(nodes, pl, root, Some(x)) && x in nodes && |nodes[x].entries| == FANOUT + 1 && d !in nodes
    requires p in nodes && !nodes[p].isLeaf && -1 <= i < |nodes[p].entries| && nodes[p].Child(i) == x
    ensures x != p
    ensures var nodes', pl' := SplitUnder(nodes, x, d, p, i), SplitPlaces(pl, x, d, nodes[x].entries[MIDDLE].key);
            Consistent(nodes', pl', root, Some(p)) && Contents(nodes') == Contents(nodes)
  {
    OneParent(nodes, pl, root, Some(x), p, i, p, i);
    assert NodeOk(nodes, pl, x);
    assert nodes[x].entries[0].key < nodes[x].entries[MIDDLE].key;
    SplitConsistent(nodes, pl, root, x, d, p, i);
    SplitContents(nodes, pl, root, x, d, SplitUnder(nodes, x, d, p, i));
  }

  /** What makes a half good does not depend on its parent's entries. */
  lemma HalfFrame(halves: Nodes, pl: Places, nodes': Nodes, y: Ptr)
    requires y in halves && y in pl && NodeOk(halves, pl, y) && y in nodes' && nodes'[y] == halves[y]
    requires forall c | c in halves :: c in nodes'
    ensures NodeOk(nodes', pl, y)
  {
    if !halves[y].isLeaf {
      forall i | -1 <= i < |halves[y].entries| ensures KidOk(nodes', pl, y, i) { assert KidOk(halves, pl, y, i); }
    }
  }

  /** x is split in two: its entries are in the left half x and the new right half d. */
  ghost predicate SplitInTwo(nodes: Nodes, x: Ptr, d: Ptr, nodes': Nodes) {
    && x in nodes && |nodes[x].entries| == FANOUT + 1 && d !in nodes
    && x in nodes' && nodes'[x] == LeftHalf(nodes[x]) && d in nodes' && nodes'[d] == RightHalf(nodes[x])
    && (forall y | y in nodes && y != x :: y in nodes' && (nodes[y].isLeaf <==> nodes'[y].isLeaf))
    && (forall y | y in nodes && y != x && nodes[y].isLeaf :: nodes'[y] == nodes[y])
    && (forall y | y in nodes' :: y in nodes || y == d || !nodes'[y].isLeaf)
  }

  lemma SplitWasThere(nodes: Nodes, x: Ptr, d: Ptr, nodes': Nodes, y: Ptr, i: nat, k: Key) returns (y0: Ptr, i0: nat)
    requires SplitInTwo(nodes, x, d, nodes') && HasAt(nodes', y, i, k)
    ensures HasAt(nodes, y0, i0, k) && nodes[y0].entries[i0] == nodes'[y].entries[i]
  {
    y0, i0 := if y == d then x else y, if y == d then i + MIDDLE else i;
  }

  lemma SplitIsThere(nodes: Nodes, x: Ptr, d: Ptr, nodes': Nodes, y: Ptr, i: nat, k: Key) returns (y': Ptr, i': nat)
    requires SplitInTwo(nodes, x, d, nodes') && HasAt(nodes, y, i, k)
    ensures HasAt(nodes', y', i', k)
  {
    y', i' := if y == x && i >= MIDDLE then d else y, if y == x && i >= MIDDLE then i - MIDDLE else i;
  }

  lemma SplitContents(nodes: Nodes, pl: Places, root: Ptr, x: Ptr, d: Ptr, nodes': Nodes)
    requires Consistent(nodes, pl, root, Some(x)) && SplitInTwo(nodes, x, d, nodes')
    ensures Contents(nodes') == Contents(nodes)
  {
    var m := Contents(nodes);
    ContentsStored(nodes, pl, root, Some(x));
    forall y: Ptr, i: nat, k: Key | HasAt(nodes', y, i, k) ensures k in m && m[k] == nodes'[y].entries[i].ptr
    {
      var y0, i0 := SplitWasThere(nodes, x, d, nodes', y, i, k);
    }
    forall k | k in m ensures exists y: Ptr, i: nat :: HasAt(nodes', y, i, k)
    {
      var y: Ptr, i: nat :| HasAt(nodes, y, i, k);
      y, i := SplitIsThere(nodes, x, d, nodes', y, i, k);
    }
    StoredIsContents(nodes', m);
  }

  // ---- a new root

  function NewRoot(root: Ptr, e: Entry): BtNode {
    BtNode(false, true, true, root, [e])
  }

  function SplitRoot(nodes: Nodes, root: Ptr, d: Ptr, r: Ptr): Nodes
    requires root in nodes && |nodes[root].entries| == FANOUT + 1
  {
    var e := Entry(nodes[root].entries[MIDDLE].key, d);
    nodes[root := LeftHalf(nodes[root])][d := RightHalf(nodes[root])][r := NewRoot(root, e)]
  }

  function RootPlaces(pl: Places, root: Ptr, d: Ptr, r: Ptr, sep: Key): Places
    requires root in pl
  {
    SplitPlaces(pl, root, d, sep)[r := Place(0, KMAX, pl[root].height + 1)]
  }

  lemma Below(nodes: Nodes, pl: Places, root: Ptr, over: Option<Ptr>, x: Ptr)
    requires Consistent(nodes, pl, root, over) && x in nodes && x != root
    ensures pl[x].height < pl[root].height
  {
    assert NodeOk(nodes, pl, x) && NodeOk(nodes, pl, root) && Apart(pl, x, root);
  }

  lemma RootNodeOk(nodes: Nodes, pl: Places, root: Ptr, d: Ptr, r: Ptr, y: Ptr)
    requires Consistent(nodes, pl, root, Some(root)) && |nodes[root].entries| == FANOUT + 1
    requires d !in nodes && r !in nodes && d != r && (y in nodes || y == d || y == r)
    ensures NodeOk(SplitRoot(nodes, root, d, r), RootPlaces(pl, root, d, r, nodes[root].entries[MIDDLE].key), y)
  {
    var sep := nodes[root].entries[MIDDLE].key;
    var nodes', pl' := SplitRoot(nodes, root, d, r), RootPlaces(pl, root, d, r, sep);
    var halves := nodes[root := LeftHalf(nodes[root])][d := RightHalf(nodes[root])];
    HalvesOk(nodes, pl, root, root, d, halves);
    if y == root || y == d {
      forall i | -1 <= i < |halves[y].entries| && !halves[y].isLeaf ensures KidOk(nodes', pl', y, i)
      {
        assert KidOk(halves, SplitPlaces(pl, root, d, sep), y, i);
      }
    } else if y == r {
      assert nodes'[r].Child(-1) == root && nodes'[r].Child(0) == d;
      assert KidOk(nodes', pl', r, -1) && KidOk(nodes', pl', r, 0);
    } else {
      Below(nodes, pl, root, Some(root), y);
      assert NodeOk(nodes, pl, y);
      forall i | -1 <= i < |nodes[y].entries| && !nodes[y].isLeaf ensures nodes[y].Child(i) != root
      {
        assert KidOk(nodes, pl, y, i);
      }
      UninvolvedOk(nodes, pl, root, Some(root), y, nodes', pl');
    }
  }

  lemma RootConsistent(nodes: Nodes, pl: Places, root: Ptr, d: Ptr, r: Ptr)
    requires Consistent(nodes, pl, root, Some(root)) && |nodes[root].entries| == FANOUT + 1
    requires d !in nodes && r !in nodes && d != r
    requires pl[root].lo < nodes[root].entries[MIDDLE].key < pl[root].hi
    ensures Consistent(SplitRoot(nodes, root, d, r), RootPlaces(pl, root, d, r, nodes[root].entries[MIDDLE].key), r,
                       None)
  {
    var sep := nodes[root].entries[MIDDLE].key;
    var nodes', pl' := SplitRoot(nodes, root, d, r), RootPlaces(pl, root, d, r, sep);
    forall y | y in nodes' ensures NodeOk(nodes', pl', y) { RootNodeOk(nodes, pl, root, d, r, y); }
    forall y | y in nodes' ensures SizeOk(nodes', r, None, y)
    {
      assert y in nodes ==> SizeOk(nodes, root, Some(root), y);
    }
    forall a, b | a in nodes' && b in nodes' && a != b ensures Apart(pl', a, b)
    {
      if a != r && b != r {
        SplitApart(nodes, pl, root, Some(root), root, d, sep, a, b);
        assert Apart(SplitPlaces(pl, root, d, sep), a, b);
      }
    }
  }

  /** Splitting the root puts a new root with two children on top: the tree is one level deeper,
  consistent, and stores the same records. */
  lemma SplitTop(nodes: Nodes, pl: Places, root: Ptr, d: Ptr, r: Ptr)
    requires Consistent(nodes, pl, root, Some(root)) && |nodes[root].entries| == FANOUT + 1
    requires d !in nodes && r !in nodes && d != r
    ensures var nodes' := SplitRoot(nodes, root, d, r);
            var pl' := RootPlaces(pl, root, d, r, nodes[root].entries[MIDDLE].key);
            Consistent(nodes', pl', r, None) && Contents(nodes') == Contents(nodes)
  {
    assert NodeOk(nodes, pl, root);
    assert nodes[root].entries[0].key < nodes[root].entries[MIDDLE].key;
    RootConsistent(nodes, pl, root, d, r);
    SplitContents(nodes, pl, root, root, d, SplitRoot(nodes, root, d, r));
  }
}
