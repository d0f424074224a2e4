/** The shape of the box heap and what each write to it does.

Every box carries a key interval: the root covers all C integers, and a node splits the
interval of its box at its key.  Intervals of two boxes are apart or properly nested, which
makes the heap a search tree without mentioning paths or reachability. */
module BstShape {
  import opened BstProtocol

  const LOW := -0x8000_0001
  const HIGH := 0x8000_0000

  /** The open interval of keys k with lo < k < hi. */
  datatype Interval = Interval(lo: int, hi: int) {
    predicate Has(k: int) { lo < k < hi }
    predicate Within(o: Interval) { o.lo <= lo && hi <= o.hi }
  }

  type Nodes = map<BoxId, Content>
  type Ranges = map<BoxId, Interval>

  predicate Apart(a: Interval, b: Interval) {
    a.hi <= b.lo || b.hi <= a.lo
  }

  /** Box a lies strictly below box b: within the left or the right half of b's interval. */
  predicate Below(nodes: Nodes, rng: Ranges, a: BoxId, b: BoxId)
  {
    && a in rng && b in rng && b in nodes && nodes[b].Node?
    && (rng[a].Within(Interval(rng[b].lo, nodes[b].key)) || rng[a].Within(Interval(nodes[b].key, rng[b].hi)))
  }

  /** The node in box b has its key inside b's interval and children covering the two halves. */
  ghost predicate Splits(nodes: Nodes, rng: Ranges, b: BoxId)
    requires b in nodes && b in rng
  {
    nodes[b].Node? ==>
      var n := nodes[b];
      && rng[b].Has(n.key)
      && n.left in nodes && n.left in rng && rng[n.left] == Interval(rng[b].lo, n.key)
      && n.right in nodes && n.right in rng && rng[n.right] == Interval(n.key, rng[b].hi)
  }

  ghost predicate Laminar(nodes: Nodes, rng: Ranges, a: BoxId, b: BoxId)
    requires a in rng && b in rng
  {
    Apart(rng[a], rng[b]) || Below(nodes, rng, a, b) || Below(nodes, rng, b, a)
  }

  ghost predicate Shape(nodes: Nodes, root: BoxId, rng: Ranges)
  {
    && nodes.Keys == rng.Keys
    && root in nodes && rng[root] == Interval(LOW, HIGH)
    && (forall b | b in nodes :: LOW <= rng[b].lo < rng[b].hi <= HIGH)
    && (forall b {:trigger Splits(nodes, rng, b)} | b in nodes :: Splits(nodes, rng, b))
    && (forall a, b {:trigger Laminar(nodes, rng, a, b)} | a in nodes && b in nodes && a != b ::
        Laminar(nodes, rng, a, b))
  }

  /** Box b holds a binding for key k. */
  predicate Binds(nodes: Nodes, b: BoxId, k: Key) {
    b in nodes && nodes[b].Node? && nodes[b].key == k
  }

  ghost function KeysOf(nodes: Nodes): set<Key> {
    set b | b in nodes && nodes[b].Node? :: nodes[b].key
  }

  ghost function ValueOf(nodes: Nodes, k: Key): Ptr
    requires k in KeysOf(nodes)
  {
    assert exists b :: Binds(nodes, b, k) by {
      var b :| b in nodes && nodes[b].Node? && nodes[b].key == k;
      assert Binds(nodes, b, k);
    }
    var b :| Binds(nodes, b, k);
    nodes[b].value
  }

  /** The abstract map a heap stores. */
  ghost function Contents(nodes: Nodes): map<Key, Ptr> {
    map k | k in KeysOf(nodes) :: ValueOf(nodes, k)
  }

  /** m is the map the heap stores, read box by box. */
  ghost predicate Stores(nodes: Nodes, m: map<Key, Ptr>) {
    && (forall b | b in nodes && nodes[b].Node? :: nodes[b].key in m && m[nodes[b].key] == nodes[b].value)
    && (forall k | k in m :: exists b :: Binds(nodes, b, k))
  }

  /** A key is bound by one box only. */
  lemma OneBox(nodes: Nodes, root: BoxId, rng: Ranges, a: BoxId, b: BoxId, k: Key)
    requires Shape(nodes, root, rng) && Binds(nodes, a, k) && Binds(nodes, b, k)
    ensures a == b
  {
    assert Splits(nodes, rng, a) && Splits(nodes, rng, b);
    assert a != b ==> Laminar(nodes, rng, a, b);
  }

  lemma ContentsStored(nodes: Nodes, root: BoxId, rng: Ranges)
    requires Shape(nodes, root, rng)
    ensures Stores(nodes, Contents(nodes))
  {
    var m := Contents(nodes);
    forall b | b in nodes && nodes[b].Node?
      ensures nodes[b].key in m && m[nodes[b].key] == nodes[b].value
    {
      var k := nodes[b].key;
      assert Binds(nodes, b, k);
      var c :| Binds(nodes, c, k) && ValueOf(nodes, k) == nodes[c].value;
      OneBox(nodes, root, rng, b, c, k);
    }
    forall k | k in m ensures exists b :: Binds(nodes, b, k)
    {
      var b :| b in nodes && nodes[b].Node? && nodes[b].key == k;
      assert Binds(nodes, b, k);
    }
  }

  lemma StoredIsContents(nodes: Nodes, m: map<Key, Ptr>)
    requires Stores(nodes, m)
    ensures Contents(nodes) == m
  {
  }

  /** A search that ends in an empty box has proved the key absent. */
  lemma AbsentAtNull(nodes: Nodes, root: BoxId, rng: Ranges, b: BoxId, x: Key)
    requires Shape(nodes, root, rng) && b in nodes && nodes[b].Null? && rng[b].Has(x)
    ensures x !in Contents(nodes)
  {
    forall a ensures !Binds(nodes, a, x) {
      assert Binds(nodes, a, x) ==> Splits(nodes, rng, a) && Laminar(nodes, rng, a, b);
    }
    ContentsStored(nodes, root, rng);
  }

  lemma PresentAt(nodes: Nodes, root: BoxId, rng: Ranges, b: BoxId)
    requires Shape(nodes, root, rng) && b in nodes && nodes[b].Node?
    ensures nodes[b].key in Contents(nodes) && Contents(nodes)[nodes[b].key] == nodes[b].value
  {
    ContentsStored(nodes, root, rng);
  }

  predicate IsChild(nodes: Nodes, c: BoxId, p: BoxId) {
    p in nodes && nodes[p].Node? && (nodes[p].left == c || nodes[p].right == c)
  }

  /** The root is nobody's child; a box has one parent; the two children differ. */
  lemma OneParent(nodes: Nodes, root: BoxId, rng: Ranges, c: BoxId, p: BoxId, p': BoxId)
    requires Shape(nodes, root, rng) && IsChild(nodes, c, p) && IsChild(nodes, c, p')
    ensures p == p' && c != root && c != p && nodes[p].left != nodes[p].right && Below(nodes, rng, c, p)
  {
    assert Splits(nodes, rng, p) && Splits(nodes, rng, p');
    assert p != p' ==> Laminar(nodes, rng, p, p');
  }

  // ---- filling an empty box

  function FilledRanges(rng: Ranges, b: BoxId, x: Key, l: BoxId, r: BoxId): Ranges
    requires b in rng
  {
    rng[l := Interval(rng[b].lo, x)][r := Interval(x, rng[b].hi)]
  }

  lemma FillShape(nodes: Nodes, root: BoxId, rng: Ranges, b: BoxId, x: Key, v: Ptr, l: BoxId, r: BoxId, nodes': Nodes,
                  rng': Ranges)
    requires Shape(nodes, root, rng) && b in nodes && nodes[b].Null? && rng[b].Has(x)
    requires l !in nodes && r !in nodes && l != r
    requires nodes' == nodes[l := Null][r := Null][b := Node(x, v, l, r)] && rng' == FilledRanges(rng, b, x, l, r)
    ensures Shape(nodes', root, rng')
    ensures forall a, c :: Below(nodes', rng', a, c) ==> Below(nodes, rng, a, c) || a == l || a == r || c == b
  {
    forall c | c in nodes' ensures Splits(nodes', rng', c) {
      if c in nodes { assert Splits(nodes, rng, c); }
    }
    forall a, c | a in nodes' && c in nodes' && a != c ensures Laminar(nodes', rng', a, c)
    {
      FillLaminar(nodes, root, rng, b, x, v, l, r, a, c);
    }
  }

  lemma FillLaminar(nodes: Nodes, root: BoxId, rng: Ranges, b: BoxId, x: Key, v: Ptr, l: BoxId, r: BoxId, a: BoxId,
                    c: BoxId)
    requires Shape(nodes, root, rng) && b in nodes && nodes[b].Null? && rng[b].Has(x)
    requires l !in nodes && r !in nodes && l != r && a != c
    requires (a in nodes || a == l || a == r) && (c in nodes || c == l || c == r)
    ensures Laminar(nodes[l := Null][r := Null][b := Node(x, v, l, r)], FilledRanges(rng, b, x, l, r), a, c)
  {
    if a in nodes && c in nodes {
      assert Laminar(nodes, rng, a, c);
    } else if a in nodes && a != b {
      assert Splits(nodes, rng, a) && Laminar(nodes, rng, a, b);
    } else if c in nodes && c != b {
      assert Splits(nodes, rng, c) && Laminar(nodes, rng, c, b);
    }
  }

  lemma FillContents(nodes: Nodes, root: BoxId, rng: Ranges, b: BoxId, x: Key, v: Ptr, l: BoxId, r: BoxId,
                     nodes': Nodes)
    requires Shape(nodes, root, rng) && b in nodes && nodes[b].Null? && rng[b].Has(x)
    requires l !in nodes && r !in nodes && l != r
    requires nodes' == nodes[l := Null][r := Null][b := Node(x, v, l, r)]
    ensures Contents(nodes') == Contents(nodes)[x := v]
  {
    var m := Contents(nodes);
    ContentsStored(nodes, root, rng);
    AbsentAtNull(nodes, root, rng, b, x);
    var m' := m[x := v];
    forall k | k in m' ensures exists c :: Binds(nodes', c, k)
    {
      if k == x {
        assert Binds(nodes', b, k);
      } else {
        var c :| Binds(nodes, c, k);
        assert Binds(nodes', c, k);
      }
    }
    StoredIsContents(nodes', m');
  }

  // ---- overwriting a value

  lemma WriteShape(nodes: Nodes, root: BoxId, rng: Ranges, b: BoxId, v: Ptr, nodes': Nodes)
    requires Shape(nodes, root, rng) && b in nodes && nodes[b].Node?
    requires nodes' == nodes[b := nodes[b].(value := v)]
    ensures Shape(nodes', root, rng)
    ensures forall a, c :: Below(nodes', rng, a, c) ==> Below(nodes, rng, a, c)
  {
    forall c | c in nodes' ensures Splits(nodes', rng, c) { assert Splits(nodes, rng, c); }
    forall a, c | a in nodes' && c in nodes' && a != c
      ensures Laminar(nodes', rng, a, c) { assert Laminar(nodes, rng, a, c); }
  }

  lemma WriteContents(nodes: Nodes, root: BoxId, rng: Ranges, b: BoxId, v: Ptr, nodes': Nodes)
    requires Shape(nodes, root, rng) && b in nodes && nodes[b].Node?
    requires nodes' == nodes[b := nodes[b].(value := v)]
    ensures Contents(nodes') == Contents(nodes)[nodes[b].key := v]
  {
    ContentsStored(nodes, root, rng);
    var k0 := nodes[b].key;
    assert Binds(nodes, b, k0);
    var m := Contents(nodes)[k0 := v];
    forall c | c in nodes' && nodes'[c].Node? ensures nodes'[c].key in m && m[nodes'[c].key] == nodes'[c].value
    {
      if c != b && nodes[c].key == k0 {
        OneBox(nodes, root, rng, b, c, k0);
      }
    }
    forall k | k in m ensures exists c :: Binds(nodes', c, k)
    {
      var c :| Binds(nodes, c, k);
      assert Binds(nodes', c, k);
    }
    StoredIsContents(nodes', m);
  }

  // ---- the left rotation

  function TurnedRanges(nodes: Nodes, rng: Ranges, p: BoxId, q: BoxId): Ranges
    requires p in rng && q in nodes && nodes[q].Node?
  {
    rng[q := Interval(rng[p].lo, nodes[q].key)]
  }

  lemma TurnShape(nodes: Nodes, root: BoxId, rng: Ranges, p: BoxId, q: BoxId, nodes': Nodes, rng': Ranges)
    requires Shape(nodes, root, rng) && p in nodes && nodes[p].Node? && nodes[p].right == q && q in nodes
             && nodes[q].Node?
    requires nodes' == Turned(nodes, p, q) && rng' == TurnedRanges(nodes, rng, p, q)
    ensures Shape(nodes', root, rng')
    ensures forall a, c :: Below(nodes', rng', a, c) && c != q ==> Below(nodes, rng, a, c)
    ensures forall a :: Below(nodes', rng', a, q) ==> Below(nodes, rng, a, p) && a != q
  {
    assert Splits(nodes, rng, p) && Splits(nodes, rng, q);
    OneParent(nodes, root, rng, q, p, p);
    var pl, mid, qr := nodes[p].left, nodes[q].left, nodes[q].right;
    OneParent(nodes, root, rng, pl, p, p);
    OneParent(nodes, root, rng, mid, q, q);
    OneParent(nodes, root, rng, qr, q, q);
    forall c | c in nodes' ensures Splits(nodes', rng', c) {
      assert Splits(nodes, rng, c);
      if c != p && IsChild(nodes, q, c) { OneParent(nodes, root, rng, q, p, c); }
    }
    forall a, c | a in nodes' && c in nodes' && a != c ensures Laminar(nodes', rng', a, c)
    {
      TurnLaminar(nodes, root, rng, p, q, a, c);
    }
    forall a, c | Below(nodes', rng', a, c) && c != q ensures Below(nodes, rng, a, c)
    {
      assert Splits(nodes, rng, a) && Splits(nodes, rng, c);
      if a != c {
        assert Laminar(nodes, rng, a, c);
        if a != p { assert Laminar(nodes, rng, a, p); }
        if a != q { assert Laminar(nodes, rng, a, q); }
        if c != p { assert Laminar(nodes, rng, c, p); }
        assert Laminar(nodes, rng, c, q);
      }
    }
    forall a | Below(nodes', rng', a, q) ensures Below(nodes, rng, a, p) && a != q
    {
      if a != q { assert Laminar(nodes, rng, a, q); }
      if a != p { assert Laminar(nodes, rng, a, p); }
    }
  }

  lemma TurnLaminar(nodes: Nodes, root: BoxId, rng: Ranges, p: BoxId, q: BoxId, a: BoxId, c: BoxId)
    requires Shape(nodes, root, rng) && p in nodes && nodes[p].Node? && nodes[p].right == q && q in nodes
             && nodes[q].Node?
    requires a in nodes && c in nodes && a != c && p != q
    ensures Laminar(Turned(nodes, p, q), TurnedRanges(nodes, rng, p, q), a, c)
  {
    assert Splits(nodes, rng, p) && Splits(nodes, rng, q) && Splits(nodes, rng, a) && Splits(nodes, rng, c);
    assert Laminar(nodes, rng, a, c);
    if a != p { assert Laminar(nodes, rng, a, p); }
    if a != q { assert Laminar(nodes, rng, a, q); }
    if c != p { assert Laminar(nodes, rng, c, p); }
    if c != q { assert Laminar(nodes, rng, c, q); }
  }

  lemma TurnContents(nodes: Nodes, root: BoxId, rng: Ranges, p: BoxId, q: BoxId)
    requires Shape(nodes, root, rng) && p in nodes && nodes[p].Node? && nodes[p].right == q && q in nodes
             && nodes[q].Node?
    ensures Contents(Turned(nodes, p, q)) == Contents(nodes)
  {
    var nodes', m := Turned(nodes, p, q), Contents(nodes);
    ContentsStored(nodes, root, rng);
    OneParent(nodes, root, rng, q, p, p);
    forall k | k in m ensures exists c :: Binds(nodes', c, k)
    {
      var c :| Binds(nodes, c, k);
      assert Binds(nodes', if c == p then q else if c == q then p else c, k);
    }
    StoredIsContents(nodes', m);
  }

  // ---- the final splice

  function SplicedRanges(nodes: Nodes, rng: Ranges, p: BoxId, q: BoxId, l: BoxId): Ranges
    requires p in rng && p in nodes && nodes[p].Node?
  {
    map b | b in rng && b != q && b != l ::
      Interval(rng[b].lo, if rng[b].hi == nodes[p].key then rng[p].hi else rng[b].hi)
  }

  /** What pushdown_left has established when it splices: the doomed node is in p, its right box
  q is empty and l is its left box. */
  predicate Doomed(nodes: Nodes, p: BoxId, q: BoxId, l: BoxId) {
    && p in nodes && nodes[p].Node? && nodes[p].right == q && nodes[p].left == l
    && q in nodes && nodes[q].Null?
  }

  /** How a box other than q and l lies with respect to the doomed one. */
  lemma SpliceWhere(nodes: Nodes, root: BoxId, rng: Ranges, p: BoxId, q: BoxId, l: BoxId, a: BoxId)
    requires Shape(nodes, root, rng) && Doomed(nodes, p, q, l) && l in nodes
    requires a in nodes && a != p && a != q && a != l
    ensures rng[a].lo != nodes[p].key
    ensures rng[a].hi == nodes[p].key ==> Below(nodes, rng, a, l) && rng[p].lo < rng[a].lo
    ensures Below(nodes, rng, a, p) ==> Below(nodes, rng, a, l)
    ensures nodes[a].Node? ==> nodes[a].key != nodes[p].key
  {
    assert Splits(nodes, rng, p) && Splits(nodes, rng, a);
    assert Laminar(nodes, rng, a, p) && Laminar(nodes, rng, a, q) && Laminar(nodes, rng, a, l);
    if nodes[l].Node? { assert Splits(nodes, rng, l); }
  }

  lemma SpliceShape(nodes: Nodes, root: BoxId, rng: Ranges, p: BoxId, q: BoxId, l: BoxId, nodes': Nodes, rng': Ranges)
    requires Shape(nodes, root, rng) && Doomed(nodes, p, q, l) && l in nodes
    requires nodes' == Spliced(nodes, p, q, l) && rng' == SplicedRanges(nodes, rng, p, q, l)
    ensures Shape(nodes', root, rng')
    ensures forall a, c :: Below(nodes', rng', a, c) && c != p ==> Below(nodes, rng, a, c)
    ensures forall a | a in nodes' :: rng[a].Within(rng'[a])
  {
    OneParent(nodes, root, rng, q, p, p);
    OneParent(nodes, root, rng, l, p, p);
    assert Splits(nodes, rng, p) && Splits(nodes, rng, l);
    forall c | c in nodes' ensures Splits(nodes', rng', c)
    {
      assert Splits(nodes, rng, c);
      if c != p {
        SpliceWhere(nodes, root, rng, p, q, l, c);
        if IsChild(nodes, q, c) { OneParent(nodes, root, rng, q, p, c); }
        if IsChild(nodes, l, c) { OneParent(nodes, root, rng, l, p, c); }
      } else {
        if IsChild(nodes, q, l) { OneParent(nodes, root, rng, q, p, l); }
        if IsChild(nodes, l, l) { OneParent(nodes, root, rng, l, p, l); }
      }
    }
    forall a, c | a in nodes' && c in nodes' && a != c ensures Laminar(nodes', rng', a, c)
    {
      SpliceLaminar(nodes, root, rng, p, q, l, a, c);
    }
    forall a, c | Below(nodes', rng', a, c) && c != p ensures Below(nodes, rng, a, c)
    {
      SpliceBelow(nodes, root, rng, p, q, l, a, c);
    }
    forall a | a in nodes' ensures rng[a].Within(rng'[a])
    {
      if a != p { SpliceWhere(nodes, root, rng, p, q, l, a); }
    }
  }

  lemma SpliceBelow(nodes: Nodes, root: BoxId, rng: Ranges, p: BoxId, q: BoxId, l: BoxId, a: BoxId, c: BoxId)
    requires Shape(nodes, root, rng) && Doomed(nodes, p, q, l) && l in nodes && c != p
    requires Below(Spliced(nodes, p, q, l), SplicedRanges(nodes, rng, p, q, l), a, c)
    ensures Below(nodes, rng, a, c)
  {
    assert Splits(nodes, rng, p) && Splits(nodes, rng, c) && Splits(nodes, rng, l) && Splits(nodes, rng, a);
    SpliceWhere(nodes, root, rng, p, q, l, c);
    assert Laminar(nodes, rng, c, p);
    if a != p {
      SpliceWhere(nodes, root, rng, p, q, l, a);
      assert Laminar(nodes, rng, a, p);
    }
    if a != c { assert Laminar(nodes, rng, a, c); }
  }

  lemma SpliceLaminar(nodes: Nodes, root: BoxId, rng: Ranges, p: BoxId, q: BoxId, l: BoxId, a: BoxId, c: BoxId)
    requires Shape(nodes, root, rng) && Doomed(nodes, p, q, l) && l in nodes
    requires a in nodes && a != q && a != l && c in nodes && c != q && c != l && a != c
    ensures Laminar(Spliced(nodes, p, q, l), SplicedRanges(nodes, rng, p, q, l), a, c)
  {
    assert Splits(nodes, rng, p) && Splits(nodes, rng, a) && Splits(nodes, rng, c) && Splits(nodes, rng, l);
    assert Laminar(nodes, rng, a, c);
    if a != p { SpliceWhere(nodes, root, rng, p, q, l, a); assert Laminar(nodes, rng, a, p); }
    if c != p { SpliceWhere(nodes, root, rng, p, q, l, c); assert Laminar(nodes, rng, c, p); }
  }

  lemma SpliceContents(nodes: Nodes, root: BoxId, rng: Ranges, p: BoxId, q: BoxId, l: BoxId)
    requires Shape(nodes, root, rng) && Doomed(nodes, p, q, l) && l in nodes
    ensures Contents(Spliced(nodes, p, q, l)) == Contents(nodes) - {nodes[p].key}
  {
    var nodes', m := Spliced(nodes, p, q, l), Contents(nodes) - {nodes[p].key};
    ContentsStored(nodes, root, rng);
    OneParent(nodes, root, rng, l, p, p);
    forall c | c in nodes' && nodes'[c].Node? ensures nodes'[c].key in m && m[nodes'[c].key] == nodes'[c].value
    {
      var k := nodes'[c].key;
      var c0 := if c == p then l else c;
      if k == nodes[p].key { OneBox(nodes, root, rng, c0, p, k); }
    }
    forall k | k in m ensures exists c :: Binds(nodes', c, k)
    {
      var c :| Binds(nodes, c, k);
      assert Binds(nodes', if c == l then p else c, k);
    }
    StoredIsContents(nodes', m);
  }
}
