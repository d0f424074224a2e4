/** KV_Put and KV_Get of kvstore.c.  KV_Put loses a key when two of them meet in one border node, and
the border nodes of bordernode.c have no slot for the empty key, which ends the program. */
module TrieKv {
  import opened Wrappers
  import opened Sets
  import opened TrieSlice
  import opened TrieStore

  /** Two keys agree slice by slice until one of them ends within a slice. */
  predicate ShortMeeting(a: Key, b: Key) {
    Slice(a) == Slice(b) && (|a| <= KEYSLICE_LENGTH || |b| <= KEYSLICE_LENGTH || ShortMeeting(Rest(a), Rest(b)))
  }

  /** What the layers that KV_Put builds for two conflicting keys give for a key: when the keys
  share a last border node, the second value is stored under the first key. */
  ghost function KvPairFind(k: Key, key: Key, sndKey: Key, value: Value, sndValue: Value): Option<Value> {
    if ShortMeeting(key, sndKey) then (if k == key then Some(sndValue) else None)
    else PairFind(k, key, sndKey, value, sndValue)
  }

  /** The end of the slice in which a string of length n ends. */
  function SliceEnd(n: nat): nat {
    if n <= KEYSLICE_LENGTH then KEYSLICE_LENGTH else KEYSLICE_LENGTH + SliceEnd(n - KEYSLICE_LENGTH)
  }

  /** Padded with zeroes, the keys agree up to the end of the slice in which the shorter one ends. */
  predicate SamePadded(a: Key, b: Key) {
    SameBytes(a, b, SliceEnd(if |a| <= |b| then |a| else |b|))
  }

  lemma {:induction false} MeetingIsPadding(a: Key, b: Key)
    ensures ShortMeeting(a, b) <==> SamePadded(a, b)
  {
    PackCompare(a, b, KEYSLICE_LENGTH);
    if |a| > KEYSLICE_LENGTH && |b| > KEYSLICE_LENGTH {
      MeetingIsPadding(Rest(a), Rest(b));
      var e := SliceEnd(if |a| <= |b| then |Rest(a)| else |Rest(b)|);
      SameBytesRest(a, b, e);
    }
  }

  lemma SameBytesRest(a: Key, b: Key, n: nat)
    requires |a| > KEYSLICE_LENGTH && |b| > KEYSLICE_LENGTH
    ensures SameBytes(a, b, KEYSLICE_LENGTH + n) <==> SameBytes(a, b, KEYSLICE_LENGTH) && SameBytes(Rest(a), Rest(b), n)
  {
    forall i | 0 <= i < n
      ensures ByteAt(Rest(a), i) == ByteAt(a, i + KEYSLICE_LENGTH)
              && ByteAt(Rest(b), i) == ByteAt(b, i + KEYSLICE_LENGTH)
    {
    }
    if SameBytes(a, b, KEYSLICE_LENGTH) && SameBytes(Rest(a), Rest(b), n) {
      forall i | KEYSLICE_LENGTH <= i < KEYSLICE_LENGTH + n ensures ByteAt(a, i) == ByteAt(b, i)
      {
        assert ByteAt(Rest(a), i - KEYSLICE_LENGTH) == ByteAt(Rest(b), i - KEYSLICE_LENGTH);
      }
    }
  }

  /** The two keys end up stored as they should exactly when they do not meet in one border node,
  that is, unless zeroes at the end of the shorter one's last slice are all that tells them apart
  there. */
  lemma KvPairExact(key: Key, sndKey: Key, value: Value, sndValue: Value)
    requires key != sndKey
    ensures (forall k: Key :: KvPairFind(k, key, sndKey, value, sndValue) == PairFind(k, key, sndKey, value, sndValue))
            <==> !SamePadded(key, sndKey)
  {
    MeetingIsPadding(key, sndKey);
    assert PairFind(sndKey, key, sndKey, value, sndValue) == Some(sndValue);
    if ShortMeeting(key, sndKey) {
      assert KvPairFind(sndKey, key, sndKey, value, sndValue) == None;
    }
  }

  /** A short key and the same key followed by a zero byte meet. */
  lemma ZeroMeets(key: Key)
    requires |key| < KEYSLICE_LENGTH
    ensures key + [0] != key && ShortMeeting(key, key + [0])
  {
    assert |key + [0]| == |key| + 1;
    assert SameBytes(key, key + [0], KEYSLICE_LENGTH);
    PackCompare(key, key + [0], KEYSLICE_LENGTH);
  }

  /** BN_SetPrefixValue of bordernode.c: there is no slot for length 0, which ends the program. */
  method BnSetPrefixValue(node: BorderNode, i: nat, val: Value) returns (ok: bool)
    requires node.Valid() && i <= KEYSLICE_LENGTH
    modifies node, node.prefixLinks
    ensures node.Valid() && node.Repr == old(node.Repr) && (ok <==> i > 0) && (ok ==> i in node.prefixFlags)
    ensures forall k: Key :: node.Find(k) == if ok && |k| == i then Some(val) else old(node.Find(k))
  {
    ok := i > 0;
    if ok {
      node.SetPrefixValue(i, val);
    }
  }

  /** BN_GetPrefixValue of bordernode.c, in the same way. */
  method BnGetPrefixValue(node: BorderNode, i: nat) returns (ok: bool, val: Value)
    requires node.Valid() && i <= KEYSLICE_LENGTH
    ensures ok <==> i > 0
    ensures ok ==> forall k: Key | |k| == i :: val == OrNull(node.Find(k))
  {
    ok, val := i > 0, NULL;
    if ok {
      var used;
      used, val := node.GetPrefixValue(i);
    }
  }

  /** BN_SetValue of bordernode.c. */
  method BnSetValue(node: BorderNode, key: Key, val: Value) returns (ok: bool)
    requires node.Valid()
    modifies node, node.prefixLinks
    ensures node.Valid() && node.Repr == old(node.Repr) && (ok <==> key != []) && (ok ==> HeldHere(node, key))
    ensures |key| > KEYSLICE_LENGTH ==> node.keySuffix == Some(Rest(key))
    ensures ok ==> forall k: Key :: node.Find(k) ==
                     if |key| > KEYSLICE_LENGTH && |k| > KEYSLICE_LENGTH then
                       if Rest(k) == Rest(key) then Some(val) else None
                     else if |k| == |key| then Some(val) else old(node.Find(k))
  {
    if |key| > KEYSLICE_LENGTH {
      node.SetSuffixValue(Rest(key), val);
      ok := true;
    } else {
      ok := BnSetPrefixValue(node, |key|, val);
    }
  }

  /** A new border node with one key. */
  method KvNodeOf(key: Key, value: Value) returns (ok: bool, node: BorderNode)
    ensures node.Valid() && fresh(node.Repr) && (ok <==> key != []) && (ok ==> HeldHere(node, key))
    ensures ok ==> forall k: Key | Slice(k) == Slice(key) :: node.Find(k) == if k == key then Some(value) else None
    ensures |key| > KEYSLICE_LENGTH ==> node.keySuffix == Some(Rest(key))
  {
    node := new BorderNode();
    ok := BnSetValue(node, key, value);
    SlicesTell(key);
  }

  /** The iterations of KV_Put that have a second key: the current node is a new, empty layer. What is
  left of the keys at this point is not empty. */
  method KvPair(key: Key, sndKey: Key, value: Value, sndValue: Value) returns (layer: Layer, left: Key)
    requires key != [] && sndKey != []
    ensures layer.Valid() && fresh(layer.Repr) && CutOff(key, left) && EndsAt(layer, key, left)
    ensures forall k: Key :: layer.Find(k) == KvPairFind(k, key, sndKey, value, sndValue)
    decreases |key|, 2
  {
    var nextKeySlice := GetNextKeySlice(key);
    var sndKeySlice := GetNextKeySlice(sndKey);
    if nextKeySlice == sndKeySlice {
      var borderNode;
      borderNode, left := KvPairNode(key, sndKey, value, sndValue);
      layer := new Layer();
      layer.InsertNode(nextKeySlice, borderNode);
    } else {
      layer := KvPairLayer(key, sndKey, value, sndValue);
      left := key;
    }
  }

  /** Case 0.0 of KV_Put: the slices are the same. */
  method KvPairNode(key: Key, sndKey: Key, value: Value, sndValue: Value) returns (borderNode: BorderNode, left: Key)
    requires key != [] && sndKey != [] && Slice(key) == Slice(sndKey)
    ensures borderNode.Valid() && fresh(borderNode.Repr) && CutOff(key, left) && NodeEndsAt(borderNode, key, left)
    ensures forall k: Key | Slice(k) == Slice(key) :: borderNode.Find(k) == KvPairFind(k, key, sndKey, value, sndValue)
    decreases |key|, 1
  {
    borderNode := new BorderNode();
    if |key| <= KEYSLICE_LENGTH || |sndKey| <= KEYSLICE_LENGTH {
      var ok := BnSetValue(borderNode, key, value);
      ok := BnSetValue(borderNode, key, sndValue);
      assert ok;
      left := key;
    } else {
      var link;
      link, left := KvPair(Rest(key), Rest(sndKey), value, sndValue);
      borderNode.SetLink(link);
    }
    SlicesTell(key);
    SlicesTell(sndKey);
  }

  /** Case 0.1 of KV_Put: the slices differ. */
  method KvPairLayer(key: Key, sndKey: Key, value: Value, sndValue: Value) returns (layer: Layer)
    requires key != [] && sndKey != [] && Slice(key) != Slice(sndKey)
    ensures layer.Valid() && fresh(layer.Repr) && EndsAt(layer, key, key) && EndsAt(layer, sndKey, sndKey)
    ensures forall k: Key :: layer.Find(k) == PairFind(k, key, sndKey, value, sndValue)
  {
    layer := KvLayerOf(key, value);
    var ok, borderNode := KvNodeOf(sndKey, sndValue);
    assert ok;
    layer.InsertNode(Slice(sndKey), borderNode);
  }

  method KvLayerOf(key: Key, value: Value) returns (layer: Layer)
    requires key != []
    ensures layer.Valid() && fresh(layer.Repr) && layer.index.Keys == {Slice(key)} && EndsAt(layer, key, key)
    ensures forall k: Key :: layer.Find(k) == if k == key then Some(value) else None
  {
    var ok, borderNode := KvNodeOf(key, value);
    assert ok;
    layer := new Layer();
    layer.InsertNode(Slice(key), borderNode);
  }

  /** What KV_Put leaves of the caller's key: it cuts a slice off for each layer it goes down. */
  predicate CutOff(key: Key, left: Key)
    ensures CutOff(key, left) ==> |left| <= |key|
  {
    left == key || (|key| > KEYSLICE_LENGTH && CutOff(Rest(key), left))
  }

  /** A slice is cut off only if more of the key follows, so what is left of a key is never empty. */
  lemma {:induction false} NeverEmpty(key: Key, left: Key) returns (layers: nat)
    requires key != [] && CutOff(key, left)
    ensures layers * KEYSLICE_LENGTH < |key| && left == key[layers * KEYSLICE_LENGTH..]
  {
    layers := 0;
    if left != key {
      var below := NeverEmpty(Rest(key), left);
      layers := 1 + below;
    }
  }

  /** The node has what is stored under the key in a slot or as its suffix, not behind a link. */
  ghost predicate HeldHere(node: BorderNode, key: Key)
    reads node
  {
    if |key| <= KEYSLICE_LENGTH then |key| in node.prefixFlags else node.keySuffix == Some(Rest(key))
  }

  /** Following the links for the slices that come before `left` ends in a layer whose border node for
  the next slice has what is stored under the key. */
  ghost predicate EndsAt(layer: Layer, key: Key, left: Key)
    requires layer.Valid()
    reads layer.Repr
    decreases |key|, 1
  {
    Slice(key) in layer.index && NodeEndsAt(layer.index[Slice(key)], key, left)
  }

  ghost predicate NodeEndsAt(node: BorderNode, key: Key, left: Key)
    requires node.Valid()
    reads node.Repr
    decreases |key|, 0
  {
    if left == key then HeldHere(node, key)
    else |key| > KEYSLICE_LENGTH && node.suffixLink.Link? && EndsAt(node.suffixLink.layer, Rest(key), left)
  }

  /** This tells what is left of the key: a remainder at the end of a slice, and just one. */
  lemma {:induction false} OneEnd(layer: Layer, key: Key, left: Key, left': Key)
    requires layer.Valid() && EndsAt(layer, key, left) && EndsAt(layer, key, left')
    ensures left == left' && CutOff(key, left)
    decreases |key|
  {
    var node := layer.index[Slice(key)];
    if left != key && left' != key { OneEnd(node.suffixLink.layer, Rest(key), left, left'); }
    if left == key || left' == key { assert left == left'; }
  }

  /** KV_Put goes down a layer with the key from this node. */
  ghost predicate NodeGoesDown(node: BorderNode, key: Key)
    reads node
  {
    && |key| > KEYSLICE_LENGTH
    && if node.keySuffix.Some? then node.keySuffix.value != Rest(key) else node.suffixLink.Link?
  }

  ghost predicate GoesDown(layer: Layer, key: Key)
    requires layer.Valid()
    reads layer.Repr
  {
    Slice(key) in layer.index && NodeGoesDown(layer.index[Slice(key)], key)
  }

  /** The key is on its way to a border node whose suffix it meets within a slice. This can be told
  before the call, by following the key down the trie. */
  ghost predicate NodeClash(node: BorderNode, key: Key)
    requires node.Valid()
    reads node.Repr
    decreases |key|, 0
  {
    && |key| > KEYSLICE_LENGTH
    && if node.keySuffix.Some? then node.keySuffix.value != Rest(key) && ShortMeeting(Rest(key), node.keySuffix.value)
       else node.suffixLink.Link? && Clash(node.suffixLink.layer, Rest(key))
  }

  ghost predicate Clash(layer: Layer, key: Key)
    requires layer.Valid()
    reads layer.Repr
    decreases |key|, 1
  {
    Slice(key) in layer.index && NodeClash(layer.index[Slice(key)], key)
  }

  /** A key with the slice of another one and a given remainder. */
  lemma WithRest(key: Key, rest: Key) returns (k: Key)
    requires |key| > KEYSLICE_LENGTH && |rest| > 0
    ensures Slice(k) == Slice(key) && |k| > KEYSLICE_LENGTH && Rest(k) == rest
  {
    k := key[..KEYSLICE_LENGTH] + rest;
    PackCompare(k, key, KEYSLICE_LENGTH);
  }

  /** What a put on a clash does instead of the map update: the lost key is no longer there, and the
  new key has the lost one's value. */
  ghost function Swapped(found: Option<Value>, k: Key, key: Key, lost: Key, lostValue: Option<Value>): Option<Value> {
    if k == key then lostValue else if k == lost then None else found
  }

  /** What a key has after a put: the map update, or that. */
  ghost function Effect(found: Option<Value>, k: Key, key: Key, value: Value,
                        clash: bool, lost: Key, lostValue: Option<Value>): Option<Value> {
    if clash then Swapped(found, k, key, lost, lostValue) else if k == key then Some(value) else found
  }

  /** The lost key meets the new one in a border node, and was stored; the new one was not. */
  predicate IsLost(key: Key, lost: Key, found: Option<Value>, lostValue: Option<Value>) {
    |lost| > KEYSLICE_LENGTH && lost != key && ShortMeeting(key, lost) && lostValue != None && found == None
  }

  /** By how much numKeys has to grow for a put: by one if the key is new. */
  function Growth(found: Option<Value>): nat {
    if found == None then 1 else 0
  }

  /** Case 1.1 of KV_Put and what follows from it: a map update, or, on a clash, the loss of a key
  that was stored.  `added` is what numKeys grows by. */
  method KvPutNode(node: BorderNode, key: Key, value: Value) returns (added: nat, left: Key, ghost lost: Key)
    requires node.Valid() && key != [] && value != NULL
    modifies node.Repr
    ensures node.Valid() && fresh(node.Repr - old(node.Repr))
    ensures old(NodeClash(node, key)) ==> IsLost(key, lost, old(node.Find(key)), old(node.Find(lost)))
    ensures forall k: Key | Slice(k) == Slice(key) ::
              node.Find(k) == Effect(old(node.Find(k)), k, key, value, old(NodeClash(node, key)), lost,
                                     old(node.Find(lost)))
    ensures old(node.Find(key)) != Some(NULL) ==> added == Growth(old(node.Find(key)))
    ensures (left == key <==> !old(NodeGoesDown(node, key))) && NodeEndsAt(node, key, left)
    decreases |key|, 0
  {
    added, left, lost := 0, key, key;
    if |key| <= KEYSLICE_LENGTH {
      var ok, before := BnGetPrefixValue(node, |key|);
      if before == NULL {
        added := 1;
      }
      ok := BnSetPrefixValue(node, |key|, value);
      assert ok;
    } else if node.keySuffix.Some? {
      var same := node.TestSuffix(key);
      if same {
        node.SetSuffixValue(Rest(key), value);
      } else {
        left, lost := KvConflict(node, key, value);
        added := 1;
      }
    } else if node.suffixLink.Link? {
      added, left, lost := KvBelow(node, key, value);
    } else {
      node.SetSuffixValue(Rest(key), value);
      added := 1;
    }
    SlicesTell(key);
  }

  /** Case 1.1.1.1 of KV_Put: another suffix is in the way. */
  method KvConflict(node: BorderNode, key: Key, value: Value) returns (left: Key, ghost lost: Key)
    requires node.Valid() && |key| > KEYSLICE_LENGTH && node.keySuffix.Some? && node.keySuffix.value != Rest(key)
    modifies node
    ensures node.Valid() && fresh(node.Repr - old(node.Repr))
    ensures CutOff(Rest(key), left) && NodeEndsAt(node, key, left)
    ensures old(NodeClash(node, key)) ==> IsLost(key, lost, old(node.Find(key)), old(node.Find(lost)))
    ensures forall k: Key | Slice(k) == Slice(key) ::
              node.Find(k) == Effect(old(node.Find(k)), k, key, value, old(NodeClash(node, key)), lost,
                                     old(node.Find(lost)))
  {
    lost := WithRest(key, node.keySuffix.value);
    SlicesTell(key);
    SlicesTell(lost);
    var sndKey, sndValue := node.ExportSuffixValue();
    var link;
    link, left := KvPair(Rest(key), sndKey, value, sndValue);
    node.SetLink(link);
  }

  /** Case 1.1.1 of KV_Put: the loop goes on in the next layer. */
  method KvBelow(node: BorderNode, key: Key, value: Value) returns (added: nat, left: Key, ghost lost: Key)
    requires node.Valid() && |key| > KEYSLICE_LENGTH && node.keySuffix.None? && node.suffixLink.Link?
    requires value != NULL
    modifies node.Repr
    ensures node.Valid() && fresh(node.Repr - old(node.Repr))
    ensures old(NodeClash(node, key)) ==> IsLost(key, lost, old(node.Find(key)), old(node.Find(lost)))
    ensures forall k: Key | Slice(k) == Slice(key) ::
              node.Find(k) == Effect(old(node.Find(k)), k, key, value, old(NodeClash(node, key)), lost,
                                     old(node.Find(lost)))
    ensures old(node.Find(key)) != Some(NULL) ==> added == Growth(old(node.Find(key)))
    ensures CutOff(Rest(key), left) && NodeEndsAt(node, key, left)
    decreases |key|, 0, 0
  {
    ghost var clash := NodeClash(node, key);
    ghost var below;
    added, left, below := KvPut(node.suffixLink.layer, Rest(key), value);
    OneEnd(node.suffixLink.layer, Rest(key), left, left);
    node.Repr := node.Repr + node.suffixLink.layer.Repr;
    lost := key;
    if clash {
      lost := WithRest(key, below);
      SlicesTell(lost);
    }
    SlicesTell(key);
  }

  /** KV_Put from a layer on. When the slice is not there, the loop inserts the key and then goes
  around once more, to find it there. */
  method KvPut(layer: Layer, key: Key, value: Value) returns (added: nat, left: Key, ghost lost: Key)
    requires layer.Valid() && key != [] && value != NULL
    modifies layer.Repr
    ensures layer.Valid() && fresh(layer.Repr - old(layer.Repr))
    ensures old(Clash(layer, key)) ==> IsLost(key, lost, old(layer.Find(key)), old(layer.Find(lost)))
    ensures forall k: Key ::
              layer.Find(k) == Effect(old(layer.Find(k)), k, key, value, old(Clash(layer, key)), lost,
                                      old(layer.Find(lost)))
    ensures old(layer.Find(key)) != Some(NULL) ==> added == Growth(old(layer.Find(key)))
    ensures (left == key <==> !old(GoesDown(layer, key))) && EndsAt(layer, key, left)
    decreases |key|, 2
  {
    var nextKeySlice := GetNextKeySlice(key);
    var inserted := nextKeySlice !in layer.index;
    if inserted {
      KvInsert(layer, nextKeySlice, key, value);
    }
    added, left, lost := KvPutIn(layer, nextKeySlice, key, value);
    if inserted {
      added := added + 1;
    }
  }

  /** Case 1.0 of KV_Put. */
  method KvInsert(layer: Layer, nextKeySlice: nat, key: Key, value: Value)
    requires layer.Valid() && key != [] && nextKeySlice == Slice(key) && nextKeySlice !in layer.index
    modifies layer.Repr
    ensures layer.Valid() && fresh(layer.Repr - old(layer.Repr)) && nextKeySlice in layer.index && !Clash(layer, key)
    ensures !GoesDown(layer, key)
    ensures forall k: Key :: layer.Find(k) == if k == key then Some(value) else old(layer.Find(k))
  {
    var ok, borderNode := KvNodeOf(key, value);
    assert ok;
    layer.InsertNode(nextKeySlice, borderNode);
  }

  /** The border nodes of the layer are well formed and share nothing; only that for the given slice
  may have got objects that the layer does not count as its own yet. */
  ghost predicate NodesOk(layer: Layer, slice: nat)
    reads layer, layer.Repr, if slice in layer.index then {layer.index[slice]} + layer.index[slice].Repr else {}
  {
    && slice in layer.index && layer in layer.Repr
    && (forall s | s in layer.index ::
          && layer.index[s] in layer.Repr && layer !in layer.index[s].Repr
          && (s != slice ==> layer.index[s].Repr <= layer.Repr) && layer.index[s].Valid())
    && (forall s, t | s in layer.index && t in layer.index && s != t :: layer.index[s].Repr !! layer.index[t].Repr)
  }

  ghost method Adopt(layer: Layer, slice: nat)
    requires NodesOk(layer, slice)
    modifies layer`Repr
    ensures layer.Valid() && layer.Repr == old(layer.Repr) + layer.index[slice].Repr
    ensures forall k: Key | Slice(k) in layer.index :: layer.Find(k) == old(layer.index[Slice(k)].Find(k))
  {
    layer.Repr := layer.Repr + layer.index[slice].Repr;
  }

  /** Case 1.1 of KV_Put, node by node. */
  method KvPutOne(layer: Layer, nextKeySlice: nat, key: Key, value: Value)
    returns (added: nat, left: Key, ghost lost: Key)
    requires layer.Valid() && key != [] && nextKeySlice == Slice(key) && nextKeySlice in layer.index
    requires value != NULL
    modifies layer.index[nextKeySlice].Repr
    ensures NodesOk(layer, nextKeySlice)
    ensures fresh(layer.index[nextKeySlice].Repr - old(layer.index[nextKeySlice].Repr))
    ensures old(Clash(layer, key)) ==> IsLost(key, lost, old(layer.Find(key)), old(layer.Find(lost)))
    ensures forall k: Key | Slice(k) in layer.index ::
              layer.index[Slice(k)].Find(k) == Effect(old(layer.Find(k)), k, key, value, old(Clash(layer, key)), lost,
                                                      old(layer.Find(lost)))
    ensures old(layer.Find(key)) != Some(NULL) ==> added == Growth(old(layer.Find(key)))
    ensures left == key <==> !old(GoesDown(layer, key))
    ensures NodeEndsAt(layer.index[nextKeySlice], key, left)
    decreases |key|, 1, 0
  {
    added, left, lost := KvPutNode(layer.index[nextKeySlice], key, value);
  }

  /** Case 1.1 of KV_Put, seen from the layer. */
  method KvPutIn(layer: Layer, nextKeySlice: nat, key: Key, value: Value)
    returns (added: nat, left: Key, ghost lost: Key)
    requires layer.Valid() && key != [] && nextKeySlice == Slice(key) && nextKeySlice in layer.index
    requires value != NULL
    modifies layer.Repr
    ensures layer.Valid() && fresh(layer.Repr - old(layer.Repr))
    ensures old(Clash(layer, key)) ==> IsLost(key, lost, old(layer.Find(key)), old(layer.Find(lost)))
    ensures forall k: Key ::
              layer.Find(k) == Effect(old(layer.Find(k)), k, key, value, old(Clash(layer, key)), lost,
                                      old(layer.Find(lost)))
    ensures old(layer.Find(key)) != Some(NULL) ==> added == Growth(old(layer.Find(key)))
    ensures (left == key <==> !old(GoesDown(layer, key))) && EndsAt(layer, key, left)
    decreases |key|, 1, 1
  {
    added, left, lost := KvPutOne(layer, nextKeySlice, key, value);
    Adopt(layer, nextKeySlice);
  }

  /** The trie holds exactly this map; no value is null. */
  ghost predicate HoldsMap(layer: Layer, m: map<Key, Value>)
    requires layer.Valid()
    reads layer.Repr
  {
    NULL !in m.Values && forall k: Key :: layer.Find(k) == if k in m then Some(m[k]) else None
  }

  /** A put as a change of the map: an update, or, when a key is lost, the exchange of that key for the
  new one, which gets its value. */
  function AfterPut(m: map<Key, Value>, key: Key, value: Value, lost: Option<Key>): map<Key, Value>
    requires lost.Some? ==> lost.value in m
  {
    match lost
    case None => m[key := value]
    case Some(k) => (m - {k})[key := m[k]]
  }

  /** Only a stored key that meets the new one can be lost, and only if the new one is not stored. */
  predicate MayLose(m: map<Key, Value>, key: Key, lost: Option<Key>) {
    lost.Some? ==> lost.value in m && key !in m && Meet(key, lost.value)
  }

  /** Two keys of more than one slice that padding with zeroes makes equal up to the end of the slice
  in which the shorter one ends. */
  predicate Meet(a: Key, b: Key) {
    |a| > KEYSLICE_LENGTH && |b| > KEYSLICE_LENGTH && SamePadded(a, b)
  }

  /** A put grows numKeys as it does the map; when a key is lost, by one although the map does not grow. */
  lemma AfterPutSize(m: map<Key, Value>, key: Key, value: Value, lost: Option<Key>)
    requires lost.Some? ==> lost.value in m && key !in m
    ensures |AfterPut(m, key, value, lost)| + Lost(lost) == |m| + if key in m then 0 else 1
  {
    match lost
    case None => PutSize(m, key, value);
    case Some(k) =>
      PutSize(m - {k}, key, m[k]);
      assert (m - {k}).Keys == m.Keys - {k} && |(m - {k}).Keys| == |m - {k}| && |m.Keys| == |m|;
  }

  function Lost(k: Option<Key>): nat {
    if k.Some? then 1 else 0
  }

  /** When a key is lost, what the trie holds is not what it should be. */
  lemma LossShows(layer: Layer, m: map<Key, Value>, key: Key, value: Value, lost: Option<Key>)
    requires layer.Valid() && MayLose(m, key, lost) && value != NULL && HoldsMap(layer, AfterPut(m, key, value, lost))
    ensures HoldsMap(layer, m[key := value]) <==> lost == None
  {
    if lost.Some? {
      assert layer.Find(lost.value) == None && lost.value in m[key := value];
    }
  }

  method PutInMap(layer: Layer, key: Key, value: Value, ghost m: map<Key, Value>)
    returns (added: nat, left: Key, ghost lost: Option<Key>)
    requires layer.Valid() && key != [] && value != NULL && HoldsMap(layer, m)
    modifies layer.Repr
    ensures layer.Valid() && fresh(layer.Repr - old(layer.Repr))
    ensures (lost.Some? <==> old(Clash(layer, key))) && MayLose(m, key, lost)
    ensures HoldsMap(layer, AfterPut(m, key, value, lost))
    ensures added == if key in m then 0 else 1
    ensures (left == key <==> !old(GoesDown(layer, key))) && EndsAt(layer, key, left)
  {
    ghost var clash := Clash(layer, key);
    assert old(layer.Find(key)) != Some(NULL);
    ghost var other;
    added, left, other := KvPut(layer, key, value);
    lost := if clash then Some(other) else None;
    if clash { MeetingIsPadding(key, other); }
  }

  /** KV_Put of the empty key: whether its slice is there or not, a border node is asked for the slot
  of length 0, which ends the program. */
  method KvPutEmpty(layer: Layer, value: Value) returns (ok: bool)
    requires layer.Valid()
    ensures !ok
  {
    var nextKeySlice := GetNextKeySlice([]);
    if nextKeySlice !in layer.index {
      var borderNode := new BorderNode();
      ok := BnSetValue(borderNode, [], value);
    } else {
      var before;
      ok, before := BnGetPrefixValue(layer.index[nextKeySlice], 0);
    }
  }

  /** getValueOfPartialKey; None stands for the end of the program. */
  method KvGet(layer: Layer, key: Key) returns (r: Option<Value>)
    requires layer.Valid()
    ensures r == if key == [] && Slice(key) in layer.index then None else Some(OrNull(layer.Find(key)))
    decreases |key|
  {
    var keySlice := GetNextKeySlice(key);
    if keySlice !in layer.index {
      return Some(NULL);
    }
    var borderNode := layer.index[keySlice];
    var v := NULL;
    if |key| <= KEYSLICE_LENGTH {
      var ok;
      ok, v := BnGetPrefixValue(borderNode, |key|);
      if !ok {
        return None;
      }
    } else if borderNode.keySuffix.Some? {
      v := borderNode.GetSuffixValue(Rest(key));
    } else if borderNode.suffixLink.Link? {
      r := KvGet(borderNode.suffixLink.layer, Rest(key));
      return;
    }
    r := Some(v);
  }

  /** A store: its root layer, and how many keys it counts. */
  class KvStore {
    const rootNode: Layer
    var numKeys: nat

    ghost predicate Valid()
      reads rootNode, rootNode.Repr
    {
      rootNode.Valid() && this !in rootNode.Repr
    }

    constructor ()
      ensures Valid() && fresh(rootNode.Repr) && numKeys == 0 && rootNode.index == map[] && HoldsMap(rootNode, map[])
    {
      rootNode := new Layer();
      numKeys := 0;
    }

    /** KV_Put, on a store that holds the map m.  It is the map update exactly when the key is not
    empty and does not clash; `ok` is false when the program ends, and `left` is what the caller's
    key is afterwards. */
    method Put(key: Key, value: Value, ghost m: map<Key, Value>) returns (ok: bool, left: Key, ghost lost: Option<Key>)
      requires Valid() && value != NULL && HoldsMap(rootNode, m)
      modifies this, rootNode.Repr
      ensures Valid() && fresh(rootNode.Repr - old(rootNode.Repr))
      ensures ok <==> key != []
      ensures ok ==> (HoldsMap(rootNode, m[key := value]) <==> !old(Clash(rootNode, key)))
      ensures ok ==> (lost.Some? <==> old(Clash(rootNode, key)))
      ensures MayLose(m, key, lost) && (ok ==> HoldsMap(rootNode, AfterPut(m, key, value, lost)))
      ensures ok ==> numKeys == old(numKeys) + if key in m then 0 else 1
      ensures ok ==> (left == key <==> !old(GoesDown(rootNode, key)))
      ensures ok ==> EndsAt(rootNode, key, left)
    {
      ok, left, lost := true, key, None;
      if key == [] {
        ok := KvPutEmpty(rootNode, value);
      } else {
        var added;
        added, left, lost := PutInMap(rootNode, key, value, m);
        LossShows(rootNode, m, key, value, lost);
        numKeys := numKeys + added;
      }
    }

    /** KV_Get. */
    method Get(key: Key) returns (r: Option<Value>)
      requires Valid()
      ensures r == if key == [] && Slice(key) in rootNode.index then None else Some(OrNull(rootNode.Find(key)))
    {
      r := KvGet(rootNode, key);
    }
  }

  /** How often a key has been lost. */
  function Losses(lost: seq<Option<Key>>): nat {
    if lost == [] then 0 else Losses(lost[..|lost| - 1]) + Lost(lost[|lost| - 1])
  }

  /** The map after puts, of which each may have lost a key. */
  function Replay(puts: seq<(Key, Value)>, lost: seq<Option<Key>>): map<Key, Value>
    requires |lost| == |puts|
  {
    if puts == [] then map[]
    else
      var n := |puts| - 1;
      var m := Replay(puts[..n], lost[..n]);
      AfterPut(m, puts[n].0, puts[n].1, if MayLose(m, puts[n].0, lost[n]) then lost[n] else None)
  }

  /** No key was empty, and each key lost was stored and met the new one. */
  predicate Explained(puts: seq<(Key, Value)>, lost: seq<Option<Key>>)
    requires |lost| == |puts|
  {
    forall i: nat | i < |puts| :: ExplainedAt(puts, lost, i)
  }

  predicate ExplainedAt(puts: seq<(Key, Value)>, lost: seq<Option<Key>>, i: nat)
    requires i < |puts| == |lost|
  {
    puts[i].0 != [] && MayLose(Replay(puts[..i], lost[..i]), puts[i].0, lost[i])
  }

  lemma OneMorePut(puts: seq<(Key, Value)>, put: (Key, Value), lost: seq<Option<Key>>, k: Option<Key>)
    requires |lost| == |puts| && Explained(puts, lost) && put.0 != [] && MayLose(Replay(puts, lost), put.0, k)
    ensures Replay(puts + [put], lost + [k]) == AfterPut(Replay(puts, lost), put.0, put.1, k)
    ensures Losses(lost + [k]) == Losses(lost) + Lost(k) && Explained(puts + [put], lost + [k])
  {
    var puts', lost' := puts + [put], lost + [k];
    assert puts'[..|puts|] == puts && lost'[..|puts|] == lost;
    forall j: nat | j < |puts'| ensures ExplainedAt(puts', lost', j) {
      if j < |puts| {
        assert ExplainedAt(puts, lost, j);
        assert puts'[..j] == puts[..j] && lost'[..j] == lost[..j];
      }
    }
  }

  /** The puts explain that a store holds m and counts n keys: the stored ones, and those lost. */
  ghost predicate Accounts(puts: seq<(Key, Value)>, lost: seq<Option<Key>>, m: map<Key, Value>, n: nat) {
    |lost| == |puts| && Explained(puts, lost) && m == Replay(puts, lost) && n == |m| + Losses(lost)
  }

  /** The store holds what replaying the puts gives, with the losses on the way, and numKeys is the
  number of stored keys and of lost ones. */
  ghost predicate Replayed(store: KvStore, puts: seq<(Key, Value)>, lost: seq<Option<Key>>)
    reads store, store.rootNode, store.rootNode.Repr
  {
    && store.Valid() && |lost| == |puts|
    && HoldsMap(store.rootNode, Replay(puts, lost)) && Accounts(puts, lost, Replay(puts, lost), store.numKeys)
  }

  lemma OneMoreAccounts(puts: seq<(Key, Value)>, put: (Key, Value), lost: seq<Option<Key>>, k: Option<Key>,
                        m: map<Key, Value>, n: nat)
    requires Accounts(puts, lost, m, n) && put.0 != [] && MayLose(m, put.0, k)
    ensures Accounts(puts + [put], lost + [k], AfterPut(m, put.0, put.1, k), n + if put.0 in m then 0 else 1)
  {
    AfterPutSize(m, put.0, put.1, k);
    OneMorePut(puts, put, lost, k);
  }

  lemma NextPut(puts: seq<(Key, Value)>, i: nat, lost: seq<Option<Key>>, k: Option<Key>, m: map<Key, Value>, n: nat)
    requires i < |puts| && Accounts(puts[..i], lost, m, n) && puts[i].0 != [] && MayLose(m, puts[i].0, k)
    ensures Accounts(puts[..i + 1], lost + [k], AfterPut(m, puts[i].0, puts[i].1, k),
                     n + if puts[i].0 in m then 0 else 1)
  {
    OneMoreAccounts(puts[..i], puts[i], lost, k, m, n);
    assert puts[..i] + [puts[i]] == puts[..i + 1];
  }

  method KvPutNext(store: KvStore, puts: seq<(Key, Value)>, i: nat, ghost lost: seq<Option<Key>>)
    returns (ok: bool, ghost lost': seq<Option<Key>>)
    requires i < |puts| && puts[i].1 != NULL && Replayed(store, puts[..i], lost)
    modifies store, store.rootNode.Repr
    ensures (ok <==> puts[i].0 != []) && fresh(store.rootNode.Repr - old(store.rootNode.Repr))
    ensures ok ==> Replayed(store, puts[..i + 1], lost') && lost'[..i] == lost
    ensures ok ==> (lost'[i].Some? <==> old(Clash(store.rootNode, puts[i].0)))
  {
    ghost var m, n := Replay(puts[..i], lost), store.numKeys;
    ghost var k;
    var left;
    ok, left, k := store.Put(puts[i].0, puts[i].1, m);
    lost' := lost + [k];
    if ok { NextPut(puts, i, lost, k, m, n); }
  }

  lemma NothingPut(store: KvStore)
    requires store.Valid() && HoldsMap(store.rootNode, map[]) && store.numKeys == 0
    ensures Replayed(store, [], [])
  {
  }

  /** What the store is for: the last value put under each key. */
  function PutAll(puts: seq<(Key, Value)>): (m: map<Key, Value>)
    ensures forall k :: k in m <==> exists i :: 0 <= i < |puts| && puts[i].0 == k
  {
    if puts == [] then map[]
    else
      var n := |puts| - 1;
      assert forall i | 0 <= i < n :: puts[..n][i] == puts[i];
      PutAll(puts[..n])[puts[n].0 := puts[n].1]
  }

  /** No two different keys meet. */
  ghost predicate NoneMeet(puts: seq<(Key, Value)>) {
    forall i, j | 0 <= i < j < |puts| && puts[i].0 != puts[j].0 :: !Meet(puts[j].0, puts[i].0)
  }

  /** If no two of the keys meet, no key is lost, numKeys is right and the store
  holds the last value put under each key. */
  lemma {:induction false} NothingLost(puts: seq<(Key, Value)>, lost: seq<Option<Key>>)
    requires |lost| == |puts| && Explained(puts, lost)
    requires NoneMeet(puts)
    ensures Replay(puts, lost) == PutAll(puts) && Losses(lost) == 0
  {
    if puts != [] {
      var n := |puts| - 1;
      ExplainedBefore(puts, lost, n);
      NothingLost(puts[..n], lost[..n]);
      assert ExplainedAt(puts, lost, n);
      assert forall i | 0 <= i < n :: puts[..n][i] == puts[i];
    }
  }

  lemma ExplainedBefore(puts: seq<(Key, Value)>, lost: seq<Option<Key>>, n: nat)
    requires |lost| == |puts| && Explained(puts, lost) && n <= |puts|
    ensures Explained(puts[..n], lost[..n])
  {
    forall i: nat | i < n ensures ExplainedAt(puts[..n], lost[..n], i) {
      assert ExplainedAt(puts, lost, i);
      assert puts[..n][..i] == puts[..i] && lost[..n][..i] == lost[..i];
    }
  }

  /** The store holds the last value put under each key, and counts its keys. */
  ghost predicate AllStored(store: KvStore, puts: seq<(Key, Value)>)
    reads store, store.rootNode, store.rootNode.Repr
  {
    && store.Valid() && HoldsMap(store.rootNode, PutAll(puts))
    && store.numKeys == |PutAll(puts)|
  }

  /** After puts of which no two keys meet, the store does what it is for. */
  lemma NoneMeetStored(store: KvStore, puts: seq<(Key, Value)>, lost: seq<Option<Key>>)
    requires Replayed(store, puts, lost) && NoneMeet(puts)
    ensures AllStored(store, puts)
  {
    NothingLost(puts, lost);
  }

  /** Any sequence of puts on a new store. The first `done` of them return; the next one, if there
  is one, has the empty key and ends the program. */
  method KvPuts(puts: seq<(Key, Value)>) returns (done: nat, store: KvStore, ghost lost: seq<Option<Key>>)
    requires forall i | 0 <= i < |puts| :: puts[i].1 != NULL
    ensures done <= |puts| && (done < |puts| ==> puts[done].0 == [])
    ensures done == |puts| ==> Replayed(store, puts, lost)
  {
    done, lost := 0, [];
    store := new KvStore();
    NothingPut(store);
    assert puts[..0] == [];
    while done < |puts|
      invariant 0 <= done <= |puts| && Replayed(store, puts[..done], lost)
      invariant fresh(store) && fresh(store.rootNode.Repr)
    {
      var ok;
      ok, lost := KvPutNext(store, puts, done, lost);
      if !ok {
        return;
      }
      done := done + 1;
    }
    assert puts[..done] == puts;
  }

  /** What has been replayed has no empty key, so all puts return exactly if no key is empty. */
  lemma NoneEmpty(store: KvStore, puts: seq<(Key, Value)>, lost: seq<Option<Key>>)
    requires Replayed(store, puts, lost)
    ensures forall i | 0 <= i < |puts| :: puts[i].0 != []
  {
    forall i | 0 <= i < |puts| ensures puts[i].0 != [] {
      assert ExplainedAt(puts, lost, i);
    }
  }

  /** For every first slice and every short remainder: after putting the key with a zero byte added
  and then the key itself into a new store, the first one is gone, the second has its value, and the
  store counts two keys. */
  method KvLosesAKey(slice: Key, short: Key, v: Value, w: Value) returns (first: Value, second: Value, count: nat)
    requires |slice| == KEYSLICE_LENGTH && 0 < |short| < KEYSLICE_LENGTH && v != NULL && w != NULL
    ensures first == NULL && second == v && count == 2
  {
    var key, longer := slice + short, slice + (short + [0]);
    assert Rest(key) == short && Rest(longer) == short + [0];
    ZeroMeets(short);
    PackCompare(key, longer, KEYSLICE_LENGTH);
    var store := new KvStore();
    ghost var lost;
    var ok, left;
    ok, left, lost := store.Put(longer, v, map[]);
    assert Clash(store.rootNode, key);
    ok, left, lost := store.Put(key, w, map[longer := v]);
    assert lost == Some(longer);
    var r := store.Get(longer);
    first := r.value;
    r := store.Get(key);
    second := r.value;
    count := store.numKeys;
  }
}
