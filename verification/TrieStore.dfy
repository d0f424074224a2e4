/** The trie of slices: each layer maps slices to border nodes, and a border node holds the keys
that end in its slice, and one longer key or a link to the next layer. */
module TrieStore {
  import opened Wrappers
  import opened TrieSlice

  /** void* values, and the null pointer. */
  type Value = int

  const NULL: Value := 0

  /** What suffixLink points to. */
  datatype Target = Nothing | Val(v: Value) | Link(layer: Layer)

  /** The null pointer stands for a missing key in what lookups return. */
  function OrNull(o: Option<Value>): Value {
    match o
    case None => NULL
    case Some(v) => v
  }

  class BorderNode {
    var prefixFlags: set<nat>          // the bits set in the flag word
    const prefixLinks: array<Value>
    var suffixLink: Target
    var keySuffix: Option<Key>
    ghost var Repr: set<object>

    ghost predicate Valid()
      reads this, Repr
      ensures Valid() ==> this in Repr
      decreases Repr
    {
      && this in Repr && prefixLinks in Repr && prefixLinks.Length == KEYSLICE_LENGTH + 1
      && (forall i | 0 <= i <= KEYSLICE_LENGTH && i !in prefixFlags :: prefixLinks[i] == NULL)
      && (forall i | i in prefixFlags :: i <= KEYSLICE_LENGTH)
      && (keySuffix.Some? <==> suffixLink.Val?) && (keySuffix.Some? ==> |keySuffix.value| > 0)
      && (suffixLink.Link? ==>
            var sub := suffixLink.layer;
            sub in Repr && sub.Repr <= Repr && this !in sub.Repr && prefixLinks !in sub.Repr && sub.Valid())
    }

    /** The value of a key that belongs to this node's slice. */
    ghost function Find(key: Key): Option<Value>
      requires Valid()
      reads Repr
      decreases |key|, 0
    {
      if |key| <= KEYSLICE_LENGTH then
        if |key| in prefixFlags then Some(prefixLinks[|key|]) else None
      else if keySuffix.Some? then
        if Rest(key) == keySuffix.value then Some(suffixLink.v) else None
      else if suffixLink.Link? then suffixLink.layer.Find(Rest(key))
      else None
    }

    /** BN_NewBorderNode. */
    constructor ()
      ensures Valid() && fresh(Repr) && forall k: Key :: Find(k) == None
    {
      prefixLinks := new Value[KEYSLICE_LENGTH + 1](_ => NULL);
      prefixFlags := {};
      suffixLink := Nothing;
      keySuffix := None;
      new;
      Repr := {this, prefixLinks};
    }

    /** BN_SetPrefixValue. */
    method SetPrefixValue(i: nat, val: Value)
      requires Valid() && i <= KEYSLICE_LENGTH
      modifies this, prefixLinks
      ensures Valid() && Repr == old(Repr) && prefixFlags == old(prefixFlags) + {i}
      ensures forall k: Key :: Find(k) == if |k| == i then Some(val) else old(Find(k))
    {
      prefixFlags := prefixFlags + {i};
      prefixLinks[i] := val;
    }

    /** BN_GetPrefixValue: the flag, and the slot. */
    method GetPrefixValue(i: nat) returns (used: bool, val: Value)
      requires Valid() && i <= KEYSLICE_LENGTH
      ensures used == (i in prefixFlags) && val == prefixLinks[i]
      ensures forall k: Key | |k| == i :: val == OrNull(Find(k)) && (used <==> Find(k) != None)
    {
      val := prefixLinks[i];
      used := i in prefixFlags;
    }

    /** BN_SetSuffixValue. */
    method SetSuffixValue(suffix: Key, val: Value)
      requires Valid() && |suffix| > 0
      modifies this
      ensures Valid() && Repr == old(Repr) && keySuffix == Some(suffix)
      ensures forall k: Key :: Find(k) == if |k| <= KEYSLICE_LENGTH then old(Find(k))
                                          else if Rest(k) == suffix then Some(val) else None
    {
      keySuffix := Some(suffix);
      suffixLink := Val(val);
    }

    /** BN_SetValue: what happens to a key of this node's slice that is not in a deeper layer. */
    method SetValue(key: Key, val: Value)
      requires Valid()
      modifies this, prefixLinks
      ensures Valid() && Repr == old(Repr)
      ensures |key| > KEYSLICE_LENGTH ==> keySuffix == Some(Rest(key))
      ensures forall k: Key :: Find(k) ==
                if |key| > KEYSLICE_LENGTH && |k| > KEYSLICE_LENGTH then
                  if Rest(k) == Rest(key) then Some(val) else None
                else if |k| == |key| then Some(val) else old(Find(k))
    {
      if |key| > KEYSLICE_LENGTH {
        SetSuffixValue(Rest(key), val);
      } else {
        SetPrefixValue(|key|, val);
      }
    }

    /** BN_TestSuffix. */
    method TestSuffix(key: Key) returns (same: bool)
      requires Valid() && |key| > KEYSLICE_LENGTH
      ensures same <==> keySuffix == Some(Rest(key))
    {
      if keySuffix.Some? {
        same := StrEqual(Rest(key), keySuffix.value);
      } else {
        same := false;
      }
    }

    /** BN_GetSuffixValue. */
    method GetSuffixValue(suffix: Key) returns (val: Value)
      requires Valid()
      ensures val == if keySuffix == Some(suffix) then suffixLink.v else NULL
    {
      if keySuffix.None? {
        return NULL;
      }
      var same := StrEqual(suffix, keySuffix.value);
      val := if same then suffixLink.v else NULL;
    }

    /** BN_ExportSuffixValue, on a node that has a suffix. */
    method ExportSuffixValue() returns (key: Key, val: Value)
      requires Valid() && keySuffix.Some?
      modifies this
      ensures Valid() && Repr == old(Repr) && suffixLink == Nothing && keySuffix == None
      ensures old(keySuffix) == Some(key) && old(suffixLink) == Val(val)
      ensures forall k: Key :: Find(k) == if |k| <= KEYSLICE_LENGTH then old(Find(k)) else None
    {
      key := keySuffix.value;
      keySuffix := None;
      val := suffixLink.v;
      suffixLink := Nothing;
    }

    /** BN_SetLink. */
    method SetLink(sub: Layer)
      requires Valid() && sub.Valid() && sub.Repr !! Repr
      modifies this
      ensures Valid() && Repr == old(Repr) + sub.Repr && suffixLink == Link(sub)
      ensures forall k: Key :: Find(k) == if |k| <= KEYSLICE_LENGTH then old(Find(k)) else sub.Find(Rest(k))
    {
      keySuffix := None;
      suffixLink := Link(sub);
      Repr := Repr + sub.Repr;
    }

    /** put below the layer: this node is the one for the key's slice. */
    method Put(key: Key, v: Value)
      requires Valid()
      modifies Repr
      ensures Valid() && fresh(Repr - old(Repr))
      ensures forall k: Key | Slice(k) == Slice(key) :: Find(k) == if k == key then Some(v) else old(Find(k))
      decreases |key|, 0
    {
      if |key| <= KEYSLICE_LENGTH {
        SetPrefixValue(|key|, v);
      } else if keySuffix.Some? {
        var same := TestSuffix(key);
        if same {
          SetSuffixValue(Rest(key), v);
        } else {
          var key2, v2 := ExportSuffixValue();
          var sub := CreatePair(Rest(key), key2, v, v2);
          SetLink(sub);
        }
      } else if suffixLink.Link? {
        suffixLink.layer.Put(Rest(key), v);
        Repr := Repr + suffixLink.layer.Repr;
      } else {
        SetSuffixValue(Rest(key), v);
      }
      SlicesTell(key);
    }
  }

  /** Among the keys with the slice of a given key, length and remainder tell which one it is. */
  lemma SlicesTell(key: Key)
    ensures forall k: Key | Slice(k) == Slice(key) && |k| <= KEYSLICE_LENGTH && |k| == |key| :: k == key
    ensures forall k: Key |
              Slice(k) == Slice(key) && |k| > KEYSLICE_LENGTH && |key| > KEYSLICE_LENGTH && Rest(k) == Rest(key) ::
              k == key
  {
    forall k: Key | Slice(k) == Slice(key) && LengthClass(k) == LengthClass(key)
      && (|k| > KEYSLICE_LENGTH ==> Rest(k) == Rest(key))
      ensures k == key
    {
      KeyParts(k, key);
    }
  }

  /** UTIL_StrEqual. */
  method StrEqual(a: Key, b: Key) returns (same: bool)
    ensures same <==> a == b
  {
    if |a| != |b| {
      return false;
    }
    for i := 0 to |a|
      invariant a[..i] == b[..i]
    {
      if a[i] != b[i] {
        return false;
      }
      assert a[..i + 1] == a[..i] + [a[i]] && b[..i + 1] == b[..i] + [b[i]];
    }
    assert a == a[..|a|] && b == b[..|b|];
    return true;
  }

  /** What a store holding two keys gives for a key. */
  ghost function PairFind(k: Key, key1: Key, key2: Key, v1: Value, v2: Value): Option<Value> {
    if k == key2 then Some(v2) else if k == key1 then Some(v1) else None
  }

  /** create_pair: layers holding just two keys, as many as their common slices need. */
  method CreatePair(key1: Key, key2: Key, v1: Value, v2: Value) returns (layer: Layer)
    ensures layer.Valid() && fresh(layer.Repr)
    ensures forall k: Key :: layer.Find(k) == PairFind(k, key1, key2, v1, v2)
    decreases |key1|, 2
  {
    var keyslice1 := GetNextKeySlice(key1);
    var keyslice2 := GetNextKeySlice(key2);
    if keyslice1 == keyslice2 {
      var bnode := PairNode(key1, key2, v1, v2);
      layer := new Layer();
      layer.InsertNode(keyslice1, bnode);
    } else {
      layer := PairLayer(key1, key2, v1, v2);
    }
  }

  /** The part of create_pair for keys whose slices differ. */
  method PairLayer(key1: Key, key2: Key, v1: Value, v2: Value) returns (layer: Layer)
    requires Slice(key1) != Slice(key2)
    ensures layer.Valid() && fresh(layer.Repr)
    ensures forall k: Key :: layer.Find(k) == PairFind(k, key1, key2, v1, v2)
  {
    layer := LayerOf(key2, v2);
    var bnode1 := NodeOf(key1, v1);
    layer.InsertNode(Slice(key1), bnode1);
  }

  /** A new layer with one key. */
  method LayerOf(key: Key, v: Value) returns (layer: Layer)
    ensures layer.Valid() && fresh(layer.Repr) && layer.index.Keys == {Slice(key)}
    ensures forall k: Key :: layer.Find(k) == if k == key then Some(v) else None
  {
    var bnode := NodeOf(key, v);
    layer := new Layer();
    layer.InsertNode(Slice(key), bnode);
  }

  /** The part of create_pair for keys with a common slice: both in one node, or one layer down. */
  method PairNode(key1: Key, key2: Key, v1: Value, v2: Value) returns (bnode: BorderNode)
    requires Slice(key1) == Slice(key2)
    ensures bnode.Valid() && fresh(bnode.Repr)
    ensures forall k: Key | Slice(k) == Slice(key1) :: bnode.Find(k) == PairFind(k, key1, key2, v1, v2)
    decreases |key1|, 1
  {
    bnode := new BorderNode();
    if |key1| <= KEYSLICE_LENGTH || |key2| <= KEYSLICE_LENGTH {
      bnode.SetValue(key1, v1);
      bnode.SetValue(key2, v2);
    } else {
      var sub := CreatePair(Rest(key1), Rest(key2), v1, v2);
      bnode.SetLink(sub);
    }
    SlicesTell(key1);
    SlicesTell(key2);
  }

  /** A new border node with one key. */
  method NodeOf(key: Key, v: Value) returns (bnode: BorderNode)
    ensures bnode.Valid() && fresh(bnode.Repr)
    ensures forall k: Key | Slice(k) == Slice(key) :: bnode.Find(k) == if k == key then Some(v) else None
    ensures |key| > KEYSLICE_LENGTH ==> bnode.keySuffix == Some(Rest(key))
  {
    bnode := new BorderNode();
    bnode.SetValue(key, v);
    SlicesTell(key);
  }

  class Layer {
    var index: map<nat, BorderNode>
    ghost var Repr: set<object>

    ghost predicate Valid()
      reads this, Repr
      ensures Valid() ==> this in Repr
      decreases Repr
    {
      && this in Repr
      && (forall s | s in index ::
            index[s] in Repr && index[s].Repr <= Repr && this !in index[s].Repr && index[s].Valid())
      && (forall s, t | s in index && t in index && s != t :: index[s].Repr !! index[t].Repr)
    }

    /** getValueOfPartialKey as a function: the value the trie below this layer gives a key. */
    ghost function Find(key: Key): Option<Value>
      requires Valid()
      reads Repr
      decreases |key|, 1
    {
      if Slice(key) in index then index[Slice(key)].Find(key) else None
    }

    constructor ()
      ensures Valid() && fresh(Repr) && index == map[] && forall k: Key :: Find(k) == None
    {
      index := map[];
      Repr := {this};
    }

    /** Iput of a new border node under a slice that has none. */
    method InsertNode(keyslice: nat, bnode: BorderNode)
      requires Valid() && bnode.Valid() && bnode.Repr !! Repr && keyslice !in index
      modifies this
      ensures Valid() && Repr == old(Repr) + bnode.Repr && index == old(index)[keyslice := bnode]
      ensures forall k: Key :: Find(k) == if Slice(k) == keyslice then bnode.Find(k) else old(Find(k))
    {
      index := index[keyslice := bnode];
      Repr := Repr + bnode.Repr;
    }

    /** The part of put for a slice that has a border node. */
    method PutInNode(keyslice: nat, key: Key, v: Value)
      requires Valid() && keyslice in index && keyslice == Slice(key)
      modifies Repr
      ensures Valid() && fresh(Repr - old(Repr))
      ensures forall k: Key :: Find(k) == if k == key then Some(v) else old(Find(k))
      decreases |key|, 1
    {
      var bnode := index[keyslice];
      bnode.Put(key, v);
      Repr := Repr + bnode.Repr;
    }

    /** put: the map update, whatever the key and whatever is stored. */
    method Put(key: Key, v: Value)
      requires Valid()
      modifies Repr
      ensures Valid() && fresh(Repr - old(Repr))
      ensures forall k: Key :: Find(k) == if k == key then Some(v) else old(Find(k))
      decreases |key|, 2
    {
      var keyslice := GetNextKeySlice(key);
      if keyslice in index {
        PutInNode(keyslice, key, v);
      } else {
        var bnode := NodeOf(key, v);
        InsertNode(keyslice, bnode);
      }
    }
  }
}
