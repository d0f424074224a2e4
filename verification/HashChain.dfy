/** Chained hash tables from words, and association lists from strings, to pointers. */
module HashChain {
  import opened Wrappers

  const N := 10

  class Cell<K(==, !new), V> {
    const key: K
    var value: Option<V>     // None is the null pointer
    var next: Cell?<K, V>

    constructor (key: K, value: Option<V>, next: Cell?<K, V>)
      ensures this.key == key && this.value == value && this.next == next
    {
      this.key, this.value, this.next := key, value, next;
    }
  }

  /** A slot that points to a list of cells: a bucket of a hash table, or the root of a list. */
  class Chain<K(==, !new), V> {
    var root: Cell?<K, V>
    ghost var cells: seq<Cell<K, V>>
    ghost var at: map<K, nat>          // where each key is in the list
    ghost var Repr: set<object>

    ghost predicate Valid()
      reads this, Repr
      ensures Valid() ==> this in Repr
    {
      && this in Repr
      && (forall i | 0 <= i < |cells| :: cells[i] in Repr)
      && (forall i | 0 <= i < |cells| :: cells[i].key in at && at[cells[i].key] == i)
      && (forall k | k in at :: at[k] < |cells| && cells[at[k]].key == k)
      && root == At(0)
      && (forall i {:trigger cells[i].next} | 0 <= i < |cells| :: cells[i].next == At(i + 1))
    }

    ghost function At(i: nat): Cell?<K, V>
      reads this
    {
      if i < |cells| then cells[i] else null
    }

    /** The pointer stored under a key. */
    ghost function Get(key: K): Option<V>
      requires Valid()
      reads this, Repr
    {
      if key in at then cells[at[key]].value else None
    }

    constructor ()
      ensures Valid() && fresh(Repr) && forall k :: Get(k) == None
    {
      root := null;
      cells := [];
      at := map[];
      Repr := {this};
    }

    /** The loop of inthash_lookup, and stringlist_lookup. */
    method Lookup(key: K) returns (value: Option<V>)
      requires Valid()
      ensures value == Get(key)
    {
      var q := root;
      ghost var i := 0;
      while q != null
        invariant 0 <= i <= |cells| && q == At(i)
        invariant forall j | 0 <= j < i :: cells[j].key != key
        decreases |cells| - i
      {
        if q.key == key {
          return q.value;
        }
        q := q.next;
        i := i + 1;
      }
      value := None;
    }

    /** inthash_insert_list: the cell of a key, a new one at the end of the list if need be. */
    method InsertList(key: K) returns (p: Cell<K, V>)
      requires Valid()
      modifies Repr
      ensures Valid() && fresh(Repr - old(Repr))
      ensures key in at && p == cells[at[key]] && p.value == old(Get(key))
      ensures forall k: K :: Get(k) == old(Get(k))
    {
      var q := root;
      var prev: Cell?<K, V> := null;
      ghost var i := 0;
      while q != null
        invariant 0 <= i <= |cells| && q == At(i)
        invariant prev == if i == 0 then null else cells[i - 1]
        invariant forall j | 0 <= j < i :: cells[j].key != key
        decreases |cells| - i
      {
        if q.key == key {
          return q;
        }
        prev := q;
        q := q.next;
        i := i + 1;
      }
      p := Append(prev, key);
    }

    /** The end of that loop: a new cell with a null value after the last one. */
    method Append(prev: Cell?<K, V>, key: K) returns (p: Cell<K, V>)
      requires Valid() && key !in at && prev == if cells == [] then null else cells[|cells| - 1]
      modifies Repr
      ensures Valid() && fresh(Repr - old(Repr))
      ensures key in at && p == cells[at[key]] && p.value == None
      ensures forall k: K :: Get(k) == old(Get(k))
    {
      p := new Cell(key, None, null);
      if prev == null {
        root := p;
      } else {
        prev.next := p;
      }
      at := at[key := |cells|];
      cells := cells + [p];
      Repr := Repr + {p};
    }

    /** What inthash_insert does to a bucket, and stringlist_insert to its list; the pointer that
    was there is returned. */
    method Insert(key: K, value: Option<V>) returns (before: Option<V>)
      requires Valid()
      modifies Repr
      ensures Valid() && fresh(Repr - old(Repr))
      ensures before == old(Get(key))
      ensures forall k: K :: Get(k) == if k == key then value else old(Get(k))
    {
      var q := InsertList(key);
      before := q.value;
      q.value := value;
    }
  }

  /** Slots that are well formed, and share nothing. */
  ghost predicate BucketsOk<V>(a: seq<Chain<nat, V>>, objects: set<object>)
    reads objects
  {
    && (forall i | 0 <= i < |a| :: a[i] in objects && a[i].Repr <= objects && a[i].Valid())
    && (forall i, j {:trigger a[i].Repr, a[j].Repr} | 0 <= i < j < |a| :: a[i].Repr !! a[j].Repr)
  }

  class IntHash<V> {
    const buckets: seq<Chain<nat, V>>
    ghost var Repr: set<object>

    ghost predicate Valid()
      reads this, Repr
      ensures Valid() ==> this in Repr
    {
      && this in Repr && |buckets| == N && BucketsOk(buckets, Repr)
      && (forall i | 0 <= i < N :: this !in buckets[i].Repr)
    }

    ghost function Get(key: nat): Option<V>
      requires Valid()
      reads Repr
    {
      buckets[key % N].Get(key)
    }

    /** inthash_new. */
    constructor ()
      ensures Valid() && fresh(Repr) && forall k: nat :: Get(k) == None
    {
      var a, objects := EmptyBuckets<V>();
      buckets := a;
      Repr := {this} + objects;
    }

    /** inthash_lookup. */
    method Lookup(key: nat) returns (value: Option<V>)
      requires Valid()
      ensures value == Get(key)
    {
      value := buckets[key % N].Lookup(key);
    }

    /** inthash_insert. */
    method Insert(key: nat, value: Option<V>) returns (before: Option<V>)
      requires Valid()
      modifies Repr
      ensures Valid() && fresh(Repr - old(Repr))
      ensures before == old(Get(key))
      ensures forall k: nat :: Get(k) == if k == key then value else old(Get(k))
    {
      before := InsertAt(key % N, key, value);
    }

    method InsertAt(h: nat, key: nat, value: Option<V>) returns (before: Option<V>)
      requires Valid() && h < N
      modifies Repr
      ensures Valid() && fresh(Repr - old(Repr)) && before == old(buckets[h].Get(key))
      ensures forall k: nat :: buckets[h].Get(k) == if k == key then value else old(buckets[h].Get(k))
      ensures forall i, k: nat | 0 <= i < N && i != h :: buckets[i].Get(k) == old(buckets[i].Get(k))
    {
      ghost var objects;
      before, objects := InsertInBucket(buckets, Repr, h, key, value);
      Repr := Repr + objects;
    }
  }

  /** The list of one bucket is changed; the others stay. */
  method InsertInBucket<V>(a: seq<Chain<nat, V>>, ghost objects: set<object>, h: nat, key: nat, value: Option<V>)
    returns (before: Option<V>, ghost objects': set<object>)
    requires BucketsOk(a, objects) && h < |a|
    modifies a[h].Repr
    ensures objects <= objects' && fresh(objects' - objects) && BucketsOk(a, objects')
    ensures before == old(a[h].Get(key)) && fresh(a[h].Repr - old(a[h].Repr))
    ensures forall k: nat :: a[h].Get(k) == if k == key then value else old(a[h].Get(k))
    ensures forall i | 0 <= i < |a| && i != h :: a[i].Repr == old(a[i].Repr)
    ensures forall i, k: nat | 0 <= i < |a| && i != h :: a[i].Get(k) == old(a[i].Get(k))
  {
    var b := a[h];
    before := b.Insert(key, value);
    objects' := objects + b.Repr;
    assert forall i | 0 <= i < |a| && i != h :: a[i].Repr == old(a[i].Repr);
  }

  /** The loop of inthash_new. */
  method EmptyBuckets<V>() returns (a: seq<Chain<nat, V>>, ghost objects: set<object>)
    ensures |a| == N && BucketsOk(a, objects) && fresh(objects)
    ensures forall i, k: nat | 0 <= i < N :: a[i].Get(k) == None
  {
    a, objects := [], {};
    var i := 0;
    while i < N
      invariant 0 <= i <= N && |a| == i && fresh(objects) && BucketsOk(a, objects)
      invariant forall j, k: nat | 0 <= j < i :: a[j].Get(k) == None
    {
      var c := new Chain<nat, V>();
      a := a + [c];
      objects := objects + c.Repr;
      i := i + 1;
    }
  }
}
