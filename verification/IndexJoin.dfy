/** index_scan and index_join: the index maps keys to queues, and the join takes tuples out of
them. */
module IndexJoin {
  import opened Wrappers
  import opened Queue
  import opened CompositeIndex
  import opened JoinSpec
  import opened JoinPositions

  /** get_offset. */
  method FindOffset(attrs: Attributes, id: string, dom: Domain) returns (r: Offset)
    ensures r == GetOffset(attrs, id, dom)
  {
    if attrs == [] {
      return Exit;
    }
    var res := 0;
    while res < |attrs|
      invariant 0 <= res <= |attrs|
      invariant forall j | 0 <= j < res :: attrs[j].id != id
      invariant OffsetFrom(attrs, id, dom, res) == GetOffset(attrs, id, dom)
    {
      if attrs[res].id == id {
        return if dom == attrs[res].domain then At(res) else Exit;
      }
      res := res + 1;
    }
    r := Missing;
  }

  /** get_projection. */
  method GetProjection(attrs: Attributes, t: Tuple, proj: Attributes) returns (k: Key)
    requires Typed(attrs, t) && Resolves(attrs, proj) && proj != []
    ensures k == Projection(attrs, t, proj)
    decreases |proj|
  {
    var ofs := FindOffset(attrs, proj[0].id, proj[0].domain);
    assert Found(attrs, proj[0]);
    var current := t[ofs.i];
    if |proj| == 1 {
      return One(current);
    }
    assert forall i | 0 <= i < |proj| - 1 :: proj[1..][i] == proj[i + 1];
    var rest := GetProjection(attrs, t, proj[1..]);
    k := Pair(current, rest);
  }

  /** The queues are well formed and share nothing. */
  ghost predicate QueuesOk(queues: map<Key, Fifo<Tuple>>, objects: set<object>)
    reads objects
  {
    && (forall k {:trigger queues[k]} | k in queues ::
          queues[k] in objects && queues[k].Repr <= objects && queues[k].Valid())
    && (forall k, l {:trigger queues[k].Repr, queues[l].Repr} | k in queues && l in queues && k != l ::
          queues[k].Repr !! queues[l].Repr)
  }

  /** The index maps each key to its queue. */
  ghost predicate Leads(index: Index, sch: Schema, queues: map<Key, Fifo<Tuple>>)
    reads index, index.Repr
  {
    && index.Valid() && index.sch == sch
    && (forall k {:trigger index.Find(k)} | Fits(sch, k) ::
        index.Find(k) == if k in queues then Some(queues[k]) else None)
  }

  ghost predicate IndexOk(index: Index, sch: Schema, queues: map<Key, Fifo<Tuple>>, objects: set<object>)
    reads index, index.Repr, objects
  {
    Leads(index, sch, queues) && index.Repr !! objects && QueuesOk(queues, objects)
  }

  /** What is in the queue of a key. */
  ghost function Left(queues: map<Key, Fifo<Tuple>>, objects: set<object>, k: Key): seq<Tuple>
    requires QueuesOk(queues, objects)
    reads objects
  {
    if k in queues then queues[k].Contents() else []
  }

  /** The body of the loop of index_scan: a tuple goes to the end of the queue of its key. */
  method IndexTuple(index: Index, key: Key, t: Tuple, ghost queues: map<Key, Fifo<Tuple>>, ghost objects: set<object>)
    returns (ghost queues': map<Key, Fifo<Tuple>>, ghost objects': set<object>)
    requires IndexOk(index, index.sch, queues, objects) && Fits(index.sch, key)
    modifies index.Repr, objects
    ensures IndexOk(index, index.sch, queues', objects')
    ensures fresh(index.Repr - old(index.Repr)) && fresh(objects' - objects)
    ensures forall k :: Left(queues', objects', k) == old(Left(queues, objects, k)) + if k == key then [t] else []
  {
    var l;
    l, queues', objects' := QueueTuple(index, key, t, queues, objects);
    Enter(index, key, l, queues);
  }

  /** The tuple goes to the end of the queue of its key, which the index may not lead to yet. */
  method QueueTuple(index: Index, key: Key, t: Tuple, ghost queues: map<Key, Fifo<Tuple>>, ghost objects: set<object>)
    returns (l: Fifo<Tuple>, ghost queues': map<Key, Fifo<Tuple>>, ghost objects': set<object>)
    requires IndexOk(index, index.sch, queues, objects) && Fits(index.sch, key)
    modifies objects
    ensures Leads(index, index.sch, queues) && index.Repr !! objects'
    ensures QueuesOk(queues', objects') && queues' == queues[key := l] && fresh(objects' - objects)
    ensures forall k :: Left(queues', objects', k) == old(Left(queues, objects, k)) + if k == key then [t] else []
  {
    l, queues', objects' := FindOrNew(index, key, queues, objects);
    objects' := PutLast(l, key, t, queues', objects');
  }

  /** index_insert: the key leads to its queue. */
  method Enter(index: Index, key: Key, l: Fifo<Tuple>, ghost queues: map<Key, Fifo<Tuple>>)
    requires Leads(index, index.sch, queues) && Fits(index.sch, key)
    modifies index.Repr
    ensures Leads(index, index.sch, queues[key := l]) && fresh(index.Repr - old(index.Repr))
  {
    index.Insert(key, l);
  }

  /** The queue of a key, a new one if it has none. */
  method FindOrNew(index: Index, key: Key, ghost queues: map<Key, Fifo<Tuple>>, ghost objects: set<object>)
    returns (l: Fifo<Tuple>, ghost queues': map<Key, Fifo<Tuple>>, ghost objects': set<object>)
    requires IndexOk(index, index.sch, queues, objects) && Fits(index.sch, key)
    ensures QueuesOk(queues', objects') && queues' == queues[key := l] && fresh(objects' - objects)
    ensures forall k :: Left(queues', objects', k) == Left(queues, objects, k)
  {
    var found := index.Lookup(key);
    assert index.Find(key) == found;
    if found.None? {
      l := new Fifo<Tuple>();
    } else {
      l := found.value;
    }
    queues' := queues[key := l];
    objects' := objects + l.Repr;
  }

  /** The tuple goes to the end of the queue of its key. */
  method PutLast(l: Fifo<Tuple>, key: Key, t: Tuple, ghost queues: map<Key, Fifo<Tuple>>, ghost objects: set<object>)
    returns (ghost objects': set<object>)
    requires QueuesOk(queues, objects) && key in queues && queues[key] == l
    modifies objects
    ensures QueuesOk(queues, objects') && fresh(objects' - objects)
    ensures forall k :: Left(queues, objects', k) == old(Left(queues, objects, k)) + if k == key then [t] else []
  {
    var e := new Elem(t);
    l.Put(e);
    objects' := objects + {e};
    assert forall k | k in queues && k != key :: queues[k].Repr == old(queues[k].Repr) && queues[k].Valid();
  }

  /** One turn of that loop. */
  method IndexNext(index: Index, attrs: Attributes, t: Tuple, on: Attributes, ghost done: seq<Tuple>,
                   ghost queues: map<Key, Fifo<Tuple>>, ghost objects: set<object>)
    returns (ghost queues': map<Key, Fifo<Tuple>>, ghost objects': set<object>)
    requires Typed(attrs, t) && AllTyped(attrs, done) && Resolves(attrs, on) && on != []
    requires IndexOk(index, GetSchema(on), queues, objects)
    requires forall k :: Left(queues, objects, k) == WithKey(attrs, done, on, k)
    modifies index.Repr, objects
    ensures IndexOk(index, GetSchema(on), queues', objects')
    ensures fresh(index.Repr - old(index.Repr)) && fresh(objects' - objects)
    ensures AllTyped(attrs, done + [t])
    ensures forall k :: Left(queues', objects', k) == WithKey(attrs, done + [t], on, k)
  {
    var proj := GetProjection(attrs, t, on);
    ProjectionFits(attrs, t, on, on);
    queues', objects' := IndexTuple(index, proj, t, queues, objects);
    assert (done + [t])[..|done|] == done;
  }

  /** index_scan on the tuples a sequential scan delivers: a key's queue has just those with the key,
  each once, in the order they come. */
  method IndexScan(attrs: Attributes, tuples: seq<Tuple>, on: Attributes)
    returns (index: Index, ghost queues: map<Key, Fifo<Tuple>>, ghost objects: set<object>)
    requires AllTyped(attrs, tuples) && Resolves(attrs, on) && on != []
    ensures IndexOk(index, GetSchema(on), queues, objects) && fresh(index.Repr) && fresh(objects)
    ensures forall k :: Left(queues, objects, k) == WithKey(attrs, tuples, on, k)
    ensures forall k :: Selects(attrs, tuples, on, k, Left(queues, objects, k))
  {
    index, queues, objects := IndexTuples(attrs, tuples, on);
    SelectsAll(attrs, tuples, on);
  }

  /** The loop of index_scan. */
  method IndexTuples(attrs: Attributes, tuples: seq<Tuple>, on: Attributes)
    returns (index: Index, ghost queues: map<Key, Fifo<Tuple>>, ghost objects: set<object>)
    requires AllTyped(attrs, tuples) && Resolves(attrs, on) && on != []
    ensures IndexOk(index, GetSchema(on), queues, objects) && fresh(index.Repr) && fresh(objects)
    ensures forall k :: Left(queues, objects, k) == WithKey(attrs, tuples, on, k)
  {
    index := new Index(GetSchema(on));
    queues, objects := map[], {};
    var i := 0;
    while i < |tuples|
      invariant 0 <= i <= |tuples|
      invariant IndexOk(index, GetSchema(on), queues, objects) && fresh(index.Repr) && fresh(objects)
      invariant forall k :: Left(queues, objects, k) == WithKey(attrs, tuples[..i], on, k)
    {
      queues, objects := IndexNext(index, attrs, tuples[i], on, tuples[..i], queues, objects);
      assert tuples[..i] + [tuples[i]] == tuples[..i + 1];
      i := i + 1;
    }
    assert tuples[..i] == tuples;
  }
}
