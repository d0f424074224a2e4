/** Indices on one or more attributes: a table on the first attribute whose entries are, for a
composite key, indices on the remaining attributes. */
module CompositeIndex {
  import opened Wrappers
  import opened HashChain
  import opened Queue

  datatype Domain = Int | Str

  datatype Field = IntField(n: nat) | StrField(s: string)

  type Tuple = seq<Field>

  /** What get_schema builds: one domain per attribute, nested to the right. */
  datatype Schema = Simple(d: Domain) | TupleOf(d: Domain, rest: Schema)

  /** What get_projection builds. */
  datatype Key = One(f: Field) | Pair(f: Field, rest: Key)

  /** void* entries of an index. */
  datatype Value = Sub(index: Index) | List(fifo: Fifo<Tuple>)

  predicate Has(d: Domain, f: Field) {
    match d
    case Int => f.IntField?
    case Str => f.StrField?
  }

  predicate Fits(sch: Schema, key: Key) {
    match sch
    case Simple(d) => key.One? && Has(d, key.f)
    case TupleOf(d, rest) => key.Pair? && Has(d, key.f) && Fits(rest, key.rest)
  }

  /** The index on a single attribute is a hash table for integers, a list for strings. */
  datatype Table = Hash(h: IntHash<Value>) | Strings(l: Chain<string, Value>)

  /** An index on a single attribute: whichever structure it is, it is a map. */
  class FieldTable {
    const d: Domain
    const t: Table
    ghost var entries: map<Field, Value>
    ghost var Repr: set<object>

    ghost predicate Parts()
      reads this, Repr
    {
      match t
      case Hash(h) => d == Int && h in Repr && h.Repr <= Repr && this !in h.Repr && h.Valid()
      case Strings(l) => d == Str && l in Repr && l.Repr <= Repr && this !in l.Repr && l.Valid()
    }

    ghost predicate Valid()
      reads this, Repr
      ensures Valid() ==> this in Repr
    {
      this in Repr && Parts() && forall f {:trigger Agrees(f)} :: Agrees(f)
    }

    /** The table holds the entry of a field. */
    ghost predicate Agrees(f: Field)
      requires Parts()
      reads this, Repr
    {
      && (f in entries ==> Has(d, f))
      && (Has(d, f) ==> Stored(f) == if f in entries then Some(entries[f]) else None)
    }

    ghost function Stored(f: Field): Option<Value>
      requires Parts() && Has(d, f)
      reads this, Repr
    {
      match t
      case Hash(h) => h.Get(f.n)
      case Strings(l) => l.Get(f.s)
    }

    /** inthash_new or stringlist_new. */
    constructor (d: Domain)
      ensures Valid() && fresh(Repr) && this.d == d && entries == map[]
    {
      this.d := d;
      entries := map[];
      if d == Int {
        var h := new IntHash<Value>();
        t := Hash(h);
        Repr := {this} + h.Repr;
      } else {
        var l := new Chain<string, Value>();
        t := Strings(l);
        Repr := {this} + l.Repr;
      }
    }

    /** inthash_lookup or stringlist_lookup, as the schema says. */
    method Lookup(f: Field) returns (v: Option<Value>)
      requires Valid() && Has(d, f)
      ensures v == if f in entries then Some(entries[f]) else None
    {
      assert Agrees(f);
      match t {
        case Hash(h) => v := h.Lookup(f.n);
        case Strings(l) => v := l.Lookup(f.s);
      }
    }

    /** inthash_insert or stringlist_insert, as the schema says. */
    method Insert(f: Field, v: Value)
      requires Valid() && Has(d, f)
      modifies Repr
      ensures Valid() && fresh(Repr - old(Repr)) && entries == old(entries)[f := v]
    {
      match t {
        case Hash(h) => InsertInt(h, f.n, v);
        case Strings(l) => InsertStr(l, f.s, v);
      }
    }

    method InsertInt(h: IntHash<Value>, n: nat, v: Value)
      requires Valid() && t == Hash(h)
      modifies Repr
      ensures Valid() && fresh(Repr - old(Repr)) && entries == old(entries)[IntField(n) := v]
    {
      assert forall f :: Agrees(f);
      var before := h.Insert(n, Some(v));
      Repr := Repr + h.Repr;
      entries := entries[IntField(n) := v];
      forall f ensures Agrees(f) {
        assert old(Agrees(f));
      }
    }

    method InsertStr(l: Chain<string, Value>, s: string, v: Value)
      requires Valid() && t == Strings(l)
      modifies Repr
      ensures Valid() && fresh(Repr - old(Repr)) && entries == old(entries)[StrField(s) := v]
    {
      assert forall f :: Agrees(f);
      var before := l.Insert(s, Some(v));
      Repr := Repr + l.Repr;
      entries := entries[StrField(s) := v];
      forall f ensures Agrees(f) {
        assert old(Agrees(f));
      }
    }
  }

  /** The entries of the table on the first attribute: queues, or well-formed indices on the other
  attributes that share nothing. */
  ghost predicate EntriesOk(sch: Schema, entries: map<Field, Value>, objects: set<object>)
    reads objects
    decreases objects, 1
  {
    && (forall f | f in entries :: sch.Simple? <==> entries[f].List?)
    && (forall f | f in entries && entries[f].Sub? ::
          var i := entries[f].index;
          i in objects && i.Repr <= objects && i.sch == sch.rest && i.Valid())
    && (forall f, g | f in entries && g in entries && f != g && entries[f].Sub? && entries[g].Sub? ::
          entries[f].index.Repr !! entries[g].index.Repr)
  }

  /** The queue that the entries lead a key to. */
  ghost function FindIn(sch: Schema, entries: map<Field, Value>, objects: set<object>, key: Key): Option<Fifo<Tuple>>
    requires EntriesOk(sch, entries, objects)
    reads objects
    decreases key, 0
  {
    if key.f !in entries then None
    else match entries[key.f]
      case List(q) => if key.One? then Some(q) else None
      case Sub(i) => if key.Pair? then i.Find(key.rest) else None
  }

  /** An index on several attributes: the table on the first attribute, whose entries are indices on
  the others; on one attribute it is just a table, whose entries are the queues. */
  class Index {
    const sch: Schema
    const table: FieldTable
    ghost var below: set<object>        // the objects of the indices in the table
    ghost var Repr: set<object>

    ghost predicate Valid()
      reads this, Repr
      ensures Valid() ==> this in Repr
      decreases Repr, 0
    {
      && this in Repr && table in Repr && table.Repr <= Repr && below <= Repr
      && this !in table.Repr && this !in below && table.Repr !! below
      && table.Valid() && table.d == sch.d && EntriesOk(sch, table.entries, below)
    }

    /** The queue a key leads to. */
    ghost function Find(key: Key): Option<Fifo<Tuple>>
      requires Valid()
      reads Repr
      decreases key, 1
    {
      FindIn(sch, table.entries, below, key)
    }

    /** index_new. */
    constructor (sch: Schema)
      ensures Valid() && fresh(Repr) && this.sch == sch && forall k :: Find(k) == None
    {
      this.sch := sch;
      var t := new FieldTable(sch.d);
      table := t;
      below := {};
      Repr := {this} + t.Repr;
    }

    /** index_lookup: directly on one attribute, and tuple_lookup_method on several. */
    method Lookup(key: Key) returns (r: Option<Fifo<Tuple>>)
      requires Valid() && Fits(sch, key)
      ensures r == Find(key)
      decreases key
    {
      var entry := table.Lookup(key.f);
      if entry == None {
        return None;
      }
      match entry.value {
        case List(q) => r := Some(q);
        case Sub(i) => r := i.Lookup(key.rest);
      }
    }

    /** index_insert: directly on one attribute, and tuple_insert_method on several. */
    method Insert(key: Key, fifo: Fifo<Tuple>)
      requires Valid() && Fits(sch, key)
      modifies Repr
      ensures Valid() && fresh(Repr - old(Repr))
      ensures forall k :: Find(k) == if k == key then Some(fifo) else old(Find(k))
      decreases key, 1
    {
      if sch.Simple? {
        InsertList(key.f, fifo);
      } else {
        var bindex := IndexBelow(key.f);
        InsertBelow(key, bindex, fifo);
      }
    }

    /** inthash_insert or stringlist_insert of a queue, on one attribute. */
    method InsertList(f: Field, fifo: Fifo<Tuple>)
      requires Valid() && sch.Simple? && Has(sch.d, f)
      modifies Repr
      ensures Valid() && fresh(Repr - old(Repr))
      ensures forall k :: Find(k) == if k == One(f) then Some(fifo) else old(Find(k))
    {
      table.Insert(f, List(fifo));
      Repr := Repr + table.Repr;
    }

    /** The part of tuple_insert_method that gets the index of a first component, a new one if it has
    none. */
    method IndexBelow(f: Field) returns (bindex: Index)
      requires Valid() && sch.TupleOf? && Has(sch.d, f)
      modifies Repr
      ensures Valid() && fresh(Repr - old(Repr)) && f in table.entries && table.entries[f] == Sub(bindex)
      ensures forall k :: Find(k) == old(Find(k))
    {
      var entry := table.Lookup(f);
      if entry == None {
        bindex := new Index(sch.rest);
        AddBelow(f, bindex);
      } else {
        bindex := entry.value.index;
      }
    }

    method AddBelow(f: Field, bindex: Index)
      requires Valid() && sch.TupleOf? && Has(sch.d, f) && f !in table.entries
      requires bindex.Valid() && bindex.sch == sch.rest && bindex.Repr !! Repr && forall k :: bindex.Find(k) == None
      modifies this`Repr, this`below, table.Repr
      ensures Valid() && fresh(Repr - old(Repr) - bindex.Repr) && table.entries == old(table.entries)[f := Sub(bindex)]
      ensures forall k :: Find(k) == old(Find(k))
    {
      ghost var was, objects := table.entries, below;
      AddEntry(f, bindex);
      OneMoreEntry(sch, was, objects, f, bindex);
      below := below + bindex.Repr;
      Repr := Repr + bindex.Repr;
    }

    method AddEntry(f: Field, bindex: Index)
      requires Valid() && Has(sch.d, f) && bindex.Valid() && bindex.Repr !! Repr
      modifies this`Repr, table.Repr
      ensures this in Repr && table in Repr && table.Repr <= Repr && below <= Repr && bindex.Repr !! Repr
      ensures this !in table.Repr && this !in below && table.Repr !! below && fresh(Repr - old(Repr))
      ensures table.Valid() && table.d == sch.d && table.entries == old(table.entries)[f := Sub(bindex)]
      ensures EntriesOk(sch, old(table.entries), below)
      ensures forall k :: FindIn(sch, old(table.entries), below, k) == old(Find(k))
      ensures bindex.Valid() && forall k :: bindex.Find(k) == old(bindex.Find(k))
    {
      table.Insert(f, Sub(bindex));
      Repr := Repr + table.Repr;
    }

    /** The index for the first component takes the rest of the key. */
    method InsertBelow(key: Key, bindex: Index, fifo: Fifo<Tuple>)
      requires Valid() && sch.TupleOf? && Fits(sch, key) && key.f in table.entries
               && table.entries[key.f] == Sub(bindex)
      modifies Repr
      ensures Valid() && fresh(Repr - old(Repr))
      ensures forall k :: Find(k) == if k == key then Some(fifo) else old(Find(k))
      decreases key, 0, 1
    {
      below := InsertSub(sch, table.entries, below, key, bindex, fifo);
      Repr := Repr + below;
    }
  }

  /** A new, empty index under a first component that had none changes no queue. */
  lemma OneMoreEntry(sch: Schema, entries: map<Field, Value>, objects: set<object>, f: Field, bindex: Index)
    requires EntriesOk(sch, entries, objects) && sch.TupleOf? && f !in entries
    requires bindex.Valid() && bindex.sch == sch.rest && bindex.Repr !! objects && forall k :: bindex.Find(k) == None
    ensures EntriesOk(sch, entries[f := Sub(bindex)], objects + bindex.Repr)
    ensures forall k ::
              FindIn(sch, entries[f := Sub(bindex)], objects + bindex.Repr, k) == FindIn(sch, entries, objects, k)
  {
  }

  /** The insertion into one of the indices of a table, seen from the table. */
  method InsertSub(sch: Schema, ghost entries: map<Field, Value>, ghost objects: set<object>, key: Key, bindex: Index,
                   fifo: Fifo<Tuple>)
    returns (ghost objects': set<object>)
    requires EntriesOk(sch, entries, objects) && Fits(sch, key) && sch.TupleOf?
    requires key.f in entries && entries[key.f] == Sub(bindex)
    modifies objects
    ensures objects <= objects' && fresh(objects' - objects) && EntriesOk(sch, entries, objects')
    ensures forall k :: FindIn(sch, entries, objects', k) ==
                        if k == key then Some(fifo) else old(FindIn(sch, entries, objects, k))
    decreases key, 0, 0
  {
    bindex.Insert(key.rest, fifo);
    objects' := objects + bindex.Repr;
    assert forall f | f in entries && f != key.f :: entries[f].index.Repr == old(entries[f].index.Repr);
  }
}
