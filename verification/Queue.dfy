/** The linked queue that holds the tuples of one key. */
module Queue {

  class Elem<T> {
    const data: T
    var next: Elem?<T>
    ghost var place: int        // increasing along a queue

    /** make_elem. */
    constructor (data: T)
      ensures this.data == data
    {
      this.data := data;
      next := null;
    }
  }

  class Fifo<T> {
    var head: Elem?<T>
    var tail: Elem?<T>
    ghost var elems: seq<Elem<T>>     // the elements, first out first
    ghost var first: int              // the place of the first one
    ghost var Repr: set<object>

    ghost predicate Valid()
      reads this, Repr
      ensures Valid() ==> this in Repr
    {
      && this in Repr
      && (forall i {:trigger Linked(i)} | 0 <= i < |elems| :: Linked(i))
      && head == At(0)
      && (elems != [] ==> tail == elems[|elems| - 1])
    }

    /** Element i leads to the next one. */
    ghost predicate Linked(i: nat)
      reads this, Repr
    {
      i < |elems| && elems[i] in Repr && elems[i].next == At(i + 1) && elems[i].place == first + i
    }

    ghost function At(i: nat): Elem?<T>
      reads this
    {
      if i < |elems| then elems[i] else null
    }

    ghost function Contents(): seq<T>
      reads this
    {
      Data(elems)
    }

    /** fifo_new. */
    constructor ()
      ensures Valid() && fresh(Repr) && Contents() == []
    {
      head, tail := null, null;
      elems := [];
      first := 0;
      Repr := {this};
    }

    /** fifo_put. */
    method Put(p: Elem<T>)
      requires Valid() && p !in Repr
      modifies this, Repr, p
      ensures Valid() && Repr == old(Repr) + {p}
      ensures Contents() == old(Contents()) + [p.data]
    {
      p.next := null;
      var h := head;
      assert elems != [] ==> Linked(|elems| - 1);
      assert forall i | 0 <= i < |elems| :: Linked(i);
      if h == null {
        head := p;
        tail := p;
      } else {
        var t := tail;
        t.next := p;
        tail := p;
      }
      p.place := first + |elems|;
      elems := elems + [p];
      Repr := Repr + {p};
      forall i | 0 <= i < |elems| ensures Linked(i) {
        assert i < |elems| - 1 ==> old(Linked(i)) && (i < |elems| - 2 ==> old(Linked(i + 1)));
      }
    }

    /** fifo_empty. */
    method Empty() returns (empty: bool)
      requires Valid()
      ensures empty <==> Contents() == []
    {
      var h := head;
      empty := h == null;
    }

    /** fifo_get. */
    method Get() returns (h: Elem<T>)
      requires Valid() && Contents() != []
      modifies this
      ensures Valid() && Repr == old(Repr)
      ensures h.data == old(Contents())[0] && Contents() == old(Contents())[1..]
    {
      assert Linked(0);
      h := head;
      var n := h.next;
      head := n;
      elems := elems[1..];
      first := first + 1;
      forall i | 0 <= i < |elems| ensures Linked(i) {
        assert old(Linked(i + 1));
      }
    }
  }

  ghost function Data<T>(elems: seq<Elem<T>>): (s: seq<T>)
    ensures |s| == |elems| && forall i | 0 <= i < |s| :: s[i] == elems[i].data
  {
    seq(|elems|, i requires 0 <= i < |elems| => elems[i].data)
  }
}
