/**
 The tail queue of server/queue.h. A `struct type **` is the address of a cell that holds an
 element pointer: the first-field of a head or the next-field of an element. TAILQ_LAST and
 TAILQ_PREV read the pointer that lies right behind such a cell, whichever of the two it is.
 */
module TailQueues {
  import opened Bytes

  /** The address of a cell; Unset is the value of a link never assigned. */
  datatype Cell = Unset | FirstOf(head: Head) | NextOf(elem: Elem)

  /** TAILQ_ENTRY */
  class Elem {
    var next: Elem?
    var prev: Cell

    constructor ()
      ensures next == null && prev == Unset
    {
      next := null;
      prev := Unset;
    }
  }

  function Holder(c: Cell): set<object> {
    match c
    case Unset => {}
    case FirstOf(h) => {h}
    case NextOf(e) => {e}
  }

  /** *c */
  function Load(c: Cell): Elem?
    requires !c.Unset?
    reads Holder(c)
  {
    match c
    case FirstOf(h) => h.first
    case NextOf(e) => e.next
  }

  /** ((struct headname *) c)->tqh_last: the field after the cell, in a head or in an element. */
  function Behind(c: Cell): Cell
    requires !c.Unset?
    reads Holder(c)
  {
    match c
    case FirstOf(h) => h.last
    case NextOf(e) => e.prev
  }

  /** *c = v */
  method Store(c: Cell, v: Elem?)
    requires !c.Unset?
    modifies Holder(c)
    ensures Load(c) == v
    ensures c.FirstOf? ==> c.head.last == old(c.head.last) && c.head.items == old(c.head.items)
    ensures c.NextOf? ==> c.elem.prev == old(c.elem.prev)
  {
    match c
    case FirstOf(h) => h.first := v;
    case NextOf(e) => e.next := v;
  }

  ghost function ItemAt(items: seq<Elem>, i: int): Elem? {
    if 0 <= i < |items| then items[i] else null
  }

  /** The cell that points, or would point, to position i of the queue of `h`. */
  ghost function CellBefore(h: Head, items: seq<Elem>, i: int): Cell
    requires i <= |items|
  {
    if i <= 0 then FirstOf(h) else NextOf(items[i - 1])
  }

  /** What is at, after and before position i once `x` is put in at position k. */
  lemma InsertedAround(h: Head, was: seq<Elem>, x: Elem, k: nat, i: nat)
    requires k <= |was| && i <= |was|
    ensures var items := was[..k] + [x] + was[k..];
            && items[i] == (if i < k then was[i] else if i == k then x else was[i - 1])
            && ItemAt(items, i + 1) == (if i == k - 1 then x else ItemAt(was, if i < k then i + 1 else i))
            && CellBefore(h, items, i) == (if i == k + 1 then NextOf(x) else CellBefore(h, was, if i <= k then i else i - 1))
  {
  }

  lemma InsertedDistinct(was: seq<Elem>, x: Elem, k: nat)
    requires Distinct(was) && x !in was && k <= |was|
    ensures Distinct(was[..k] + [x] + was[k..])
  {
    var items := was[..k] + [x] + was[k..];
    assert forall i :: 0 <= i < |items| ==> items[i] == if i < k then was[i] else if i == k then x else was[i - 1];
  }

  /** Links as they are once `elm` is linked in at position k of what was `was` make a well-formed queue. */
  lemma LinkedIn(h: Head, was: seq<Elem>, elm: Elem, k: nat)
    requires Distinct(was) && elm !in was && k <= |was|
    requires h.items == was[..k] + [elm] + was[k..]
    requires h.first == if k == 0 then elm else was[0]
    requires h.last == if k == |was| then NextOf(elm) else NextOf(was[|was| - 1])
    requires elm.next == ItemAt(was, k) && elm.prev == CellBefore(h, was, k)
    requires forall i {:trigger was[i].next} :: 0 <= i < |was| ==>
               was[i].next == if i == k - 1 then elm else ItemAt(was, i + 1)
    requires forall i {:trigger was[i].prev} :: 0 <= i < |was| ==>
               was[i].prev == if i == k then NextOf(elm) else CellBefore(h, was, i)
    ensures h.Valid()
  {
    InsertedDistinct(was, elm, k);
    assert h.first == ItemAt(h.items, 0) && h.last == CellBefore(h, h.items, |h.items|);
    hide ItemAt, CellBefore, Distinct;
    forall i | 0 <= i < |h.items|
      ensures h.items[i].next == ItemAt(h.items, i + 1) && h.items[i].prev == CellBefore(h, h.items, i)
    {
      InsertedAround(h, was, elm, k, i);
    }
  }

  /** What is at, after and before position i once position k is taken out. */
  lemma RemovedAround(h: Head, was: seq<Elem>, k: nat, i: nat)
    requires k < |was| && i < |was| - 1
    ensures var items := was[..k] + was[k + 1..];
            && items[i] == was[if i < k then i else i + 1]
            && ItemAt(items, i + 1) == ItemAt(was, if i < k - 1 then i + 1 else i + 2)
            && CellBefore(h, items, i) == CellBefore(h, was, if i <= k then i else i + 1)
  {
  }

  lemma RemovedDistinct(was: seq<Elem>, k: nat)
    requires Distinct(was) && k < |was|
    ensures Distinct(was[..k] + was[k + 1..])
  {
    var items := was[..k] + was[k + 1..];
    assert forall i :: 0 <= i < |items| ==> items[i] == was[if i < k then i else i + 1];
  }

  /** Links as they are once position k of what was `was` is linked out make a well-formed queue. */
  lemma LinkedOut(h: Head, was: seq<Elem>, k: nat)
    requires Distinct(was) && k < |was|
    requires h.items == was[..k] + was[k + 1..]
    requires h.first == ItemAt(was, if k == 0 then 1 else 0)
    requires h.last == CellBefore(h, was, if k + 1 == |was| then k else |was|)
    requires forall i {:trigger was[i].next} :: 0 <= i < |was| && i != k ==>
               was[i].next == ItemAt(was, if i == k - 1 then k + 1 else i + 1)
    requires forall i {:trigger was[i].prev} :: 0 <= i < |was| && i != k ==>
               was[i].prev == CellBefore(h, was, if i == k + 1 then k else i)
    ensures h.Valid()
  {
    RemovedDistinct(was, k);
    assert h.first == ItemAt(h.items, 0) && h.last == CellBefore(h, h.items, |h.items|);
    hide ItemAt, CellBefore, Distinct;
    forall i | 0 <= i < |h.items|
      ensures h.items[i].next == ItemAt(h.items, i + 1) && h.items[i].prev == CellBefore(h, h.items, i)
    {
      RemovedAround(h, was, k, i);
    }
  }

  /** TAILQ_HEAD, with the sequence it stands for. */
  class Head {
    var first: Elem?
    var last: Cell
    ghost var items: seq<Elem>

    /**
     Well-formedness: every tqe_prev is the address of the cell that points to its element,
     tqh_last is the address of the cell that holds the final NULL, and no element is twice.
     */
    ghost predicate Valid()
      reads this, items
    {
      && Distinct(items)
      && first == ItemAt(items, 0)
      && last == CellBefore(this, items, |items|)
      && (forall i {:trigger items[i].next} :: 0 <= i < |items| ==> items[i].next == ItemAt(items, i + 1))
      && (forall i {:trigger items[i].prev} :: 0 <= i < |items| ==> items[i].prev == CellBefore(this, items, i))
    }

    /** TAILQ_INIT */
    constructor ()
      ensures Valid() && items == []
    {
      first := null;
      last := Unset;
      items := [];
      new;
      last := FirstOf(this);
    }

    /** TAILQ_INSERT_HEAD */
    method InsertHead(elm: Elem)
      requires Valid() && elm !in items
      modifies this, items, elm
      ensures Valid() && items == [elm] + old(items)
    {
      ghost var was := items;
      elm.next := first;
      if elm.next != null {
        first.prev := NextOf(elm);
      } else {
        last := NextOf(elm);
      }
      first := elm;
      elm.prev := FirstOf(this);
      items := [elm] + items;
      assert items == was[..0] + [elm] + was[0..];
      LinkedIn(this, was, elm, 0);
    }

    /** TAILQ_INSERT_TAIL */
    method InsertTail(elm: Elem)
      requires Valid() && elm !in items
      modifies this, elm, Holder(last)
      ensures Valid() && items == old(items) + [elm]
    {
      ghost var was := items;
      elm.next := null;
      elm.prev := last;
      Store(last, elm);
      last := NextOf(elm);
      items := items + [elm];
      assert items == was[..|was|] + [elm] + was[|was|..];
      LinkedIn(this, was, elm, |was|);
    }

    /** TAILQ_INSERT_AFTER the element at position k */
    method InsertAfter(listelm: Elem, elm: Elem, ghost k: nat)
      requires Valid() && elm !in items
      requires k < |items| && items[k] == listelm
      modifies this, items, elm
      ensures Valid() && items == old(items)[..k + 1] + [elm] + old(items)[k + 1..]
    {
      ghost var was := items;
      elm.next := listelm.next;
      if elm.next != null {
        elm.next.prev := NextOf(elm);
      } else {
        last := NextOf(elm);
      }
      listelm.next := elm;
      elm.prev := NextOf(listelm);
      items := items[..k + 1] + [elm] + items[k + 1..];
      LinkedIn(this, was, elm, k + 1);
    }

    /** TAILQ_INSERT_BEFORE the element at position k; the macro never looks at the head. */
    method InsertBefore(listelm: Elem, elm: Elem, ghost k: nat)
      requires Valid() && elm !in items
      requires k < |items| && items[k] == listelm
      modifies this, items, elm
      ensures Valid() && items == old(items)[..k] + [elm] + old(items)[k..]
    {
      ghost var was := items;
      elm.prev := listelm.prev;
      elm.next := listelm;
      Store(listelm.prev, elm);
      listelm.prev := NextOf(elm);
      items := items[..k] + [elm] + items[k..];
      LinkedIn(this, was, elm, k);
    }

    /** TAILQ_REMOVE of the element at position k */
    method Remove(elm: Elem, ghost k: nat)
      requires Valid()
      requires k < |items| && items[k] == elm
      modifies this, items
      ensures Valid() && items == old(items)[..k] + old(items)[k + 1..]
    {
      ghost var was := items;
      if elm.next != null {
        elm.next.prev := elm.prev;
      } else {
        last := elm.prev;
      }
      Store(elm.prev, elm.next);
      items := items[..k] + items[k + 1..];
      LinkedOut(this, was, k);
    }

    /** TAILQ_LAST: the last element, or NULL. */
    method Last() returns (e: Elem?)
      requires Valid()
      ensures e == if items == [] then null else items[|items| - 1]
    {
      e := Load(Behind(last));
    }

    /** TAILQ_PREV of the element at position k. */
    method Prev(elm: Elem, ghost k: nat) returns (e: Elem?)
      requires Valid()
      requires k < |items| && items[k] == elm
      ensures e == if k == 0 then null else items[k - 1]
    {
      e := Load(Behind(elm.prev));
    }

    /** TAILQ_FOREACH collects the sequence. */
    method Forward() returns (out: seq<Elem>)
      requires Valid()
      ensures out == items
    {
      out := [];
      var v := first;
      while v != null
        invariant |out| <= |items| && out == items[..|out|] && v == ItemAt(items, |out|)
        decreases |items| - |out|
      {
        out := out + [v];
        v := v.next;
      }
    }

    /** TAILQ_FOREACH_REVERSE collects the reverse of the same sequence. */
    method Backward() returns (out: seq<Elem>)
      requires Valid()
      ensures |out| == |items|
      ensures forall i :: 0 <= i < |out| ==> out[i] == items[|items| - 1 - i]
    {
      out := [];
      var v := Last();
      while v != null
        invariant |out| <= |items|
        invariant v == if |out| == |items| then null else items[|items| - 1 - |out|]
        invariant forall i :: 0 <= i < |out| ==> out[i] == items[|items| - 1 - i]
        decreases |items| - |out|
      {
        ghost var k := |items| - 1 - |out|;
        out := out + [v];
        v := Prev(v, k);
      }
    }
  }

  predicate Disjoint(a: seq<Elem>, b: seq<Elem>) {
    forall i, j :: 0 <= i < |a| && 0 <= j < |b| ==> a[i] != b[j]
  }

  lemma JoinedDistinct(a: seq<Elem>, b: seq<Elem>)
    requires Distinct(a) && Distinct(b) && Disjoint(a, b)
    ensures Distinct(a + b)
  {
  }

  /** Links as they are once `b` hangs on the last cell of `a` make a well-formed queue. */
  lemma LinkedOn(h: Head, a: seq<Elem>, b: seq<Elem>)
    requires Distinct(a) && Distinct(b) && Disjoint(a, b) && b != []
    requires h.items == a + b
    requires h.first == ItemAt(if a == [] then b else a, 0)
    requires h.last == NextOf(b[|b| - 1])
    requires forall i {:trigger a[i].next} :: 0 <= i < |a| ==> a[i].next == if i + 1 == |a| then b[0] else a[i + 1]
    requires forall i {:trigger a[i].prev} :: 0 <= i < |a| ==> a[i].prev == CellBefore(h, a, i)
    requires forall i {:trigger b[i].next} :: 0 <= i < |b| ==> b[i].next == ItemAt(b, i + 1)
    requires forall i {:trigger b[i].prev} :: 0 <= i < |b| ==>
               b[i].prev == if i == 0 then CellBefore(h, a, |a|) else NextOf(b[i - 1])
    ensures h.Valid()
  {
    JoinedDistinct(a, b);
    assert h.first == ItemAt(h.items, 0) && h.last == CellBefore(h, h.items, |h.items|);
    hide Distinct, Disjoint;
    forall i | 0 <= i < |h.items|
      ensures h.items[i].next == ItemAt(h.items, i + 1) && h.items[i].prev == CellBefore(h, h.items, i)
    {
      assert h.items[i] == if i < |a| then a[i] else b[i - |a|];
    }
  }

  /** TAILQ_CONCAT: all of head2 goes to the end of head1. */
  method Concat(head1: Head, head2: Head)
    requires head1 != head2 && head1.Valid() && head2.Valid()
    requires Disjoint(head1.items, head2.items)
    modifies head1, head2, head1.items, head2.items
    ensures head1.Valid() && head1.items == old(head1.items) + old(head2.items)
    ensures head2.Valid() && head2.items == []
  {
    if head2.first != null {
      ghost var a, b := head1.items, head2.items;
      Store(head1.last, head2.first);
      head2.first.prev := head1.last;
      head1.last := head2.last;
      head2.first := null;
      head2.last := FirstOf(head2);
      head1.items, head2.items := a + b, [];
      LinkedOn(head1, a, b);
    } else {
      assert head1.items + head2.items == head1.items;
    }
  }

  /** TAILQ_SWAP: the two heads exchange their elements. */
  method Swap(head1: Head, head2: Head)
    requires head1 != head2 && head1.Valid() && head2.Valid()
    requires Disjoint(head1.items, head2.items)
    modifies head1, head2, head1.items, head2.items
    ensures head1.Valid() && head1.items == old(head2.items)
    ensures head2.Valid() && head2.items == old(head1.items)
  {
    var swapFirst := head1.first;
    var swapLast := head1.last;
    head1.first := head2.first;
    head1.last := head2.last;
    head2.first := swapFirst;
    head2.last := swapLast;
    swapFirst := head1.first;
    if swapFirst != null {
      swapFirst.prev := FirstOf(head1);
    } else {
      head1.last := FirstOf(head1);
    }
    swapFirst := head2.first;
    if swapFirst != null {
      swapFirst.prev := FirstOf(head2);
    } else {
      head2.last := FirstOf(head2);
    }
    head1.items, head2.items := head2.items, head1.items;
  }
}
