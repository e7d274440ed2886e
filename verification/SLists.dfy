/**
 The singly linked list of server/queue.h and the passes of run_server over it
 (server/aesdsocket.c). Memory is a map from addresses to live nodes, so following the
 link of a freed node is not expressible: every access needs the address in the map.
 */
module SLists {
  import opened Bytes

  /** A struct slist_data_s pointer: NULL or the address of a node. */
  datatype Link = End | To(addr: nat)

  /** struct slist_data_s: a thread's record and the sle_next link. */
  datatype Node = Node(record: nat, next: Link)

  type Memory = map<nat, Node>

  function LinkAt(items: seq<nat>, i: nat): Link {
    if i < |items| then To(items[i]) else End
  }

  /** Following the links from `first` visits exactly `items`, once each, and ends. */
  ghost predicate Linked(first: Link, nodes: Memory, items: seq<nat>) {
    && Distinct(items)
    && first == LinkAt(items, 0)
    && (forall i :: 0 <= i < |items| ==> items[i] in nodes)
    && (forall i {:trigger nodes[items[i]]} :: 0 <= i < |items| ==> nodes[items[i]].next == LinkAt(items, i + 1))
  }

  function Without(items: seq<nat>, a: nat): seq<nat> {
    if items == [] then [] else if items[0] == a then items[1..] else [items[0]] + Without(items[1..], a)
  }

  /** The elements for which `p` is `keep`, in order. */
  function Select(items: seq<nat>, p: nat -> bool, keep: bool): seq<nat> {
    if items == [] then []
    else
      var front := Select(items[..|items| - 1], p, keep);
      if p(items[|items| - 1]) == keep then front + [items[|items| - 1]] else front
  }

  function ElementSet(s: seq<nat>): set<nat> {
    set a | a in s
  }

  // ----- lemmas on links

  /** Leaving out position k of a list without repetitions. */
  lemma DropAt(items: seq<nat>, k: nat)
    requires Distinct(items) && k < |items|
    ensures Distinct(items[..k] + items[k + 1..])
    ensures forall u :: u in items[..k] + items[k + 1..] <==> u in items && u != items[k]
  {
    var out := items[..k] + items[k + 1..];
    assert forall i :: 0 <= i < |out| ==> out[i] == items[if i < k then i else i + 1];
    forall u | u in items && u != items[k]
      ensures u in out
    {
      var i :| 0 <= i < |items| && items[i] == u;
      assert u == out[if i < k then i else i - 1];
    }
  }

  /** Linking past position k takes it out of the list. */
  lemma UnlinkAt(first: Link, nodes: Memory, items: seq<nat>, k: nat)
    requires Linked(first, nodes, items) && 0 < k < |items|
    ensures var before := items[k - 1];
            Linked(first, nodes[before := nodes[before].(next := LinkAt(items, k + 1))], items[..k] + items[k + 1..])
  {
    var before := items[k - 1];
    var out := items[..k] + items[k + 1..];
    DropAt(items, k);
    assert forall i :: 0 <= i < |out| ==> out[i] == items[if i < k then i else i + 1];
    var nodes' := nodes[before := nodes[before].(next := LinkAt(items, k + 1))];
    forall i | 0 <= i < |out|
      ensures out[i] in nodes' && nodes'[out[i]].next == LinkAt(out, i + 1)
    {
      assert i != k - 1 ==> out[i] != before;
    }
  }

  lemma UnlinkFirst(first: Link, nodes: Memory, items: seq<nat>)
    requires Linked(first, nodes, items) && items != []
    ensures Linked(nodes[items[0]].next, nodes, items[1..])
    ensures items[0] !in items[1..]
  {
    var out := items[1..];
    assert forall i :: 0 <= i < |out| ==> out[i] == items[i + 1];
    assert forall i :: 0 <= i <= |out| ==> LinkAt(out, i) == LinkAt(items, i + 1);
  }

  lemma LinkFrom(first: Link, nodes: Memory, items: seq<nat>, i: nat)
    requires Linked(first, nodes, items) && i < |items|
    ensures items[i] in nodes && nodes[items[i]].next == LinkAt(items, i + 1)
    ensures Distinct(items)
  {
  }

  lemma ListStart(first: Link, nodes: Memory, items: seq<nat>)
    requires Linked(first, nodes, items)
    ensures first == LinkAt(items, 0)
  {
  }

  lemma SetGrows(s: seq<nat>, a: nat)
    ensures ElementSet(s + [a]) == ElementSet(s) + {a}
  {
  }

  /** One more element: it joins the kept or the taken, and the rest gets shorter. */
  lemma SelectStep(all: seq<nat>, k: nat, p: nat -> bool, keep: bool)
    requires k < |all|
    ensures Select(all[..k + 1], p, keep) == Select(all[..k], p, keep) + if p(all[k]) == keep then [all[k]] else []
  {
    assert all[..k + 1][..k] == all[..k];
  }

  /** Selecting takes exactly the elements with that flag, and no element twice. */
  lemma {:induction false} SelectExactly(items: seq<nat>, p: nat -> bool, keep: bool, a: nat)
    requires Distinct(items)
    ensures a in Select(items, p, keep) <==> a in items && p(a) == keep
    ensures Distinct(Select(items, p, keep))
  {
    if items != [] {
      var front, last := items[..|items| - 1], items[|items| - 1];
      SelectExactly(front, p, keep, a);
      SelectExactly(front, p, keep, last);
      assert a in items <==> a in front || a == last;
    }
  }

  /** x comes before y in the list. */
  ghost predicate Before(items: seq<nat>, x: nat, y: nat) {
    exists i, j :: 0 <= i < j < |items| && items[i] == x && items[j] == y
  }

  /** Selecting keeps the order of the list. */
  lemma {:induction false} SelectInOrder(items: seq<nat>, p: nat -> bool, keep: bool, x: nat, y: nat)
    requires Distinct(items) && Before(Select(items, p, keep), x, y)
    ensures Before(items, x, y)
  {
    var n := |items| - 1;
    var front, last, all := Select(items[..n], p, keep), items[n], Select(items, p, keep);
    var i, j :| 0 <= i < j < |all| && all[i] == x && all[j] == y;
    if j < |front| {
      assert front[i] == x && front[j] == y;
      SelectInOrder(items[..n], p, keep, x, y);
      var a, b :| 0 <= a < b < n && items[..n][a] == x && items[..n][b] == y;
      assert items[a] == x && items[b] == y;
    } else {
      SelectExactly(items[..n], p, keep, x);
      assert x in front;
      var a :| 0 <= a < n && items[..n][a] == x;
      assert items[a] == x && items[n] == y;
    }
  }

  lemma {:induction false} WithoutAt(items: seq<nat>, k: nat)
    requires Distinct(items) && k < |items|
    ensures Without(items, items[k]) == items[..k] + items[k + 1..]
  {
    if k > 0 {
      WithoutAt(items[1..], k - 1);
      assert items[..k] + items[k + 1..] == [items[0]] + (items[1..][..k - 1] + items[1..][k..]);
    } else {
      assert items[..0] + items[1..] == items[1..];
    }
  }

  lemma CursorEnds(all: seq<nat>, k: nat)
    requires k <= |all|
    ensures LinkAt(all, k) == End <==> k == |all|
    ensures k < |all| ==> LinkAt(all, k) == To(all[k])
  {
  }

  // ----- lemmas on the passes of run_server

  /** After k elements of `all` the pass has taken the flagged ones out and has not looked at the others yet. */
  ghost predicate PassAt(items: seq<nat>, reaped: seq<nat>, all: seq<nat>, p: nat -> bool, k: nat) {
    && k <= |all|
    && items == Select(all[..k], p, false) + all[k..]
    && reaped == Select(all[..k], p, true)
  }

  lemma PassStarts(all: seq<nat>, p: nat -> bool)
    ensures PassAt(all, [], all, p, 0)
  {
  }

  lemma PassEnds(items: seq<nat>, reaped: seq<nat>, all: seq<nat>, p: nat -> bool)
    requires PassAt(items, reaped, all, p, |all|)
    ensures items == Select(all, p, false) && reaped == Select(all, p, true)
  {
    hide Select;
    assert all[..|all|] == all && all[|all|..] == [];
  }

  /** The element under the cursor follows the kept ones; it is taken out or kept. */
  lemma PassGoesOn(items: seq<nat>, reaped: seq<nat>, all: seq<nat>, p: nat -> bool, k: nat) returns (at: nat)
    requires PassAt(items, reaped, all, p, k) && k < |all|
    ensures at < |items| && items[at] == all[k]
    ensures LinkAt(items, at + 1) == LinkAt(all, k + 1)
    ensures p(all[k]) ==> PassAt(items[..at] + items[at + 1..], reaped + [all[k]], all, p, k + 1)
    ensures !p(all[k]) ==> PassAt(items, reaped, all, p, k + 1)
  {
    hide Select;
    var kept := Select(all[..k], p, false);
    at := |kept|;
    SelectStep(all, k, p, false);
    SelectStep(all, k, p, true);
    assert items[..at] + items[at + 1..] == kept + all[k + 1..];
    assert items == kept + [all[k]] + all[k + 1..];
  }

  /** What is left of the memory `before` when `gone` have been freed: other links perhaps, but the same records. */
  ghost predicate Freed(before: Memory, nodes: Memory, gone: seq<nat>) {
    && nodes.Keys == before.Keys - ElementSet(gone)
    && (forall a :: a in nodes ==> nodes[a].record == before[a].record)
  }

  lemma NothingFreed(before: Memory)
    ensures Freed(before, before, [])
  {
  }

  /** Freeing one more. */
  lemma OneFreed(before: Memory, nodes: Memory, gone: seq<nat>, a: nat, nodes': Memory)
    requires Freed(before, nodes, gone) && nodes'.Keys == nodes.Keys - {a}
    requires forall b :: b in nodes' ==> nodes'[b].record == nodes[b].record
    ensures Freed(before, nodes', gone + [a])
  {
    hide ElementSet;
    SetGrows(gone, a);
  }

  lemma AllFreed(before: Memory, nodes: Memory, gone: seq<nat>)
    requires Freed(before, nodes, gone)
    ensures nodes.Keys == before.Keys - ElementSet(gone)
    ensures forall a :: a in nodes ==> a in before && nodes[a].record == before[a].record
  {
  }

  /** SLIST_HEAD(slisthead, slist_data_s) and the memory its nodes live in. */
  class ThreadList {
    var first: Link
    var nodes: Memory
    ghost var items: seq<nat>

    ghost predicate Valid()
      reads this
    {
      Linked(first, nodes, items)
    }

    /** SLIST_INIT */
    constructor ()
      ensures Valid() && items == [] && nodes == map[]
    {
      first := End;
      nodes := map[];
      items := [];
    }

    /** SLIST_INSERT_HEAD of a node that is allocated and not in the list. */
    method InsertHead(elm: nat)
      requires Valid()
      requires elm in nodes && elm !in items
      modifies this
      ensures Valid()
      ensures items == [elm] + old(items)
      ensures nodes == old(nodes)[elm := old(nodes)[elm].(next := old(first))]
    {
      nodes := nodes[elm := nodes[elm].(next := first)];
      first := To(elm);
      items := [elm] + items;
      assert forall i :: 0 < i <= |items| ==> LinkAt(items, i) == LinkAt(old(items), i - 1);
    }

    /** SLIST_REMOVE_HEAD */
    method RemoveHead()
      requires Valid() && items != []
      modifies this`first, this`items
      ensures Valid()
      ensures items == old(items)[1..]
    {
      UnlinkFirst(first, nodes, items);
      first := nodes[first.addr].next;
      items := items[1..];
    }

    /** SLIST_REMOVE_AFTER */
    method RemoveAfter(elm: nat, ghost k: nat)
      requires Valid()
      requires k + 1 < |items| && items[k] == elm
      modifies this`nodes, this`items
      ensures Valid()
      ensures items == old(items)[..k + 1] + old(items)[k + 2..]
      ensures nodes == old(nodes)[elm := old(nodes)[elm].(next := LinkAt(old(items), k + 2))]
    {
      UnlinkAt(first, nodes, items, k + 1);
      nodes := nodes[elm := nodes[elm].(next := nodes[nodes[elm].next.addr].next)];
      items := items[..k + 1] + items[k + 2..];
    }

    /** SLIST_REMOVE: searches for the node before `elm`; the removed node itself is not changed. */
    method Remove(elm: nat)
      requires Valid()
      requires elm in items
      modifies this
      ensures Valid()
      ensures items == Without(old(items), elm) && elm !in items
      ensures nodes.Keys == old(nodes).Keys
      ensures forall a :: a in nodes ==> nodes[a].record == old(nodes)[a].record
      ensures forall a :: a in nodes && (a == elm || a !in old(items)) ==> nodes[a] == old(nodes)[a]
    {
      ghost var pos :| 0 <= pos < |items| && items[pos] == elm;
      WithoutAt(items, pos);
      DropAt(items, pos);
      if first == To(elm) {
        assert items[..0] + items[1..] == items[1..];
        RemoveHead();
      } else {
        var cur := first.addr;
        ghost var k := 0;
        while nodes[cur].next != To(elm)
          invariant k < pos && items[k] == cur
          decreases pos - k
        {
          cur := nodes[cur].next.addr;
          k := k + 1;
        }
        RemoveAfter(cur, k);
      }
    }

    /** free(datap) */
    method FreeNode(elm: nat)
      requires Valid()
      requires elm in nodes && elm !in items
      modifies this`nodes
      ensures Valid()
      ensures nodes == old(nodes) - {elm}
    {
      nodes := nodes - {elm};
    }

    /** What the reaping pass does with a complete thread's node at position k: SLIST_REMOVE and free. */
    method RemoveAndFree(elm: nat, ghost k: nat)
      requires Valid()
      requires k < |items| && items[k] == elm
      modifies this
      ensures Valid()
      ensures items == old(items)[..k] + old(items)[k + 1..]
      ensures nodes.Keys == old(nodes).Keys - {elm}
      ensures forall a :: a in nodes ==> nodes[a].record == old(nodes)[a].record
    {
      hide Linked, Without;
      LinkFrom(first, nodes, items, k);
      WithoutAt(items, k);
      Remove(elm);
      FreeNode(elm);
    }

    /**
     The reaping pass of run_server: SLIST_FOREACH_SAFE, removing and freeing the nodes whose
     thread was sampled complete when the pass came to them. `reaped` lists them in order.
     */
    method Reap(complete: nat -> bool) returns (reaped: seq<nat>)
      requires Valid()
      modifies this
      ensures Valid()
      ensures items == Select(old(items), complete, false)
      ensures reaped == Select(old(items), complete, true)
      ensures nodes.Keys == old(nodes).Keys - ElementSet(reaped)
      ensures forall a :: a in nodes ==> nodes[a].record == old(nodes)[a].record
    {
      hide Linked, Select, ElementSet, LinkAt, PassAt, Freed;
      ghost var all, before := items, nodes;
      ghost var k := 0;
      reaped := [];
      var datap := first;
      ListStart(first, nodes, items);
      PassStarts(all, complete);
      NothingFreed(before);
      while datap != End
        invariant k <= |all| && datap == LinkAt(all, k)
        invariant Valid()
        invariant PassAt(items, reaped, all, complete, k)
        invariant Freed(before, nodes, reaped)
        decreases |all| - k
      {
        CursorEnds(all, k);
        ghost var at := PassGoesOn(items, reaped, all, complete, k);
        LinkFrom(first, nodes, items, at);
        var tmp := nodes[datap.addr].next;
        if complete(datap.addr) {
          ghost var was := nodes;
          RemoveAndFree(datap.addr, at);
          OneFreed(before, was, reaped, datap.addr, nodes);
          reaped := reaped + [datap.addr];
        }
        datap := tmp;
        k := k + 1;
      }
      CursorEnds(all, k);
      PassEnds(items, reaped, all, complete);
      AllFreed(before, nodes, reaped);
    }

    /** The shutdown loop of run_server: first node off, freed, until the list is empty. */
    method DrainAll() returns (drained: seq<nat>)
      requires Valid()
      modifies this
      ensures Valid() && items == []
      ensures drained == old(items)
      ensures nodes.Keys == old(nodes).Keys - ElementSet(drained)
    {
      hide Linked, ElementSet, Freed;
      ghost var all, before := items, nodes;
      drained := [];
      NothingFreed(before);
      ListStart(first, nodes, items);
      while first != End
        invariant Valid()
        invariant first == LinkAt(items, 0)
        invariant all == drained + items
        invariant Freed(before, nodes, drained)
        decreases |items|
      {
        var datap := first.addr;
        assert items == [datap] + items[1..];
        LinkFrom(first, nodes, items, 0);
        UnlinkFirst(first, nodes, items);
        RemoveHead();
        OneFreed(before, nodes, drained, datap, nodes - {datap});
        FreeNode(datap);
        drained := drained + [datap];
        ListStart(first, nodes, items);
      }
      AllFreed(before, nodes, drained);
    }
  }
}
