/** What the queues of wepoll.c hold, as sequences. */
module QueueContents {

  // Takes one element out, wherever it is.
  function Without<T(==)>(q: seq<T>, x: T): (r: seq<T>)
    ensures x !in q ==> r == q
    ensures x in q ==> |r| + 1 == |q|
    ensures forall y | y in r :: y in q
    ensures forall y | y in q && y != x :: y in r
  {
    if q == [] then [] else if q[0] == x then q[1..] else [q[0]] + Without(q[1..], x)
  }

  function ToStart<T(==)>(q: seq<T>, x: T): seq<T> {
    [x] + Without(q, x)
  }

  function ToEnd<T(==)>(q: seq<T>, x: T): seq<T> {
    Without(q, x) + [x]
  }

  predicate NoDuplicates<T(==)>(q: seq<T>) {
    forall i, j | 0 <= i < j < |q| :: q[i] != q[j]
  }

  lemma {:induction false} WithoutNoDuplicates<T>(q: seq<T>, x: T)
    requires NoDuplicates(q)
    ensures NoDuplicates(Without(q, x)) && x !in Without(q, x)
  {
    if q != [] && q[0] != x {
      WithoutNoDuplicates(q[1..], x);
      var r := Without(q[1..], x);
      assert q[0] !in q[1..];
      assert q[0] !in r;
    }
  }

  // Taking out the element at a known place.
  lemma {:induction false} WithoutAt<T>(q: seq<T>, i: nat)
    requires NoDuplicates(q) && i < |q|
    ensures Without(q, q[i]) == q[..i] + q[i + 1..]
  {
    if i > 0 {
      var t := q[1..];
      assert q[0] != q[i] && t[i - 1] == q[i];
      WithoutAt(t, i - 1);
      assert Without(q, q[i]) == [q[0]] + (t[..i - 1] + t[i..]);
      AfterHead(q[0], t, i - 1);
      assert [q[0]] + t == q;
    }
  }

  lemma TailDistinct<T>(x: T, q: seq<T>, i: nat)
    requires NoDuplicates([x] + q) && i < |q|
    ensures NoDuplicates(q) && x != q[i]
  {
    var r := [x] + q;
    assert r[0] == x && forall k | 0 <= k < |q| :: r[k + 1] == q[k];
  }

  lemma AfterHead<T>(x: T, q: seq<T>, i: nat)
    requires i < |q|
    ensures [x] + (q[..i] + q[i + 1..]) == ([x] + q)[..i + 1] + ([x] + q)[i + 2..]
  {
    assert ([x] + q)[..i + 1] == [x] + q[..i];
    assert ([x] + q)[i + 2..] == q[i + 1..];
  }
}

/** The intrusive queue of wepoll.c: a ring of nodes through a head that holds nothing. */
module IntrusiveQueue {
  import opened QueueContents

  // queue_node_t
  class QueueNode {
    var prev: QueueNode
    var next: QueueNode

    // queue_node_init
    constructor ()
      ensures Loose(this)
    {
      prev, next := this, this;
    }
  }

  // A node in no ring is linked to itself.
  ghost predicate Loose(n: QueueNode)
    reads n
  {
    n.prev == n && n.next == n
  }

  ghost predicate Linked(a: QueueNode, b: QueueNode)
    reads a, b
  {
    a.next == b && b.prev == a
  }

  ghost predicate Ring(r: seq<QueueNode>)
    reads r
  {
    && |r| > 0 && NoDuplicates(r)
    && (forall i | 0 < i < |r| :: Linked(r[i - 1], r[i]))
    && Linked(r[|r| - 1], r[0])
  }

  // queue_is_enqueued
  method IsEnqueued(n: QueueNode) returns (b: bool)
    ensures b == (n.prev != n)
  {
    b := n.prev != n;
  }

  // queue__detach_node: the neighbours are linked to each other; the node keeps its stale links.
  method Detach(n: QueueNode, ghost r: seq<QueueNode>, ghost i: nat)
    requires Ring(r) && 0 < i < |r| && r[i] == n
    modifies r
    ensures Ring(r[..i] + r[i + 1..])
  {
    ghost var after := if i + 1 < |r| then r[i + 1] else r[0];
    assert Linked(r[i - 1], n) && Linked(n, after);
    n.prev.next := n.next;
    n.next.prev := n.prev;
  }

  // queue_is_enqueued tells members from others: only the head of an empty queue, and a node in no ring,
  // is linked to itself.
  lemma SelfLinked(r: seq<QueueNode>, i: nat)
    requires Ring(r) && i < |r|
    ensures r[i].prev == r[i] <==> |r| == 1
    ensures r[i].next == r[i] <==> |r| == 1
  {
    if |r| > 1 {
      assert i > 0 ==> Linked(r[i - 1], r[i]);
      assert i + 1 < |r| ==> Linked(r[i], r[i + 1]);
    }
  }

  lemma Members(head: QueueNode, items: seq<QueueNode>, n: QueueNode) returns (i: nat)
    requires Ring([head] + items) && n in items
    ensures i < |items| && ([head] + items)[i + 1] == n && n != head && n !in Without(items, n)
    ensures [head] + Without(items, n) == ([head] + items)[..i + 1] + ([head] + items)[i + 2..]
  {
    i :| 0 <= i < |items| && items[i] == n;
    TailDistinct(head, items, i);
    WithoutNoDuplicates(items, n);
    WithoutAt(items, i);
    AfterHead(head, items, i);
  }

  // queue_t
  class Queue {
    const head: QueueNode
    ghost var items: seq<QueueNode>

    ghost predicate Valid()
      reads this, head, items
    {
      Ring([head] + items)
    }

    ghost function Nodes(): set<QueueNode>
      reads this
    {
      {head} + set n | n in items
    }

    // queue_init
    constructor ()
      ensures Valid() && items == [] && fresh(head)
    {
      head := new QueueNode();
      items := [];
    }

    // queue_is_empty
    method IsEmpty() returns (b: bool)
      requires Valid()
      ensures b == (items == [])
    {
      var enqueued := IsEnqueued(head);
      b := !enqueued;
      assert items != [] ==> Linked(([head] + items)[|items|], head);
    }

    // queue_first
    method First() returns (n: QueueNode?)
      requires Valid()
      ensures n == if items == [] then null else items[0]
    {
      var empty := IsEmpty();
      if empty {
        return null;
      }
      assert Linked(([head] + items)[0], ([head] + items)[1]);
      n := head.next;
    }

    // queue_last
    method Last() returns (n: QueueNode?)
      requires Valid()
      ensures n == if items == [] then null else items[|items| - 1]
    {
      var empty := IsEmpty();
      if empty {
        return null;
      }
      n := head.prev;
    }

    // queue_prepend
    method Prepend(n: QueueNode)
      requires Valid() && n !in Nodes()
      modifies this, Nodes(), n
      ensures Valid() && items == [n] + old(items)
    {
      ghost var r := [head] + items;
      assert Linked(head, if |r| > 1 then r[1] else head);
      n.next := head.next;
      n.prev := head;
      n.next.prev := n;
      head.next := n;
      items := [n] + items;
      assert [head] + items == r[..1] + [n] + r[1..];
    }

    // queue_append
    method Append(n: QueueNode)
      requires Valid() && n !in Nodes()
      modifies this, Nodes(), n
      ensures Valid() && items == old(items) + [n]
    {
      ghost var r := [head] + items;
      n.next := head;
      n.prev := head.prev;
      n.prev.next := n;
      head.prev := n;
      items := items + [n];
      assert [head] + items == r + [n];
    }

    // A member leaves the ring but keeps its own links.
    method DetachMember(n: QueueNode)
      requires Valid() && n in items
      modifies this`items, Nodes()
      ensures Valid() && items == Without(old(items), n) && n !in Nodes()
    {
      hide Ring, NoDuplicates, Without;
      ghost var i := Members(head, items, n);
      Detach(n, [head] + items, i + 1);
      items := Without(items, n);
    }

    // queue_move_to_start
    method MoveToStart(n: QueueNode)
      requires Valid() && n in items
      modifies this, Nodes()
      ensures Valid() && items == ToStart(old(items), n)
    {
      DetachMember(n);
      Prepend(n);
    }

    // queue_move_to_end
    method MoveToEnd(n: QueueNode)
      requires Valid() && n in items
      modifies this, Nodes()
      ensures Valid() && items == ToEnd(old(items), n)
    {
      DetachMember(n);
      Append(n);
    }

    // queue_remove
    method Remove(n: QueueNode)
      requires Valid() && n in items
      modifies this, Nodes()
      ensures Valid() && items == Without(old(items), n) && Loose(n)
    {
      DetachMember(n);
      n.prev, n.next := n, n;
    }
  }
}
