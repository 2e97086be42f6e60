/**
  The linked first-in-first-out queue of Queue.java.

  The chain of nodes from `head` is described by two ghost views: `spine`, the
  nodes in chain order, and `contents`, the elements they hold.  FIFO order and
  the `size` counter are stated against `contents`.
*/
module Queues {
  import opened Wrappers

  /** One cell of the chain: an element that never changes and a link to the next cell. */
  class Node<E> {
    const e: E
    var next: Node?<E>

    constructor (element: E)
      ensures e == element && next == null
    {
      e := element;
      next := null;
    }
  }

  class Queue<E> {
    var head: Node?<E>
    var tail: Node?<E>
    var size: nat

    ghost var contents: seq<E>
    ghost var spine: seq<Node<E>>
    ghost var Repr: set<object>

    /**
      The chain from `head` is exactly `spine`, it holds `contents` and it has
      `size` cells; `tail` is its last cell whenever the queue is non-empty.
    */
    ghost predicate Valid()
      reads this, Repr
      ensures Valid() ==> this in Repr
    {
      && this in Repr
      && (forall k :: 0 <= k < |spine| ==> spine[k] in Repr)
      && |spine| == |contents| == size
      && (forall k :: 0 <= k < |spine| ==> spine[k].e == contents[k])
      && (forall k :: 0 <= k < |spine| - 1 ==> spine[k].next == spine[k + 1])
      && (size == 0 ==> head == null)
      && (size > 0 ==> head == spine[0] && tail == spine[size - 1] && tail.next == null)
    }

    constructor ()
      ensures Valid() && fresh(Repr)
      ensures contents == [] && size == 0
    {
      head, tail, size := null, null, 0;
      contents, spine := [], [];
      Repr := {this};
    }

    /** Links a new cell after `tail` (or starts the chain) and hands back `x`. */
    method Enqueue(x: E) returns (r: E)
      requires Valid()
      modifies Repr
      ensures Valid() && fresh(Repr - old(Repr))
      ensures r == x
      ensures contents == old(contents) + [x]
      ensures size == old(size) + 1
    {
      if size == 0 {
        head := new Node(x);
        tail := head;
        size := size + 1;
        contents, spine := [x], [head];
        Repr := Repr + {head};
        return x;
      }
      var n := new Node(x);
      ghost var last := tail;
      forall k | 0 <= k < |spine| - 1
        ensures spine[k] != last
      {
        assert spine[k].next == spine[k + 1];
      }
      tail.next := n;
      tail := tail.next;
      size := size + 1;
      contents, spine := contents + [x], spine + [n];
      Repr := Repr + {n};
      return x;
    }

    /**
      Unlinks the head cell and returns its element; on an empty queue returns
      `None` and changes nothing.
    */
    method Dequeue() returns (r: Option<E>)
      requires Valid()
      modifies this
      ensures Valid() && Repr == old(Repr)
      ensures old(contents) == [] ==> r == None && contents == old(contents) && size == old(size)
      ensures old(contents) != [] ==>
        r == Some(old(contents)[0]) && contents == old(contents)[1..] && size == old(size) - 1
    {
      if size == 0 {
        return None;
      }
      var removed := head.e;
      head := head.next;
      size := size - 1;
      contents, spine := contents[1..], spine[1..];
      return Some(removed);
    }

    /** The element at the front of the queue, or `None` when the queue is empty. */
    function First(): (r: Option<E>)
      reads this, Repr
      requires Valid()
      ensures r.None? <==> contents == []
      ensures r.Some? ==> r.value == contents[0]
    {
      if size == 0 then None else Some(head.e)
    }

    /** The number of queued elements. */
    function Size(): (r: nat)
      reads this, Repr
      requires Valid()
      ensures r == |contents|
    {
      size
    }

    /** Whether nothing is queued. */
    function IsEmpty(): (r: bool)
      reads this, Repr
      requires Valid()
      ensures r <==> contents == []
      ensures r <==> Size() == 0
    {
      size == 0
    }
  }

  /**
    The FIFO law: enqueue every element of `xs` into a new queue, then dequeue
    until the queue reports empty; the dequeued elements are `xs`, in order,
    and one more dequeue reports an absent value.
  */
  method EnqueueAllThenDrain<E>(xs: seq<E>) returns (ys: seq<E>, extra: Option<E>)
    ensures ys == xs
    ensures extra == None
  {
    var q := new Queue<E>();
    for i := 0 to |xs|
      invariant q.Valid() && fresh(q.Repr)
      invariant q.contents == xs[..i]
    {
      var _ := q.Enqueue(xs[i]);
      assert xs[..i + 1] == xs[..i] + [xs[i]];
    }
    assert xs[..|xs|] == xs;
    ys := [];
    while !q.IsEmpty()
      invariant q.Valid() && fresh(q.Repr)
      invariant ys + q.contents == xs
      decreases |q.contents|
    {
      ghost var before := q.contents;
      var r := q.Dequeue();
      assert r == Some(before[0]) && before == [before[0]] + q.contents;
      ys := ys + [r.value];
    }
    extra := q.Dequeue();
  }
}
