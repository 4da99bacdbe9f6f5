/** A FIFO queue of singly linked nodes (datastructures/MyQueue.java). */
module Queues {
  import opened Wrappers

  class QueueNode<E> {
    const data: E
    var next: QueueNode?<E>

    constructor (data: E)
      ensures this.data == data && next == null
    {
      this.data := data;
      next := null;
    }
  }

  class MyQueue<E> {
    var front: QueueNode?<E>
    var rear: QueueNode?<E>
    var size: int
    /** The elements, front first. */
    ghost var Contents: seq<E>
    /** The distinct nodes holding Contents, front first. */
    ghost var Nodes: seq<QueueNode<E>>

    ghost predicate Valid()
      reads this, Nodes
    {
      && |Nodes| == |Contents| == size
      && (Nodes == [] ==> front == null && rear == null)
      && (Nodes != [] ==> front == Nodes[0] && rear == Nodes[|Nodes| - 1] && Nodes[|Nodes| - 1].next == null)
      && (forall i :: 0 <= i < |Nodes| ==> Nodes[i].data == Contents[i])
      && (forall i :: 0 <= i < |Nodes| - 1 ==> Nodes[i].next == Nodes[i + 1])
      && (forall i, j :: 0 <= i < j < |Nodes| ==> Nodes[i] != Nodes[j])
    }

    constructor ()
      ensures Valid() && Contents == [] && Nodes == []
    {
      front := null;
      rear := null;
      size := 0;
      Contents := [];
      Nodes := [];
    }

    /** MyQueue.enqueue: link a new node after the rear; always returns true. */
    method Enqueue(element: E) returns (added: bool)
      requires Valid()
      modifies this, Nodes
      ensures Valid()
      ensures added && Contents == old(Contents) + [element]
      ensures Nodes[..|old(Nodes)|] == old(Nodes) && fresh(Nodes[|old(Nodes)|])
    {
      var newNode := new QueueNode(element);
      if rear == null {
        front := newNode;
        rear := newNode;
      } else {
        rear.next := newNode;
        rear := newNode;
      }
      size := size + 1;
      Contents := Contents + [element];
      Nodes := Nodes + [newNode];
      return true;
    }

    /** MyQueue.dequeue: unlink and return the front element; an empty queue throws. */
    method Dequeue() returns (res: Result<E>)
      requires Valid()
      modifies this
      ensures Valid()
      ensures old(Contents) == [] ==> res == Err(Empty) && Contents == [] && Nodes == old(Nodes)
      ensures old(Contents) != [] ==> res == Ok(old(Contents)[0]) && Contents == old(Contents)[1..] && Nodes == old(Nodes)[1..]
      ensures |old(Contents)| == 1 ==> front == null && rear == null
    {
      if front == null {
        return Err(Empty);
      }
      var data := front.data;
      front := front.next;
      if front == null {
        rear := null;
      }
      size := size - 1;
      Contents := Contents[1..];
      Nodes := Nodes[1..];
      return Ok(data);
    }

    /** MyQueue.peek: the front element, queue unchanged; an empty queue throws. */
    method Peek() returns (res: Result<E>)
      requires Valid()
      ensures res.Err? <==> Contents == []
      ensures res.Err? ==> res.error == Empty
      ensures res.Ok? ==> res.value == Contents[0]
    {
      if front == null {
        return Err(Empty);
      }
      return Ok(front.data);
    }

    /** MyQueue.isEmpty tests `front == null`. */
    function IsEmpty(): (empty: bool)
      requires Valid()
      reads this, Nodes
      ensures empty <==> Contents == []
      ensures empty <==> Size() == 0
    {
      front == null
    }

    function Size(): (n: int)
      requires Valid()
      reads this, Nodes
      ensures n == |Contents|
    {
      size
    }

    /** MyQueue.clear: drop both ends and zero the count. */
    method Clear()
      requires Valid()
      modifies this
      ensures Valid() && Contents == [] && front == null && rear == null
    {
      front := null;
      rear := null;
      size := 0;
      Contents := [];
      Nodes := [];
    }
  }

  /**
   * Whatever the queue holds, two elements enqueued after it come out after
   * it, in the order they went in: draining the queue yields the old contents
   * followed by x and then y.
   */
  method FirstInFirstOut<E>(q: MyQueue<E>, x: E, y: E) returns (out: seq<E>)
    requires q.Valid()
    modifies q, q.Nodes
    ensures q.Valid() && q.Contents == []
    ensures out == old(q.Contents) + [x, y]
  {
    var _ := q.Enqueue(x);
    var _ := q.Enqueue(y);
    out := [];
    while !q.IsEmpty()
      invariant q.Valid()
      invariant out + q.Contents == old(q.Contents) + [x, y]
      decreases |q.Contents|
    {
      var r := q.Dequeue();
      out := out + [r.value];
    }
  }
}
