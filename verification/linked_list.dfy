/** A singly linked list with head and tail pointers (datastructures/MyLinkedList.java). */
module LinkedLists {
  import opened Wrappers

  class ListNode<E> {
    const data: E
    var next: ListNode?<E>

    constructor (data: E)
      ensures this.data == data && next == null
    {
      this.data := data;
      next := null;
    }
  }

  class MyLinkedList<E> {
    var head: ListNode?<E>
    var tail: ListNode?<E>
    var size: int
    /** The elements in the order they were added. */
    ghost var Contents: seq<E>
    /** The distinct nodes holding Contents, head first. */
    ghost var Nodes: seq<ListNode<E>>

    ghost predicate Valid()
      reads this, Nodes
    {
      && |Nodes| == |Contents| == size
      && (Nodes == [] ==> head == null && tail == null)
      && (Nodes != [] ==> head == Nodes[0] && tail == Nodes[|Nodes| - 1] && Nodes[|Nodes| - 1].next == null)
      && (forall i :: 0 <= i < |Nodes| ==> Nodes[i].data == Contents[i])
      && (forall i :: 0 <= i < |Nodes| - 1 ==> Nodes[i].next == Nodes[i + 1])
      && (forall i, j :: 0 <= i < j < |Nodes| ==> Nodes[i] != Nodes[j])
    }

    constructor ()
      ensures Valid() && Contents == [] && Size() == 0
    {
      head := null;
      tail := null;
      size := 0;
      Contents := [];
      Nodes := [];
    }

    /** MyLinkedList.add: append at the tail. */
    method Add(element: E)
      requires Valid()
      modifies this, Nodes
      ensures Valid()
      ensures Contents == old(Contents) + [element]
      ensures Nodes[..|old(Nodes)|] == old(Nodes) && fresh(Nodes[|old(Nodes)|])
    {
      var newNode := new ListNode(element);
      if head == null {
        head := newNode;
        tail := newNode;
      } else {
        tail.next := newNode;
        tail := newNode;
      }
      size := size + 1;
      Contents := Contents + [element];
      Nodes := Nodes + [newNode];
    }

    /** MyLinkedList.get: walk `index` links from the head; outside [0, size) it throws. */
    method Get(index: int) returns (res: Result<E>)
      requires Valid()
      ensures res.Ok? <==> 0 <= index < |Contents|
      ensures res.Err? ==> res.error == IndexOutOfBounds
      ensures res.Ok? ==> res.value == Contents[index]
    {
      if index < 0 || index >= size {
        return Err(IndexOutOfBounds);
      }
      var current := head;
      for i := 0 to index
        invariant current == Nodes[i]
      {
        current := current.next;
      }
      return Ok(current.data);
    }

    function Size(): (n: int)
      requires Valid()
      reads this, Nodes
      ensures n == |Contents|
    {
      size
    }

    /** MyLinkedList.isEmpty tests the counter. */
    function IsEmpty(): (empty: bool)
      requires Valid()
      reads this, Nodes
      ensures empty <==> Contents == []
    {
      size == 0
    }
  }
}
