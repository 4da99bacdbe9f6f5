/** A LIFO stack of singly linked nodes (datastructures/MyStack.java). */
module Stacks {
  import opened Wrappers

  /** A stack node. Its fields are set when it is pushed and never written again. */
  class StackNode<E> {
    const data: E
    const next: StackNode?<E>

    constructor (data: E, next: StackNode?<E>)
      ensures this.data == data && this.next == next
    {
      this.data := data;
      this.next := next;
    }
  }

  /** `nodes` is a chain of links ending in null that holds `contents` in order. */
  ghost predicate Chain<E>(nodes: seq<StackNode<E>>, contents: seq<E>)
  {
    && |nodes| == |contents|
    && (forall i :: 0 <= i < |nodes| ==> nodes[i].data == contents[i])
    && (forall i :: 0 <= i < |nodes| - 1 ==> nodes[i].next == nodes[i + 1])
    && (nodes != [] ==> nodes[|nodes| - 1].next == null)
  }

  /** The node at the head of a chain, or null for the empty chain. */
  function First<E>(nodes: seq<StackNode<E>>): StackNode?<E>
  {
    if nodes == [] then null else nodes[0]
  }

  lemma ChainCons<E>(n: StackNode<E>, nodes: seq<StackNode<E>>, contents: seq<E>)
    requires Chain(nodes, contents)
    requires n.next == First(nodes)
    ensures Chain([n] + nodes, [n.data] + contents)
  {
    var ns, cs := [n] + nodes, [n.data] + contents;
    forall i | 1 <= i < |ns| ensures ns[i] == nodes[i - 1] && cs[i] == contents[i - 1] {
    }
  }

  lemma ChainTail<E>(nodes: seq<StackNode<E>>, contents: seq<E>)
    requires Chain(nodes, contents) && nodes != []
    ensures Chain(nodes[1..], contents[1..])
    ensures nodes[0].next == First(nodes[1..])
  {
  }

  class MyStack<E> {
    var top: StackNode?<E>
    var size: int
    /** The elements, top first. */
    ghost var Contents: seq<E>
    /** The nodes holding Contents, top first. */
    ghost var Nodes: seq<StackNode<E>>

    /** The chain from `top` holds Contents in order, and `size` counts it. */
    ghost predicate Valid()
      reads this
    {
      && Chain(Nodes, Contents)
      && size == |Nodes|
      && top == First(Nodes)
    }

    constructor ()
      ensures Valid() && Contents == []
    {
      top := null;
      size := 0;
      Contents := [];
      Nodes := [];
    }

    /** MyStack.push: the new element goes on top. */
    method Push(element: E)
      requires Valid()
      modifies this
      ensures Valid()
      ensures Contents == [element] + old(Contents)
    {
      var newNode := new StackNode(element, top);
      ChainCons(newNode, Nodes, Contents);
      top := newNode;
      size := size + 1;
      Contents := [element] + Contents;
      Nodes := [newNode] + Nodes;
    }

    /** MyStack.pop: remove and return the top element; an empty stack throws. */
    method Pop() returns (res: Result<E>)
      requires Valid()
      modifies this
      ensures Valid()
      ensures old(Contents) == [] ==> res == Err(Empty) && Contents == []
      ensures old(Contents) != [] ==> res == Ok(old(Contents)[0]) && Contents == old(Contents)[1..]
    {
      if top == null {
        return Err(Empty);
      }
      ChainTail(Nodes, Contents);
      var data := top.data;
      top := top.next;
      size := size - 1;
      Contents := Contents[1..];
      Nodes := Nodes[1..];
      return Ok(data);
    }

    /** MyStack.peek: the top element without removing it; an empty stack throws. */
    method Peek() returns (res: Result<E>)
      requires Valid()
      ensures res.Err? <==> Contents == []
      ensures res.Err? ==> res.error == Empty
      ensures res.Ok? ==> res.value == Contents[0]
    {
      if top == null {
        return Err(Empty);
      }
      return Ok(top.data);
    }

    /** MyStack.isEmpty tests `top == null`. */
    function IsEmpty(): (empty: bool)
      requires Valid()
      reads this
      ensures empty <==> Contents == []
      ensures empty <==> Size() == 0
    {
      top == null
    }

    function Size(): (n: int)
      requires Valid()
      reads this
      ensures n == |Contents|
    {
      size
    }

    /** Emptying the stack (GameState calls a `clear` that MyStack.java does not define). */
    method Clear()
      requires Valid()
      modifies this
      ensures Valid() && Contents == []
    {
      top := null;
      size := 0;
      Contents := [];
      Nodes := [];
    }
  }

  /** A push followed by a pop gives the element back and leaves the stack as it was. */
  method PushThenPop<E>(s: MyStack<E>, element: E) returns (res: Result<E>)
    requires s.Valid()
    modifies s
    ensures s.Valid() && res == Ok(element) && s.Contents == old(s.Contents)
  {
    s.Push(element);
    res := s.Pop();
  }

  /** Two pushes come back out in the opposite order. */
  method LastInFirstOut<E>(s: MyStack<E>, x: E, y: E) returns (first: Result<E>, second: Result<E>)
    requires s.Valid()
    modifies s
    ensures s.Valid() && first == Ok(y) && second == Ok(x) && s.Contents == old(s.Contents)
  {
    s.Push(x);
    s.Push(y);
    first := s.Pop();
    second := s.Pop();
  }
}
