/**
 * A growable list over a fixed-size buffer (datastructures/MyArrayList.java).
 * Slots past `size` hold null, written here as None.
 */
module ArrayLists {
  import opened Wrappers

  const DEFAULT_CAPACITY := 10
  const GROWTH_FACTOR := 2

  /** The index of the first occurrence of `x` in `s`, or -1 when there is none. */
  function FirstIndex<E(==)>(s: seq<E>, x: E): (i: int)
    ensures -1 <= i < |s|
    ensures i == -1 <==> x !in s
    ensures i >= 0 ==> s[i] == x && forall j :: 0 <= j < i ==> s[j] != x
  {
    if s == [] then -1
    else if s[0] == x then 0
    else
      var rest := FirstIndex(s[1..], x);
      if rest == -1 then -1 else rest + 1
  }

  /** `s` without its element at `i`. */
  function Without<E>(s: seq<E>, i: int): (r: seq<E>)
    requires 0 <= i < |s|
    ensures |r| == |s| - 1
    ensures forall k :: 0 <= k < i ==> r[k] == s[k]
    ensures forall k :: i <= k < |r| ==> r[k] == s[k + 1]
  {
    s[..i] + s[i + 1..]
  }

  /** `s` with `x` placed at `i`, later elements moved one place right. */
  function Inserted<E>(s: seq<E>, i: int, x: E): (r: seq<E>)
    requires 0 <= i <= |s|
    ensures |r| == |s| + 1 && r[i] == x
    ensures forall k :: 0 <= k < i ==> r[k] == s[k]
    ensures forall k :: i < k < |r| ==> r[k] == s[k - 1]
  {
    s[..i] + [x] + s[i..]
  }

  /** Removing what was just inserted at the same index gives the list back. */
  lemma WithoutInserted<E>(s: seq<E>, i: int, x: E)
    requires 0 <= i <= |s|
    ensures Without(Inserted(s, i, x), i) == s
  {
    var r := Without(Inserted(s, i, x), i);
    assert |r| == |s|;
    forall k | 0 <= k < |s| ensures r[k] == s[k] {
      if k >= i {
        assert r[k] == Inserted(s, i, x)[k + 1];
      }
    }
  }

  /** Removing the first occurrence of `x` takes exactly one `x` out of the list. */
  lemma {:induction false} WithoutFirst<E>(s: seq<E>, x: E)
    requires x in s
    ensures multiset(Without(s, FirstIndex(s, x))) == multiset(s) - multiset{x}
  {
    var i := FirstIndex(s, x);
    assert s == s[..i] + [x] + s[i + 1..];
    assert Without(s, i) == s[..i] + s[i + 1..];
    calc {
      multiset(s);
      multiset(s[..i]) + multiset{x} + multiset(s[i + 1..]);
      multiset(Without(s, i)) + multiset{x};
    }
  }

  class MyArrayList<E(==)> {
    var data: array<Option<E>>
    var size: int
    var capacity: int
    /** The elements, in index order. */
    ghost var Contents: seq<E>

    /** The first `size` slots hold Contents, the rest are null, and the buffer has `capacity` slots. */
    ghost predicate Valid()
      reads this, data
    {
      && data.Length == capacity && 0 < capacity
      && 0 <= size <= capacity && |Contents| == size
      && (forall i :: 0 <= i < size ==> data[i] == Some(Contents[i]))
      && (forall i :: size <= i < capacity ==> data[i] == None)
    }

    /** The MyArrayList(int) constructor for a positive capacity. */
    constructor (capacity: int)
      requires capacity > 0
      ensures Valid() && Contents == [] && this.capacity == capacity
      ensures fresh(data)
    {
      this.capacity := capacity;
      data := new Option<E>[capacity](_ => None);
      size := 0;
      Contents := [];
    }

    /** The no-argument constructor: DEFAULT_CAPACITY slots. */
    constructor Default()
      ensures Valid() && Contents == [] && capacity == DEFAULT_CAPACITY
      ensures fresh(data)
    {
      capacity := DEFAULT_CAPACITY;
      data := new Option<E>[DEFAULT_CAPACITY](_ => None);
      size := 0;
      Contents := [];
    }

    /** A capacity of zero or less is rejected with IllegalArgumentException. */
    static method Create(capacity: int) returns (r: Result<MyArrayList<E>>)
      ensures capacity <= 0 <==> r == Err(IllegalArgument)
      ensures r.Ok? ==> fresh(r.value) && fresh(r.value.data) && r.value.Valid()
      ensures r.Ok? ==> r.value.Contents == [] && r.value.capacity == capacity
    {
      if capacity <= 0 {
        return Err(IllegalArgument);
      }
      var list := new MyArrayList(capacity);
      return Ok(list);
    }

    function Size(): (n: int)
      requires Valid()
      reads this, data
      ensures n == |Contents|
    {
      size
    }

    function IsEmpty(): (empty: bool)
      requires Valid()
      reads this, data
      ensures empty <==> Contents == []
    {
      size == 0
    }

    /**
     * Doubles the buffer when it is full, copying the elements across;
     * afterwards there is room for one more.
     */
    method EnsureCapacity()
      requires Valid()
      modifies this
      ensures Valid() && Contents == old(Contents)
      ensures size < capacity
      ensures capacity == if old(size) >= old(capacity) then old(capacity) * GROWTH_FACTOR else old(capacity)
      ensures data == old(data) || fresh(data)
    {
      if size >= capacity {
        capacity := capacity * GROWTH_FACTOR;
        var newData := new Option<E>[capacity](_ => None);
        for i := 0 to size
          modifies newData
          invariant forall k :: 0 <= k < i ==> newData[k] == data[k]
          invariant forall k :: i <= k < capacity ==> newData[k] == None
        {
          newData[i] := data[i];
        }
        data := newData;
      }
    }

    /** MyArrayList.add(e): appends and always answers true. */
    method Add(element: E) returns (added: bool)
      requires Valid()
      modifies this, data
      ensures Valid() && added
      ensures Contents == old(Contents) + [element]
      ensures data == old(data) || fresh(data)
    {
      EnsureCapacity();
      data[size] := Some(element);
      size := size + 1;
      Contents := Contents + [element];
      return true;
    }

    /** MyArrayList.add(index, e): shifts [index, size) one place right; an index outside [0, size] throws. */
    method Insert(index: int, element: E) returns (r: Result<()>)
      requires Valid()
      modifies this, data
      ensures Valid()
      ensures !(0 <= index <= old(size)) ==> r == Err(IndexOutOfBounds) && Contents == old(Contents)
      ensures 0 <= index <= old(size) ==> r == Ok(()) && Contents == Inserted(old(Contents), index, element)
      ensures data == old(data) || fresh(data)
    {
      if index < 0 || index > size {
        return Err(IndexOutOfBounds);
      }
      EnsureCapacity();
      var j := size;
      while j > index
        modifies data
        invariant index <= j <= size
        invariant forall k :: 0 <= k < j ==> data[k] == Some(Contents[k])
        invariant forall k :: j < k <= size ==> data[k] == Some(Contents[k - 1])
        invariant forall k :: size < k < capacity ==> data[k] == None
      {
        data[j] := data[j - 1];
        j := j - 1;
      }
      data[index] := Some(element);
      size := size + 1;
      Contents := Inserted(Contents, index, element);
      return Ok(());
    }

    /** MyArrayList.get: the element at `index`; an index outside [0, size) throws. */
    function Get(index: int): (r: Result<E>)
      requires Valid()
      reads this, data
      ensures r.Ok? <==> 0 <= index < |Contents|
      ensures r.Ok? ==> r.value == Contents[index]
      ensures r.Err? ==> r.error == IndexOutOfBounds
    {
      if index < 0 || index >= size then Err(IndexOutOfBounds) else Ok(data[index].value)
    }

    /** MyArrayList.set: replaces slot `index` and returns what was there. */
    method Set(index: int, element: E) returns (r: Result<E>)
      requires Valid()
      modifies this, data
      ensures Valid()
      ensures !(0 <= index < |old(Contents)|) ==> r == Err(IndexOutOfBounds) && Contents == old(Contents)
      ensures 0 <= index < |old(Contents)| ==>
        r == Ok(old(Contents)[index]) && Contents == old(Contents)[index := element]
    {
      if index < 0 || index >= size {
        return Err(IndexOutOfBounds);
      }
      var oldValue := data[index].value;
      data[index] := Some(element);
      Contents := Contents[index := element];
      return Ok(oldValue);
    }

    /** MyArrayList.remove(index): returns the element and shifts the tail one place left. */
    method RemoveAt(index: int) returns (r: Result<E>)
      requires Valid()
      modifies this, data
      ensures Valid()
      ensures !(0 <= index < old(size)) ==> r == Err(IndexOutOfBounds) && Contents == old(Contents)
      ensures 0 <= index < old(size) ==> r == Ok(old(Contents)[index]) && Contents == Without(old(Contents), index)
    {
      if index < 0 || index >= size {
        return Err(IndexOutOfBounds);
      }
      var oldValue := data[index].value;
      var j := index;
      while j < size - 1
        modifies data
        invariant index <= j <= size - 1
        invariant forall k :: 0 <= k < index ==> data[k] == Some(Contents[k])
        invariant forall k :: index <= k < j ==> data[k] == Some(Contents[k + 1])
        invariant forall k :: j <= k < size ==> data[k] == Some(Contents[k])
        invariant forall k :: size <= k < capacity ==> data[k] == None
      {
        data[j] := data[j + 1];
        j := j + 1;
      }
      size := size - 1;
      data[size] := None;
      Contents := Without(Contents, index);
      return Ok(oldValue);
    }

    /** MyArrayList.indexOf: the first index holding `x`, or -1. */
    method IndexOf(x: E) returns (i: int)
      requires Valid()
      ensures i == FirstIndex(Contents, x)
    {
      i := 0;
      while i < size
        invariant 0 <= i <= size
        invariant forall k :: 0 <= k < i ==> Contents[k] != x
      {
        if data[i] == Some(x) {
          return;
        }
        i := i + 1;
      }
      return -1;
    }

    /** MyArrayList.contains: indexOf found something. */
    method Contains(x: E) returns (found: bool)
      requires Valid()
      ensures found <==> x in Contents
    {
      var i := IndexOf(x);
      return i >= 0;
    }

    /** MyArrayList.remove(obj): removes the first element equal to `x` and says whether there was one. */
    method Remove(x: E) returns (removed: bool)
      requires Valid()
      modifies this, data
      ensures Valid()
      ensures removed <==> x in old(Contents)
      ensures !removed ==> Contents == old(Contents)
      ensures removed ==> Contents == Without(old(Contents), FirstIndex(old(Contents), x))
    {
      for i := 0 to size
        invariant Valid() && Contents == old(Contents) && data == old(data)
        invariant forall k :: 0 <= k < i ==> Contents[k] != x
      {
        if data[i] == Some(x) {
          var _ := RemoveAt(i);
          return true;
        }
      }
      return false;
    }

    /** MyArrayList.clear: nulls the used slots and sets size to 0; the capacity stays. */
    method Clear()
      requires Valid()
      modifies this, data
      ensures Valid() && Contents == [] && capacity == old(capacity)
    {
      for i := 0 to size
        modifies data
        invariant forall k :: 0 <= k < i ==> data[k] == None
        invariant forall k :: i <= k < size ==> data[k] == Some(Contents[k])
        invariant forall k :: size <= k < capacity ==> data[k] == None
      {
        data[i] := None;
      }
      size := 0;
      Contents := [];
    }
  }

  /** add(index, e) followed by remove(index) returns e and restores the list. */
  method InsertThenRemove<E(==)>(list: MyArrayList<E>, index: int, element: E) returns (r: Result<E>)
    requires list.Valid() && 0 <= index <= |list.Contents|
    modifies list, list.data
    ensures list.Valid() && r == Ok(element) && list.Contents == old(list.Contents)
  {
    var _ := list.Insert(index, element);
    r := list.RemoveAt(index);
    WithoutInserted(old(list.Contents), index, element);
  }
}
