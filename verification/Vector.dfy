// vector.c: a growable array. Elements are shifted in place; the capacity is always a power of two.
module Vector {
  import opened NumberTheory

  const INITIAL_CAPACITY: nat := 8

  ghost predicate PowerOfTwo(n: nat) {
    exists k: nat :: Pow2(k) == n
  }

  // get_new_capacity: the least power of two that is large enough.
  method GetNewCapacity(target: nat) returns (newCapacity: nat)
    ensures PowerOfTwo(newCapacity) && target <= newCapacity
    ensures newCapacity > 1 ==> newCapacity / 2 < target
  {
    newCapacity := 1;
    ghost var k := 0;
    while newCapacity < target
      invariant newCapacity == Pow2(k)
      invariant newCapacity > 1 ==> newCapacity / 2 < target
      decreases target - newCapacity
    {
      newCapacity := newCapacity * 2;
      k := k + 1;
    }
  }

  function Inserted<T>(s: seq<T>, position: nat, x: T): seq<T>
    requires position <= |s|
  {
    s[..position] + [x] + s[position..]
  }

  function Removed<T>(s: seq<T>, position: nat): seq<T>
    requires position < |s|
  {
    s[..position] + s[position + 1..]
  }

  class Vector<T(0)> {
    var elems: array<T>
    var size: nat

    ghost predicate Valid()
      reads this, elems
    {
      size <= elems.Length && INITIAL_CAPACITY <= elems.Length && PowerOfTwo(elems.Length)
    }

    function Contents(): seq<T>
      requires size <= elems.Length
      reads this, elems
    {
      elems[..size]
    }

    // vector_create
    constructor ()
      ensures Valid() && Contents() == [] && fresh(elems)
    {
      elems := new T[INITIAL_CAPACITY];
      size := 0;
      assert Pow2(3) == INITIAL_CAPACITY;
    }

    // vector_reserve: the array is exchanged only if it is too small.
    method Reserve(n: nat)
      requires Valid()
      modifies this
      ensures Valid() && Contents() == old(Contents()) && size == old(size) && elems.Length >= n
      ensures if old(elems.Length) >= n then elems == old(elems) else fresh(elems) && elems.Length / 2 < n
    {
      if elems.Length >= n {
        return;
      } else {
        var newCapacity := GetNewCapacity(n);
        var newArray := new T[newCapacity];
        for position := 0 to elems.Length
          invariant elems == old(elems) && size == old(size) && elems[..] == old(elems[..])
          invariant newArray[..position] == elems[..position]
        {
          newArray[position] := elems[position];
        }
        assert newArray[..size] == elems[..size];
        elems := newArray;
      }
    }

    // vector_push_back
    method PushBack(element: T)
      requires Valid()
      modifies this, elems
      ensures Valid() && Contents() == old(Contents()) + [element]
      ensures elems == old(elems) || fresh(elems)
    {
      Reserve(size + 1);
      elems[size] := element;
      size := size + 1;
    }

    // vector_insert
    method Insert(position: nat, element: T)
      requires Valid() && position <= size
      modifies this, elems
      ensures Valid() && Contents() == old(Contents()[..position]) + [element] + old(Contents()[position..])
      ensures Contents() == Inserted(old(Contents()), position, element)
      ensures elems == old(elems) || fresh(elems)
    {
      ghost var before := Contents();
      Reserve(size + 1);
      ghost var reserved := elems;
      assert forall k :: 0 <= k < size ==> elems[k] == Contents()[k] == before[k];
      var index := size;
      while index > position
        invariant elems == reserved && size == |before| && position <= index <= size < elems.Length
        invariant forall k :: 0 <= k < index ==> elems[k] == before[k]
        invariant forall k :: index < k <= size ==> elems[k] == before[k - 1]
      {
        elems[index] := elems[index - 1];
        index := index - 1;
      }
      elems[position] := element;
      size := size + 1;
    }

    // vector_erase
    method Erase(position: nat)
      requires Valid() && position < size
      modifies this, elems
      ensures Valid() && Contents() == old(Contents()[..position]) + old(Contents()[position + 1..])
      ensures Contents() == Removed(old(Contents()), position)
      ensures elems == old(elems)
    {
      ghost var before := Contents();
      size := size - 1;
      for i := position to size
        invariant elems == old(elems) && size == |before| - 1
        invariant forall k :: 0 <= k < position ==> elems[k] == before[k]
        invariant forall k :: position <= k < i ==> elems[k] == before[k + 1]
        invariant forall k :: i < k <= size ==> elems[k] == before[k]
      {
        elems[i] := elems[i + 1];
      }
    }

    // vector_clear
    method Clear()
      requires Valid()
      modifies this
      ensures Valid() && Contents() == [] && elems == old(elems)
    {
      size := 0;
    }
  }
}
