/** The growable array `Vektor<T>` (src/VektorImpl/Vektor.hpp): a heap
    buffer `data`, its nominal `capacity` and the number `count` of elements
    in use. */
module Vektors {

  /** Capacity of a default-constructed Vektor. */
  const DefaultCapacity: nat := 10

  /** The buffer length `resize(static_cast<int>(capacity * 1.5) + 1)`
      allocates once `capacity` has been incremented. */
  function GrownLength(capacity: nat): (n: nat)
    ensures capacity < n
  {
    capacity * 3 / 2 + 1
  }

  /** The outcome of a checked element read. */
  datatype Access<T> = Value(x: T) | OutOfRange

  class Vektor<T(0)> {
    var data: array<T>
    var capacity: int
    var count: int

    /** `count <= capacity <= allocated length`. */
    ghost predicate Valid()
      reads this
    {
      0 <= count <= capacity <= data.Length
    }

    /** The elements `data[0..count)`, the value the Vektor stands for. */
    ghost function Elements(): seq<T>
      reads this, data
      requires Valid()
    {
      data[..count]
    }

    /** `Vektor()`: empty, with capacity 10. */
    constructor ()
      ensures Valid() && fresh(data)
      ensures Elements() == [] && capacity == DefaultCapacity
    {
      data := new T[DefaultCapacity];
      capacity := DefaultCapacity;
      count := 0;
    }

    /** `Vektor(initialSize)`: `initialSize` value-initialised elements;
        `zero` stands for `T()`. */
    constructor Sized(initialSize: nat, zero: T)
      ensures Valid() && fresh(data)
      ensures |Elements()| == initialSize
      ensures forall i | 0 <= i < initialSize :: Elements()[i] == zero
      ensures capacity == initialSize
    {
      capacity := initialSize;
      count := initialSize;
      var buffer := new T[initialSize];
      var i := 0;
      while i < initialSize
        invariant 0 <= i <= initialSize
        invariant forall k | 0 <= k < i :: buffer[k] == zero
      {
        buffer[i] := zero;
        i := i + 1;
      }
      data := buffer;
    }

    /** The copy constructor: a fresh buffer holding the same elements. */
    constructor Copy(other: Vektor<T>)
      requires other.Valid()
      ensures Valid() && fresh(data)
      ensures Elements() == other.Elements()
      ensures capacity == other.capacity
    {
      capacity := other.capacity;
      count := other.count;
      var buffer := new T[other.capacity];
      var i := 0;
      while i < other.count
        invariant 0 <= i <= other.count
        invariant forall k | 0 <= k < i :: buffer[k] == other.data[k]
      {
        buffer[i] := other.data[i];
        i := i + 1;
      }
      data := buffer;
    }

    /** Copy assignment. Assigning a Vektor to itself changes nothing;
        otherwise this Vektor gets a fresh buffer, so later writes to either
        one do not show in the other. */
    method Assign(other: Vektor<T>)
      requires Valid() && other.Valid()
      modifies this
      ensures Valid()
      ensures other == this ==> data == old(data) && count == old(count) && capacity == old(capacity)
      ensures other != this ==> fresh(data) && capacity == other.capacity
      ensures Elements() == old(other.Elements())
    {
      if this != other {
        var buffer := new T[other.capacity];
        var n := other.count;
        var i := 0;
        while i < n
          modifies buffer
          invariant 0 <= i <= n
          invariant forall k | 0 <= k < i :: buffer[k] == other.data[k]
        {
          buffer[i] := other.data[i];
          i := i + 1;
        }
        capacity := other.capacity;
        count := n;
        data := buffer;
      }
    }

    /** `size()`. */
    method Size() returns (n: int)
      requires Valid()
      ensures n == |Elements()|
    {
      n := count;
    }

    /** `operator[]` read: an index outside `[0, size)` throws
        `out_of_range`, which the result reports as OutOfRange. */
    method Get(index: int) returns (r: Access<T>)
      requires Valid()
      ensures 0 <= index < |Elements()| ==> r == Value(Elements()[index])
      ensures !(0 <= index < |Elements()|) ==> r == OutOfRange
    {
      if index < 0 || index >= count {
        return OutOfRange;
      }
      r := Value(data[index]);
    }

    /** `operator[]` used as an lvalue: inside `[0, size)` the element is
        replaced; outside, `out_of_range` is thrown before anything is
        written, reported here as `inRange == false`. */
    method Set(index: int, x: T) returns (inRange: bool)
      requires Valid()
      modifies data
      ensures Valid()
      ensures inRange <==> 0 <= index < |Elements()|
      ensures inRange ==> Elements() == old(Elements())[index := x]
      ensures !inRange ==> Elements() == old(Elements())
    {
      if index < 0 || index >= count {
        return false;
      }
      data[index] := x;
      inRange := true;
    }

    /** `push_back`: on overflow `capacity` grows by one while the buffer is
        reallocated at GrownLength(capacity); the new element lands at the
        old size and every earlier element keeps its place. */
    method PushBack(x: T)
      requires Valid()
      modifies this, data
      ensures Valid()
      ensures Elements() == old(Elements()) + [x]
      ensures old(count) < old(capacity) ==> capacity == old(capacity) && data == old(data)
      ensures old(count) >= old(capacity) ==>
                capacity == old(capacity) + 1 && fresh(data) && data.Length == GrownLength(capacity)
    {
      if count >= capacity {
        capacity := capacity + 1;
        Resize(GrownLength(capacity));
      }
      data[count] := x;
      count := count + 1;
    }

    /** `resize(newCapacity)`: moves the elements to a fresh buffer of the
        given length; `capacity` is left as it is. */
    method Resize(newLength: nat)
      requires 0 <= count <= data.Length
      requires 0 <= count <= capacity <= newLength
      modifies this
      ensures Valid()
      ensures fresh(data) && data.Length == newLength
      ensures count == old(count) && capacity == old(capacity)
      ensures Elements() == old(data[..count])
    {
      var buffer := new T[newLength];
      var old_data := data;
      var n := count;
      var i := 0;
      while i < n
        modifies buffer
        invariant 0 <= i <= n
        invariant forall k | 0 <= k < i :: buffer[k] == old_data[k]
      {
        buffer[i] := old_data[i];
        i := i + 1;
      }
      data := buffer;
    }

    /** `removeAt(index)`: removes one element and shifts the tail left. */
    method RemoveAt(index: int)
      requires Valid()
      requires 0 <= index < |Elements()|
      modifies this, data
      ensures Valid() && data == old(data) && capacity == old(capacity)
      ensures Elements() == old(Elements())[..index] + old(Elements())[index + 1..]
    {
      ghost var expected := Elements()[..index] + Elements()[index + 1..];
      var n := count;
      var i := index;
      while i < n - 1
        modifies data
        invariant index <= i <= n - 1
        invariant forall k | 0 <= k < index :: data[k] == old(data[k])
        invariant forall k | index <= k < i :: data[k] == old(data[k + 1])
        invariant forall k | i <= k < n :: data[k] == old(data[k])
      {
        data[i] := data[i + 1];
        i := i + 1;
      }
      count := count - 1;
      forall k | 0 <= k < count
        ensures data[k] == expected[k]
      {
        if k < index {
          assert expected[k] == old(data[k]);
        } else {
          assert expected[k] == old(data[k + 1]);
        }
      }
    }
  }
}
