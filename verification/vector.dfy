// Vector<T> of MyVector.h, over int elements: a heap buffer `data` of
// `capacity` slots whose first `size` slots hold the elements. The buffer is
// replaced by a larger one when it fills up (InternalResize); the elements the
// vector holds are `data[..size]`.

module Vectors {
  import opened Common

  /** The capacity push_back and insert ask for when the buffer is full. */
  function Grown(capacity: nat): (r: nat)
    ensures r > capacity
    ensures capacity > 0 ==> r == 2 * capacity
  {
    if capacity == 0 then 1 else capacity * 2
  }

  /** resize: the first `min(|s|, n)` elements survive, new slots hold `T()`, zero. */
  function Resized(s: seq<int>, n: nat): (r: seq<int>)
    ensures |r| == n
    ensures forall k :: 0 <= k < n && k < |s| ==> r[k] == s[k]
    ensures forall k :: |s| <= k < n ==> r[k] == 0
  {
    if n <= |s| then s[..n] else s + Repeat(n - |s|, 0)
  }

  /** operator+=: element-wise sum over the common prefix, the rest kept. */
  function AddPrefix(a: seq<int>, b: seq<int>): (r: seq<int>)
    ensures |r| == |a|
    ensures forall k :: 0 <= k < |a| && k < |b| ==> r[k] == a[k] + b[k]
    ensures forall k :: |b| <= k < |a| ==> r[k] == a[k]
  {
    seq(|a|, k requires 0 <= k < |a| => if k < |b| then a[k] + b[k] else a[k])
  }

  /** operator-=: element-wise difference over the common prefix, the rest kept. */
  function SubPrefix(a: seq<int>, b: seq<int>): (r: seq<int>)
    ensures |r| == |a|
    ensures forall k :: 0 <= k < |a| && k < |b| ==> r[k] == a[k] - b[k]
    ensures forall k :: |b| <= k < |a| ==> r[k] == a[k]
  {
    seq(|a|, k requires 0 <= k < |a| => if k < |b| then a[k] - b[k] else a[k])
  }

  /** operator*=: every element times `c`. */
  function Scaled(a: seq<int>, c: int): (r: seq<int>)
    ensures |r| == |a|
    ensures forall k :: 0 <= k < |a| ==> r[k] == a[k] * c
  {
    seq(|a|, k requires 0 <= k < |a| => a[k] * c)
  }

  /** operator/=: every element divided by `c`, rounding toward zero. */
  function Divided(a: seq<int>, c: int): (r: seq<int>)
    requires c != 0
    ensures |r| == |a|
    ensures forall k :: 0 <= k < |a| ==> r[k] == TruncDiv(a[k], c)
  {
    seq(|a|, k requires 0 <= k < |a| => TruncDiv(a[k], c))
  }

  /** Subtracting what was added gives the original elements back. */
  lemma SubAfterAdd(a: seq<int>, b: seq<int>)
    ensures SubPrefix(AddPrefix(a, b), b) == a
  {
  }

  /** Dividing by the scalar just multiplied by gives the original elements back. */
  lemma DivideAfterScale(a: seq<int>, c: int)
    requires c != 0
    ensures Divided(Scaled(a, c), c) == a
  {
    forall k | 0 <= k < |a| ensures Divided(Scaled(a, c), c)[k] == a[k] {
      ScaleThenDivide(a[k], c);
    }
  }

  /** resize keeps the common prefix, has the requested length, zero-fills growth,
      and is the identity at the current length. */
  lemma ResizedShape(s: seq<int>, n: nat)
    ensures |Resized(s, n)| == n
    ensures forall k :: 0 <= k < n && k < |s| ==> Resized(s, n)[k] == s[k]
    ensures forall k :: |s| <= k < n ==> Resized(s, n)[k] == 0
    ensures Resized(s, |s|) == s
  {
  }

  /** Growing and shrinking back to the old length restores the elements. */
  lemma ResizeBack(s: seq<int>, n: nat)
    requires n >= |s|
    ensures Resized(Resized(s, n), |s|) == s
  {
    assert Resized(s, n)[..|s|] == s;
  }

  /** The pointwise picture that the shift loop of insert leaves behind. */
  lemma ShiftedIsInsert(before: seq<int>, after: seq<int>, index: nat, n: nat, value: int)
    requires index <= n < |before| && n < |after|
    requires forall k :: 0 <= k < index ==> after[k] == before[k]
    requires after[index] == value
    requires forall k :: index < k <= n ==> after[k] == before[k - 1]
    ensures after[..n + 1] == InsertAt(before[..n], index, value)
  {
    InsertAtShifts(before[..n], index, value);
  }

  /** The pointwise picture that the shift loop of erase leaves behind. */
  lemma ShiftedIsErase(before: seq<int>, after: seq<int>, index: nat, n: nat)
    requires index < n <= |before| && n <= |after|
    requires forall k :: 0 <= k < index ==> after[k] == before[k]
    requires forall k :: index <= k < n - 1 ==> after[k] == before[k + 1]
    ensures after[..n - 1] == EraseAt(before[..n], index)
  {
    EraseAtShifts(before[..n], index);
  }

  class Vector {
    var data: array<int>
    var size: nat
    var capacity: nat

    /** The buffer has `capacity` slots and the elements fit in it. */
    ghost predicate Valid()
      reads this
    {
      data.Length == capacity && size <= capacity
    }

    /** The elements, in order. */
    ghost function Contents(): seq<int>
      reads this, data
      requires Valid()
    {
      data[..size]
    }

    /** Vector(): no elements and no buffer (an empty one here). */
    constructor ()
      ensures Valid() && fresh(data)
      ensures Contents() == [] && capacity == 0
    {
      data := new int[0];
      size := 0;
      capacity := 0;
    }

    /** Vector(initialCapacity): no elements, room for `initialCapacity`. */
    constructor WithCapacity(initialCapacity: nat)
      ensures Valid() && fresh(data)
      ensures Contents() == [] && capacity == initialCapacity
    {
      data := new int[initialCapacity];
      size := 0;
      capacity := initialCapacity;
    }

    function Size(): (n: nat)
      reads this, data
      requires Valid()
      ensures n == |Contents()|
    {
      size
    }

    function Capacity(): (c: nat)
      reads this
      requires Valid()
      ensures c == data.Length && c >= size
    {
      capacity
    }

    function Empty(): (e: bool)
      reads this, data
      requires Valid()
      ensures e <==> Contents() == []
    {
      size == 0
    }

    /** operator[] and front/back do not check their index. */
    function Get(index: nat): (x: int)
      reads this, data
      requires Valid() && index < size
      ensures x == Contents()[index]
    {
      data[index]
    }

    function Front(): (x: int)
      reads this, data
      requires Valid() && size > 0
      ensures x == Contents()[0]
    {
      data[0]
    }

    function Back(): (x: int)
      reads this, data
      requires Valid() && size > 0
      ensures x == Contents()[|Contents()| - 1]
    {
      data[size - 1]
    }

    /** at(index): the element, or "Index out of range" exactly when index >= size. */
    method At(index: nat) returns (r: Result<int>)
      requires Valid()
      ensures r.Err? <==> index >= |Contents()|
      ensures r.Err? ==> r.error == IndexOutOfRange
      ensures r.Ok? ==> r.value == Contents()[index]
    {
      if index >= size {
        return Err(IndexOutOfRange);
      }
      return Ok(data[index]);
    }

    /** Moves the elements to a new buffer of `newCapacity` slots, unless that
        would not make the buffer larger. */
    method InternalResize(newCapacity: nat)
      requires Valid()
      modifies this
      ensures Valid() && size == old(size) && Contents() == old(Contents())
      ensures capacity == if newCapacity <= old(capacity) then old(capacity) else newCapacity
      ensures data == old(data) || fresh(data)
    {
      if newCapacity <= capacity {
        return;
      }
      var newData := new int[newCapacity];
      CopyPrefix(data, newData, size);
      data := newData;
      capacity := newCapacity;
    }

    method PushBack(value: int)
      requires Valid()
      modifies this, data
      ensures Valid() && (data == old(data) || fresh(data))
      ensures Contents() == old(Contents()) + [value]
      ensures capacity == if old(size) == old(capacity) then Grown(old(capacity)) else old(capacity)
    {
      if size == capacity {
        InternalResize(Grown(capacity));
      }
      data[size] := value;
      size := size + 1;
    }

    /** pop_back on an empty vector does nothing. */
    method PopBack()
      requires Valid()
      modifies this
      ensures Valid() && data == old(data) && capacity == old(capacity)
      ensures Contents() == if old(size) == 0 then old(Contents()) else old(Contents())[..old(size) - 1]
    {
      if size > 0 {
        size := size - 1;
      }
    }

    /** clear keeps the buffer and its capacity. */
    method Clear()
      requires Valid()
      modifies this
      ensures Valid() && data == old(data) && capacity == old(capacity)
      ensures Contents() == []
    {
      size := 0;
    }

    /** Exchanges buffers, sizes and capacities with `other`. */
    method Swap(other: Vector)
      requires Valid() && other.Valid()
      modifies this, other
      ensures Valid() && other.Valid()
      ensures data == old(other.data) && size == old(other.size) && capacity == old(other.capacity)
      ensures other.data == old(data) && other.size == old(size) && other.capacity == old(capacity)
      ensures Contents() == old(other.Contents()) && other.Contents() == old(Contents())
    {
      var tmpData, tmpSize, tmpCapacity := data, size, capacity;
      data, size, capacity := other.data, other.size, other.capacity;
      other.data, other.size, other.capacity := tmpData, tmpSize, tmpCapacity;
    }

    /** insert(index, value): nothing happens when index > size; otherwise the
        buffer grows if full and the tail moves up one slot to make room. */
    method Insert(index: nat, value: int)
      requires Valid()
      modifies this, data
      ensures Valid() && (data == old(data) || fresh(data))
      ensures index > old(size) ==> Contents() == old(Contents()) && capacity == old(capacity)
      ensures index <= old(size) ==> Contents() == InsertAt(old(Contents()), index, value)
      ensures index <= old(size) ==>
        capacity == if old(size) == old(capacity) then Grown(old(capacity)) else old(capacity)
    {
      if index > size {
        return;
      }
      if size == capacity {
        InternalResize(Grown(capacity));
      }
      ghost var before := data[..];
      ShiftUp(data, index, size);
      data[index] := value;
      ShiftedIsInsert(before, data[..], index, size, value);
      size := size + 1;
    }

    /** erase(index): nothing happens when index >= size; otherwise the elements
        after it move down one slot. */
    method Erase(index: nat)
      requires Valid()
      modifies this, data
      ensures Valid() && data == old(data) && capacity == old(capacity)
      ensures index >= old(size) ==> Contents() == old(Contents())
      ensures index < old(size) ==> Contents() == EraseAt(old(Contents()), index)
    {
      if index >= size {
        return;
      }
      ghost var before := data[..];
      ShiftDown(data, index, size);
      ShiftedIsErase(before, data[..], index, size);
      size := size - 1;
    }

    /** resize(newSize): grows the buffer to exactly newSize if it is too small,
        zero-fills the slots between the old and the new size. */
    method Resize(newSize: nat)
      requires Valid()
      modifies this, data
      ensures Valid() && (data == old(data) || fresh(data))
      ensures Contents() == Resized(old(Contents()), newSize)
      ensures capacity == if newSize > old(capacity) then newSize else old(capacity)
    {
      if newSize > capacity {
        InternalResize(newSize);
      }
      if newSize < size {
        size := newSize;
      } else if newSize > size {
        ghost var before := data[..];
        FillRange(data, size, newSize, 0);
        assert data[..newSize] == before[..size] + Repeat(newSize - size, 0);
      }
      size := newSize;
    }

    /** reserve(newCapacity) never shrinks the buffer and never changes the elements. */
    method Reserve(newCapacity: nat)
      requires Valid()
      modifies this
      ensures Valid() && Contents() == old(Contents())
      ensures capacity == if newCapacity > old(capacity) then newCapacity else old(capacity)
    {
      if newCapacity > capacity {
        InternalResize(newCapacity);
      }
    }

    /** assign(count, value): clear, then push_back `count` times. */
    method Assign(count: nat, value: int)
      requires Valid()
      modifies this, data
      ensures Valid() && Contents() == Repeat(count, value)
      ensures capacity >= old(capacity)
      ensures count <= old(capacity) ==> capacity == old(capacity)
    {
      Clear();
      var i := 0;
      while i < count
        invariant 0 <= i <= count
        invariant Valid() && (data == old(data) || fresh(data))
        invariant Contents() == Repeat(i, value)
        invariant capacity >= old(capacity)
        invariant i <= old(capacity) ==> capacity == old(capacity)
      {
        PushBack(value);
        i := i + 1;
      }
    }

    /** operator==: same size and the same element at every position. */
    method Equals(other: Vector) returns (r: bool)
      requires Valid() && other.Valid()
      ensures r <==> Contents() == other.Contents()
    {
      if size != other.size {
        return false;
      }
      var i := 0;
      while i < size
        invariant 0 <= i <= size
        invariant forall k :: 0 <= k < i ==> data[k] == other.data[k]
      {
        if data[i] != other.data[i] {
          assert Contents()[i] != other.Contents()[i];
          return false;
        }
        i := i + 1;
      }
      assert Contents() == other.Contents();
      return true;
    }

    /** operator!=, the negation of operator==. */
    method NotEquals(other: Vector) returns (r: bool)
      requires Valid() && other.Valid()
      ensures r <==> Contents() != other.Contents()
    {
      var eq := Equals(other);
      return !eq;
    }

    /** operator<: lexicographic, a proper prefix being the smaller. */
    method Less(other: Vector) returns (r: bool)
      requires Valid() && other.Valid()
      ensures r == LexLess(Contents(), other.Contents())
    {
      ghost var a, b := Contents(), other.Contents();
      var i := 0;
      while i < size && i < other.size
        invariant 0 <= i <= size && i <= other.size
        invariant LexLess(a, b) == LexLess(a[i..], b[i..])
      {
        if data[i] < other.data[i] {
          return true;
        }
        if data[i] > other.data[i] {
          return false;
        }
        LexSkipEqual(a, b, i);
        i := i + 1;
      }
      return size < other.size;
    }

    /** operator<=, defined as !(other < this): less or equal. */
    method LessEq(other: Vector) returns (r: bool)
      requires Valid() && other.Valid()
      ensures r <==> LexLess(Contents(), other.Contents()) || Contents() == other.Contents()
    {
      var greater := other.Less(this);
      LexNotGreater(Contents(), other.Contents());
      return !greater;
    }

    /** operator>, defined as other < this. */
    method Greater(other: Vector) returns (r: bool)
      requires Valid() && other.Valid()
      ensures r == LexLess(other.Contents(), Contents())
    {
      r := other.Less(this);
    }

    /** operator>=, defined as !(this < other): greater or equal. */
    method GreaterEq(other: Vector) returns (r: bool)
      requires Valid() && other.Valid()
      ensures r <==> LexLess(other.Contents(), Contents()) || Contents() == other.Contents()
    {
      var less := Less(other);
      LexNotGreater(other.Contents(), Contents());
      return !less;
    }

    /** operator+=: adds `other` element-wise over the shorter of the two lengths
        (`other` may be this vector itself). */
    method AddAssign(other: Vector)
      requires Valid() && other.Valid()
      modifies data
      ensures Valid() && Contents() == AddPrefix(old(Contents()), old(other.Contents()))
    {
      ghost var a, b := Contents(), other.Contents();
      var i := 0;
      while i < size && i < other.size
        invariant 0 <= i <= size && i <= other.size
        invariant forall k :: 0 <= k < i ==> data[k] == a[k] + b[k]
        invariant forall k :: i <= k < data.Length ==> data[k] == old(data[k])
        invariant forall k :: i <= k < other.data.Length ==> other.data[k] == old(other.data[k])
      {
        data[i] := data[i] + other.data[i];
        i := i + 1;
      }
      assert forall k :: 0 <= k < size ==> Contents()[k] == AddPrefix(a, b)[k];
    }

    /** operator-=: subtracts `other` element-wise over the shorter of the two lengths. */
    method SubAssign(other: Vector)
      requires Valid() && other.Valid()
      modifies data
      ensures Valid() && Contents() == SubPrefix(old(Contents()), old(other.Contents()))
    {
      ghost var a, b := Contents(), other.Contents();
      var i := 0;
      while i < size && i < other.size
        invariant 0 <= i <= size && i <= other.size
        invariant forall k :: 0 <= k < i ==> data[k] == a[k] - b[k]
        invariant forall k :: i <= k < data.Length ==> data[k] == old(data[k])
        invariant forall k :: i <= k < other.data.Length ==> other.data[k] == old(other.data[k])
      {
        data[i] := data[i] - other.data[i];
        i := i + 1;
      }
      assert forall k :: 0 <= k < size ==> Contents()[k] == SubPrefix(a, b)[k];
    }

    /** operator*=: multiplies every element by `scalar`. */
    method MulAssign(scalar: int)
      requires Valid()
      modifies data
      ensures Valid() && Contents() == Scaled(old(Contents()), scalar)
    {
      var i := 0;
      while i < size
        invariant 0 <= i <= size
        invariant forall k :: 0 <= k < i ==> data[k] == old(data[k]) * scalar
        invariant forall k :: i <= k < data.Length ==> data[k] == old(data[k])
      {
        data[i] := data[i] * scalar;
        i := i + 1;
      }
    }

    /** operator/=: divides every element by `scalar`, as C++ integer division
        does; a zero scalar is undefined behaviour there and excluded here. */
    method DivAssign(scalar: int)
      requires Valid() && scalar != 0
      modifies data
      ensures Valid() && Contents() == Divided(old(Contents()), scalar)
    {
      var i := 0;
      while i < size
        invariant 0 <= i <= size
        invariant forall k :: 0 <= k < i ==> data[k] == TruncDiv(old(data[k]), scalar)
        invariant forall k :: i <= k < data.Length ==> data[k] == old(data[k])
      {
        data[i] := TruncDiv(data[i], scalar);
        i := i + 1;
      }
    }
  }

  /** Swapping twice restores both vectors. */
  method SwapTwice(v: Vector, w: Vector)
    requires v.Valid() && w.Valid()
    modifies v, w
    ensures v.Valid() && w.Valid()
    ensures v.Contents() == old(v.Contents()) && w.Contents() == old(w.Contents())
    ensures v.capacity == old(v.capacity) && w.capacity == old(w.capacity)
  {
    v.Swap(w);
    v.Swap(w);
  }

  /** push_back 510, push_back 0, insert(1, -17) gives [510, -17, 0]. */
  method InsertExample() returns (r: seq<int>)
    ensures r == [510, -17, 0]
  {
    var v := new Vector();
    v.PushBack(510);
    v.PushBack(0);
    v.Insert(1, -17);
    r := v.data[..v.size];
  }

  /** [0, 99, -99] with erase(1) gives [0, -99]; erase(5) then changes nothing. */
  method EraseExample() returns (r: seq<int>)
    ensures r == [0, -99]
  {
    var v := new Vector();
    v.PushBack(0);
    v.PushBack(99);
    v.PushBack(-99);
    v.Erase(1);
    v.Erase(5);
    r := v.data[..v.size];
  }

  /** Pushing three values onto an empty vector grows the capacity 0, 1, 2, 4. */
  method GrowthExample() returns (capacities: seq<nat>, r: seq<int>)
    ensures capacities == [0, 1, 2, 4] && r == [12102, 270, -30]
  {
    var v := new Vector();
    capacities := [v.capacity];
    v.PushBack(12102);
    capacities := capacities + [v.capacity];
    v.PushBack(270);
    capacities := capacities + [v.capacity];
    v.PushBack(-30);
    capacities := capacities + [v.capacity];
    r := v.data[..v.size];
  }
}
