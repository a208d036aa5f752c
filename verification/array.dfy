// Array<T> of MyArray.h, over int elements: a heap buffer of exactly `size`
// slots, with bounds-checked access, a resize that moves the common prefix to a
// new buffer, and free comparison operators.

module Arrays {
  import opened Common

  class Array {
    var data: array<int>
    var size: nat

    ghost predicate Valid()
      reads this
    {
      data.Length == size
    }

    /** The elements, in order. */
    ghost function Contents(): seq<int>
      reads this, data
      requires Valid()
    {
      data[..]
    }

    /** Array(): no elements. */
    constructor ()
      ensures Valid() && fresh(data) && Contents() == []
    {
      data := new int[0];
      size := 0;
    }

    /** Array(size): `size` value-initialised elements, zero for integers. */
    constructor OfSize(n: nat)
      ensures Valid() && fresh(data) && Contents() == Repeat(n, 0)
    {
      data := new int[n](_ => 0);
      size := n;
    }

    function GetSize(): (n: nat)
      reads this, data
      requires Valid()
      ensures n == |Contents()|
    {
      size
    }

    function Empty(): (e: bool)
      reads this, data
      requires Valid()
      ensures e <==> Contents() == []
    {
      size == 0
    }

    /** Reading through operator[]: "Index out of range" exactly when index >= size. */
    method Get(index: nat) returns (r: Result<int>)
      requires Valid()
      ensures r.Err? <==> index >= |Contents()|
      ensures r.Err? ==> r.error == IndexOutOfRange
      ensures r.Ok? ==> r.value == Contents()[index]
    {
      if index >= size {
        return Err(IndexOutOfRange);
      }
      return Ok(data[index]);
    }

    /** Writing through operator[]: the one slot changes, or nothing does and
        "Index out of range" is thrown. */
    method Set(index: nat, value: int) returns (st: Status)
      requires Valid()
      modifies data
      ensures Valid()
      ensures st.Failed? <==> index >= old(|Contents()|)
      ensures st.Failed? ==> st.error == IndexOutOfRange && Contents() == old(Contents())
      ensures st.Done? ==> Contents() == old(Contents())[index := value]
    {
      if index >= size {
        return Failed(IndexOutOfRange);
      }
      data[index] := value;
      return Done;
    }

    /** resize(newSize): nothing happens at the current size; otherwise a new buffer
        of newSize slots receives the common prefix, and the slots beyond it are
        left uninitialised (any value here). */
    method Resize(newSize: nat)
      requires Valid()
      modifies this
      ensures Valid() && |Contents()| == newSize
      ensures newSize == old(size) ==> data == old(data) && Contents() == old(Contents())
      ensures newSize != old(size) ==> fresh(data)
      ensures forall k :: 0 <= k < newSize && k < old(size) ==> Contents()[k] == old(Contents())[k]
    {
      if newSize == size {
        return;
      }
      var newData := new int[newSize];
      var minSize := if size < newSize then size else newSize;
      CopyPrefix(data, newData, minSize);
      data := newData;
      size := newSize;
    }

    /** clear releases the buffer: no elements remain. */
    method Clear()
      requires Valid()
      modifies this
      ensures Valid() && Contents() == [] && fresh(data)
    {
      data := new int[0];
      size := 0;
    }

    /** fill(value): every element becomes `value`, the size stays. */
    method Fill(value: int)
      requires Valid()
      modifies data
      ensures Valid() && Contents() == Repeat(old(size), value)
    {
      FillRange(data, 0, size, value);
    }

    /** assign(count, value): resize to `count`, then set every element to `value`. */
    method Assign(count: nat, value: int)
      requires Valid()
      modifies this, data
      ensures Valid() && Contents() == Repeat(count, value)
      ensures data == old(data) || fresh(data)
    {
      Resize(count);
      FillRange(data, 0, count, value);
    }

    /** front(): element 0, or "Array is empty". */
    method Front() returns (r: Result<int>)
      requires Valid()
      ensures r.Err? <==> Contents() == []
      ensures r.Err? ==> r.error == ArrayEmpty
      ensures r.Ok? ==> r.value == Contents()[0]
    {
      if size == 0 {
        return Err(ArrayEmpty);
      }
      return Ok(data[0]);
    }

    /** back(): the last element, or "Array is empty". */
    method Back() returns (r: Result<int>)
      requires Valid()
      ensures r.Err? <==> Contents() == []
      ensures r.Err? ==> r.error == ArrayEmpty
      ensures r.Ok? ==> r.value == Contents()[|Contents()| - 1]
    {
      if size == 0 {
        return Err(ArrayEmpty);
      }
      return Ok(data[size - 1]);
    }

    /** Exchanges buffers and sizes with `other`. */
    method Swap(other: Array)
      requires Valid() && other.Valid()
      modifies this, other
      ensures Valid() && other.Valid()
      ensures data == old(other.data) && size == old(other.size)
      ensures other.data == old(data) && other.size == old(size)
      ensures Contents() == old(other.Contents()) && other.Contents() == old(Contents())
    {
      var tempData, tempSize := data, size;
      data, size := other.data, other.size;
      other.data, other.size := tempData, tempSize;
    }
  }

  /** operator==: equal sizes and equal elements at every position. */
  method Equal(lhs: Array, rhs: Array) returns (r: bool)
    requires lhs.Valid() && rhs.Valid()
    ensures r <==> lhs.Contents() == rhs.Contents()
  {
    if lhs.size != rhs.size {
      return false;
    }
    var i := 0;
    while i < lhs.size
      invariant 0 <= i <= lhs.size
      invariant forall k :: 0 <= k < i ==> lhs.data[k] == rhs.data[k]
    {
      if lhs.data[i] != rhs.data[i] {
        assert lhs.Contents()[i] != rhs.Contents()[i];
        return false;
      }
      i := i + 1;
    }
    assert lhs.Contents() == rhs.Contents();
    return true;
  }

  /** operator!=, the negation of operator==. */
  method NotEqual(lhs: Array, rhs: Array) returns (r: bool)
    requires lhs.Valid() && rhs.Valid()
    ensures r <==> lhs.Contents() != rhs.Contents()
  {
    var eq := Equal(lhs, rhs);
    return !eq;
  }

  /** operator<: lexicographic over the common prefix, then the shorter is smaller. */
  method Less(lhs: Array, rhs: Array) returns (r: bool)
    requires lhs.Valid() && rhs.Valid()
    ensures r == LexLess(lhs.Contents(), rhs.Contents())
  {
    ghost var a, b := lhs.Contents(), rhs.Contents();
    var minSize := if lhs.size < rhs.size then lhs.size else rhs.size;
    var i := 0;
    while i < minSize
      invariant 0 <= i <= minSize
      invariant LexLess(a, b) == LexLess(a[i..], b[i..])
    {
      if lhs.data[i] < rhs.data[i] {
        return true;
      }
      if lhs.data[i] > rhs.data[i] {
        return false;
      }
      LexSkipEqual(a, b, i);
      i := i + 1;
    }
    return lhs.size < rhs.size;
  }

  /** operator<=, defined as !(rhs < lhs): less or equal. */
  method LessEq(lhs: Array, rhs: Array) returns (r: bool)
    requires lhs.Valid() && rhs.Valid()
    ensures r <==> LexLess(lhs.Contents(), rhs.Contents()) || lhs.Contents() == rhs.Contents()
  {
    var greater := Less(rhs, lhs);
    LexNotGreater(lhs.Contents(), rhs.Contents());
    return !greater;
  }

  /** operator>, defined as rhs < lhs. */
  method Greater(lhs: Array, rhs: Array) returns (r: bool)
    requires lhs.Valid() && rhs.Valid()
    ensures r == LexLess(rhs.Contents(), lhs.Contents())
  {
    r := Less(rhs, lhs);
  }

  /** operator>=, defined as !(lhs < rhs): greater or equal. */
  method GreaterEq(lhs: Array, rhs: Array) returns (r: bool)
    requires lhs.Valid() && rhs.Valid()
    ensures r <==> LexLess(rhs.Contents(), lhs.Contents()) || lhs.Contents() == rhs.Contents()
  {
    var less := Less(lhs, rhs);
    LexNotGreater(rhs.Contents(), lhs.Contents());
    return !less;
  }

  /** Swapping twice restores both arrays. */
  method SwapTwice(x: Array, y: Array)
    requires x.Valid() && y.Valid()
    modifies x, y
    ensures x.Valid() && y.Valid()
    ensures x.Contents() == old(x.Contents()) && y.Contents() == old(y.Contents())
  {
    x.Swap(y);
    x.Swap(y);
  }

  /** Array(6), fill(100), then [2] = -200 and [4] = 500; reading [6] fails. */
  method FillExample() returns (r: seq<int>, outside: Result<int>)
    ensures r == [100, 100, -200, 100, 500, 100]
    ensures outside == Err(IndexOutOfRange)
  {
    var arr := new Array.OfSize(6);
    arr.Fill(100);
    var _ := arr.Set(2, -200);
    var _ := arr.Set(4, 500);
    r := arr.data[..];
    outside := arr.Get(6);
  }

  /** assign(5, 42) on an empty array, then [0] = -1 and [4] = 5000. */
  method AssignExample() returns (r: seq<int>)
    ensures r == [-1, 42, 42, 42, 5000]
  {
    var arr := new Array();
    arr.Assign(5, 42);
    var _ := arr.Set(0, -1);
    var _ := arr.Set(4, 5000);
    r := arr.data[..];
  }

  /** front and back of [7, -3, 12, -89]; both fail once the array is cleared. */
  method FrontBackExample() returns (front: Result<int>, back: Result<int>, frontAfterClear: Result<int>, backAfterClear: Result<int>)
    ensures front == Ok(7) && back == Ok(-89)
    ensures frontAfterClear == Err(ArrayEmpty) && backAfterClear == Err(ArrayEmpty)
  {
    var arr := new Array.OfSize(4);
    var _ := arr.Set(0, 7);
    var _ := arr.Set(1, -3);
    var _ := arr.Set(2, 12);
    var _ := arr.Set(3, -89);
    front := arr.Front();
    back := arr.Back();
    arr.Clear();
    frontAfterClear := arr.Front();
    backAfterClear := arr.Back();
  }
}
