// VectorND<T> of MyNDimVector.h over int components: a vector of fixed dimension
// kept in an Array, with the dot product, the 3-D cross product, element-wise
// sum and difference, scaling, division by a scalar, reversal and projection,
// each giving a new vector.

module VectorsND {
  import opened Common
  import opened Arrays
  import opened Vectors

  // ---------------------------------------------------------------------------
  // What the operators compute

  /** The dot product: the sum of a[i] * b[i] over all positions. */
  function DotProduct(a: seq<int>, b: seq<int>): (r: int)
    requires |a| == |b|
    ensures a == b ==> r >= 0
    ensures a == b ==> (r == 0 <==> forall k :: 0 <= k < |a| ==> a[k] == 0)
    decreases |a|
  {
    if |a| == 0 then 0
    else
      var m := |a| - 1;
      assert a == b ==> a[m] * b[m] >= 0 && (a[m] * b[m] == 0 <==> a[m] == 0) by {
        if a == b { SquareZero(a[m]); }
      }
      DotProduct(a[..m], b[..m]) + a[m] * b[m]
  }

  /** A square is never negative, and is zero only for zero. */
  lemma SquareZero(x: int)
    ensures x * x >= 0 && (x * x == 0 <==> x == 0)
  {
    if x < 0 {
      assert x * x == (-x) * (-x);
    }
  }

  /** Scaling one operand scales the dot product. */
  lemma {:induction false} DotScaled(a: seq<int>, b: seq<int>, c: int)
    requires |a| == |b|
    ensures DotProduct(Scaled(a, c), b) == c * DotProduct(a, b)
    decreases |a|
  {
    if |a| > 0 {
      var m := |a| - 1;
      assert Scaled(a, c)[..m] == Scaled(a[..m], c);
      DotScaled(a[..m], b[..m], c);
      assert (a[m] * c) * b[m] == c * (a[m] * b[m]);
      assert c * DotProduct(a[..m], b[..m]) + c * (a[m] * b[m])
          == c * (DotProduct(a[..m], b[..m]) + a[m] * b[m]);
    }
  }

  /** What projection returns for `a` onto a non-zero `b`: `b` times the truncated
      quotient dot(a, b) / dot(b, b). */
  function Projected(a: seq<int>, b: seq<int>): (r: seq<int>)
    requires |a| == |b| && DotProduct(b, b) != 0
    ensures |r| == |b|
  {
    Scaled(b, TruncDiv(DotProduct(a, b), DotProduct(b, b)))
  }

  /** Projecting an integer multiple of `b` onto `b` gives that multiple back. */
  lemma ProjectionKeepsMultiples(b: seq<int>, c: int)
    requires DotProduct(b, b) != 0
    ensures Projected(Scaled(b, c), b) == Scaled(b, c)
  {
    var n := DotProduct(b, b);
    DotScaled(b, b, c);
    assert DotProduct(Scaled(b, c), b) == c * n;
    ScaleThenDivide(c, n);
  }

  /** The dot product does not depend on the order of its operands. */
  lemma {:induction false} DotSymmetric(a: seq<int>, b: seq<int>)
    requires |a| == |b|
    ensures DotProduct(a, b) == DotProduct(b, a)
    decreases |a|
  {
    if |a| > 0 {
      DotSymmetric(a[..|a| - 1], b[..|b| - 1]);
    }
  }

  /** The dot product distributes over the sum of vectors. */
  lemma {:induction false} DotDistributes(a: seq<int>, b: seq<int>, c: seq<int>)
    requires |a| == |b| == |c|
    ensures DotProduct(AddPrefix(a, b), c) == DotProduct(a, c) + DotProduct(b, c)
    decreases |a|
  {
    if |a| > 0 {
      var m := |a| - 1;
      assert AddPrefix(a, b)[..m] == AddPrefix(a[..m], b[..m]);
      DotDistributes(a[..m], b[..m], c[..m]);
      assert (a[m] + b[m]) * c[m] == a[m] * c[m] + b[m] * c[m];
    }
  }

  /** The cross product of two 3-D vectors, component by component. */
  function CrossProduct(a: seq<int>, b: seq<int>): (r: seq<int>)
    requires |a| == 3 && |b| == 3
    ensures |r| == 3
  {
    [a[1] * b[2] - a[2] * b[1],
     a[2] * b[0] - a[0] * b[2],
     a[0] * b[1] - a[1] * b[0]]
  }

  /** Swapping the operands negates the cross product. */
  lemma CrossAnticommutes(a: seq<int>, b: seq<int>)
    requires |a| == 3 && |b| == 3
    ensures CrossProduct(a, b) == Scaled(CrossProduct(b, a), -1)
  {
  }

  /** The cross product of a vector with itself is the zero vector. */
  lemma CrossSelf(a: seq<int>)
    requires |a| == 3
    ensures CrossProduct(a, a) == [0, 0, 0]
  {
  }

  /** The dot product of three components, written out. */
  lemma DotOfThree(a: seq<int>, b: seq<int>)
    requires |a| == 3 && |b| == 3
    ensures DotProduct(a, b) == a[0] * b[0] + a[1] * b[1] + a[2] * b[2]
  {
    var a2, b2 := a[..2], b[..2];
    var a1, b1 := a2[..1], b2[..1];
    assert DotProduct(a1[..0], b1[..0]) == 0;
    assert DotProduct(a1, b1) == a[0] * b[0];
    assert DotProduct(a2, b2) == DotProduct(a1, b1) + a[1] * b[1];
  }

  /** The polynomial identities behind CrossPerpendicular: each of x and y
      against c, the cross product of x and y, gives zero. */
  lemma TripleProductVanishes(x0: int, x1: int, x2: int, y0: int, y1: int, y2: int,
                              c0: int, c1: int, c2: int)
    requires c0 == x1 * y2 - x2 * y1 && c1 == x2 * y0 - x0 * y2 && c2 == x0 * y1 - x1 * y0
    ensures x0 * c0 + x1 * c1 + x2 * c2 == 0
    ensures y0 * c0 + y1 * c1 + y2 * c2 == 0
  {
    assert x0 * c0 == x0 * x1 * y2 - x0 * x2 * y1;
    assert x1 * c1 == x1 * x2 * y0 - x0 * x1 * y2;
    assert x2 * c2 == x0 * x2 * y1 - x1 * x2 * y0;
    assert y0 * c0 == x1 * y0 * y2 - x2 * y0 * y1;
    assert y1 * c1 == x2 * y0 * y1 - x0 * y1 * y2;
    assert y2 * c2 == x0 * y1 * y2 - x1 * y0 * y2;
  }

  /** The cross product is perpendicular to both of its operands. */
  lemma CrossPerpendicular(a: seq<int>, b: seq<int>)
    requires |a| == 3 && |b| == 3
    ensures DotProduct(a, CrossProduct(a, b)) == 0
    ensures DotProduct(b, CrossProduct(a, b)) == 0
  {
    var c := CrossProduct(a, b);
    DotOfThree(a, c);
    DotOfThree(b, c);
    TripleProductVanishes(a[0], a[1], a[2], b[0], b[1], b[2], c[0], c[1], c[2]);
  }

  // ---------------------------------------------------------------------------
  // The loops of the operators, on the underlying buffers

  /** The initializer-list constructor's loop: m_data[i++] = val for each value. */
  method CopyValues(values: seq<int>, out: array<int>)
    requires out.Length == |values|
    modifies out
    ensures out[..] == values
  {
    var i := 0;
    while i < |values|
      invariant 0 <= i <= |values|
      invariant forall k :: 0 <= k < i ==> out[k] == values[k]
    {
      out[i] := values[i];
      i := i + 1;
    }
  }

  /** operator+'s loop: result[i] = this[i] + other[i]. */
  method PlusInto(a: array<int>, b: array<int>, out: array<int>)
    requires a.Length == b.Length == out.Length && out != a && out != b
    modifies out
    ensures out[..] == AddPrefix(a[..], b[..])
  {
    var i := 0;
    while i < out.Length
      invariant 0 <= i <= out.Length
      invariant forall k :: 0 <= k < i ==> out[k] == a[k] + b[k]
    {
      out[i] := a[i] + b[i];
      i := i + 1;
    }
  }

  /** operator-'s loop: result[i] = this[i] - other[i]. */
  method MinusInto(a: array<int>, b: array<int>, out: array<int>)
    requires a.Length == b.Length == out.Length && out != a && out != b
    modifies out
    ensures out[..] == SubPrefix(a[..], b[..])
  {
    var i := 0;
    while i < out.Length
      invariant 0 <= i <= out.Length
      invariant forall k :: 0 <= k < i ==> out[k] == a[k] - b[k]
    {
      out[i] := a[i] - b[i];
      i := i + 1;
    }
  }

  /** operator*'s loop: result[i] = this[i] * scalar. */
  method ScaleInto(a: array<int>, scalar: int, out: array<int>)
    requires a.Length == out.Length && out != a
    modifies out
    ensures out[..] == Scaled(a[..], scalar)
  {
    var i := 0;
    while i < out.Length
      invariant 0 <= i <= out.Length
      invariant forall k :: 0 <= k < i ==> out[k] == a[k] * scalar
    {
      out[i] := a[i] * scalar;
      i := i + 1;
    }
  }

  /** operator/'s loop: result[i] = this[i] / scalar, rounded toward zero. */
  method DivideInto(a: array<int>, scalar: int, out: array<int>)
    requires a.Length == out.Length && out != a && scalar != 0
    modifies out
    ensures out[..] == Divided(a[..], scalar)
  {
    var i := 0;
    while i < out.Length
      invariant 0 <= i <= out.Length
      invariant forall k :: 0 <= k < i ==> out[k] == TruncDiv(a[k], scalar)
    {
      out[i] := TruncDiv(a[i], scalar);
      i := i + 1;
    }
  }

  /** reverse's loop: result[i] = this[size() - 1 - i]. */
  method ReverseInto(a: array<int>, out: array<int>)
    requires a.Length == out.Length && out != a
    modifies out
    ensures out[..] == Common.Reverse(a[..])
  {
    var i := 0;
    while i < out.Length
      invariant 0 <= i <= out.Length
      invariant forall k :: 0 <= k < i ==> out[k] == a[a.Length - 1 - k]
    {
      out[i] := a[a.Length - 1 - i];
      i := i + 1;
    }
  }

  // ---------------------------------------------------------------------------
  // The vector

  class VectorND {
    var data: Array

    ghost predicate Valid()
      reads this, data
    {
      data.Valid()
    }

    /** The components, in order. */
    ghost function Elements(): seq<int>
      reads this, data, data.data
      requires Valid()
    {
      data.Contents()
    }

    /** VectorND(dimensions): the zero vector of that dimension. */
    constructor (dimensions: nat)
      ensures Valid() && Elements() == Repeat(dimensions, 0)
      ensures fresh(data) && fresh(data.data)
    {
      data := new Array.OfSize(dimensions);
    }

    /** VectorND({v0, v1, ...}): as many components as values, copied in order. */
    constructor FromValues(values: seq<int>)
      ensures Valid() && Elements() == values
      ensures fresh(data) && fresh(data.data)
    {
      data := new Array.OfSize(|values|);
      new;
      CopyValues(values, data.data);
    }

    /** size(): the dimension. */
    function Size(): (n: nat)
      reads this, data
      requires Valid()
      ensures n == |Elements()|
    {
      data.size
    }

    /** Reading operator[]: the Array's "Index out of range" check, otherwise the
        component. */
    method Get(index: nat) returns (r: Result<int>)
      requires Valid()
      ensures r == if index < |Elements()| then Ok(Elements()[index]) else Err(IndexOutOfRange)
    {
      r := data.Get(index);
    }

    /** Writing through operator[]: the one component changes, or nothing does
        and "Index out of range" is thrown. */
    method Set(index: nat, value: int) returns (st: Status)
      requires Valid()
      modifies data.data
      ensures Valid()
      ensures index >= |old(Elements())| ==> st == Failed(IndexOutOfRange) && Elements() == old(Elements())
      ensures index < |old(Elements())| ==> st == Done && Elements() == old(Elements())[index := value]
    {
      st := data.Set(index, value);
    }

    /** dot: "Dimension mismatch" unless the dimensions agree, otherwise the sum
        of the component products, accumulated from the first position on. */
    method Dot(other: VectorND) returns (r: Result<int>)
      requires Valid() && other.Valid()
      ensures r == if |Elements()| == |other.Elements()| then Ok(DotProduct(Elements(), other.Elements()))
                   else Err(DimensionMismatch)
    {
      if data.size != other.data.size {
        return Err(DimensionMismatch);
      }
      ghost var a, b := Elements(), other.Elements();
      var result := 0;
      var i := 0;
      while i < data.size
        invariant 0 <= i <= data.size
        invariant result == DotProduct(a[..i], b[..i])
      {
        assert a[..i + 1][..i] == a[..i] && b[..i + 1][..i] == b[..i];
        result := result + data.data[i] * other.data.data[i];
        i := i + 1;
      }
      assert a[..i] == a && b[..i] == b;
      return Ok(result);
    }

    /** cross: "Cross product only for 3D vectors" unless both are 3-D, otherwise
        a new vector built from the three component formulas. */
    method Cross(other: VectorND) returns (r: Result<VectorND>)
      requires Valid() && other.Valid()
      ensures r.Err? <==> |Elements()| != 3 || |other.Elements()| != 3
      ensures r.Err? ==> r.error == NotThreeDimensional
      ensures r.Ok? ==> fresh(r.value) && fresh(r.value.data) && r.value.Valid()
      ensures r.Ok? ==> r.value.Elements() == CrossProduct(Elements(), other.Elements())
    {
      if data.size != 3 || other.data.size != 3 {
        return Err(NotThreeDimensional);
      }
      var a, b := data.data, other.data.data;
      var result := new VectorND.FromValues([
        a[1] * b[2] - a[2] * b[1],
        a[2] * b[0] - a[0] * b[2],
        a[0] * b[1] - a[1] * b[0]]);
      return Ok(result);
    }

    /** operator+: "Dimension mismatch" unless the dimensions agree, otherwise a
        new vector of the component sums. */
    method Add(other: VectorND) returns (r: Result<VectorND>)
      requires Valid() && other.Valid()
      ensures r.Err? <==> |Elements()| != |other.Elements()|
      ensures r.Err? ==> r.error == DimensionMismatch
      ensures r.Ok? ==> fresh(r.value) && fresh(r.value.data) && r.value.Valid()
      ensures r.Ok? ==> r.value.Elements() == AddPrefix(Elements(), other.Elements())
    {
      if data.size != other.data.size {
        return Err(DimensionMismatch);
      }
      var result := new VectorND(data.size);
      PlusInto(data.data, other.data.data, result.data.data);
      return Ok(result);
    }

    /** operator-: "Dimension mismatch" unless the dimensions agree, otherwise a
        new vector of the component differences. */
    method Sub(other: VectorND) returns (r: Result<VectorND>)
      requires Valid() && other.Valid()
      ensures r.Err? <==> |Elements()| != |other.Elements()|
      ensures r.Err? ==> r.error == DimensionMismatch
      ensures r.Ok? ==> fresh(r.value) && fresh(r.value.data) && r.value.Valid()
      ensures r.Ok? ==> r.value.Elements() == SubPrefix(Elements(), other.Elements())
    {
      if data.size != other.data.size {
        return Err(DimensionMismatch);
      }
      var result := new VectorND(data.size);
      MinusInto(data.data, other.data.data, result.data.data);
      return Ok(result);
    }

    /** operator*(scalar): a new vector with every component times the scalar. */
    method Scale(scalar: int) returns (result: VectorND)
      requires Valid()
      ensures fresh(result) && fresh(result.data) && result.Valid()
      ensures result.Elements() == Scaled(Elements(), scalar)
    {
      result := new VectorND(data.size);
      ScaleInto(data.data, scalar, result.data.data);
    }

    /** operator/(scalar): "Cannot divide by zero" for a zero scalar, otherwise a
        new vector of the quotients, rounded toward zero as C++ does. */
    method Divide(scalar: int) returns (r: Result<VectorND>)
      requires Valid()
      ensures r.Err? <==> scalar == 0
      ensures r.Err? ==> r.error == DivisionByZero
      ensures r.Ok? ==> fresh(r.value) && fresh(r.value.data) && r.value.Valid()
      ensures r.Ok? ==> r.value.Elements() == Divided(Elements(), scalar)
    {
      if scalar == 0 {
        return Err(DivisionByZero);
      }
      var result := new VectorND(data.size);
      DivideInto(data.data, scalar, result.data.data);
      return Ok(result);
    }

    /** projection(other): dot's "Dimension mismatch" unless the dimensions agree,
        "Cannot project onto a zero vector" when every component of `other` is
        zero, otherwise `other` scaled by dot(this, other) / dot(other, other),
        the integer quotient rounded toward zero. */
    method Projection(other: VectorND) returns (r: Result<VectorND>)
      requires Valid() && other.Valid()
      ensures r.Err? <==> |Elements()| != |other.Elements()| || forall k :: 0 <= k < |other.Elements()| ==> other.Elements()[k] == 0
      ensures r.Err? ==> r.error == if |Elements()| != |other.Elements()| then DimensionMismatch else ZeroProjection
      ensures r.Ok? ==> fresh(r.value) && fresh(r.value.data) && r.value.Valid()
      ensures r.Ok? ==> r.value.Elements() == Projected(Elements(), other.Elements())
    {
      var dotProduct := Dot(other);
      if dotProduct.Err? {
        return Err(dotProduct.error);
      }
      var otherNormSquared := other.Dot(other);
      if otherNormSquared.value == 0 {
        return Err(ZeroProjection);
      }
      var result := other.Scale(TruncDiv(dotProduct.value, otherNormSquared.value));
      return Ok(result);
    }

    /** reverse(): a new vector with result[i] = this[size() - 1 - i]. */
    method Reverse() returns (result: VectorND)
      requires Valid()
      ensures fresh(result) && fresh(result.data) && result.Valid()
      ensures result.Elements() == Common.Reverse(Elements())
    {
      result := new VectorND(data.size);
      ReverseInto(data.data, result.data.data);
    }
  }

  /** Subtracting what was added gives the vector back. */
  method AddThenSub(u: VectorND, v: VectorND) returns (r: Result<VectorND>)
    requires u.Valid() && v.Valid() && |u.Elements()| == |v.Elements()|
    ensures r.Ok? && r.value.Valid() && r.value.Elements() == u.Elements()
  {
    var sum := u.Add(v);
    r := sum.value.Sub(v);
    SubAfterAdd(u.Elements(), v.Elements());
  }

  /** Reversing twice gives the vector back. */
  method ReverseTwice(u: VectorND) returns (r: VectorND)
    requires u.Valid()
    ensures r.Valid() && r.Elements() == u.Elements()
  {
    var once := u.Reverse();
    r := once.Reverse();
    ReverseInvolution(u.Elements());
  }

  /** {1, 2, 3} against {4, 5, 6}: dot 32 and cross {-3, 6, -3}; {1, 2} has no
      cross product with {1, 2, 3}. */
  method DotCrossExample() returns (dot: Result<int>, cross: seq<int>, flat: Result<VectorND>)
    ensures dot == Ok(32) && cross == [-3, 6, -3]
    ensures flat.Err? && flat.error == NotThreeDimensional
  {
    var u := new VectorND.FromValues([1, 2, 3]);
    var v := new VectorND.FromValues([4, 5, 6]);
    dot := u.Dot(v);
    DotOfThree([1, 2, 3], [4, 5, 6]);
    var c := u.Cross(v);
    cross := c.value.data.data[..];
    var w := new VectorND.FromValues([1, 2]);
    flat := w.Cross(u);
  }

  /** {1, 2, 3} onto {4, 5, 6}: 32 / 77 truncates to 0, so the zero vector;
      {4, 5, 6} onto {1, 2, 3}: 32 / 14 truncates to 2, so {2, 4, 6}. */
  method ProjectionExample() returns (onto: seq<int>, back: seq<int>)
    ensures onto == [0, 0, 0] && back == [2, 4, 6]
  {
    var u := new VectorND.FromValues([1, 2, 3]);
    var v := new VectorND.FromValues([4, 5, 6]);
    ProjectedValues();
    var p := u.Projection(v);
    onto := p.value.data.data[..];
    var q := v.Projection(u);
    back := q.value.data.data[..];
  }

  /** The quotients behind ProjectionExample: 32 / 77 and 32 / 14. */
  lemma ProjectedValues()
    ensures DotProduct([4, 5, 6], [4, 5, 6]) == 77 && DotProduct([1, 2, 3], [1, 2, 3]) == 14
    ensures Projected([1, 2, 3], [4, 5, 6]) == [0, 0, 0]
    ensures Projected([4, 5, 6], [1, 2, 3]) == [2, 4, 6]
  {
    DotOfThree([1, 2, 3], [4, 5, 6]);
    DotOfThree([4, 5, 6], [4, 5, 6]);
    DotOfThree([4, 5, 6], [1, 2, 3]);
    DotOfThree([1, 2, 3], [1, 2, 3]);
    assert TruncDiv(32, 77) == 0 && TruncDiv(32, 14) == 2;
    var p, q := Projected([1, 2, 3], [4, 5, 6]), Projected([4, 5, 6], [1, 2, 3]);
    assert p[0] == 0 && p[1] == 0 && p[2] == 0;
    assert q[0] == 2 && q[1] == 4 && q[2] == 6;
  }

  /** Nothing projects onto {0, 0, 0}, nor onto a vector of another dimension. */
  method ProjectionErrorExample() returns (zero: Result<VectorND>, mismatch: Result<VectorND>)
    ensures zero.Err? && zero.error == ZeroProjection
    ensures mismatch.Err? && mismatch.error == DimensionMismatch
  {
    var u := new VectorND.FromValues([1, 2, 3]);
    var z := new VectorND(3);
    zero := u.Projection(z);
    var w := new VectorND.FromValues([1, 2]);
    mismatch := u.Projection(w);
  }

  /** {1, 2, 3} + {4, 5, 6} = {5, 7, 9} and {1, 2, 3} - {4, 5, 6} = {-3, -3, -3}. */
  method SumDifferenceExample() returns (sum: seq<int>, diff: seq<int>)
    ensures sum == [5, 7, 9] && diff == [-3, -3, -3]
  {
    var u := new VectorND.FromValues([1, 2, 3]);
    var v := new VectorND.FromValues([4, 5, 6]);
    var s := u.Add(v);
    sum := s.value.data.data[..];
    assert sum[0] == 5 && sum[1] == 7 && sum[2] == 9;
    var d := u.Sub(v);
    diff := d.value.data.data[..];
    assert diff[0] == -3 && diff[1] == -3 && diff[2] == -3;
  }

  /** {1, 2, 3} * 2 = {2, 4, 6} and {1, 2, 3} reversed is {3, 2, 1}. */
  method ScaleReverseExample() returns (scaled: seq<int>, reversed: seq<int>)
    ensures scaled == [2, 4, 6] && reversed == [3, 2, 1]
  {
    var u := new VectorND.FromValues([1, 2, 3]);
    var s := u.Scale(2);
    scaled := s.data.data[..];
    assert scaled[0] == 2 && scaled[1] == 4 && scaled[2] == 6;
    var rev := u.Reverse();
    reversed := rev.data.data[..];
    assert reversed[0] == 3 && reversed[1] == 2 && reversed[2] == 1;
  }

  /** {2, 4, 6} / 2 = {1, 2, 3}; {-7, 7} / 2 = {-3, 3}, rounded toward zero;
      division by 0 fails. */
  method DivideExample() returns (halved: seq<int>, truncated: seq<int>, byZero: Result<VectorND>)
    ensures halved == [1, 2, 3] && truncated == [-3, 3]
    ensures byZero.Err? && byZero.error == DivisionByZero
  {
    var v := new VectorND.FromValues([2, 4, 6]);
    var h := v.Divide(2);
    halved := h.value.data.data[..];
    assert halved[0] == 1 && halved[1] == 2 && halved[2] == 3;
    var w := new VectorND.FromValues([-7, 7]);
    var t := w.Divide(2);
    truncated := t.value.data.data[..];
    assert truncated[0] == -3 && truncated[1] == 3;
    byZero := v.Divide(0);
  }
}
