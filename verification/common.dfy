// Definitions shared by the containers: the exceptions they throw, the
// lexicographic order behind their comparison operators, C++ integer division,
// and the positional insert/erase that Vector and List both perform.

module Common {

  /** The exceptions the containers throw, one constructor per message. */
  datatype Error =
    | IndexOutOfRange      // "Index out of range"
    | ArrayEmpty           // "Array is empty"
    | ListEmpty            // "List is empty" / "Cannot pop from an empty list"
    | ElementNotFound      // "Element not found"
    | SizeMismatch         // "Matrix sizes do not match"
    | DimensionMismatch    // "Dimension mismatch"
    | NotThreeDimensional  // "Cross product only for 3D vectors"
    | DivisionByZero       // "Cannot divide by zero"
    | ZeroProjection       // "Cannot project onto a zero vector"

  /** A value, or the exception thrown instead of returning it. */
  datatype Result<T> = Ok(value: T) | Err(error: Error)

  /** The outcome of an operation returning void that may throw. */
  datatype Status = Done | Failed(error: Error)

  datatype Option<T> = None | Some(value: T)

  // ---------------------------------------------------------------------------
  // Lexicographic order (operator< of Vector and Array)

  /**
   * Walks both sequences in step: the first position where they differ decides,
   * and when one runs out first the shorter one is the smaller.
   */
  predicate LexLess(a: seq<int>, b: seq<int>)
    ensures LexLess(a, b) ==> a != b
    ensures |a| < |b| && a == b[..|a|] ==> LexLess(a, b)
  {
    if |a| == 0 || |b| == 0 then |a| < |b|
    else if a[0] < b[0] then true
    else if a[0] > b[0] then false
    else LexLess(a[1..], b[1..])
  }

  /** Reference definition: `a` and `b` agree below `k`, and at `k` either `a` has
      ended while `b` goes on, or both go on and `a` holds the smaller element. */
  ghost predicate DecidedAt(a: seq<int>, b: seq<int>, k: nat)
  {
    k <= |a| && k <= |b| && a[..k] == b[..k] &&
    ((k == |a| && k < |b|) || (k < |a| && k < |b| && a[k] < b[k]))
  }

  lemma {:induction false} LexLessDecided(a: seq<int>, b: seq<int>)
    ensures LexLess(a, b) <==> exists k: nat :: DecidedAt(a, b, k)
  {
    if |a| == 0 || |b| == 0 {
      if LexLess(a, b) {
        assert DecidedAt(a, b, 0);
      }
    } else if a[0] < b[0] {
      assert DecidedAt(a, b, 0);
    } else if a[0] > b[0] {
      forall k: nat ensures !DecidedAt(a, b, k) {
        if 0 < k <= |a| && k <= |b| {
          assert a[..k][0] == a[0] && b[..k][0] == b[0];
        }
      }
    } else {
      LexLessDecided(a[1..], b[1..]);
      if LexLess(a, b) {
        var k: nat :| DecidedAt(a[1..], b[1..], k);
        assert a[..k + 1] == [a[0]] + a[1..][..k];
        assert b[..k + 1] == [b[0]] + b[1..][..k];
        assert DecidedAt(a, b, k + 1);
      } else {
        forall k: nat ensures !DecidedAt(a, b, k) {
          if 0 < k <= |a| && k <= |b| {
            var ta, tb, j: nat := a[1..], b[1..], k - 1;
            assert ta[..j] == a[..k][1..] && tb[..j] == b[..k][1..];
            assert DecidedAt(a, b, k) ==> DecidedAt(ta, tb, j);
          }
        }
      }
    }
  }

  lemma {:induction false} LexIrreflexive(a: seq<int>)
    ensures !LexLess(a, a)
  {
    if |a| > 0 {
      LexIrreflexive(a[1..]);
    }
  }

  lemma {:induction false} LexAsymmetric(a: seq<int>, b: seq<int>)
    ensures !(LexLess(a, b) && LexLess(b, a))
  {
    if |a| > 0 && |b| > 0 && a[0] == b[0] {
      LexAsymmetric(a[1..], b[1..]);
    }
  }

  lemma {:induction false} LexTransitive(a: seq<int>, b: seq<int>, c: seq<int>)
    requires LexLess(a, b) && LexLess(b, c)
    ensures LexLess(a, c)
  {
    if |a| > 0 && |b| > 0 && |c| > 0 && a[0] == b[0] && b[0] == c[0] {
      LexTransitive(a[1..], b[1..], c[1..]);
    }
  }

  /** Any two sequences are equal or ordered one way round. */
  lemma {:induction false} LexTotal(a: seq<int>, b: seq<int>)
    ensures a == b || LexLess(a, b) || LexLess(b, a)
  {
    if |a| > 0 && |b| > 0 && a[0] == b[0] {
      LexTotal(a[1..], b[1..]);
      if a[1..] == b[1..] {
        assert a == [a[0]] + a[1..] && b == [b[0]] + b[1..];
      }
    }
  }

  /** `!(b < a)`, the derived `<=`, is "less or equal". */
  lemma LexNotGreater(a: seq<int>, b: seq<int>)
    ensures !LexLess(b, a) <==> LexLess(a, b) || a == b
  {
    LexTotal(a, b);
    LexAsymmetric(a, b);
    LexIrreflexive(a);
  }

  /** The comparison loops keep `LexLess(a, b) == LexLess(a[i..], b[i..])`:
      a common prefix does not decide anything. */
  lemma {:induction false} LexSkipEqual(a: seq<int>, b: seq<int>, i: nat)
    requires i < |a| && i < |b| && a[i] == b[i]
    ensures LexLess(a[i..], b[i..]) == LexLess(a[i + 1..], b[i + 1..])
  {
    assert a[i..][1..] == a[i + 1..];
    assert b[i..][1..] == b[i + 1..];
  }

  // ---------------------------------------------------------------------------
  // C++ integer division

  function Abs(x: int): nat
  {
    if x < 0 then -x else x
  }

  /**
   * `a / b` as C++ computes it on integers: the quotient of the magnitudes,
   * negated when the signs differ, so that it is rounded toward zero. (Dafny's
   * own `/` rounds toward minus infinity for positive divisors instead.)
   */
  function TruncDiv(a: int, b: int): (q: int)
    requires b != 0
    ensures Abs(q) == Abs(a) / Abs(b)
    ensures (a < 0) == (b < 0) ==> q >= 0
    ensures (a < 0) != (b < 0) ==> q <= 0
  {
    QuotientNonNegative(Abs(a), Abs(b));
    var m := Abs(a) / Abs(b);
    if (a < 0) == (b < 0) then m else -m
  }

  lemma QuotientNonNegative(x: nat, y: nat)
    requires y > 0
    ensures x / y >= 0
  {
  }

  /** What the C++ standard demands of `/` and `%`: the remainder `a - (a / b) * b`
      is smaller than `b` in magnitude and never has the opposite sign of `a`. */
  lemma TruncDivRemainder(a: int, b: int)
    requires b != 0
    ensures Abs(a - TruncDiv(a, b) * b) < Abs(b)
    ensures a - TruncDiv(a, b) * b == 0 || (a - TruncDiv(a, b) * b < 0 <==> a < 0)
  {
    var n: int, d: int := Abs(a), Abs(b);
    var x: int, r: int := n / d, n % d;
    assert n == x * d + r && 0 <= r < d;
    var p := TruncDivProduct(a, b, x, d);
    assert p == (if a < 0 then -(x * d) else x * d);
  }

  /** The product of the truncated quotient and the divisor carries the sign of
      the dividend, with the magnitude `(|a| / |b|) * |b|`. */
  lemma TruncDivProduct(a: int, b: int, x: int, d: int) returns (p: int)
    requires b != 0 && d == Abs(b) && x == Abs(a) / d
    ensures p == TruncDiv(a, b) * b
    ensures p == (if a < 0 then -(x * d) else x * d)
  {
    p := TruncDiv(a, b) * b;
    NegatedFactors(x, d);
    if b > 0 {
      assert b == d;
    } else {
      assert b == -d;
    }
  }

  lemma NegatedFactors(x: int, y: int)
    ensures (-x) * y == -(x * y) && x * (-y) == -(x * y) && (-x) * (-y) == x * y
  {
  }

  /** A non-zero factor never makes a product smaller in magnitude. */
  lemma AbsProduct(d: int, c: int)
    requires d != 0
    ensures Abs(d * c) >= Abs(c)
  {
    AtLeastOnce(Abs(d), Abs(c));
    if d < 0 {
      assert d * c == -(Abs(d) * c);
    }
    if c < 0 {
      assert Abs(d) * c == -(Abs(d) * Abs(c));
    }
  }

  lemma {:induction false} AtLeastOnce(x: nat, y: nat)
    requires x >= 1
    ensures x * y >= y
  {
    if x > 1 {
      AtLeastOnce(x - 1, y);
      assert x * y == (x - 1) * y + y;
    }
  }

  /** Multiplying by a non-zero scalar and dividing by it again gives back the
      original value. */
  lemma ScaleThenDivide(x: int, c: int)
    requires c != 0
    ensures TruncDiv(x * c, c) == x
  {
    var q := TruncDiv(x * c, c);
    TruncDivRemainder(x * c, c);
    ExactQuotient(x, q, c);
  }

  /** If `x * c - q * c` is smaller than `c` in magnitude, then `q` is `x`. */
  lemma ExactQuotient(x: int, q: int, c: int)
    requires c != 0 && Abs(x * c - q * c) < Abs(c)
    ensures q == x
  {
    var e := x - q;
    assert x * c - q * c == e * c;
    if e != 0 {
      AbsProduct(e, c);
    }
  }

  /** Truncation differs from Dafny's floor-like division on negative operands. */
  lemma TruncDivNegative()
    ensures TruncDiv(-7, 2) == -3 && -7 / 2 == -4
    ensures TruncDiv(7, -2) == -3 && TruncDiv(-7, -2) == 3
  {
  }

  /** Truncating division is symmetric under negating the dividend. */
  lemma TruncDivOdd(a: int, b: int)
    requires b != 0
    ensures TruncDiv(-a, b) == -TruncDiv(a, b)
  {
  }

  /** `n` copies of `v`. */
  function Repeat(n: nat, v: int): (r: seq<int>)
    ensures |r| == n && forall k :: 0 <= k < n ==> r[k] == v
  {
    seq(n, _ => v)
  }

  // ---------------------------------------------------------------------------
  // Positional insertion and erasure

  /** The sequence with `x` placed before position `i`. */
  function InsertAt<T>(s: seq<T>, i: nat, x: T): (r: seq<T>)
    requires i <= |s|
    ensures |r| == |s| + 1 && r[i] == x
  {
    s[..i] + [x] + s[i..]
  }

  /** The sequence without its element at position `i`. */
  function EraseAt<T>(s: seq<T>, i: nat): (r: seq<T>)
    requires i < |s|
    ensures |r| == |s| - 1
  {
    s[..i] + s[i + 1..]
  }

  /** InsertAt as a shift: positions below `i` stay, `x` lands at `i`, the rest
      move up by one. */
  lemma InsertAtShifts<T>(s: seq<T>, i: nat, x: T)
    requires i <= |s|
    ensures |InsertAt(s, i, x)| == |s| + 1 && InsertAt(s, i, x)[i] == x
    ensures forall k :: 0 <= k < i ==> InsertAt(s, i, x)[k] == s[k]
    ensures forall k :: i < k <= |s| ==> InsertAt(s, i, x)[k] == s[k - 1]
  {
  }

  /** EraseAt as a shift: positions below `i` stay, the rest move down by one. */
  lemma EraseAtShifts<T>(s: seq<T>, i: nat)
    requires i < |s|
    ensures |EraseAt(s, i)| == |s| - 1
    ensures forall k :: 0 <= k < i ==> EraseAt(s, i)[k] == s[k]
    ensures forall k :: i <= k < |s| - 1 ==> EraseAt(s, i)[k] == s[k + 1]
  {
  }

  /** Erasing what was just inserted gives the sequence back. */
  lemma EraseInserted<T>(s: seq<T>, i: nat, x: T)
    requires i <= |s|
    ensures EraseAt(InsertAt(s, i, x), i) == s
  {
    var t := InsertAt(s, i, x);
    assert t[..i] == s[..i];
    assert t[i + 1..] == s[i..];
  }

  /** Re-inserting the erased element at its place gives the sequence back. */
  lemma InsertErased<T>(s: seq<T>, i: nat)
    requires i < |s|
    ensures InsertAt(EraseAt(s, i), i, s[i]) == s
  {
    var t := EraseAt(s, i);
    assert t[..i] == s[..i];
    assert t[i..] == s[i + 1..];
    assert s == s[..i] + [s[i]] + s[i + 1..];
  }

  /** Inserting at either end is appending or prepending. */
  lemma InsertAtEnds<T>(s: seq<T>, x: T)
    ensures InsertAt(s, |s|, x) == s + [x]
    ensures InsertAt(s, 0, x) == [x] + s
  {
    assert s[..|s|] == s && s[0..] == s;
  }

  /** Erasing at either end drops the last or the first element. */
  lemma EraseAtEnds<T>(s: seq<T>)
    requires |s| > 0
    ensures EraseAt(s, |s| - 1) == s[..|s| - 1]
    ensures EraseAt(s, 0) == s[1..]
  {
    assert s[|s|..] == [];
  }

  /** Position of the first occurrence of `x` (what a search from the front finds). */
  function IndexOf<T(==)>(s: seq<T>, x: T): (i: nat)
    requires x in s
    ensures i < |s| && s[i] == x && x !in s[..i]
  {
    if s[0] == x then 0
    else
      assert s == [s[0]] + s[1..];
      var j := IndexOf(s[1..], x);
      assert s[..j + 1] == [s[0]] + s[1..][..j];
      j + 1
  }

  /** The elements in the opposite order. */
  function Reverse<T>(s: seq<T>): (r: seq<T>)
    ensures |r| == |s|
    ensures |s| > 0 ==> r[0] == s[|s| - 1] && r[|s| - 1] == s[0]
  {
    seq(|s|, k requires 0 <= k < |s| => s[|s| - 1 - k])
  }

  /** Reference definition of Reverse by recursion: the last element first. */
  function ReverseRec<T>(s: seq<T>): seq<T>
  {
    if s == [] then [] else [s[|s| - 1]] + ReverseRec(s[..|s| - 1])
  }

  lemma {:induction false} ReverseAgrees<T>(s: seq<T>)
    ensures Reverse(s) == ReverseRec(s)
  {
    if s != [] {
      var init := s[..|s| - 1];
      ReverseAgrees(init);
      assert Reverse(s) == [s[|s| - 1]] + Reverse(init);
    }
  }

  /** Reversing twice is the identity. */
  lemma ReverseInvolution<T>(s: seq<T>)
    ensures |Reverse(s)| == |s| && Reverse(Reverse(s)) == s
  {
  }

  // ---------------------------------------------------------------------------
  // The element loops the containers run over their buffers

  /** Sets `a[lo..hi]` to `v` one slot at a time and touches nothing else
      (Array::fill, Array::assign, and the zero-filling in Vector::resize). */
  method FillRange(a: array<int>, lo: nat, hi: nat, v: int)
    requires lo <= hi <= a.Length
    modifies a
    ensures forall k :: lo <= k < hi ==> a[k] == v
    ensures forall k :: 0 <= k < a.Length && !(lo <= k < hi) ==> a[k] == old(a[k])
  {
    var i := lo;
    while i < hi
      invariant lo <= i <= hi
      invariant forall k :: lo <= k < i ==> a[k] == v
      invariant forall k :: 0 <= k < a.Length && !(lo <= k < i) ==> a[k] == old(a[k])
    {
      a[i] := v;
      i := i + 1;
    }
  }

  /** Copies the first `n` elements of `src` into a distinct buffer `dst`
      (Vector::InternalResize and Array::resize moving to a new allocation). */
  method CopyPrefix(src: array<int>, dst: array<int>, n: nat)
    requires n <= src.Length && n <= dst.Length && src != dst
    modifies dst
    ensures dst[..n] == src[..n]
    ensures dst[n..] == old(dst[n..])
  {
    var i := 0;
    while i < n
      invariant 0 <= i <= n
      invariant forall k :: 0 <= k < i ==> dst[k] == src[k]
      invariant forall k :: n <= k < dst.Length ==> dst[k] == old(dst[k])
    {
      dst[i] := src[i];
      i := i + 1;
    }
  }

  /** Moves `a[lo..hi)` up one slot, from the top down, so that the gap opens at
      `lo` (the loop of Vector::insert). */
  method ShiftUp(a: array<int>, lo: nat, hi: nat)
    requires lo <= hi < a.Length
    modifies a
    ensures forall k :: lo < k <= hi ==> a[k] == old(a[k - 1])
    ensures forall k :: 0 <= k < a.Length && !(lo < k <= hi) ==> a[k] == old(a[k])
  {
    var i := hi;
    while i > lo
      invariant lo <= i <= hi
      invariant forall k :: i < k <= hi ==> a[k] == old(a[k - 1])
      invariant forall k :: 0 <= k < a.Length && !(i < k <= hi) ==> a[k] == old(a[k])
    {
      a[i] := a[i - 1];
      i := i - 1;
    }
  }

  /** Moves `a(lo..hi)` down one slot, from the bottom up, overwriting `a[lo]`
      (the loop of Vector::erase). */
  method ShiftDown(a: array<int>, lo: nat, hi: nat)
    requires lo < hi <= a.Length
    modifies a
    ensures forall k :: lo <= k < hi - 1 ==> a[k] == old(a[k + 1])
    ensures forall k :: 0 <= k < a.Length && !(lo <= k < hi - 1) ==> a[k] == old(a[k])
  {
    var i := lo;
    while i < hi - 1
      invariant lo <= i <= hi - 1
      invariant forall k :: lo <= k < i ==> a[k] == old(a[k + 1])
      invariant forall k :: 0 <= k < a.Length && !(lo <= k < i) ==> a[k] == old(a[k])
    {
      a[i] := a[i + 1];
      i := i + 1;
    }
  }
}
