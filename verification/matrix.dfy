// Matrix<T> of MyMatrix.h over int entries: an n-by-n matrix kept row-major in an
// Array of n * n slots, with bounds-checked element access, fill, element-wise
// addition, the matrix product and the transpose.

module Matrices {
  import opened Common
  import opened Arrays
  import opened Vectors

  // ---------------------------------------------------------------------------
  // Row-major addressing

  lemma MulMonotone(a: nat, b: nat, c: nat)
    requires a <= b
    ensures a * c <= b * c
  {
  }

  /** Entry (i, j) of an n-by-n row-major buffer lives in slot i * n + j. */
  lemma FlatIndex(n: nat, i: nat, j: nat)
    requires i < n && j < n
    ensures i * n + j < n * n
  {
    assert i * n + n == (i + 1) * n;
    MulMonotone(i + 1, n, n);
  }

  /** Every slot below n * n is the slot of exactly one entry. */
  lemma FlatSplit(n: nat, p: nat)
    requires p < n * n
    ensures p / n < n && p % n < n && p == (p / n) * n + p % n
  {
    if p / n >= n {
      MulMonotone(n, p / n, n);
    }
  }

  /** Two entries share a slot only if they are the same entry. */
  lemma FlatIndexInjective(n: nat, i: nat, j: nat, i2: nat, j2: nat)
    requires j < n && j2 < n && i * n + j == i2 * n + j2
    ensures i == i2 && j == j2
  {
    if i < i2 {
      assert (i + 1) * n == i * n + n;
      MulMonotone(i + 1, i2, n);
    } else if i2 < i {
      assert (i2 + 1) * n == i2 * n + n;
      MulMonotone(i2 + 1, i, n);
    }
  }

  /** The slot of entry (i, j) gives back i as quotient and j as remainder. */
  lemma FlatIndexSplits(n: nat, i: nat, j: nat)
    requires i < n && j < n
    ensures (i * n + j) / n == i && (i * n + j) % n == j
  {
    var p := i * n + j;
    FlatIndex(n, i, j);
    FlatSplit(n, p);
    FlatIndexInjective(n, i, j, p / n, p % n);
  }

  /** Entry (i, j) of the n-by-n matrix stored row-major in `s`. */
  function Entry(s: seq<int>, n: nat, i: nat, j: nat): (r: int)
    requires |s| == n * n && i < n && j < n
  {
    FlatIndex(n, i, j);
    s[i * n + j]
  }

  /** Two buffers holding the same entries are the same buffer. */
  lemma EntriesDetermine(r: seq<int>, s: seq<int>, n: nat)
    requires |r| == n * n && |s| == n * n
    requires forall i: nat, j: nat :: i < n && j < n ==> Entry(r, n, i, j) == Entry(s, n, i, j)
    ensures r == s
  {
    forall p | 0 <= p < n * n
      ensures r[p] == s[p]
    {
      FlatSplit(n, p);
      assert Entry(r, n, p / n, p % n) == Entry(s, n, p / n, p % n);
    }
  }

  /** The buffer with entry (i, j), slot i * n + j, replaced by `v`. */
  function WithEntry(s: seq<int>, n: nat, i: nat, j: nat, v: int): (r: seq<int>)
    requires |s| == n * n && i < n && j < n
  {
    FlatIndex(n, i, j);
    s[i * n + j := v]
  }

  /** Replacing entry (i, j) changes that entry and no other. */
  lemma EntryUpdate(s: seq<int>, n: nat, i: nat, j: nat, v: int)
    requires |s| == n * n && i < n && j < n
    ensures |WithEntry(s, n, i, j, v)| == n * n
    ensures forall r: nat, c: nat :: r < n && c < n ==>
      Entry(WithEntry(s, n, i, j, v), n, r, c) == if r == i && c == j then v else Entry(s, n, r, c)
  {
    FlatIndex(n, i, j);
    forall r: nat, c: nat | r < n && c < n
      ensures Entry(WithEntry(s, n, i, j, v), n, r, c) == if r == i && c == j then v else Entry(s, n, r, c)
    {
      FlatIndex(n, r, c);
      if r * n + c == i * n + j {
        FlatIndexInjective(n, r, c, i, j);
      }
    }
  }

  // ---------------------------------------------------------------------------
  // What the operators compute

  /** Entry (i, j) of a sum is the sum of the entries (i, j). */
  lemma SumEntries(a: seq<int>, b: seq<int>, n: nat, i: nat, j: nat)
    requires |a| == n * n && |b| == n * n && i < n && j < n
    ensures Entry(AddPrefix(a, b), n, i, j) == Entry(a, n, i, j) + Entry(b, n, i, j)
  {
    FlatIndex(n, i, j);
  }

  /** Matrix addition commutes. */
  lemma SumCommutes(a: seq<int>, b: seq<int>)
    requires |a| == |b|
    ensures AddPrefix(a, b) == AddPrefix(b, a)
  {
  }

  /** The transpose: entry (i, j) of the result is entry (j, i) of `s`. */
  function Transposed(s: seq<int>, n: nat): (r: seq<int>)
    requires |s| == n * n
    ensures |r| == n * n
  {
    seq(n * n, p requires 0 <= p < n * n => FlatSplit(n, p); Entry(s, n, p % n, p / n))
  }

  lemma TransposedEntries(s: seq<int>, n: nat, i: nat, j: nat)
    requires |s| == n * n && i < n && j < n
    ensures Entry(Transposed(s, n), n, i, j) == Entry(s, n, j, i)
  {
    FlatIndex(n, i, j);
    FlatIndexSplits(n, i, j);
  }

  /** Transposing twice gives the matrix back. */
  lemma TransposeInvolution(s: seq<int>, n: nat)
    requires |s| == n * n
    ensures Transposed(Transposed(s, n), n) == s
  {
    var t := Transposed(s, n);
    forall i: nat, j: nat | i < n && j < n
      ensures Entry(Transposed(t, n), n, i, j) == Entry(s, n, i, j)
    {
      TransposedEntries(t, n, i, j);
      TransposedEntries(s, n, j, i);
    }
    EntriesDetermine(Transposed(t, n), s, n);
  }

  /** The sum of a(i, t) * b(t, j) over t < k: row i of `a` against column j of
      `b`, the first k terms. */
  function RowCol(a: seq<int>, b: seq<int>, n: nat, i: nat, j: nat, k: nat): (r: int)
    requires |a| == n * n && |b| == n * n && i < n && j < n && k <= n
    ensures (forall t :: 0 <= t < |a| ==> a[t] == 0) ==> r == 0
  {
    if k == 0 then 0
    else
      FlatIndex(n, i, k - 1);
      assert Entry(a, n, i, k - 1) == a[i * n + k - 1];
      RowCol(a, b, n, i, j, k - 1) + Entry(a, n, i, k - 1) * Entry(b, n, k - 1, j)
  }

  /** The matrix product: entry (i, j) is row i of `a` against column j of `b`. */
  function Product(a: seq<int>, b: seq<int>, n: nat): (r: seq<int>)
    requires |a| == n * n && |b| == n * n
    ensures |r| == n * n
  {
    seq(n * n, p requires 0 <= p < n * n => FlatSplit(n, p); RowCol(a, b, n, p / n, p % n, n))
  }

  lemma ProductEntries(a: seq<int>, b: seq<int>, n: nat, i: nat, j: nat)
    requires |a| == n * n && |b| == n * n && i < n && j < n
    ensures Entry(Product(a, b, n), n, i, j) == RowCol(a, b, n, i, j, n)
  {
    FlatIndex(n, i, j);
    FlatIndexSplits(n, i, j);
  }

  /** The n-by-n identity matrix: ones exactly on the diagonal. */
  function Identity(n: nat): (r: seq<int>)
    ensures |r| == n * n
  {
    seq(n * n, p requires 0 <= p < n * n => if p / n == p % n then 1 else 0)
  }

  lemma IdentityEntries(n: nat, i: nat, j: nat)
    requires i < n && j < n
    ensures Entry(Identity(n), n, i, j) == if i == j then 1 else 0
  {
    FlatIndex(n, i, j);
    FlatIndexSplits(n, i, j);
  }

  /** Against the identity, the first k terms of row i pick out a(i, j) once
      k has passed column j. */
  lemma {:induction false} RowColIdentity(a: seq<int>, n: nat, i: nat, j: nat, k: nat)
    requires |a| == n * n && i < n && j < n && k <= n
    ensures RowCol(a, Identity(n), n, i, j, k) == if j < k then Entry(a, n, i, j) else 0
  {
    if k > 0 {
      RowColIdentity(a, n, i, j, k - 1);
      IdentityEntries(n, k - 1, j);
    }
  }

  /** The identity is a right unit of the product. */
  lemma ProductIdentity(a: seq<int>, n: nat)
    requires |a| == n * n
    ensures Product(a, Identity(n), n) == a
  {
    forall i: nat, j: nat | i < n && j < n
      ensures Entry(Product(a, Identity(n), n), n, i, j) == Entry(a, n, i, j)
    {
      ProductEntries(a, Identity(n), n, i, j);
      RowColIdentity(a, n, i, j, n);
    }
    EntriesDetermine(Product(a, Identity(n), n), a, n);
  }

  // ---------------------------------------------------------------------------
  // The loops of the operators, on the underlying buffers

  /** The flat loop of operator+: slot p of `out` becomes a[p] + b[p]. */
  method AddInto(a: array<int>, b: array<int>, out: array<int>)
    requires a.Length == b.Length == out.Length && out != a && out != b
    modifies out
    ensures out[..] == AddPrefix(a[..], b[..])
  {
    var p := 0;
    while p < out.Length
      invariant 0 <= p <= out.Length
      invariant forall q :: 0 <= q < p ==> out[q] == a[q] + b[q]
    {
      out[p] := a[p] + b[p];
      p := p + 1;
    }
  }

  /** One pass of the outer loop of transpose: result(j, i) = this(i, j) for every
      column j of row i. */
  method TransposeRow(a: array<int>, out: array<int>, n: nat, i: nat)
    requires a.Length == n * n && out.Length == n * n && out != a && i < n
    modifies out
    ensures forall j: nat :: j < n ==> Entry(out[..], n, j, i) == Entry(a[..], n, i, j)
    ensures forall r: nat, c: nat :: r < n && c < n && c != i ==>
      Entry(out[..], n, r, c) == Entry(old(out[..]), n, r, c)
  {
    var j := 0;
    while j < n
      invariant 0 <= j <= n
      invariant forall j': nat :: j' < j ==> Entry(out[..], n, j', i) == Entry(a[..], n, i, j')
      invariant forall r: nat, c: nat :: r < n && c < n && (c != i || r >= j) ==>
        Entry(out[..], n, r, c) == Entry(old(out[..]), n, r, c)
    {
      FlatIndex(n, i, j);
      FlatIndex(n, j, i);
      EntryUpdate(out[..], n, j, i, a[i * n + j]);
      out[j * n + i] := a[i * n + j];
      j := j + 1;
    }
  }

  /** transpose's two loops: result(j, i) = this(i, j) over all rows i. */
  method TransposeInto(a: array<int>, out: array<int>, n: nat)
    requires a.Length == n * n && out.Length == n * n && out != a
    modifies out
    ensures out[..] == Transposed(a[..], n)
  {
    var i := 0;
    while i < n
      invariant 0 <= i <= n
      invariant forall r: nat, c: nat :: r < n && c < i ==> Entry(out[..], n, r, c) == Entry(a[..], n, c, r)
    {
      TransposeRow(a, out, n, i);
      i := i + 1;
    }
    forall r: nat, c: nat | r < n && c < n
      ensures Entry(out[..], n, r, c) == Entry(Transposed(a[..], n), n, r, c)
    {
      TransposedEntries(a[..], n, r, c);
    }
    EntriesDetermine(out[..], Transposed(a[..], n), n);
  }

  /** One more term of row i against column j, read straight from the slots. */
  lemma RowColStep(a: seq<int>, b: seq<int>, n: nat, i: nat, j: nat, k: nat)
    requires |a| == n * n && |b| == n * n && i < n && j < n && k < n
    ensures i * n + k < n * n && k * n + j < n * n
    ensures Entry(a, n, i, k) == a[i * n + k] && Entry(b, n, k, j) == b[k * n + j]
    ensures RowCol(a, b, n, i, j, k + 1) == RowCol(a, b, n, i, j, k) + Entry(a, n, i, k) * Entry(b, n, k, j)
  {
    FlatIndex(n, i, k);
    FlatIndex(n, k, j);
  }

  /** The innermost loop of operator*: result(i, j) = 0, then result(i, j) +=
      this(i, k) * other(k, j) for every k. */
  method ProductEntry(a: array<int>, b: array<int>, out: array<int>, n: nat, i: nat, j: nat)
    requires a.Length == n * n && b.Length == n * n && out.Length == n * n
    requires out != a && out != b && i < n && j < n
    modifies out
    ensures out[..] == WithEntry(old(out[..]), n, i, j, RowCol(a[..], b[..], n, i, j, n))
  {
    FlatIndex(n, i, j);
    var slot := i * n + j;
    out[slot] := 0;
    var k := 0;
    while k < n
      invariant 0 <= k <= n
      invariant out[slot] == RowCol(a[..], b[..], n, i, j, k)
      invariant forall q :: 0 <= q < out.Length && q != slot ==> out[q] == old(out[q])
    {
      RowColStep(a[..], b[..], n, i, j, k);
      out[slot] := out[slot] + a[i * n + k] * b[k * n + j];
      k := k + 1;
    }
    assert out[..] == old(out[..])[slot := RowCol(a[..], b[..], n, i, j, n)];
  }

  /** The middle loop of operator*: every entry of row i. */
  method ProductRow(a: array<int>, b: array<int>, out: array<int>, n: nat, i: nat)
    requires a.Length == n * n && b.Length == n * n && out.Length == n * n
    requires out != a && out != b && i < n
    modifies out
    ensures forall c: nat :: c < n ==> Entry(out[..], n, i, c) == RowCol(a[..], b[..], n, i, c, n)
    ensures forall r: nat, c: nat :: r < n && c < n && r != i ==>
      Entry(out[..], n, r, c) == Entry(old(out[..]), n, r, c)
  {
    var j := 0;
    while j < n
      invariant 0 <= j <= n
      invariant forall c: nat :: c < j ==> Entry(out[..], n, i, c) == RowCol(a[..], b[..], n, i, c, n)
      invariant forall r: nat, c: nat :: r < n && c < n && (r != i || c >= j) ==>
        Entry(out[..], n, r, c) == Entry(old(out[..]), n, r, c)
    {
      EntryUpdate(out[..], n, i, j, RowCol(a[..], b[..], n, i, j, n));
      ProductEntry(a, b, out, n, i, j);
      j := j + 1;
    }
  }

  /** operator*'s three loops: every entry of every row. */
  method ProductInto(a: array<int>, b: array<int>, out: array<int>, n: nat)
    requires a.Length == n * n && b.Length == n * n && out.Length == n * n
    requires out != a && out != b
    modifies out
    ensures out[..] == Product(a[..], b[..], n)
  {
    var i := 0;
    while i < n
      invariant 0 <= i <= n
      invariant forall r: nat, c: nat :: r < i && c < n ==> Entry(out[..], n, r, c) == RowCol(a[..], b[..], n, r, c, n)
    {
      ProductRow(a, b, out, n, i);
      i := i + 1;
    }
    forall r: nat, c: nat | r < n && c < n
      ensures Entry(out[..], n, r, c) == Entry(Product(a[..], b[..], n), n, r, c)
    {
      ProductEntries(a[..], b[..], n, r, c);
    }
    EntriesDetermine(out[..], Product(a[..], b[..], n), n);
  }

  // ---------------------------------------------------------------------------
  // The matrix

  class Matrix {
    var n: nat
    var data: Array

    /** m_data holds exactly n * n entries. */
    ghost predicate Valid()
      reads this, data
    {
      data.Valid() && data.size == n * n
    }

    /** The entries, row after row. */
    ghost function Entries(): seq<int>
      reads this, data, data.data
      requires Valid()
    {
      data.Contents()
    }

    /** Matrix(size): size * size value-initialised entries, zero for integers. */
    constructor (size: nat)
      ensures Valid() && n == size && Entries() == Repeat(size * size, 0)
      ensures fresh(data) && fresh(data.data)
    {
      n := size;
      data := new Array.OfSize(size * size);
    }

    /** size(): the number of rows, which is also the number of columns. */
    function Size(): (r: nat)
      reads this, data
      requires Valid()
      ensures r * r == |Entries()|
    {
      n
    }

    /** Reading operator()(row, col): "Index out of range" when row or col is not
        below size(), otherwise entry (row, col). */
    method Get(row: nat, col: nat) returns (r: Result<int>)
      requires Valid()
      ensures r == if row < n && col < n then Ok(Entry(Entries(), n, row, col)) else Err(IndexOutOfRange)
    {
      if row >= n || col >= n {
        return Err(IndexOutOfRange);
      }
      FlatIndex(n, row, col);
      return Ok(data.data[row * n + col]);
    }

    /** Writing through operator()(row, col): entry (row, col) becomes `value`, or
        nothing changes and "Index out of range" is thrown. */
    method Set(row: nat, col: nat, value: int) returns (st: Status)
      requires Valid()
      modifies data.data
      ensures Valid()
      ensures row >= n || col >= n ==> st == Failed(IndexOutOfRange) && Entries() == old(Entries())
      ensures row < n && col < n ==> st == Done && Entries() == WithEntry(old(Entries()), n, row, col, value)
    {
      if row >= n || col >= n {
        return Failed(IndexOutOfRange);
      }
      FlatIndex(n, row, col);
      data.data[row * n + col] := value;
      return Done;
    }

    /** fill(value): every entry becomes `value`. */
    method Fill(value: int)
      requires Valid()
      modifies data.data
      ensures Valid() && Entries() == Repeat(n * n, value)
    {
      data.Fill(value);
    }

    /** operator+: "Matrix sizes do not match" unless the sizes agree, otherwise a
        new matrix of the entry-wise sums. */
    method Add(other: Matrix) returns (r: Result<Matrix>)
      requires Valid() && other.Valid()
      ensures r.Err? <==> n != other.n
      ensures r.Err? ==> r.error == SizeMismatch
      ensures r.Ok? ==> fresh(r.value) && fresh(r.value.data) && r.value.Valid() && r.value.n == n
      ensures r.Ok? ==> r.value.Entries() == AddPrefix(Entries(), other.Entries())
    {
      if n != other.n {
        return Err(SizeMismatch);
      }
      var result := new Matrix(n);
      AddInto(data.data, other.data.data, result.data.data);
      return Ok(result);
    }

    /** operator*: "Matrix sizes do not match" unless the sizes agree, otherwise a
        new matrix whose entry (i, j) is row i of this against column j of other. */
    method Mul(other: Matrix) returns (r: Result<Matrix>)
      requires Valid() && other.Valid()
      ensures r.Err? <==> n != other.n
      ensures r.Err? ==> r.error == SizeMismatch
      ensures r.Ok? ==> fresh(r.value) && fresh(r.value.data) && r.value.Valid() && r.value.n == n
      ensures r.Ok? ==> r.value.Entries() == Product(Entries(), other.Entries(), n)
    {
      if n != other.n {
        return Err(SizeMismatch);
      }
      var result := new Matrix(n);
      ProductInto(data.data, other.data.data, result.data.data, n);
      return Ok(result);
    }

    /** transpose(): a new matrix with result(j, i) = this(i, j). */
    method Transpose() returns (result: Matrix)
      requires Valid()
      ensures fresh(result) && fresh(result.data) && result.Valid() && result.n == n
      ensures result.Entries() == Transposed(Entries(), n)
    {
      result := new Matrix(n);
      TransposeInto(data.data, result.data.data, n);
    }
  }

  /** Transposing a matrix twice gives back its entries. */
  method TransposeTwice(m: Matrix) returns (t: Matrix)
    requires m.Valid()
    ensures t.Valid() && t.n == m.n && t.Entries() == m.Entries()
  {
    var once := m.Transpose();
    t := once.Transpose();
    TransposeInvolution(m.Entries(), m.n);
  }

  /** A 2-by-2 matrix with rows [w, x] and [y, z]. */
  method TwoByTwo(w: int, x: int, y: int, z: int) returns (m: Matrix)
    ensures fresh(m) && fresh(m.data) && m.Valid() && m.n == 2 && m.Entries() == [w, x, y, z]
  {
    m := new Matrix(2);
    var _ := m.Set(0, 0, w);
    var _ := m.Set(0, 1, x);
    var _ := m.Set(1, 0, y);
    var _ := m.Set(1, 1, z);
  }

  /** [[1, 2], [3, 4]] transposes to [[1, 3], [2, 4]]; entry (2, 0) is out of range. */
  method TransposeExample() returns (t: seq<int>, outside: Result<int>)
    ensures t == [1, 3, 2, 4] && outside == Err(IndexOutOfRange)
  {
    var m := TwoByTwo(1, 2, 3, 4);
    var result := m.Transpose();
    TransposedEntries(m.Entries(), 2, 0, 1);
    TransposedEntries(m.Entries(), 2, 1, 0);
    TransposedEntries(m.Entries(), 2, 0, 0);
    TransposedEntries(m.Entries(), 2, 1, 1);
    t := result.data.data[..];
    outside := result.Get(2, 0);
  }

  /** [[1, 2], [3, 4]] + [[5, 6], [7, 8]] = [[6, 8], [10, 12]]. */
  method AddExample() returns (r: Result<seq<int>>)
    ensures r == Ok([6, 8, 10, 12])
  {
    var m1 := TwoByTwo(1, 2, 3, 4);
    var m2 := TwoByTwo(5, 6, 7, 8);
    var sum := m1.Add(m2);
    var expected := AddPrefix([1, 2, 3, 4], [5, 6, 7, 8]);
    assert expected[0] == 6 && expected[1] == 8 && expected[2] == 10 && expected[3] == 12;
    assert expected == [6, 8, 10, 12];
    return Ok(sum.value.data.data[..]);
  }

  lemma ProductExample()
    ensures Product([1, 2, 3, 4], [2, 0, 1, 2], 2) == [4, 4, 10, 8]
  {
    var a, b := [1, 2, 3, 4], [2, 0, 1, 2];
    var p := Product(a, b, 2);
    forall i: nat, j: nat | i < 2 && j < 2
      ensures Entry(p, 2, i, j) == Entry([4, 4, 10, 8], 2, i, j)
    {
      ProductEntries(a, b, 2, i, j);
      assert RowCol(a, b, 2, i, j, 1) == Entry(a, 2, i, 0) * Entry(b, 2, 0, j);
    }
    EntriesDetermine(p, [4, 4, 10, 8], 2);
  }

  /** [[1, 2], [3, 4]] * [[2, 0], [1, 2]] = [[4, 4], [10, 8]]; a 3-by-3 factor is
      refused. */
  method MulExample() returns (r: Result<seq<int>>, mismatch: Result<Matrix>)
    ensures r == Ok([4, 4, 10, 8]) && mismatch.Err? && mismatch.error == SizeMismatch
  {
    var m1 := TwoByTwo(1, 2, 3, 4);
    var m2 := TwoByTwo(2, 0, 1, 2);
    var product := m1.Mul(m2);
    ProductExample();
    r := Ok(product.value.data.data[..]);
    var m3 := new Matrix(3);
    mismatch := m1.Mul(m3);
  }
}
