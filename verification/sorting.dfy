// The five in-place sorts of MyAlgo.h over a half-open range [lo, hi) of an array.
// A pointer pair (begin, end) becomes the index pair (lo, hi); elements are compared
// through their `key` (see SortSpec).

module Sorting {
  import opened SortSpec

  /** Elements outside [lo, hi) are left alone. */
  ghost predicate OutsideUnchanged<T>(a: seq<T>, b: seq<T>, lo: nat, hi: nat)
    requires lo <= hi <= |a| == |b|
  {
    a[..lo] == b[..lo] && a[hi..] == b[hi..]
  }

  /** Exchanges two elements (std::iter_swap / std::swap on two positions). */
  method Swap<T>(a: array<T>, i: nat, j: nat)
    requires i < a.Length && j < a.Length
    modifies a
    ensures a[..] == old(a[..])[i := old(a[j])][j := old(a[i])]
  {
    a[i], a[j] := a[j], a[i];
  }

  /** Stores one element. The loops below write through this method so that each
      write reaches their proofs as one whole-array equation, which keeps those
      proof obligations small. */
  method Write<T>(a: array<T>, k: nat, v: T)
    requires k < a.Length
    modifies a
    ensures a[..] == old(a[..])[k := v]
  {
    a[k] := v;
  }

  /** A swap inside [lo, hi) permutes that range and leaves the rest alone. */
  lemma SwapInRange<T>(s: seq<T>, t: seq<T>, lo: nat, hi: nat, i: nat, j: nat)
    requires lo <= i < hi && lo <= j < hi && hi <= |s|
    requires t == s[i := s[j]][j := s[i]]
    ensures multiset(t[lo..hi]) == multiset(s[lo..hi])
    ensures OutsideUnchanged(t, s, lo, hi)
  {
    var u, v := s[lo..hi], t[lo..hi];
    assert v == u[i - lo := u[j - lo]][j - lo := u[i - lo]];
  }

  // ---------------------------------------------------------------------------
  // Selection sort (MyAlgo.h, selectionSort)

  /** Selection sort's loop state: [lo, i) is sorted and holds keys no larger than
      any key in [i, hi). */
  ghost predicate SelectedPrefix<T>(s: seq<T>, lo: nat, i: nat, hi: nat, key: T -> int)
    requires lo <= i <= hi <= |s|
  {
    (forall x, y :: lo <= x < y < i ==> key(s[x]) <= key(s[y])) &&
    (forall x, y :: lo <= x < i <= y < hi ==> key(s[x]) <= key(s[y]))
  }

  method SelectionSort<T>(a: array<T>, lo: nat, hi: nat, key: T -> int)
    requires lo <= hi <= a.Length
    modifies a
    ensures SortedBy(a[lo..hi], key)
    ensures multiset(a[lo..hi]) == multiset(old(a[lo..hi]))
    ensures OutsideUnchanged(a[..], old(a[..]), lo, hi)
  {
    ghost var s := a[..];
    var i := lo;
    while i < hi - 1
      invariant lo <= i <= hi
      invariant SelectState(a[..], s, lo, i, hi, key)
    {
      var m := MinIndex(a, i, hi, key);
      ghost var s0 := a[..];
      if m != i {
        Swap(a, i, m);
      }
      SelectStep(s0, a[..], s, lo, i, m, hi, key);
      i := i + 1;
    }
    SelectedAll(a[..], s, lo, i, hi, key);
  }

  /** The inner loop of selection sort: the first position of a least key in [i, hi). */
  method MinIndex<T>(a: array<T>, i: nat, hi: nat, key: T -> int) returns (m: nat)
    requires i < hi <= a.Length
    ensures i <= m < hi
    ensures forall t :: i <= t < hi ==> key(a[m]) <= key(a[t])
    ensures forall t :: i <= t < m ==> key(a[t]) > key(a[m])
  {
    m := i;
    var j := i + 1;
    while j < hi
      invariant i < j <= hi && i <= m < j
      invariant forall t :: i <= t < j ==> key(a[m]) <= key(a[t])
      invariant forall t :: i <= t < m ==> key(a[t]) > key(a[m])
    {
      if key(a[j]) < key(a[m]) {
        m := j;
      }
      j := j + 1;
    }
  }

  /** Selection sort's outer loop state against the array `s` it started from. */
  ghost predicate SelectState<T>(t: seq<T>, s: seq<T>, lo: nat, i: nat, hi: nat, key: T -> int)
    requires lo <= i <= hi <= |s|
  {
    |t| == |s| && SelectedPrefix(t, lo, i, hi, key) &&
    multiset(t[lo..hi]) == multiset(s[lo..hi]) && OutsideUnchanged(t, s, lo, hi)
  }

  /** Moving a least key of [i, hi) to position i (a swap, or nothing when it is
      already there) extends the selected prefix. */
  lemma SelectStep<T>(s0: seq<T>, t: seq<T>, s: seq<T>, lo: nat, i: nat, m: nat, hi: nat, key: T -> int)
    requires lo <= i <= m < hi <= |s|
    requires SelectState(s0, s, lo, i, hi, key)
    requires forall x :: i <= x < hi ==> key(s0[m]) <= key(s0[x])
    requires t == s0[i := s0[m]][m := s0[i]]
    ensures SelectState(t, s, lo, i + 1, hi, key)
  {
    SwapInRange(s0, t, lo, hi, i, m);
    forall x, y | lo <= x < i + 1 <= y < hi ensures key(t[x]) <= key(t[y]) {
      if y == m {
        assert t[y] == s0[i];
      }
    }
  }

  /** Once at most one place is left, the selected prefix covers the whole range. */
  lemma SelectedAll<T>(t: seq<T>, s: seq<T>, lo: nat, i: nat, hi: nat, key: T -> int)
    requires lo <= i <= hi <= |s| && i >= hi - 1
    requires SelectState(t, s, lo, i, hi, key)
    ensures SortedBy(t[lo..hi], key)
    ensures multiset(t[lo..hi]) == multiset(s[lo..hi])
    ensures OutsideUnchanged(t, s, lo, hi)
  {
    forall x, y | 0 <= x < y < hi - lo ensures key(t[lo..hi][x]) <= key(t[lo..hi][y]) {
      assert t[lo..hi][x] == t[lo + x] && t[lo..hi][y] == t[lo + y];
    }
  }

  // ---------------------------------------------------------------------------
  // Insertion sort (MyAlgo.h, insertionSort)

  /** Insertion sort's loop state: [lo, i) is sorted. */
  ghost predicate SortedSpan<T>(s: seq<T>, lo: nat, i: nat, key: T -> int)
    requires lo <= i <= |s|
  {
    forall x, y :: lo <= x < y < i ==> key(s[x]) <= key(s[y])
  }

  method InsertionSort<T>(a: array<T>, lo: nat, hi: nat, key: T -> int)
    requires lo <= hi <= a.Length
    modifies a
    ensures SortedBy(a[lo..hi], key)
    ensures Stable(a[lo..hi], old(a[lo..hi]), key)
    ensures multiset(a[lo..hi]) == multiset(old(a[lo..hi]))
    ensures OutsideUnchanged(a[..], old(a[..]), lo, hi)
  {
    ghost var s := a[..];
    var i := lo + 1;
    while i < hi
      invariant lo < i && (i <= hi || hi == lo)
      invariant hi > lo ==> SortedSpan(a[..], lo, i, key)
      invariant Stable(a[..][lo..hi], s[lo..hi], key)
      invariant OutsideUnchanged(a[..], s, lo, hi)
    {
      ghost var s0 := a[..];
      var p := InsertOne(a, lo, i, key);
      InsertStep(s0, a[..], lo, p, i, hi, key);
      StableTrans(a[..][lo..hi], s0[lo..hi], s[lo..hi], key);
      i := i + 1;
    }
    InsertedAll(a[..], s, lo, i, hi, key);
  }

  /** `s` with s[i] moved to position p and s[p..i] moved one place right. */
  ghost function Inserted<T>(s: seq<T>, p: nat, i: nat): (t: seq<T>)
    requires p <= i < |s|
    ensures |t| == |s|
  {
    s[..p] + [s[i]] + s[p..i] + s[i + 1..]
  }

  /** p is where insertion sort puts s[i]: every key it passes over is strictly
      greater, and the key before p, if any in [lo, i), is not. */
  ghost predicate InsertionPoint<T>(s: seq<T>, lo: nat, p: nat, i: nat, key: T -> int)
    requires lo <= p <= i < |s|
  {
    (forall x :: p <= x < i ==> key(s[x]) > key(s[i])) &&
    (p > lo ==> key(s[p - 1]) <= key(s[i]))
  }

  /** The shifting loop's state: t is s with s[j + 1..i] moved one place right, so that
      s[j + 1] sits at both j + 1 and j + 2. */
  ghost predicate Shifted<T>(t: seq<T>, s: seq<T>, j: int, i: nat)
    requires -1 <= j < i < |s|
  {
    |t| == |s| &&
    (forall x :: 0 <= x <= j + 1 ==> t[x] == s[x]) &&
    (forall x :: j + 2 <= x <= i ==> t[x] == s[x - 1]) &&
    (forall x :: i < x < |s| ==> t[x] == s[x])
  }

  /** The body of the outer loop: the key at i moves left past every strictly greater
      key, which moves one place right; it lands at p. */
  method InsertOne<T>(a: array<T>, lo: nat, i: nat, key: T -> int) returns (p: nat)
    requires lo <= i < a.Length
    modifies a
    ensures lo <= p <= i && InsertionPoint(old(a[..]), lo, p, i, key)
    ensures a[..] == Inserted(old(a[..]), p, i)
  {
    ghost var s0 := a[..];
    var k := a[i];
    var j: int := i - 1;
    while j >= lo && key(a[j]) > key(k)
      invariant lo - 1 <= j <= i - 1
      invariant Shifted(a[..], s0, j, i)
      invariant forall x :: j + 1 <= x < i ==> key(s0[x]) > key(s0[i])
    {
      ghost var t := a[..];
      Write(a, j + 1, a[j]);
      ShiftOne(t, a[..], s0, j, i);
      j := j - 1;
    }
    ghost var t := a[..];
    Write(a, j + 1, k);
    PlaceKey(t, a[..], s0, j + 1, i);
    p := j + 1;
  }

  /** Copying element j one place right in the shifting loop. */
  lemma ShiftOne<T>(t: seq<T>, u: seq<T>, s: seq<T>, j: nat, i: nat)
    requires j < i < |s| && Shifted(t, s, j, i) && u == t[j + 1 := t[j]]
    ensures Shifted(u, s, j - 1, i)
  {
  }

  /** Writing the saved key into the gap the shifting left. */
  lemma PlaceKey<T>(t: seq<T>, u: seq<T>, s: seq<T>, p: nat, i: nat)
    requires p <= i < |s| && Shifted(t, s, p - 1, i) && u == t[p := s[i]]
    ensures u == Inserted(s, p, i)
  {
    assert forall x :: 0 <= x < |u| ==> u[x] == Inserted(s, p, i)[x];
  }

  /** One outer step of insertion sort: the key s[i] has moved to position p, and the
      elements in between moved one place right.  The prefix up to i stays sorted and
      the step is stable, because only strictly greater elements were passed over. */
  lemma InsertStep<T>(s: seq<T>, t: seq<T>, lo: nat, p: nat, i: nat, hi: nat, key: T -> int)
    requires lo <= p <= i < hi <= |s|
    requires SortedSpan(s, lo, i, key)
    requires t == Inserted(s, p, i) && InsertionPoint(s, lo, p, i, key)
    ensures SortedSpan(t, lo, i + 1, key)
    ensures Stable(t[lo..hi], s[lo..hi], key)
    ensures t[..lo] == s[..lo] && t[hi..] == s[hi..]
  {
    InsertSorted(s, t, lo, p, i, key);
    InsertLayout(s, t, lo, p, i, hi);
    forall y | y in s[p..i] ensures key(y) != key(s[i]) {
      var x :| 0 <= x < i - p && s[p..i][x] == y;
      assert s[p..i][x] == s[p + x];
    }
    RotateStable(s[lo..p], s[i], s[p..i], s[i + 1..hi], key);
  }

  /** Where the pieces of [lo, hi) are before and after the insertion. */
  lemma InsertLayout<T>(s: seq<T>, t: seq<T>, lo: nat, p: nat, i: nat, hi: nat)
    requires lo <= p <= i < hi <= |s| && t == Inserted(s, p, i)
    ensures s[lo..hi] == s[lo..p] + s[p..i] + [s[i]] + s[i + 1..hi]
    ensures t[lo..hi] == s[lo..p] + [s[i]] + s[p..i] + s[i + 1..hi]
    ensures t[..lo] == s[..lo] && t[hi..] == s[hi..]
  {
    var pre, mid, post := s[lo..p], s[p..i], s[i + 1..hi];
    assert s[..p] == s[..lo] + pre && s[i + 1..] == post + s[hi..];
    assert t == s[..lo] + (pre + [s[i]] + mid + post) + s[hi..];
    assert s == s[..lo] + (pre + mid + [s[i]] + post) + s[hi..] by {
      assert s == s[..p] + s[p..i] + [s[i]] + s[i + 1..];
    }
    MiddleOf(s[..lo], pre + [s[i]] + mid + post, s[hi..]);
    MiddleOf(s[..lo], pre + mid + [s[i]] + post, s[hi..]);
  }

  /** The slices of a three-part concatenation. */
  lemma MiddleOf<T>(x: seq<T>, y: seq<T>, z: seq<T>)
    ensures (x + y + z)[|x|..|x| + |y|] == y
    ensures (x + y + z)[..|x|] == x && (x + y + z)[|x| + |y|..] == z
  {
  }

  /** Inserting s[i] after the last key not above it keeps [lo, i] sorted. */
  lemma InsertSorted<T>(s: seq<T>, t: seq<T>, lo: nat, p: nat, i: nat, key: T -> int)
    requires lo <= p <= i < |s|
    requires SortedSpan(s, lo, i, key)
    requires t == Inserted(s, p, i) && InsertionPoint(s, lo, p, i, key)
    ensures SortedSpan(t, lo, i + 1, key)
  {
    assert forall x :: 0 <= x < p ==> t[x] == s[x];
    assert t[p] == s[i];
    assert forall x :: p < x <= i ==> t[x] == s[x - 1];
    forall x, y | lo <= x < y < i + 1 ensures key(t[x]) <= key(t[y]) {
      if y == p {
        assert key(s[x]) <= key(s[p - 1]);
      } else if x == p {
      } else if x < p && y > p {
        assert key(s[x]) <= key(s[p - 1]) || x == p - 1;
      }
    }
  }

  /** When the loop ends the sorted span covers [lo, hi); stability gives the permutation. */
  lemma InsertedAll<T>(t: seq<T>, s: seq<T>, lo: nat, i: nat, hi: nat, key: T -> int)
    requires lo <= hi <= |t| == |s| && lo < i && (i == hi || hi == lo)
    requires hi > lo ==> SortedSpan(t, lo, i, key)
    requires Stable(t[lo..hi], s[lo..hi], key)
    ensures SortedBy(t[lo..hi], key)
    ensures multiset(t[lo..hi]) == multiset(s[lo..hi])
  {
    StableIsPermutation(t[lo..hi], s[lo..hi], key);
    forall x, y | 0 <= x < y < hi - lo ensures key(t[lo..hi][x]) <= key(t[lo..hi][y]) {
      assert t[lo..hi][x] == t[lo + x] && t[lo..hi][y] == t[lo + y];
    }
  }

  // ---------------------------------------------------------------------------
  // Bubble sort (MyAlgo.h, bubbleSort)

  /** After `p` passes of bubble sort the last `p` places of [lo, hi) hold their final
      values: every pair whose right end lies there is in order. */
  ghost predicate Placed<T>(a: seq<T>, lo: nat, hi: nat, p: nat, key: T -> int)
    requires lo <= hi <= |a|
  {
    forall x, y :: lo <= x < y < hi && y + p >= hi ==> key(a[x]) <= key(a[y])
  }

  /** No key in [lo, i) is above the key at i. */
  ghost predicate MaxAt<T>(s: seq<T>, lo: nat, i: nat, key: T -> int)
    requires lo <= i < |s|
  {
    forall x :: lo <= x < i ==> key(s[x]) <= key(s[i])
  }

  /** Neighbours below `b` in [lo, b) are in order. */
  ghost predicate NeighboursInOrder<T>(s: seq<T>, lo: nat, b: nat, key: T -> int)
    requires b <= |s|
  {
    forall x :: lo <= x && x + 1 < b ==> key(s[x]) <= key(s[x + 1])
  }

  method BubbleSort<T>(a: array<T>, lo: nat, hi: nat, key: T -> int)
    requires lo <= hi <= a.Length
    modifies a
    ensures SortedBy(a[lo..hi], key)
    ensures Stable(a[lo..hi], old(a[lo..hi]), key)
    ensures multiset(a[lo..hi]) == multiset(old(a[lo..hi]))
    ensures OutsideUnchanged(a[..], old(a[..]), lo, hi)
  {
    ghost var s := a[..];
    ghost var passes: nat := 0;
    var swapped := true;
    // the body of the source's do-while loop runs at least once
    while swapped
      invariant Placed(a[..], lo, hi, passes, key)
      invariant swapped ==> passes <= hi - lo
      invariant !swapped ==> NeighboursInOrder(a[..], lo, hi, key)
      invariant Stable(a[..][lo..hi], s[lo..hi], key)
      invariant OutsideUnchanged(a[..], s, lo, hi)
      decreases hi - lo + 1 - passes
    {
      ghost var s0 := a[..];
      swapped := BubblePass(a, lo, hi, passes, key);
      StableTrans(a[..][lo..hi], s0[lo..hi], s[lo..hi], key);
      passes := passes + 1;
    }
    BubbledAll(a[..], s, lo, hi, key);
  }

  /** One pass of the do-while body: every inverted neighbour pair met from left to right
      is swapped.  It reports whether it swapped anything, and it places one more
      element at the end of the range. */
  method BubblePass<T>(a: array<T>, lo: nat, hi: nat, ghost passes: nat, key: T -> int) returns (swapped: bool)
    requires lo <= hi <= a.Length
    requires Placed(a[..], lo, hi, passes, key)
    modifies a
    ensures Placed(a[..], lo, hi, passes + 1, key)
    ensures swapped ==> passes + 2 <= hi - lo
    ensures !swapped ==> NeighboursInOrder(a[..], lo, hi, key)
    ensures Stable(a[..][lo..hi], old(a[..])[lo..hi], key)
    ensures OutsideUnchanged(a[..], old(a[..]), lo, hi)
  {
    ghost var s := a[..];
    swapped := false;
    var i := lo;
    PassStart(s, lo, hi, passes, key);
    while i < hi - 1
      invariant lo <= i && (i < hi || hi == lo) && hi <= a.Length
      invariant PassState(a[..], s, lo, i, hi, passes, swapped, key)
    {
      ghost var s0 := a[..];
      ghost var swappedBefore := swapped;
      if key(a[i]) > key(a[i + 1]) {
        Swap(a, i, i + 1);
        swapped := true;
      }
      PassStep(s0, a[..], s, lo, i, hi, passes, swappedBefore, swapped, key);
      i := i + 1;
    }
    PassEnd(a[..], s, lo, i, hi, passes, swapped, key);
  }

  /** The pass loop's state at position i, against the array `s` the pass started from. */
  ghost predicate PassState<T>(t: seq<T>, s: seq<T>, lo: nat, i: nat, hi: nat, p: nat, swapped: bool, key: T -> int)
    requires lo <= i && (i < hi || hi == lo) && hi <= |s|
  {
    |t| == |s| &&
    (i < hi ==> MaxAt(t, lo, i, key)) &&
    (!swapped ==> t == s && NeighboursInOrder(t, lo, if i < hi then i + 1 else hi, key)) &&
    (swapped ==> p + 2 <= hi - lo) &&
    Placed(t, lo, hi, p, key) &&
    (i + p + 1 >= hi ==> Placed(t, lo, hi, p + 1, key)) &&
    Stable(t[lo..hi], s[lo..hi], key) &&
    OutsideUnchanged(t, s, lo, hi)
  }

  /** The pass loop's state holds before its first step. */
  lemma PassStart<T>(s: seq<T>, lo: nat, hi: nat, p: nat, key: T -> int)
    requires lo <= hi <= |s| && Placed(s, lo, hi, p, key)
    ensures PassState(s, s, lo, lo, hi, p, false, key)
  {
  }

  /** One step of the pass loop keeps its state. */
  lemma PassStep<T>(s0: seq<T>, t: seq<T>, s: seq<T>, lo: nat, i: nat, hi: nat, p: nat,
                    swapped0: bool, swapped: bool, key: T -> int)
    requires lo <= i && i + 1 < hi <= |s|
    requires PassState(s0, s, lo, i, hi, p, swapped0, key)
    requires key(s0[i]) > key(s0[i + 1]) ==> t == s0[i := s0[i + 1]][i + 1 := s0[i]] && swapped
    requires key(s0[i]) <= key(s0[i + 1]) ==> t == s0 && swapped == swapped0
    ensures PassState(t, s, lo, i + 1, hi, p, swapped, key)
  {
    if key(s0[i]) > key(s0[i + 1]) {
      SwapStep(s0, t, lo, i, hi, p, key);
      StableTrans(t[lo..hi], s0[lo..hi], s[lo..hi], key);
    } else {
      KeepStep(t, lo, i, key);
    }
    if i + 1 + p + 1 == hi {
      PassDone(t, lo, hi, p, key);
    }
  }

  /** The pass loop's state at its end is the pass's postcondition. */
  lemma PassEnd<T>(t: seq<T>, s: seq<T>, lo: nat, i: nat, hi: nat, p: nat, swapped: bool, key: T -> int)
    requires lo <= i && (i < hi || hi == lo) && hi <= |s| && i >= hi - 1
    requires PassState(t, s, lo, i, hi, p, swapped, key)
    ensures Placed(t, lo, hi, p + 1, key)
    ensures !swapped ==> NeighboursInOrder(t, lo, hi, key)
  {
  }

  /** An ordered neighbour pair carries the running maximum one place right. */
  lemma KeepStep<T>(s: seq<T>, lo: nat, i: nat, key: T -> int)
    requires lo <= i && i + 1 < |s| && MaxAt(s, lo, i, key) && key(s[i]) <= key(s[i + 1])
    ensures MaxAt(s, lo, i + 1, key)
  {
  }

  /** When the pass ends without a swap, the range is sorted; stability gives the permutation. */
  lemma BubbledAll<T>(t: seq<T>, s: seq<T>, lo: nat, hi: nat, key: T -> int)
    requires lo <= hi <= |t| == |s|
    requires NeighboursInOrder(t, lo, hi, key)
    requires Stable(t[lo..hi], s[lo..hi], key)
    ensures SortedBy(t[lo..hi], key)
    ensures multiset(t[lo..hi]) == multiset(s[lo..hi])
  {
    StableIsPermutation(t[lo..hi], s[lo..hi], key);
    SortedIffAdjacentSorted(t[lo..hi], key);
    forall x | 0 <= x < hi - lo - 1 ensures key(t[lo..hi][x]) <= key(t[lo..hi][x + 1]) {
      assert t[lo..hi][x] == t[lo + x] && t[lo..hi][x + 1] == t[lo + x + 1];
    }
  }

  /** Swapping an inverted neighbour pair inside [lo, hi) is stable, carries the running
      maximum one place right, and cannot touch the places already final. */
  lemma SwapStep<T>(s: seq<T>, t: seq<T>, lo: nat, i: nat, hi: nat, p: nat, key: T -> int)
    requires lo <= i && i + 1 < hi <= |s| == |t|
    requires key(s[i]) > key(s[i + 1]) && MaxAt(s, lo, i, key)
    requires t == s[i := s[i + 1]][i + 1 := s[i]]
    requires Placed(s, lo, hi, p, key)
    ensures Placed(t, lo, hi, p, key) && MaxAt(t, lo, i + 1, key)
    ensures i + 1 + p < hi
    ensures Stable(t[lo..hi], s[lo..hi], key)
    ensures t[..lo] == s[..lo] && t[hi..] == s[hi..]
  {
    var pre, post := s[lo..i], s[i + 2..hi];
    assert s[lo..hi] == pre + [s[i], s[i + 1]] + post;
    assert t[lo..hi] == pre + [s[i + 1], s[i]] + post;
    SwapNeighboursStable(pre, s[i], s[i + 1], post, key);
    forall x, y | lo <= x < y < hi && y + p >= hi ensures key(t[x]) <= key(t[y]) {
      if x == i {
        assert key(s[i + 1]) <= key(s[y]) || y == i + 1;
      } else if x == i + 1 {
        assert key(s[i]) <= key(s[y]);
      }
    }
  }

  /** The running maximum reaching the first of the `p` final places makes it final too. */
  lemma PassDone<T>(s: seq<T>, lo: nat, hi: nat, p: nat, key: T -> int)
    requires lo <= hi - p - 1 && hi <= |s|
    requires Placed(s, lo, hi, p, key) && MaxAt(s, lo, hi - p - 1, key)
    ensures Placed(s, lo, hi, p + 1, key)
  {
  }

  // ---------------------------------------------------------------------------
  // Merge sort (MyAlgo.h, merge and mergeSort)

  /** `t` is `s` with its places [at, at + n) overwritten by the first n elements of `w`. */
  ghost predicate Written<T>(t: seq<T>, s: seq<T>, at: nat, w: seq<T>, n: nat)
    requires n <= |w| && at + n <= |s|
  {
    |t| == |s| &&
    (forall x :: at <= x < at + n ==> t[x] == w[x - at]) &&
    (forall x :: 0 <= x < |s| && !(at <= x < at + n) ==> t[x] == s[x])
  }

  /** The two runs are copied out to temporary buffers (here immutable snapshots) and
      merged back into [lo, hi); ties take the left element. */
  method Merge<T>(a: array<T>, lo: nat, mid: nat, hi: nat, key: T -> int)
    requires lo <= mid <= hi <= a.Length
    modifies a
    ensures a[lo..hi] == Merged(old(a[lo..mid]), old(a[mid..hi]), key)
    ensures OutsideUnchanged(a[..], old(a[..]), lo, hi)
  {
    ghost var s0 := a[..];
    var left, right := a[lo..mid], a[mid..hi];
    ghost var whole := MergedFrom(left, right, 0, 0, key);
    var i, j, k := MergeHeads(a, lo, left, right, key);
    Remainders(left, right, i, j, k, key);
    k := CopyRun(a, lo, k, left, i, s0, whole);
    k := CopyRun(a, lo, k, right, j, s0, whole);
    MergeDone(a[..], s0, lo, left, right, key);
  }

  /** The source's first loop: while both buffers hold elements, write the smaller head
      (the left one on a tie) to the next place of [lo, hi). */
  method MergeHeads<T>(a: array<T>, lo: nat, left: seq<T>, right: seq<T>, key: T -> int)
    returns (i: nat, j: nat, k: nat)
    requires lo + |left| + |right| <= a.Length
    modifies a
    ensures i <= |left| && j <= |right| && k == i + j && (i == |left| || j == |right|)
    ensures Written(a[..], old(a[..]), lo, MergedFrom(left, right, 0, 0, key), k)
    ensures MergedFrom(left, right, i, j, key) == MergedFrom(left, right, 0, 0, key)[k..]
  {
    ghost var s0 := a[..];
    ghost var whole := MergedFrom(left, right, 0, 0, key);
    i, j, k := 0, 0, 0;
    while i < |left| && j < |right|
      invariant i <= |left| && j <= |right| && k == i + j
      invariant Written(a[..], s0, lo, whole, k)
      invariant MergedFrom(left, right, i, j, key) == whole[k..]
    {
      ghost var t := a[..];
      if key(left[i]) <= key(right[j]) {
        MergedFromTakeLeft(left, right, i, j, k, whole, key);
        Write(a, lo + k, left[i]);
        i := i + 1;
      } else {
        MergedFromTakeRight(left, right, i, j, k, whole, key);
        Write(a, lo + k, right[j]);
        j := j + 1;
      }
      WriteNext(t, a[..], s0, lo, whole, k);
      k := k + 1;
    }
  }

  /** Writing w[n] next extends the overwritten stretch by one. */
  lemma WriteNext<T>(t: seq<T>, u: seq<T>, s: seq<T>, at: nat, w: seq<T>, n: nat)
    requires n < |w| && at + n < |s| && Written(t, s, at, w, n) && u == t[at + n := w[n]]
    ensures Written(u, s, at, w, n + 1)
  {
  }

  /** After the heads loop the rest of the merge is the two remainders, one after the other. */
  lemma Remainders<T>(l: seq<T>, r: seq<T>, i: nat, j: nat, k: nat, key: T -> int)
    requires i <= |l| && j <= |r| && k == i + j && (i == |l| || j == |r|)
    requires MergedFrom(l, r, i, j, key) == MergedFrom(l, r, 0, 0, key)[k..]
    ensures MergedFrom(l, r, 0, 0, key)[k..k + (|l| - i)] == l[i..]
    ensures MergedFrom(l, r, 0, 0, key)[k + (|l| - i)..k + (|l| - i) + (|r| - j)] == r[j..]
  {
    var whole := MergedFrom(l, r, 0, 0, key);
    MergedFromExhausted(l, r, i, j, key);
    assert whole[k..k + (|l| - i)] == whole[k..][..|l| - i];
    assert whole[k + (|l| - i)..k + (|l| - i) + (|r| - j)] == whole[k..][|l| - i..];
  }

  /** A merge written out in full: [lo, lo + |l| + |r|) holds the merge of l and r. */
  lemma MergeDone<T>(t: seq<T>, s: seq<T>, lo: nat, l: seq<T>, r: seq<T>, key: T -> int)
    requires lo + |l| + |r| <= |s|
    requires Written(t, s, lo, MergedFrom(l, r, 0, 0, key), |l| + |r|)
    ensures t[lo..lo + |l| + |r|] == Merged(l, r, key)
    ensures OutsideUnchanged(t, s, lo, lo + |l| + |r|)
  {
    MergedFromIsMerged(l, r, 0, 0, key);
    assert l[0..] == l && r[0..] == r;
    WrittenParts(t, s, lo, MergedFrom(l, r, 0, 0, key));
  }

  /** Drains the remainder src[from..] of one buffer to the places from lo + k on, which
      continue the output `whole` (the source's two loops after the heads loop); returns
      the advanced output count. */
  method CopyRun<T>(a: array<T>, lo: nat, k: nat, src: seq<T>, from: nat, ghost s0: seq<T>, ghost whole: seq<T>)
    returns (k': nat)
    requires from <= |src| && k + (|src| - from) <= |whole| && lo + |whole| <= a.Length == |s0|
    requires Written(a[..], s0, lo, whole, k)
    requires whole[k..k + (|src| - from)] == src[from..]
    modifies a
    ensures k' == k + (|src| - from)
    ensures Written(a[..], s0, lo, whole, k')
  {
    var i := from;
    k' := k;
    while i < |src|
      invariant from <= i <= |src| && k' == k + (i - from)
      invariant Written(a[..], s0, lo, whole, k')
    {
      ghost var t := a[..];
      assert src[i] == whole[k'] by {
        assert src[i] == src[from..][i - from] && whole[k'] == whole[k..k + (|src| - from)][i - from];
      }
      Write(a, lo + k', src[i]);
      WriteNext(t, a[..], s0, lo, whole, k');
      i := i + 1;
      k' := k' + 1;
    }
  }

  /** What a completed write leaves in place and what it writes. */
  lemma WrittenParts<T>(t: seq<T>, s: seq<T>, at: nat, w: seq<T>)
    requires at + |w| <= |s| && Written(t, s, at, w, |w|)
    ensures t[at..at + |w|] == w
    ensures OutsideUnchanged(t, s, at, at + |w|)
  {
  }

  method MergeSort<T>(a: array<T>, lo: nat, hi: nat, key: T -> int)
    requires lo <= hi <= a.Length
    modifies a
    ensures SortedBy(a[lo..hi], key)
    ensures Stable(a[lo..hi], old(a[lo..hi]), key)
    ensures multiset(a[lo..hi]) == multiset(old(a[lo..hi]))
    ensures OutsideUnchanged(a[..], old(a[..]), lo, hi)
    ensures hi - lo <= 1 ==> a[..] == old(a[..])
    decreases hi - lo
  {
    if hi - lo > 1 {
      var mid := lo + (hi - lo) / 2;
      ghost var s0 := a[..];
      MergeSort(a, lo, mid, key);
      ghost var s1 := a[..];
      MergeSort(a, mid, hi, key);
      ghost var s2 := a[..];
      Merge(a, lo, mid, hi, key);
      MergeSortGlue(s0, s1, s2, a[..], lo, mid, hi, key);
    } else {
      assert a[lo..hi] == old(a[lo..hi]);
    }
  }

  /** Sorting both halves stably and merging them sorts the range stably. */
  lemma MergeSortGlue<T>(s0: seq<T>, s1: seq<T>, s2: seq<T>, s3: seq<T>, lo: nat, mid: nat, hi: nat, key: T -> int)
    requires lo <= mid <= hi <= |s0| == |s1| == |s2| == |s3|
    requires SortedBy(s1[lo..mid], key) && Stable(s1[lo..mid], s0[lo..mid], key)
    requires OutsideUnchanged(s1, s0, lo, mid)
    requires SortedBy(s2[mid..hi], key) && Stable(s2[mid..hi], s1[mid..hi], key)
    requires OutsideUnchanged(s2, s1, mid, hi)
    requires s3[lo..hi] == Merged(s2[lo..mid], s2[mid..hi], key) && OutsideUnchanged(s3, s2, lo, hi)
    ensures SortedBy(s3[lo..hi], key)
    ensures Stable(s3[lo..hi], s0[lo..hi], key)
    ensures multiset(s3[lo..hi]) == multiset(s0[lo..hi])
    ensures OutsideUnchanged(s3, s0, lo, hi)
  {
    HalvesFrame(s0, s1, s2, lo, mid, hi);
    var m := Merged(s2[lo..mid], s2[mid..hi], key);
    MergedRunsStable(s0[lo..mid], s0[mid..hi], s2[lo..mid], s2[mid..hi], key);
    assert s0[lo..hi] == s0[lo..mid] + s0[mid..hi];
    StableIsPermutation(m, s0[lo..hi], key);
  }

  /** Each half's sort leaves the other half, and everything outside [lo, hi), alone. */
  lemma HalvesFrame<T>(s0: seq<T>, s1: seq<T>, s2: seq<T>, lo: nat, mid: nat, hi: nat)
    requires lo <= mid <= hi <= |s0| == |s1| == |s2|
    requires OutsideUnchanged(s1, s0, lo, mid) && OutsideUnchanged(s2, s1, mid, hi)
    ensures s2[lo..mid] == s1[lo..mid] && s1[mid..hi] == s0[mid..hi]
    ensures s2[..lo] == s0[..lo] && s2[hi..] == s0[hi..]
  {
    assert s2[lo..mid] == s2[..mid][lo..] && s1[lo..mid] == s1[..mid][lo..];
    assert s1[mid..hi] == s1[mid..][..hi - mid] && s0[mid..hi] == s0[mid..][..hi - mid];
    assert s2[..lo] == s2[..mid][..lo] && s1[..lo] == s1[..mid][..lo];
    assert s1[hi..] == s1[mid..][hi - mid..] && s0[hi..] == s0[mid..][hi - mid..];
  }

  /** Merging two stably sorted runs is a stable sort of their concatenation. */
  lemma MergedRunsStable<T>(l0: seq<T>, r0: seq<T>, l1: seq<T>, r1: seq<T>, key: T -> int)
    requires SortedBy(l1, key) && Stable(l1, l0, key)
    requires SortedBy(r1, key) && Stable(r1, r0, key)
    ensures SortedBy(Merged(l1, r1, key), key)
    ensures Stable(Merged(l1, r1, key), l0 + r0, key)
  {
    MergedSorted(l1, r1, key);
    forall k ensures Filter(Merged(l1, r1, key), key, k) == Filter(l0 + r0, key, k) {
      MergedStable(l1, r1, key, k);
      FilterConcat(l0, r0, key, k);
    }
  }

  // ---------------------------------------------------------------------------
  // Quicksort (MyAlgo.h, partition and quickSort)

  /** Lomuto partition's loop state: keys in [lo, i] are at most the pivot key `pk`,
      keys in (i, j) exceed it. */
  ghost predicate Split<T>(s: seq<T>, lo: int, i: int, j: int, pk: int, key: T -> int)
    requires 0 <= lo && j <= |s|
  {
    (forall x :: lo <= x <= i && x < j ==> key(s[x]) <= pk) &&
    (forall x :: i < x < j && lo <= x ==> key(s[x]) > pk)
  }

  /** The pivot at p: keys before it in [lo, hi) are at most its key, keys after it
      exceed it. */
  ghost predicate PivotAt<T>(s: seq<T>, lo: nat, p: nat, hi: nat, key: T -> int)
    requires lo <= p < hi <= |s|
  {
    (forall x :: lo <= x < p ==> key(s[x]) <= key(s[p])) &&
    (forall x :: p < x < hi ==> key(s[x]) > key(s[p]))
  }

  /** Lomuto partition around the last element of a non-empty range; returns where the
      pivot ends up. */
  method Partition<T>(a: array<T>, lo: nat, hi: nat, key: T -> int) returns (p: nat)
    requires lo < hi <= a.Length
    modifies a
    ensures lo <= p < hi && a[p] == old(a[hi - 1])
    ensures PivotAt(a[..], lo, p, hi, key)
    ensures multiset(a[..][lo..hi]) == multiset(old(a[..])[lo..hi])
    ensures OutsideUnchanged(a[..], old(a[..]), lo, hi)
  {
    ghost var s := a[..];
    var i := PartitionLoop(a, lo, hi, key);
    ghost var s0 := a[..];
    Swap(a, i + 1, hi - 1);
    p := i + 1;
    PartitionEnd(s0, a[..], s, lo, p, hi, key);
  }

  /** The scan of the partition: every element of [lo, hi - 1) whose key is at most
      the pivot's is swapped down to the low part, which ends at the returned i. */
  method PartitionLoop<T>(a: array<T>, lo: nat, hi: nat, key: T -> int) returns (i: int)
    requires lo < hi <= a.Length
    modifies a
    ensures lo - 1 <= i < hi - 1
    ensures PartitionState(a[..], old(a[..]), lo, i, hi - 1, hi, key)
  {
    ghost var s := a[..];
    var pivot := hi - 1;
    i := lo - 1;
    var j := lo;
    while j < hi - 1
      invariant lo <= j <= hi - 1 && lo - 1 <= i < j
      invariant PartitionState(a[..], s, lo, i, j, hi, key)
    {
      ghost var s0 := a[..];
      ghost var i0 := i;
      if key(a[j]) <= key(a[pivot]) {
        i := i + 1;
        Swap(a, i, j);
      }
      PartitionStep(s0, a[..], s, lo, i0, j, hi, key);
      j := j + 1;
    }
  }

  /** The partition loop's state against the array `s` it started from: the pivot is
      still last, [lo, j) is split around its key, and [lo, hi) was only permuted. */
  ghost predicate PartitionState<T>(t: seq<T>, s: seq<T>, lo: nat, i: int, j: nat, hi: nat, key: T -> int)
    requires lo < hi <= |s| && j < hi
  {
    |t| == |s| && t[hi - 1] == s[hi - 1] &&
    Split(t, lo, i, j, key(s[hi - 1]), key) &&
    multiset(t[lo..hi]) == multiset(s[lo..hi]) &&
    OutsideUnchanged(t, s, lo, hi)
  }

  /** One step of the partition loop keeps its state: an element whose key is at most
      the pivot's is swapped to the end of the low part, any other stays put. */
  lemma PartitionStep<T>(s0: seq<T>, t: seq<T>, s: seq<T>, lo: nat, i: int, j: nat, hi: nat, key: T -> int)
    requires lo <= j < hi - 1 && lo - 1 <= i < j && hi <= |s|
    requires PartitionState(s0, s, lo, i, j, hi, key)
    requires key(s0[j]) <= key(s0[hi - 1]) ==> t == s0[i + 1 := s0[j]][j := s0[i + 1]]
    requires key(s0[j]) > key(s0[hi - 1]) ==> t == s0
    ensures PartitionState(t, s, lo, if key(s0[j]) <= key(s0[hi - 1]) then i + 1 else i, j + 1, hi, key)
  {
    if key(s0[j]) <= key(s0[hi - 1]) {
      SwapInRange(s0, t, lo, hi, i + 1, j);
      SplitGrowLow(s0, t, lo, i + 1, j, key(s[hi - 1]), key);
    }
  }

  /** The element at j has a key at most the pivot's: swapping it to i grows the low part. */
  lemma SplitGrowLow<T>(s: seq<T>, t: seq<T>, lo: int, i: int, j: int, pk: int, key: T -> int)
    requires 0 <= lo <= i <= j < |s|
    requires Split(s, lo, i - 1, j, pk, key) && key(s[j]) <= pk
    requires t == s[i := s[j]][j := s[i]]
    ensures Split(t, lo, i, j + 1, pk, key)
  {
  }

  /** The final swap puts the pivot between the two parts. */
  lemma PartitionEnd<T>(s0: seq<T>, t: seq<T>, s: seq<T>, lo: nat, p: nat, hi: nat, key: T -> int)
    requires lo <= p < hi <= |s|
    requires PartitionState(s0, s, lo, p - 1, hi - 1, hi, key)
    requires t == s0[p := s0[hi - 1]][hi - 1 := s0[p]]
    ensures t[p] == s[hi - 1] && PivotAt(t, lo, p, hi, key)
    ensures multiset(t[lo..hi]) == multiset(s[lo..hi])
    ensures OutsideUnchanged(t, s, lo, hi)
  {
    SwapInRange(s0, t, lo, hi, p, hi - 1);
  }

  method QuickSort<T>(a: array<T>, lo: nat, hi: nat, key: T -> int)
    requires lo <= hi <= a.Length
    modifies a
    ensures SortedBy(a[lo..hi], key)
    ensures multiset(a[lo..hi]) == multiset(old(a[lo..hi]))
    ensures OutsideUnchanged(a[..], old(a[..]), lo, hi)
    ensures lo == hi ==> a[..] == old(a[..])
    decreases hi - lo
  {
    if lo < hi {
      ghost var s0 := a[..];
      var p := Partition(a, lo, hi, key);
      ghost var s1 := a[..];
      QuickSort(a, lo, p, key);
      ghost var s2 := a[..];
      QuickSort(a, p + 1, hi, key);
      QuickSortGlue(s0, s1, s2, a[..], lo, p, hi, key);
    }
  }

  /** Partitioning and then sorting both sides sorts the range. */
  lemma QuickSortGlue<T>(s0: seq<T>, s1: seq<T>, s2: seq<T>, s3: seq<T>, lo: nat, p: nat, hi: nat, key: T -> int)
    requires lo <= p < hi <= |s0| == |s1| == |s2| == |s3|
    requires PivotAt(s1, lo, p, hi, key)
    requires multiset(s1[lo..hi]) == multiset(s0[lo..hi]) && OutsideUnchanged(s1, s0, lo, hi)
    requires SortedBy(s2[lo..p], key) && multiset(s2[lo..p]) == multiset(s1[lo..p])
    requires OutsideUnchanged(s2, s1, lo, p)
    requires SortedBy(s3[p + 1..hi], key) && multiset(s3[p + 1..hi]) == multiset(s2[p + 1..hi])
    requires OutsideUnchanged(s3, s2, p + 1, hi)
    ensures SortedBy(s3[lo..hi], key)
    ensures multiset(s3[lo..hi]) == multiset(s0[lo..hi])
    ensures OutsideUnchanged(s3, s0, lo, hi)
  {
    SidesFrame(s1, s2, s3, lo, p, hi);
    PivotSides(s1, lo, p, hi, key);
    AroundPivot(s1[lo..p], s1[p], s1[p + 1..hi], s3[lo..p], s3[p + 1..hi], key);
    Layout(s1, lo, p, hi);
    Layout(s3, lo, p, hi);
  }

  /** [lo, hi) is the part before p, the element at p and the part after it. */
  lemma Layout<T>(s: seq<T>, lo: nat, p: nat, hi: nat)
    requires lo <= p < hi <= |s|
    ensures s[lo..hi] == s[lo..p] + [s[p]] + s[p + 1..hi]
  {
  }

  /** The pivot property, stated on the two sides as sequences. */
  lemma PivotSides<T>(s: seq<T>, lo: nat, p: nat, hi: nat, key: T -> int)
    requires lo <= p < hi <= |s| && PivotAt(s, lo, p, hi, key)
    ensures AllAtMost(s[lo..p], key, key(s[p])) && AllAbove(s[p + 1..hi], key, key(s[p]))
  {
  }

  /** Sorting both sides of a pivot sorts the whole, and permutes it. */
  lemma AroundPivot<T>(l0: seq<T>, x: T, r0: seq<T>, l1: seq<T>, r1: seq<T>, key: T -> int)
    requires AllAtMost(l0, key, key(x)) && AllAbove(r0, key, key(x))
    requires SortedBy(l1, key) && multiset(l1) == multiset(l0)
    requires SortedBy(r1, key) && multiset(r1) == multiset(r0)
    ensures SortedBy(l1 + [x] + r1, key)
    ensures multiset(l1 + [x] + r1) == multiset(l0 + [x] + r0)
  {
    PermutationKeepsBounds(l1, l0, key, key(x));
    PermutationKeepsBounds(r1, r0, key, key(x));
    SortedAroundPivot(l1, x, r1, key);
  }

  /** Sorting either side leaves the pivot, the other side and the outside alone. */
  lemma SidesFrame<T>(s1: seq<T>, s2: seq<T>, s3: seq<T>, lo: nat, p: nat, hi: nat)
    requires lo <= p < hi <= |s1| == |s2| == |s3|
    requires OutsideUnchanged(s2, s1, lo, p) && OutsideUnchanged(s3, s2, p + 1, hi)
    ensures s3[lo..p] == s2[lo..p] && s2[p + 1..hi] == s1[p + 1..hi] && s3[p] == s1[p]
    ensures s3[..lo] == s1[..lo] && s3[hi..] == s1[hi..]
  {
    assert s3[lo..p] == s3[..p + 1][lo..p] && s2[lo..p] == s2[..p + 1][lo..p];
    assert s3[p] == s3[..p + 1][p] && s2[p] == s2[p..][0];
    assert s2[p + 1..hi] == s2[p..][1..hi - p] && s1[p + 1..hi] == s1[p..][1..hi - p];
    assert s3[..lo] == s3[..p + 1][..lo] && s2[..lo] == s2[..p][..lo];
    assert s2[hi..] == s2[p..][hi - p..] && s1[hi..] == s1[p..][hi - p..];
  }

  /** A sorted run of keys at most the pivot's, the pivot, and a sorted run of keys above
      it, form a sorted sequence. */
  lemma SortedAroundPivot<T>(l: seq<T>, x: T, r: seq<T>, key: T -> int)
    requires SortedBy(l, key) && SortedBy(r, key)
    requires AllAtMost(l, key, key(x)) && AllAbove(r, key, key(x))
    ensures SortedBy(l + [x] + r, key)
  {
    var m := l + [x] + r;
    forall u, v | 0 <= u < v < |m| ensures key(m[u]) <= key(m[v]) {
      if v < |l| {
        assert m[u] == l[u] && m[v] == l[v];
      } else if u > |l| {
        assert m[u] == r[u - |l| - 1] && m[v] == r[v - |l| - 1];
      } else if u < |l| {
        assert m[u] == l[u] && m[u] in l;
        if v > |l| {
          assert m[v] == r[v - |l| - 1] && m[v] in r;
        }
      } else {
        assert m[v] == r[v - |l| - 1] && m[v] in r;
      }
    }
  }

  /** The selection-sort test's array: whatever sort is applied, the only sorted
      permutation of {64, 25, 12, 22, 11} is {11, 12, 22, 25, 64}. */
  lemma SelectionSortTestResult(t: seq<int>)
    requires SortedBy(t, Id) && multiset(t) == multiset([64, 25, 12, 22, 11])
    ensures t == [11, 12, 22, 25, 64]
  {
    TestValuesSorted();
    TestValuesPermuted();
    SortedPermutationUnique(t, [11, 12, 22, 25, 64]);
  }

  lemma TestValuesSorted()
    ensures SortedBy([11, 12, 22, 25, 64], Id)
  {
    var sorted := [11, 12, 22, 25, 64];
    assert AdjacentSorted(sorted, Id);
    SortedIffAdjacentSorted(sorted, Id);
  }

  lemma TestValuesPermuted()
    ensures multiset([11, 12, 22, 25, 64]) == multiset([64, 25, 12, 22, 11])
  {
    assert multiset([64, 25, 12, 22, 11]) == multiset{64, 25, 12, 22, 11};
    assert multiset([11, 12, 22, 25, 64]) == multiset{11, 12, 22, 25, 64};
    assert multiset{64, 25, 12, 22, 11} == multiset{11, 12, 22, 25, 64};
  }
}
