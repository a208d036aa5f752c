// Specification of the in-place sorts of MyAlgo.h.
//
// The algorithms are generic in the element type and compare elements only
// through `<`, `<=` and `>`.  The model gives every element an integer `key`
// and compares keys, so that elements with equal keys can still be told
// apart: that is what lets stability be stated at all.

module SortSpec {

  /** Every pair of positions is ordered by key (non-decreasing). */
  ghost predicate SortedBy<T>(s: seq<T>, key: T -> int)
  {
    forall i, j :: 0 <= i < j < |s| ==> key(s[i]) <= key(s[j])
  }

  /** The check the tests apply to a sorted range: no adjacent pair with `*i > *(i+1)`. */
  ghost predicate AdjacentSorted<T>(s: seq<T>, key: T -> int)
  {
    forall i :: 0 <= i < |s| - 1 ==> key(s[i]) <= key(s[i + 1])
  }

  /** The elements of `s` whose key is `k`, in their order in `s`. */
  ghost function Filter<T>(s: seq<T>, key: T -> int, k: int): (r: seq<T>)
    ensures |r| <= |s|
  {
    if s == [] then []
    else (if key(s[0]) == k then [s[0]] else []) + Filter(s[1..], key, k)
  }

  /** `t` is a stable rearrangement of `s`: for every key, the elements with that key
      appear in the same order in both. */
  ghost predicate Stable<T>(s: seq<T>, t: seq<T>, key: T -> int)
  {
    forall k :: Filter(s, key, k) == Filter(t, key, k)
  }

  /** Every element of `s` has a key at most `b`. */
  ghost predicate AllAtMost<T>(s: seq<T>, key: T -> int, b: int)
  {
    forall x :: x in s ==> key(x) <= b
  }

  /** Every element of `s` has a key greater than `b`. */
  ghost predicate AllAbove<T>(s: seq<T>, key: T -> int, b: int)
  {
    forall x :: x in s ==> key(x) > b
  }

  // ---------------------------------------------------------------------------
  // The two sortedness checks agree

  lemma {:induction false} SortedIffAdjacentSorted<T>(s: seq<T>, key: T -> int)
    ensures SortedBy(s, key) <==> AdjacentSorted(s, key)
  {
    if AdjacentSorted(s, key) && |s| > 1 {
      SortedIffAdjacentSorted(s[1..], key);
      assert SortedBy(s[1..], key);
      forall i, j | 0 <= i < j < |s| ensures key(s[i]) <= key(s[j]) {
        if i > 0 {
          assert s[i] == s[1..][i - 1] && s[j] == s[1..][j - 1];
        } else if j > 1 {
          assert s[1] == s[1..][0] && s[j] == s[1..][j - 1];
        }
      }
    }
  }

  // ---------------------------------------------------------------------------
  // Filter

  lemma {:induction false} FilterConcat<T>(a: seq<T>, b: seq<T>, key: T -> int, k: int)
    ensures Filter(a + b, key, k) == Filter(a, key, k) + Filter(b, key, k)
  {
    if a != [] {
      assert (a + b)[0] == a[0];
      assert (a + b)[1..] == a[1..] + b;
      FilterConcat(a[1..], b, key, k);
      calc {
        Filter(a + b, key, k);
        (if key(a[0]) == k then [a[0]] else []) + Filter(a[1..] + b, key, k);
        (if key(a[0]) == k then [a[0]] else []) + (Filter(a[1..], key, k) + Filter(b, key, k));
        ((if key(a[0]) == k then [a[0]] else []) + Filter(a[1..], key, k)) + Filter(b, key, k);
      }
    } else {
      assert a + b == b;
    }
  }

  lemma {:induction false} FilterNone<T>(s: seq<T>, key: T -> int, k: int)
    requires forall x :: x in s ==> key(x) != k
    ensures Filter(s, key, k) == []
  {
    if s != [] {
      FilterNone(s[1..], key, k);
    }
  }

  /** An element of `s` occurs in `s` exactly as often as in the part of `s` that has its key. */
  lemma {:induction false} FilterCount<T>(s: seq<T>, key: T -> int, x: T)
    ensures multiset(Filter(s, key, key(x)))[x] == multiset(s)[x]
  {
    if s != [] {
      FilterCount(s[1..], key, x);
      assert s == [s[0]] + s[1..];
      if key(s[0]) != key(x) {
        assert s[0] != x;
      }
    }
  }

  /** The elements with the smallest key come first in a sorted sequence. */
  lemma {:induction false} FilterHead<T>(s: seq<T>, key: T -> int, k: int)
    requires s != [] && key(s[0]) == k
    ensures Filter(s, key, k) == [s[0]] + Filter(s[1..], key, k)
  {
  }

  lemma FilterUnfold<T>(s: seq<T>, key: T -> int, k: int)
    requires s != []
    ensures Filter(s, key, k) == (if key(s[0]) == k then [s[0]] else []) + Filter(s[1..], key, k)
  {
  }

  lemma {:induction false} FilterNonEmpty<T>(s: seq<T>, key: T -> int, k: int)
    ensures Filter(s, key, k) != [] <==> exists i :: 0 <= i < |s| && key(s[i]) == k
  {
    if s != [] {
      FilterNonEmpty(s[1..], key, k);
      if key(s[0]) != k && exists i :: 0 <= i < |s| && key(s[i]) == k {
        var i :| 0 <= i < |s| && key(s[i]) == k;
        assert s[1..][i - 1] == s[i];
      }
      if exists i :: 0 <= i < |s[1..]| && key(s[1..][i]) == k {
        var i :| 0 <= i < |s[1..]| && key(s[1..][i]) == k;
        assert s[i + 1] == s[1..][i];
      }
    }
  }

  // ---------------------------------------------------------------------------
  // Stability

  /** A stable rearrangement never loses or duplicates an element. */
  lemma StableIsPermutation<T>(s: seq<T>, t: seq<T>, key: T -> int)
    requires Stable(s, t, key)
    ensures multiset(s) == multiset(t)
  {
    forall x ensures multiset(s)[x] == multiset(t)[x] {
      FilterCount(s, key, x);
      FilterCount(t, key, x);
      assert Filter(s, key, key(x)) == Filter(t, key, key(x));
    }
  }

  lemma StableTrans<T>(s: seq<T>, t: seq<T>, u: seq<T>, key: T -> int)
    requires Stable(s, t, key) && Stable(t, u, key)
    ensures Stable(s, u, key)
  {
  }

  /** Exchanging two neighbours with different keys is stable. */
  lemma SwapNeighboursStable<T>(p: seq<T>, x: T, y: T, q: seq<T>, key: T -> int)
    requires key(x) != key(y)
    ensures Stable(p + [x, y] + q, p + [y, x] + q, key)
  {
    forall k ensures Filter([x, y], key, k) == Filter([y, x], key, k) {
      FilterConcat([x], [y], key, k);
      FilterConcat([y], [x], key, k);
      assert [x] + [y] == [x, y] && [y] + [x] == [y, x];
    }
    StableInContext(p, [x, y], [y, x], q, key);
  }

  /** Moving `x` leftwards past elements whose keys all differ from its own is stable. */
  lemma RotateStable<T>(p: seq<T>, x: T, m: seq<T>, q: seq<T>, key: T -> int)
    requires forall y :: y in m ==> key(y) != key(x)
    ensures Stable(p + [x] + m + q, p + m + [x] + q, key)
  {
    forall k ensures Filter([x] + m, key, k) == Filter(m + [x], key, k) {
      FilterConcat([x], m, key, k);
      FilterConcat(m, [x], key, k);
      if k == key(x) {
        FilterNone(m, key, k);
      } else {
        FilterNone([x], key, k);
      }
    }
    StableInContext(p, [x] + m, m + [x], q, key);
    assert p + ([x] + m) + q == p + [x] + m + q;
    assert p + (m + [x]) + q == p + m + [x] + q;
  }

  /** Stability of a part carries over to the whole. */
  lemma StableInContext<T>(p: seq<T>, s: seq<T>, t: seq<T>, q: seq<T>, key: T -> int)
    requires Stable(s, t, key)
    ensures Stable(p + s + q, p + t + q, key)
  {
    forall k ensures Filter(p + s + q, key, k) == Filter(p + t + q, key, k) {
      FilterConcat(p + s, q, key, k);
      FilterConcat(p, s, key, k);
      FilterConcat(p + t, q, key, k);
      FilterConcat(p, t, key, k);
    }
  }

  /** Stable sorting has exactly one possible outcome: two sorted sequences that are
      stable rearrangements of each other are equal.  So insertion, bubble and merge
      sort all produce the same result on every input. */
  lemma {:induction false} StableSortedUnique<T>(s: seq<T>, t: seq<T>, key: T -> int)
    requires SortedBy(s, key) && SortedBy(t, key) && Stable(s, t, key)
    ensures s == t
  {
    StableIsPermutation(s, t, key);
    assert |s| == |multiset(s)| == |multiset(t)| == |t|;
    if s != [] {
      StableSortedHeads(s, t, key);
      StableTails(s, t, key);
      SortedTail(s, key);
      SortedTail(t, key);
      StableSortedUnique(s[1..], t[1..], key);
      assert s == [s[0]] + s[1..] && t == [t[0]] + t[1..];
    }
  }

  /** Two non-empty sorted stable rearrangements of each other start with the same element. */
  lemma StableSortedHeads<T>(s: seq<T>, t: seq<T>, key: T -> int)
    requires s != [] && t != []
    requires SortedBy(s, key) && SortedBy(t, key) && Stable(s, t, key)
    ensures s[0] == t[0]
  {
    var ks, kt := key(s[0]), key(t[0]);
    FilterNonEmpty(s, key, kt);
    FilterNonEmpty(t, key, kt);
    FilterNonEmpty(s, key, ks);
    FilterNonEmpty(t, key, ks);
    assert Filter(s, key, kt) == Filter(t, key, kt);
    assert Filter(s, key, ks) == Filter(t, key, ks);
    var i :| 0 <= i < |s| && key(s[i]) == kt;
    var j :| 0 <= j < |t| && key(t[j]) == ks;
    assert ks <= kt by { if i > 0 { assert key(s[0]) <= key(s[i]); } }
    assert kt <= ks by { if j > 0 { assert key(t[0]) <= key(t[j]); } }
    FilterHead(s, key, ks);
    FilterHead(t, key, ks);
    assert Filter(s, key, ks)[0] == s[0] && Filter(t, key, ks)[0] == t[0];
  }

  /** Dropping a common first element keeps two sequences stable rearrangements. */
  lemma StableTails<T>(s: seq<T>, t: seq<T>, key: T -> int)
    requires s != [] && t != [] && s[0] == t[0] && Stable(s, t, key)
    ensures Stable(s[1..], t[1..], key)
  {
    forall k ensures Filter(s[1..], key, k) == Filter(t[1..], key, k) {
      assert Filter(s, key, k) == Filter(t, key, k);
      FilterUnfold(s, key, k);
      FilterUnfold(t, key, k);
      var h := if key(s[0]) == k then [s[0]] else [];
      assert h + Filter(s[1..], key, k) == h + Filter(t[1..], key, k);
      assert Filter(s[1..], key, k) == (h + Filter(s[1..], key, k))[|h|..];
      assert Filter(t[1..], key, k) == (h + Filter(t[1..], key, k))[|h|..];
    }
  }

  /** Integers sorted by their own value. */
  function Id(x: int): int { x }

  lemma {:induction false} IdentityFilter(s: seq<int>, k: int)
    ensures Filter(s, Id, k) == seq(multiset(s)[k], _ => k)
  {
    if s != [] {
      IdentityFilter(s[1..], k);
      assert s == [s[0]] + s[1..];
      assert multiset(s) == multiset{s[0]} + multiset(s[1..]);
    }
  }

  /** With the identity as key, any permutation is stable (equal integers cannot be
      told apart), so a sorted permutation of integers is unique. */
  lemma SortedPermutationUnique(s: seq<int>, t: seq<int>)
    requires SortedBy(s, Id) && SortedBy(t, Id) && multiset(s) == multiset(t)
    ensures s == t
  {
    forall k ensures Filter(s, Id, k) == Filter(t, Id, k) {
      IdentityFilter(s, k);
      IdentityFilter(t, k);
    }
    StableSortedUnique(s, t, Id);
  }

  // ---------------------------------------------------------------------------
  // Bounds carried along a permutation

  lemma PermutationKeepsBounds<T>(s: seq<T>, t: seq<T>, key: T -> int, b: int)
    requires multiset(s) == multiset(t)
    ensures AllAtMost(s, key, b) <==> AllAtMost(t, key, b)
    ensures AllAbove(s, key, b) <==> AllAbove(t, key, b)
  {
    forall x ensures x in s <==> x in t {
      assert x in s <==> x in multiset(s);
      assert x in t <==> x in multiset(t);
    }
  }

  // ---------------------------------------------------------------------------
  // Merging two sorted runs (the specification of `merge`)

  /** The merge of `l` and `r`: take the head with the smaller key, and the left
      one when the keys tie. */
  ghost function Merged<T>(l: seq<T>, r: seq<T>, key: T -> int): (m: seq<T>)
    ensures |m| == |l| + |r|
    decreases |l| + |r|
  {
    if l == [] then r
    else if r == [] then l
    else if key(l[0]) <= key(r[0]) then [l[0]] + Merged(l[1..], r, key)
    else [r[0]] + Merged(l, r[1..], key)
  }

  /** The same merge, of the rests l[i..] and r[j..], counted by positions: this is how
      the loop in `merge` walks its two buffers. */
  ghost function MergedFrom<T>(l: seq<T>, r: seq<T>, i: nat, j: nat, key: T -> int): (m: seq<T>)
    requires i <= |l| && j <= |r|
    ensures |m| == |l| - i + |r| - j
    decreases |l| - i + |r| - j
  {
    if i == |l| then r[j..]
    else if j == |r| then l[i..]
    else if key(l[i]) <= key(r[j]) then [l[i]] + MergedFrom(l, r, i + 1, j, key)
    else [r[j]] + MergedFrom(l, r, i, j + 1, key)
  }

  lemma {:induction false} MergedFromIsMerged<T>(l: seq<T>, r: seq<T>, i: nat, j: nat, key: T -> int)
    requires i <= |l| && j <= |r|
    ensures MergedFrom(l, r, i, j, key) == Merged(l[i..], r[j..], key)
    decreases |l| - i + |r| - j
  {
    if i < |l| && j < |r| {
      assert l[i..][1..] == l[i + 1..] && r[j..][1..] == r[j + 1..];
      if key(l[i]) <= key(r[j]) {
        MergedFromIsMerged(l, r, i + 1, j, key);
      } else {
        MergedFromIsMerged(l, r, i, j + 1, key);
      }
    } else if i == |l| {
      assert l[i..] == [];
    } else {
      assert r[j..] == [];
    }
  }

  /** When the merge takes the left head next, it is output element k and the merge
      of what remains follows it. */
  lemma MergedFromTakeLeft<T>(l: seq<T>, r: seq<T>, i: nat, j: nat, k: nat, whole: seq<T>, key: T -> int)
    requires i < |l| && j <= |r| && k == i + j && k <= |whole|
    requires j == |r| || key(l[i]) <= key(r[j])
    requires MergedFrom(l, r, i, j, key) == whole[k..]
    ensures k < |whole| && whole[k] == l[i]
    ensures MergedFrom(l, r, i + 1, j, key) == whole[k + 1..]
  {
    if j == |r| {
      assert l[i..] == [l[i]] + l[i + 1..];
      if i + 1 == |l| {
        assert l[i + 1..] == r[j..];
      }
    }
    assert whole[k + 1..] == whole[k..][1..];
  }

  /** The same for the right head, which the merge takes only on a strictly smaller key. */
  lemma MergedFromTakeRight<T>(l: seq<T>, r: seq<T>, i: nat, j: nat, k: nat, whole: seq<T>, key: T -> int)
    requires i <= |l| && j < |r| && k == i + j && k <= |whole|
    requires i == |l| || key(l[i]) > key(r[j])
    requires MergedFrom(l, r, i, j, key) == whole[k..]
    ensures k < |whole| && whole[k] == r[j]
    ensures MergedFrom(l, r, i, j + 1, key) == whole[k + 1..]
  {
    if i == |l| {
      assert r[j..] == [r[j]] + r[j + 1..];
    }
    assert whole[k + 1..] == whole[k..][1..];
  }

  /** Once one run is used up, the rest of the merge is the other run's remainder. */
  lemma MergedFromExhausted<T>(l: seq<T>, r: seq<T>, i: nat, j: nat, key: T -> int)
    requires i <= |l| && j <= |r| && (i == |l| || j == |r|)
    ensures MergedFrom(l, r, i, j, key) == l[i..] + r[j..]
  {
    if i == |l| {
      assert l[i..] == [];
    } else {
      assert r[j..] == [];
    }
  }

  lemma {:induction false} MergedPermutation<T>(l: seq<T>, r: seq<T>, key: T -> int)
    ensures multiset(Merged(l, r, key)) == multiset(l) + multiset(r)
    decreases |l| + |r|
  {
    if l != [] && r != [] {
      if key(l[0]) <= key(r[0]) {
        MergedPermutation(l[1..], r, key);
        MergedTakeLeft(l, r, key);
        HeadMultiset(l);
      } else {
        MergedPermutation(l, r[1..], key);
        MergedTakeRight(l, r, key);
        HeadMultiset(r);
      }
    }
  }

  /** A non-empty sequence's multiset is its head plus its tail's. */
  lemma HeadMultiset<T>(s: seq<T>)
    requires s != []
    ensures multiset(s) == multiset([s[0]]) + multiset(s[1..])
  {
    assert s == [s[0]] + s[1..];
  }

  /** The merge takes the left head on a smaller or equal key. */
  lemma MergedTakeLeft<T>(l: seq<T>, r: seq<T>, key: T -> int)
    requires l != [] && r != [] && key(l[0]) <= key(r[0])
    ensures Merged(l, r, key) == [l[0]] + Merged(l[1..], r, key)
  {
  }

  lemma {:induction false} MergedLowerBound<T>(l: seq<T>, r: seq<T>, key: T -> int, b: int)
    requires forall x :: x in l ==> b <= key(x)
    requires forall x :: x in r ==> b <= key(x)
    ensures forall x :: x in Merged(l, r, key) ==> b <= key(x)
  {
    MergedPermutation(l, r, key);
    forall x | x in Merged(l, r, key) ensures b <= key(x) {
      assert x in multiset(Merged(l, r, key));
    }
  }

  lemma {:induction false} MergedSorted<T>(l: seq<T>, r: seq<T>, key: T -> int)
    requires SortedBy(l, key) && SortedBy(r, key)
    ensures SortedBy(Merged(l, r, key), key)
    decreases |l| + |r|
  {
    if l != [] && r != [] {
      var m := Merged(l, r, key);
      var h, rest, b := m[0], m[1..], key(m[0]);
      if key(l[0]) <= key(r[0]) {
        assert SortedBy(l[1..], key) by {
          forall i, j | 0 <= i < j < |l[1..]| ensures key(l[1..][i]) <= key(l[1..][j]) {
            assert l[1..][i] == l[i + 1] && l[1..][j] == l[j + 1];
          }
        }
        MergedSorted(l[1..], r, key);
        forall x | x in l[1..] ensures b <= key(x) {
          var i :| 0 <= i < |l[1..]| && l[1..][i] == x;
          assert l[1..][i] == l[i + 1];
        }
        forall x | x in r ensures b <= key(x) {
          var i :| 0 <= i < |r| && r[i] == x;
          assert i == 0 || key(r[0]) <= key(r[i]);
        }
        MergedLowerBound(l[1..], r, key, b);
      } else {
        assert SortedBy(r[1..], key) by {
          forall i, j | 0 <= i < j < |r[1..]| ensures key(r[1..][i]) <= key(r[1..][j]) {
            assert r[1..][i] == r[i + 1] && r[1..][j] == r[j + 1];
          }
        }
        MergedSorted(l, r[1..], key);
        forall x | x in r[1..] ensures b <= key(x) {
          var i :| 0 <= i < |r[1..]| && r[1..][i] == x;
          assert r[1..][i] == r[i + 1];
        }
        forall x | x in l ensures b <= key(x) {
          var i :| 0 <= i < |l| && l[i] == x;
          assert i == 0 || key(l[0]) <= key(l[i]);
        }
        MergedLowerBound(l, r[1..], key, b);
      }
      assert m == [h] + rest;
      forall i, j | 0 <= i < j < |m| ensures key(m[i]) <= key(m[j]) {
        if i == 0 {
          assert m[j] == rest[j - 1] && m[j] in rest;
        } else {
          assert m[i] == rest[i - 1] && m[j] == rest[j - 1];
        }
      }
    }
  }

  /** Ties go to the left run, so merging two sorted runs keeps, for every key, the
      left run's elements before the right run's. */
  lemma {:induction false} MergedStable<T>(l: seq<T>, r: seq<T>, key: T -> int, k: int)
    requires SortedBy(l, key)
    ensures Filter(Merged(l, r, key), key, k) == Filter(l, key, k) + Filter(r, key, k)
    decreases |l| + |r|
  {
    if l == [] {
      assert Merged(l, r, key) == r && l + r == r;
    } else if r == [] {
      assert Merged(l, r, key) == l;
    } else if key(l[0]) <= key(r[0]) {
      SortedTail(l, key);
      MergedStable(l[1..], r, key, k);
      MergedStableTakeLeft(l, r, key, k);
    } else {
      MergedStable(l, r[1..], key, k);
      MergedStableTakeRight(l, r, key, k);
    }
  }

  lemma SortedTail<T>(s: seq<T>, key: T -> int)
    requires s != [] && SortedBy(s, key)
    ensures SortedBy(s[1..], key)
  {
    forall i, j | 0 <= i < j < |s[1..]| ensures key(s[1..][i]) <= key(s[1..][j]) {
      assert s[1..][i] == s[i + 1] && s[1..][j] == s[j + 1];
    }
  }

  lemma ConcatAssoc<T>(a: seq<T>, b: seq<T>, c: seq<T>)
    ensures a + (b + c) == (a + b) + c
  {
  }

  /** One step of MergedStable: the left head is taken. */
  lemma MergedStableTakeLeft<T>(l: seq<T>, r: seq<T>, key: T -> int, k: int)
    requires l != [] && r != [] && key(l[0]) <= key(r[0])
    requires Filter(Merged(l[1..], r, key), key, k) == Filter(l[1..], key, k) + Filter(r, key, k)
    ensures Filter(Merged(l, r, key), key, k) == Filter(l, key, k) + Filter(r, key, k)
  {
    var h := [l[0]];
    var fh, ft, fr := Filter(h, key, k), Filter(l[1..], key, k), Filter(r, key, k);
    calc {
      Filter(Merged(l, r, key), key, k);
      { MergedTakeLeft(l, r, key); }
      Filter(h + Merged(l[1..], r, key), key, k);
      { FilterConcat(h, Merged(l[1..], r, key), key, k); }
      fh + (ft + fr);
      { ConcatAssoc(fh, ft, fr); }
      (fh + ft) + fr;
      { FilterConcat(h, l[1..], key, k); assert h + l[1..] == l; }
      Filter(l, key, k) + fr;
    }
  }

  /** One step of MergedStable: the right head is taken, which happens only when its
      key is below every key of the (sorted) left run. */
  lemma MergedStableTakeRight<T>(l: seq<T>, r: seq<T>, key: T -> int, k: int)
    requires l != [] && r != [] && key(l[0]) > key(r[0]) && SortedBy(l, key)
    requires Filter(Merged(l, r[1..], key), key, k) == Filter(l, key, k) + Filter(r[1..], key, k)
    ensures Filter(Merged(l, r, key), key, k) == Filter(l, key, k) + Filter(r, key, k)
  {
    var h := [r[0]];
    var fh, fl, ft := Filter(h, key, k), Filter(l, key, k), Filter(r[1..], key, k);
    calc {
      Filter(Merged(l, r, key), key, k);
      { MergedTakeRight(l, r, key); }
      Filter(h + Merged(l, r[1..], key), key, k);
      { FilterConcat(h, Merged(l, r[1..], key), key, k); }
      fh + (fl + ft);
      { SmallerHeadCommutes(l, r[0], ft, key, k); }
      fl + (fh + ft);
      { FilterConcat(h, r[1..], key, k); assert h + r[1..] == r; }
      fl + Filter(r, key, k);
    }
  }

  /** The merge takes the right head only on a strictly smaller key. */
  lemma MergedTakeRight<T>(l: seq<T>, r: seq<T>, key: T -> int)
    requires l != [] && r != [] && key(l[0]) > key(r[0])
    ensures Merged(l, r, key) == [r[0]] + Merged(l, r[1..], key)
  {
  }

  /** An element whose key is below the whole of a sorted run commutes with that run's
      per-key subsequences: they never hold its key. */
  lemma SmallerHeadCommutes<T>(l: seq<T>, x: T, t: seq<T>, key: T -> int, k: int)
    requires l != [] && SortedBy(l, key) && key(x) < key(l[0])
    ensures Filter([x], key, k) + (Filter(l, key, k) + t) == Filter(l, key, k) + (Filter([x], key, k) + t)
  {
    if key(x) == k {
      SortedHeadIsLeast(l, key);
      FilterNone(l, key, k);
    } else {
      assert Filter([x], key, k) == [];
    }
  }

  lemma SortedHeadIsLeast<T>(s: seq<T>, key: T -> int)
    requires s != [] && SortedBy(s, key)
    ensures forall x :: x in s ==> key(s[0]) <= key(x)
  {
    forall x | x in s ensures key(s[0]) <= key(x) {
      var i :| 0 <= i < |s| && s[i] == x;
      assert i == 0 || key(s[0]) <= key(s[i]);
    }
  }
}
