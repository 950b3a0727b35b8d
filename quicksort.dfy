/** Quicksort with median-of-three pivots, a Lomuto partition and an
    insertion-sort cut-off for short ranges, sorting ascending or, when
    `reverse` is set, descending.  The element type is modelled as int. */
module MyQuicksort {

  /** Ranges with at most this many elements are sorted by insertion sort. */
  const BOUNDARY_SIZE: int := 10

  /*------------------------------------------------------------------------
    Specification
  ------------------------------------------------------------------------*/

  /** x may stand before y: ascending order, or descending when reverse.
      It fails exactly on the pairs IsSorted reports as out of order. */
  predicate InOrder(x: int, y: int, reverse: bool)
    ensures InOrder(x, y, reverse) <==> !((x > y && !reverse) || (x < y && reverse))
  {
    if reverse then x >= y else x <= y
  }

  /** x must stand before y: the strict comparison the sorts test with,
      which holds exactly when y may not stand before x. */
  predicate Before(x: int, y: int, reverse: bool)
    ensures Before(x, y, reverse) <==> (!reverse && x < y) || (reverse && x > y)
    ensures Before(x, y, reverse) <==> !InOrder(y, x, reverse)
  {
    if reverse then x > y else x < y
  }

  /** Every pair of positions in s[lo..hi] is in order. */
  ghost predicate Sorted(s: seq<int>, lo: int, hi: int, reverse: bool)
    requires 0 <= lo <= hi <= |s|
  {
    forall p, q :: lo <= p < q < hi ==> InOrder(s[p], s[q], reverse)
  }

  /** Every neighbouring pair of s is in order. */
  predicate AdjacentInOrder(s: seq<int>, reverse: bool)
  {
    forall k :: 0 <= k < |s| - 1 ==> InOrder(s[k], s[k + 1], reverse)
  }

  /** s and t agree outside positions lo..hi-1. */
  ghost predicate SameOutside(s: seq<int>, t: seq<int>, lo: int, hi: int)
  {
    |s| == |t| && forall k :: 0 <= k < |s| && (k < lo || hi <= k) ==> s[k] == t[k]
  }

  /** The median of three values. */
  function Median3(p: int, q: int, r: int): (m: int)
    ensures m == p || m == q || m == r
    ensures (p <= m && q <= m) || (p <= m && r <= m) || (q <= m && r <= m)
    ensures (m <= p && m <= q) || (m <= p && m <= r) || (m <= q && m <= r)
  {
    var lo, hi := if p <= q then p else q, if p <= q then q else p;
    if r <= lo then lo else if r <= hi then r else hi
  }

  /*------------------------------------------------------------------------
    Lemmas about the specification
  ------------------------------------------------------------------------*/

  /** In order is total, and antisymmetric: of two values either may stand
      before the other, and both only when they are equal. */
  lemma InOrderTotal(x: int, y: int, reverse: bool)
    ensures InOrder(x, y, reverse) || InOrder(y, x, reverse)
    ensures InOrder(x, y, reverse) && InOrder(y, x, reverse) ==> x == y
  {
  }

  /** In order is transitive. */
  lemma InOrderTrans(x: int, y: int, z: int, reverse: bool)
    requires InOrder(x, y, reverse) && InOrder(y, z, reverse)
    ensures InOrder(x, z, reverse)
  {
  }

  /** Neighbouring pairs in order is the same as every pair in order. */
  lemma {:induction false} AdjacentIffSorted(s: seq<int>, reverse: bool)
    ensures AdjacentInOrder(s, reverse) <==> Sorted(s, 0, |s|, reverse)
    decreases |s|
  {
    if |s| >= 2 {
      var init := s[..|s| - 1];
      AdjacentIffSorted(init, reverse);
      if AdjacentInOrder(s, reverse) {
        assert AdjacentInOrder(init, reverse);
        assert Sorted(init, 0, |init|, reverse);
        forall p, q | 0 <= p < q < |s|
          ensures InOrder(s[p], s[q], reverse)
        {
          if q == |s| - 1 && p < q - 1 {
            assert InOrder(init[p], init[q - 1], reverse);
            InOrderTrans(s[p], s[q - 1], s[q], reverse);
          } else if q < |s| - 1 {
            assert InOrder(init[p], init[q], reverse);
          }
        }
      }
      if Sorted(s, 0, |s|, reverse) {
        forall k | 0 <= k < |s| - 1
          ensures InOrder(s[k], s[k + 1], reverse)
        {
        }
      }
    }
  }

  /** Two sorted arrangements of the same multiset are the same sequence:
      sorting is the only sorted permutation. */
  lemma {:induction false} SortedUnique(s: seq<int>, t: seq<int>, reverse: bool)
    requires multiset(s) == multiset(t)
    requires Sorted(s, 0, |s|, reverse) && Sorted(t, 0, |t|, reverse)
    ensures s == t
    decreases |s|
  {
    if s == [] {
      assert |t| == |multiset(t)| == 0;
    } else {
      assert |t| == |multiset(t)| == |s|;
      assert s[0] in multiset(t);
      var k :| 0 <= k < |t| && t[k] == s[0];
      assert t[0] in multiset(s);
      var m :| 0 <= m < |s| && s[m] == t[0];
      assert InOrder(t[0], t[k], reverse) || k == 0;
      assert InOrder(s[0], s[m], reverse) || m == 0;
      assert s[0] == t[0];
      MultisetTail(s);
      MultisetTail(t);
      SortedUnique(s[1..], t[1..], reverse);
    }
  }

  lemma MultisetTail(s: seq<int>)
    requires s != []
    ensures multiset(s[1..]) == multiset(s) - multiset{s[0]}
  {
    assert s == [s[0]] + s[1..];
  }

  /** Every element of a range satisfies a bound once it did so before the
      range was rearranged. */
  lemma BoundKept(s: seq<int>, t: seq<int>, lo: int, hi: int, pivot: int, below: bool, reverse: bool)
    requires 0 <= lo <= hi <= |s| && hi <= |t|
    requires multiset(s[lo..hi]) == multiset(t[lo..hi])
    requires forall k :: lo <= k < hi ==> Before(s[k], pivot, reverse) == below
    ensures forall k :: lo <= k < hi ==> Before(t[k], pivot, reverse) == below
  {
    forall k | lo <= k < hi
      ensures Before(t[k], pivot, reverse) == below
    {
      assert t[k] == t[lo..hi][k - lo];
      assert t[k] in multiset(s[lo..hi]);
      var m :| 0 <= m < hi - lo && s[lo..hi][m] == t[k];
      assert s[lo + m] == t[k];
    }
  }

  /** A whole-sequence permutation that leaves everything outside a range
      alone permutes the range itself. */
  lemma RangePermuted(s: seq<int>, t: seq<int>, lo: int, hi: int)
    requires 0 <= lo <= hi <= |s|
    requires multiset(s) == multiset(t) && SameOutside(s, t, lo, hi)
    ensures multiset(s[lo..hi]) == multiset(t[lo..hi])
  {
    assert s[..lo] == t[..lo];
    assert s[hi..] == t[hi..];
    assert s == s[..lo] + s[lo..hi] + s[hi..];
    assert t == t[..lo] + t[lo..hi] + t[hi..];
    var rest := multiset(s[..lo]) + multiset(s[hi..]);
    assert multiset(s) == multiset(s[lo..hi]) + rest;
    assert multiset(t) == multiset(t[lo..hi]) + rest;
    assert multiset(s[lo..hi]) == multiset(s) - rest;
  }

  /** Two sorted ranges around a pivot position, everything before it
      strictly before the pivot and nothing after it, make one sorted range. */
  lemma JoinAroundPivot(s: seq<int>, lo: int, p: int, hi: int, reverse: bool)
    requires 0 <= lo <= p < hi <= |s|
    requires Sorted(s, lo, p, reverse) && Sorted(s, p + 1, hi, reverse)
    requires forall k :: lo <= k < p ==> Before(s[k], s[p], reverse)
    requires forall k :: p < k < hi ==> !Before(s[k], s[p], reverse)
    ensures Sorted(s, lo, hi, reverse)
  {
    forall x, y | lo <= x < y < hi
      ensures InOrder(s[x], s[y], reverse)
    {
      if x < p && p < y {
        InOrderTrans(s[x], s[p], s[y], reverse);
      }
    }
  }

  /*------------------------------------------------------------------------
    The operations
  ------------------------------------------------------------------------*/

  /** Scans neighbouring pairs and stops at the first one out of order. */
  method IsSorted(a: array<int>, reverse: bool) returns (sorted: bool)
    ensures sorted <==> AdjacentInOrder(a[..], reverse)
    ensures sorted <==> Sorted(a[..], 0, a.Length, reverse)
  {
    AdjacentIffSorted(a[..], reverse);
    if a.Length <= 1 {
      return true;
    }
    sorted := true;
    for i := 0 to a.Length - 1
      invariant forall k :: 0 <= k < i ==> InOrder(a[k], a[k + 1], reverse)
    {
      if (a[i] > a[i + 1] && !reverse) || (a[i] < a[i + 1] && reverse) {
        sorted := false;
        break;
      }
    }
  }

  /** The source's median-of-three test, as written: the index among x, y
      and z whose value is neither the strict largest nor the strict
      smallest under `>` tests alone.  It picks the median except when
      a[x] == a[y] < a[z], where it picks z, the largest. */
  function ArrayMedian3(a: array<int>, x: int, y: int, z: int): (r: int)
    reads a
    requires 0 <= x < a.Length && 0 <= y < a.Length && 0 <= z < a.Length
    ensures r == x || r == y || r == z
    ensures !(a[x] == a[y] < a[z]) ==> a[r] == Median3(a[x], a[y], a[z])
    ensures a[x] == a[y] < a[z] ==> r == z && a[r] != Median3(a[x], a[y], a[z])
  {
    if (a[x] > a[y]) != (a[x] > a[z]) then x
    else if (a[y] > a[x]) != (a[y] > a[z]) then y
    else z
  }

  /** ArrayMedian3 on [1, 1, 2] returns the index of 2, not of a median. */
  lemma ArrayMedian3MissesTie(a: array<int>)
    requires a.Length == 3 && a[0] == 1 && a[1] == 1 && a[2] == 2
    ensures ArrayMedian3(a, 0, 1, 2) == 2 && Median3(a[0], a[1], a[2]) == 1
  {
  }

  /** The median-of-three test with the first comparison made non-strict on
      one side, so that a tie between a[x] and a[y] below a[z] picks x. */
  function ArrayMedian3Fixed(a: array<int>, x: int, y: int, z: int): (r: int)
    reads a
    requires 0 <= x < a.Length && 0 <= y < a.Length && 0 <= z < a.Length
    ensures r == x || r == y || r == z
    ensures a[r] == Median3(a[x], a[y], a[z])
  {
    if (a[x] >= a[y]) != (a[x] > a[z]) then x
    else if (a[y] > a[x]) != (a[y] > a[z]) then y
    else z
  }

  /** Insertion sort of a[left..right] (both ends included) in place. */
  method InsertionSort(a: array<int>, left: int, right: int, reverse: bool)
    requires left < right ==> 0 <= left && right < a.Length
    modifies a
    ensures left < right ==> Sorted(a[..], left, right + 1, reverse)
    ensures multiset(a[..]) == old(multiset(a[..]))
    ensures SameOutside(a[..], old(a[..]), left, right + 1)
    ensures left >= right ==> a[..] == old(a[..])
  {
    var i := left + 1;
    while i <= right
      invariant left < right ==> left + 1 <= i <= right + 1
      invariant multiset(a[..]) == old(multiset(a[..]))
      invariant SameOutside(a[..], old(a[..]), left, right + 1)
      invariant left < right ==> Sorted(a[..], left, i, reverse)
      invariant left >= right ==> a[..] == old(a[..])
      decreases right - i
    {
      InsertOne(a, left, i, reverse);
      i := i + 1;
    }
  }

  /** One pass of the insertion sort's outer loop: a[i] travels left past
      every element of the sorted a[left..i-1] that must come after it. */
  method InsertOne(a: array<int>, left: int, i: int, reverse: bool)
    requires 0 <= left < i < a.Length
    requires Sorted(a[..], left, i, reverse)
    modifies a
    ensures Sorted(a[..], left, i + 1, reverse)
    ensures multiset(a[..]) == old(multiset(a[..]))
    ensures SameOutside(a[..], old(a[..]), left, i + 1)
  {
    ghost var s0 := a[..];
    var current := a[i];
    var temp := i - 1;
    while temp >= left && ((!reverse && a[temp] > current) || (reverse && a[temp] < current))
      invariant left - 1 <= temp <= i - 1
      invariant Shifted(s0, a[..], temp + 1, i)
      invariant forall k :: temp + 1 <= k < i ==> Before(current, s0[k], reverse)
      decreases temp
    {
      Put(a, temp + 1, a[temp]);
      temp := temp - 1;
    }
    ghost var s1 := a[..];
    Put(a, temp + 1, current);
    Inserted(s0, s1, a[..], left, temp + 1, i, reverse);
  }

  /** Stores x at a[k]. */
  method Put(a: array<int>, k: int, x: int)
    requires 0 <= k < a.Length
    modifies a
    ensures a[..] == old(a[..])[k := x]
  {
    a[k] := x;
  }

  /** s is s0 with s0[h..i-1] moved one place right; position h is free. */
  ghost predicate Shifted(s0: seq<int>, s: seq<int>, h: int, i: int)
    requires 0 <= h <= i < |s0|
  {
    |s| == |s0|
    && (forall k :: 0 <= k < h ==> s[k] == s0[k])
    && (forall k :: h + 1 <= k <= i ==> s[k] == s0[k - 1])
    && (forall k :: i < k < |s| ==> s[k] == s0[k])
  }

  /** Dropping s0[i] into the free position h of the shifted sequence gives
      a permutation of s0 that is sorted from left to i. */
  lemma Inserted(s0: seq<int>, s1: seq<int>, s: seq<int>, left: int, h: int, i: int, reverse: bool)
    requires 0 <= left <= h <= i < |s0|
    requires Sorted(s0, left, i, reverse)
    requires Shifted(s0, s1, h, i)
    requires forall k :: h <= k < i ==> Before(s0[i], s0[k], reverse)
    requires h > left ==> !Before(s0[i], s0[h - 1], reverse)
    requires s == s1[h := s0[i]]
    ensures Sorted(s, left, i + 1, reverse)
    ensures multiset(s) == multiset(s0)
    ensures SameOutside(s, s0, left, i + 1)
  {
    InsertedPermutes(s0, s1, h, i);
    forall p, q | left <= p < q < i + 1
      ensures InOrder(s[p], s[q], reverse)
    {
      InsertedPair(s0, s1, left, h, i, p, q, reverse);
    }
  }

  lemma InsertedPermutes(s0: seq<int>, s1: seq<int>, h: int, i: int)
    requires 0 <= h <= i < |s0|
    requires Shifted(s0, s1, h, i)
    ensures multiset(s1[h := s0[i]]) == multiset(s0)
  {
    var s := s1[h := s0[i]];
    assert s[..h] == s0[..h];
    assert s[h + 1..i + 1] == s0[h..i];
    assert s[i + 1..] == s0[i + 1..];
    assert s == s0[..h] + [s0[i]] + s0[h..i] + s0[i + 1..];
    assert s0 == s0[..h] + s0[h..i] + [s0[i]] + s0[i + 1..];
  }

  /** One pair of positions after the insertion is in order. */
  lemma InsertedPair(s0: seq<int>, s1: seq<int>, left: int, h: int, i: int, p: int, q: int, reverse: bool)
    requires 0 <= left <= h <= i < |s0|
    requires Sorted(s0, left, i, reverse)
    requires Shifted(s0, s1, h, i)
    requires forall k :: h <= k < i ==> Before(s0[i], s0[k], reverse)
    requires h > left ==> !Before(s0[i], s0[h - 1], reverse)
    requires left <= p < q < i + 1
    ensures InOrder(s1[h := s0[i]][p], s1[h := s0[i]][q], reverse)
  {
    var s := s1[h := s0[i]];
    if q < h {
      assert s[p] == s0[p] && s[q] == s0[q];
    } else if q == h {
      assert s[p] == s0[p] && s[q] == s0[i];
      if p < h - 1 {
        InOrderTrans(s0[p], s0[h - 1], s0[i], reverse);
      }
    } else if p < h {
      assert s[p] == s0[p] && s[q] == s0[q - 1];
    } else if p == h {
      assert s[p] == s0[i] && s[q] == s0[q - 1];
    } else {
      assert s[p] == s0[p - 1] && s[q] == s0[q - 1];
    }
  }

  /** Exchanges a[i] and a[j]. */
  method Swap(a: array<int>, i: int, j: int)
    requires 0 <= i < a.Length && 0 <= j < a.Length
    modifies a
    ensures a[..] == old(a[..])[i := old(a[j])][j := old(a[i])]
    ensures multiset(a[..]) == old(multiset(a[..]))
  {
    a[i], a[j] := a[j], a[i];
  }

  /** The partition step of Quicksort on a[left..right]: the element
      ArrayMedian3 picks among a[left], a[mid] and a[right] (a median, except
      in the tie it misses) is swapped to a[right], the elements
      strictly before it are gathered at the front, and it is swapped into
      place at p. */
  method Partition(a: array<int>, left: int, right: int, reverse: bool) returns (p: int)
    requires 0 <= left < right < a.Length
    modifies a
    ensures left <= p <= right
    ensures a[p] == old(a[ArrayMedian3(a, left, left + (right - left) / 2, right)])
    ensures forall k :: left <= k < p ==> Before(a[k], a[p], reverse)
    ensures forall k :: p < k <= right ==> !Before(a[k], a[p], reverse)
    ensures multiset(a[..]) == old(multiset(a[..]))
    ensures SameOutside(a[..], old(a[..]), left, right + 1)
  {
    var mid := left + (right - left) / 2;
    var pivot := ArrayMedian3(a, left, mid, right);
    Swap(a, pivot, right);
    var i := Gather(a, left, right, reverse);
    Swap(a, i + 1, right);
    p := i + 1;
  }

  /** The partition loop: with the pivot at a[right], moves every element of
      a[left..right-1] strictly before it to the front and returns the last
      position of that front part. */
  method Gather(a: array<int>, left: int, right: int, reverse: bool) returns (i: int)
    requires 0 <= left < right < a.Length
    modifies a
    ensures left - 1 <= i < right
    ensures a[right] == old(a[right])
    ensures forall k :: left <= k <= i ==> Before(a[k], a[right], reverse)
    ensures forall k :: i < k < right ==> !Before(a[k], a[right], reverse)
    ensures multiset(a[..]) == old(multiset(a[..]))
    ensures SameOutside(a[..], old(a[..]), left, right)
  {
    var temp := a[right];
    i := left - 1;
    for j := left to right
      invariant left - 1 <= i < j
      invariant a[right] == temp
      invariant forall k :: left <= k <= i ==> Before(a[k], temp, reverse)
      invariant forall k :: i < k < j ==> !Before(a[k], temp, reverse)
      invariant multiset(a[..]) == old(multiset(a[..]))
      invariant SameOutside(a[..], old(a[..]), left, right)
    {
      if (!reverse && a[j] < temp) || (reverse && a[j] > temp) {
        i := i + 1;
        Swap(a, i, j);
      }
    }
  }

  /** A range too long for insertion sort has at least two elements, so the
      source's second base case, left >= right, is never reached. */
  lemma LongRange(left: int, right: int)
    requires right - left + 1 > BOUNDARY_SIZE
    ensures left < right
  {
  }

  /** The recursive Quicksort of a[left..right], both ends included. */
  method Quicksort(a: array<int>, left: int, right: int, reverse: bool)
    requires left <= right ==> 0 <= left && right < a.Length
    modifies a
    ensures left <= right ==> Sorted(a[..], left, right + 1, reverse)
    ensures multiset(a[..]) == old(multiset(a[..]))
    ensures SameOutside(a[..], old(a[..]), left, right + 1)
    ensures left > right ==> a[..] == old(a[..])
    decreases right - left + 1
  {
    if right - left + 1 <= BOUNDARY_SIZE {
      InsertionSort(a, left, right, reverse);
      return;
    }
    LongRange(left, right);
    if left >= right {
      return;
    }
    var p := Partition(a, left, right, reverse);
    ghost var s1 := a[..];
    Quicksort(a, left, p - 1, reverse);
    ghost var s2 := a[..];
    Quicksort(a, p + 1, right, reverse);
    Recombine(s1, s2, a[..], left, p, right, reverse);
  }

  /** After partitioning into s1 and sorting the two sides, first into s2
      and then into s3, the whole range is sorted. */
  lemma Recombine(s1: seq<int>, s2: seq<int>, s3: seq<int>, left: int, p: int, right: int, reverse: bool)
    requires 0 <= left <= p <= right < |s1|
    requires forall k :: left <= k < p ==> Before(s1[k], s1[p], reverse)
    requires forall k :: p < k <= right ==> !Before(s1[k], s1[p], reverse)
    requires multiset(s2) == multiset(s1) && SameOutside(s2, s1, left, p)
    requires multiset(s3) == multiset(s2) && SameOutside(s3, s2, p + 1, right + 1)
    requires Sorted(s2, left, p, reverse) && Sorted(s3, p + 1, right + 1, reverse)
    ensures Sorted(s3, left, right + 1, reverse)
  {
    RangePermuted(s1, s2, left, p);
    BoundKept(s1, s2, left, p, s1[p], true, reverse);
    RangePermuted(s2, s3, p + 1, right + 1);
    BoundKept(s2, s3, p + 1, right + 1, s1[p], false, reverse);
    SortedKept(s2, s3, left, p, reverse);
    JoinAroundPivot(s3, left, p, right + 1, reverse);
  }

  /** Sortedness of a range survives any change outside it. */
  lemma SortedKept(s: seq<int>, t: seq<int>, lo: int, hi: int, reverse: bool)
    requires 0 <= lo <= hi <= |s| == |t|
    requires Sorted(s, lo, hi, reverse)
    requires forall k :: lo <= k < hi ==> s[k] == t[k]
    ensures Sorted(t, lo, hi, reverse)
  {
  }

  /** The driver: sorts the whole array.  An array that is already sorted
      comes back unchanged. */
  method QuicksortAll(a: array<int>, reverse: bool)
    modifies a
    ensures Sorted(a[..], 0, a.Length, reverse)
    ensures multiset(a[..]) == old(multiset(a[..]))
    ensures Sorted(old(a[..]), 0, a.Length, reverse) ==> a[..] == old(a[..])
  {
    ghost var s0 := a[..];
    Quicksort(a, 0, a.Length - 1, reverse);
    if Sorted(s0, 0, a.Length, reverse) {
      SortedUnique(s0, a[..], reverse);
    }
  }
}
