/** In-place Lomuto quicksort over the live slots of a MyArrayList, driven by a
    three-way comparator. */
module QuickSort {
  import opened Errors
  import opened ArrayList

  /** What the Comparator contract asks of `cmp`, read as "a comes no later
      than b" when cmp(a, b) <= 0: every two values are comparable, and the
      relation is transitive. */
  ghost predicate TotalPreorder<E(!new)>(cmp: (E, E) -> int) {
    (forall a, b :: cmp(a, b) <= 0 || cmp(b, a) <= 0)
    && (forall a, b, c {:trigger cmp(a, b), cmp(b, c), cmp(a, c)} :: cmp(a, b) <= 0 && cmp(b, c) <= 0 ==> cmp(a, c) <= 0)
  }

  /** Only equal values compare equal (natural and reverse order on Integer). */
  ghost predicate Antisymmetric<E(!new)>(cmp: (E, E) -> int) {
    forall a, b :: cmp(a, b) <= 0 && cmp(b, a) <= 0 ==> a == b
  }

  /** `s[lo..hi]` is in order: every earlier element comes no later than every
      later one. */
  ghost predicate SortedBetween<E>(s: seq<E>, cmp: (E, E) -> int, lo: int, hi: int)
    requires 0 <= lo <= hi <= |s|
  {
    forall i, j {:trigger cmp(s[i], s[j])} :: lo <= i < j < hi ==> cmp(s[i], s[j]) <= 0
  }

  ghost predicate Sorted<E>(s: seq<E>, cmp: (E, E) -> int) {
    SortedBetween(s, cmp, 0, |s|)
  }

  /** Every adjacent pair is in order: the form the tests check. */
  ghost predicate AdjacentSorted<E>(s: seq<E>, cmp: (E, E) -> int) {
    forall k :: 0 <= k < |s| - 1 ==> cmp(s[k], s[k + 1]) <= 0
  }

  /** Every element of `s[lo..hi]` comes no later than `pivot`. */
  ghost predicate AtMost<E>(s: seq<E>, cmp: (E, E) -> int, lo: int, hi: int, pivot: E)
    requires 0 <= lo <= hi <= |s|
  {
    forall k :: lo <= k < hi ==> cmp(s[k], pivot) <= 0
  }

  /** Every element of `s[lo..hi]` compares greater than `pivot`. */
  ghost predicate Above<E>(s: seq<E>, cmp: (E, E) -> int, lo: int, hi: int, pivot: E)
    requires 0 <= lo <= hi <= |s|
  {
    forall k :: lo <= k < hi ==> cmp(s[k], pivot) > 0
  }

  /** `s` and `t` agree outside the window `[lo, hi)`. */
  ghost predicate SameOutside<E>(s: seq<E>, t: seq<E>, lo: int, hi: int) {
    |s| == |t| && forall k :: 0 <= k < |s| && !(lo <= k < hi) ==> s[k] == t[k]
  }

  /** The window `[lo, hi)` of `s` is a rearrangement of that of `t`. */
  ghost predicate Permuted<E>(s: seq<E>, t: seq<E>, lo: int, hi: int)
    requires 0 <= lo <= hi <= |s| == |t|
  {
    multiset(s[lo..hi]) == multiset(t[lo..hi])
  }

  /** Sorted in the pairwise sense is the adjacent-pairs sense, given
      transitivity. */
  lemma {:induction false} SortedIffAdjacent<E(!new)>(s: seq<E>, cmp: (E, E) -> int)
    requires TotalPreorder(cmp)
    ensures Sorted(s, cmp) <==> AdjacentSorted(s, cmp)
  {
    if AdjacentSorted(s, cmp) {
      forall i, j | 0 <= i < j < |s| ensures cmp(s[i], s[j]) <= 0 {
        AdjacentChain(s, cmp, i, j);
      }
    }
  }

  lemma {:induction false} AdjacentChain<E(!new)>(s: seq<E>, cmp: (E, E) -> int, i: int, j: int)
    requires TotalPreorder(cmp) && AdjacentSorted(s, cmp)
    requires 0 <= i < j < |s|
    ensures cmp(s[i], s[j]) <= 0
    decreases j - i
  {
    if i + 1 < j {
      AdjacentChain(s, cmp, i + 1, j);
    }
  }

  /** A bound on every element of a window survives any rearrangement of it. */
  lemma {:induction false} AtMostPermuted<E>(s: seq<E>, t: seq<E>, cmp: (E, E) -> int, lo: int, hi: int, pivot: E)
    requires 0 <= lo <= hi <= |s| == |t|
    requires Permuted(s, t, lo, hi) && AtMost(t, cmp, lo, hi, pivot)
    ensures AtMost(s, cmp, lo, hi, pivot)
  {
    forall k | lo <= k < hi ensures cmp(s[k], pivot) <= 0 {
      assert s[k] in multiset(t[lo..hi]) by {
        assert s[k] == s[lo..hi][k - lo];
      }
      var m :| 0 <= m < hi - lo && t[lo..hi][m] == s[k];
      assert t[lo + m] == s[k];
    }
  }

  lemma {:induction false} AbovePermuted<E>(s: seq<E>, t: seq<E>, cmp: (E, E) -> int, lo: int, hi: int, pivot: E)
    requires 0 <= lo <= hi <= |s| == |t|
    requires Permuted(s, t, lo, hi) && Above(t, cmp, lo, hi, pivot)
    ensures Above(s, cmp, lo, hi, pivot)
  {
    forall k | lo <= k < hi ensures cmp(s[k], pivot) > 0 {
      assert s[k] in multiset(t[lo..hi]) by {
        assert s[k] == s[lo..hi][k - lo];
      }
      var m :| 0 <= m < hi - lo && t[lo..hi][m] == s[k];
      assert t[lo + m] == s[k];
    }
  }

  /** A rearrangement of a window that leaves the rest alone is a
      rearrangement of every larger window. */
  lemma PermutedWiden<E>(s: seq<E>, t: seq<E>, lo: int, hi: int, lo': int, hi': int)
    requires 0 <= lo' <= lo <= hi <= hi' <= |s| == |t|
    requires Permuted(s, t, lo, hi) && SameOutside(s, t, lo, hi)
    ensures Permuted(s, t, lo', hi')
  {
    assert s[lo'..hi'] == s[lo'..lo] + s[lo..hi] + s[hi..hi'];
    assert t[lo'..hi'] == t[lo'..lo] + t[lo..hi] + t[hi..hi'];
    assert s[lo'..lo] == t[lo'..lo];
    assert s[hi..hi'] == t[hi..hi'];
  }

  /** Exchanging two slots inside a window rearranges that window. */
  lemma SwapPermutes<E>(s: seq<E>, i: int, j: int, lo: int, hi: int)
    requires 0 <= lo <= i < hi && lo <= j < hi && hi <= |s|
    ensures Permuted(s[i := s[j]][j := s[i]], s, lo, hi)
  {
    var t := s[i := s[j]][j := s[i]];
    assert t[lo..hi] == s[lo..hi][i - lo := s[j]][j - lo := s[i]];
  }

  /** Two sorted windows split by a pivot that sits between them make one
      sorted window. */
  lemma {:induction false} SortedAroundPivot<E(!new)>(s: seq<E>, cmp: (E, E) -> int, lo: int, p: int, hi: int)
    requires TotalPreorder(cmp)
    requires 0 <= lo <= p < hi <= |s|
    requires SortedBetween(s, cmp, lo, p) && SortedBetween(s, cmp, p + 1, hi)
    requires AtMost(s, cmp, lo, p, s[p]) && Above(s, cmp, p + 1, hi, s[p])
    ensures SortedBetween(s, cmp, lo, hi)
  {
    forall i, j | lo <= i < j < hi ensures cmp(s[i], s[j]) <= 0 {
      if j == p {
      } else if i == p {
        assert cmp(s[j], s[p]) > 0;
      } else if i < p < j {
        assert cmp(s[j], s[p]) > 0;
        assert cmp(s[i], s[p]) <= 0 && cmp(s[p], s[j]) <= 0;
      }
    }
  }

  /** Under an antisymmetric comparator a sorted arrangement of a multiset is
      unique, so the result of `sort` is fixed by the elements alone. */
  lemma {:induction false} SortedUnique<E(!new)>(s: seq<E>, t: seq<E>, cmp: (E, E) -> int)
    requires Antisymmetric(cmp)
    requires Sorted(s, cmp) && Sorted(t, cmp) && multiset(s) == multiset(t)
    ensures s == t
    decreases |s|
  {
    if |s| == 0 {
      assert |t| == |multiset(t)| == 0;
    } else {
      SortedHeads(s, t, cmp);
      MultisetTail(s, t);
      SortedTail(s, cmp);
      SortedTail(t, cmp);
      SortedUnique(s[1..], t[1..], cmp);
      assert s == [s[0]] + s[1..] && t == [t[0]] + t[1..];
    }
  }

  /** Two sorted arrangements of one multiset start with the same element. */
  lemma SortedHeads<E(!new)>(s: seq<E>, t: seq<E>, cmp: (E, E) -> int)
    requires Antisymmetric(cmp)
    requires Sorted(s, cmp) && Sorted(t, cmp) && multiset(s) == multiset(t) && s != []
    ensures t != [] && s[0] == t[0]
  {
    assert s[0] in multiset(t) by { assert s[0] in s; }
    assert t[0] in multiset(s) by { assert t[0] in t; }
    var k :| 0 <= k < |t| && t[k] == s[0];
    var m :| 0 <= m < |s| && s[m] == t[0];
    if k != 0 && m != 0 {
      assert cmp(t[0], t[k]) <= 0 && cmp(s[0], s[m]) <= 0;
    }
  }

  lemma MultisetTail<E>(s: seq<E>, t: seq<E>)
    requires s != [] && t != [] && s[0] == t[0] && multiset(s) == multiset(t)
    ensures multiset(s[1..]) == multiset(t[1..])
  {
    assert [s[0]] + s[1..] == s;
    assert [t[0]] + t[1..] == t;
    calc {
      multiset(s[1..]);
      multiset(s) - multiset{s[0]};
      multiset(t) - multiset{t[0]};
      multiset(t[1..]);
    }
  }

  lemma SortedTail<E>(s: seq<E>, cmp: (E, E) -> int)
    requires Sorted(s, cmp) && s != []
    ensures Sorted(s[1..], cmp)
  {
    forall i, j | 0 <= i < j < |s| - 1 ensures cmp(s[1..][i], s[1..][j]) <= 0 {
      assert s[1..][i] == s[i + 1] && s[1..][j] == s[j + 1];
    }
  }

  /** What the scan of `partition` keeps, with `i` the boundary and `j` the
      next slot to look at: the pivot still in the last slot, `[low, i]` no
      later than it, `(i, j)` greater than it, and the window a rearrangement
      of what it was. */
  ghost predicate ScanInvariant<E>(s: seq<E>, orig: seq<E>, cmp: (E, E) -> int,
                                  low: int, high: int, i: int, j: int, pivot: E)
    requires 0 <= low <= i + 1 <= j <= high < |s| == |orig|
  {
    s[high] == pivot
    && AtMost(s, cmp, low, i + 1, pivot) && Above(s, cmp, i + 1, j, pivot)
    && SameOutside(s, orig, low, high + 1) && Permuted(s, orig, low, high + 1)
  }

  /** A scanned slot no later than the pivot is swapped to just past the
      boundary, which moves up by one. */
  lemma ScanTake<E>(s: seq<E>, t: seq<E>, orig: seq<E>, cmp: (E, E) -> int,
                    low: int, high: int, i: int, j: int, pivot: E)
    requires 0 <= low <= i + 1 <= j < high < |s| == |orig|
    requires ScanInvariant(s, orig, cmp, low, high, i, j, pivot)
    requires cmp(s[j], pivot) <= 0
    requires t == s[i + 1 := s[j]][j := s[i + 1]]
    ensures ScanInvariant(t, orig, cmp, low, high, i + 1, j + 1, pivot)
  {
    SwapPermutes(s, i + 1, j, low, high + 1);
    assert AtMost(t, cmp, low, i + 2, pivot);
    assert Above(t, cmp, i + 2, j + 1, pivot) by {
      forall k | i + 2 <= k < j + 1 ensures cmp(t[k], pivot) > 0 {
        if k == j { assert t[k] == s[i + 1]; }
      }
    }
  }

  /** A scanned slot greater than the pivot stays where it is. */
  lemma ScanSkip<E>(s: seq<E>, orig: seq<E>, cmp: (E, E) -> int,
                    low: int, high: int, i: int, j: int, pivot: E)
    requires 0 <= low <= i + 1 <= j < high < |s| == |orig|
    requires ScanInvariant(s, orig, cmp, low, high, i, j, pivot)
    requires cmp(s[j], pivot) > 0
    ensures ScanInvariant(s, orig, cmp, low, high, i, j + 1, pivot)
  {
  }

  /** In a window that is in order nothing before the last slot compares
      greater than it. */
  lemma SortedBelowLast<E>(s: seq<E>, cmp: (E, E) -> int, low: int, high: int)
    requires 0 <= low <= high < |s|
    requires SortedBetween(s, cmp, low, high + 1)
    ensures AtMost(s, cmp, low, high, s[high])
  {
  }

  /** What `partition` establishes: the old last slot of the window now sits
      at `p`, everything before it in the window comes no later than it,
      everything after it is greater, and only the window was rearranged. */
  ghost predicate Partitioned<E>(s: seq<E>, orig: seq<E>, cmp: (E, E) -> int, low: int, high: int, p: int)
    requires 0 <= low <= p <= high < |s| == |orig|
  {
    s[p] == orig[high]
    && AtMost(s, cmp, low, p, s[p]) && Above(s, cmp, p + 1, high + 1, s[p])
    && SameOutside(s, orig, low, high + 1) && Permuted(s, orig, low, high + 1)
  }

  /** After the scan, swapping the pivot to just past the boundary puts it
      between the two parts. */
  lemma ScanFinish<E>(s: seq<E>, t: seq<E>, orig: seq<E>, cmp: (E, E) -> int,
                      low: int, high: int, i: int, pivot: E)
    requires 0 <= low <= i + 1 <= high < |s| == |orig|
    requires ScanInvariant(s, orig, cmp, low, high, i, high, pivot) && orig[high] == pivot
    requires t == s[i + 1 := s[high]][high := s[i + 1]]
    ensures Partitioned(t, orig, cmp, low, high, i + 1)
  {
    SwapPermutes(s, i + 1, high, low, high + 1);
    assert Above(t, cmp, i + 2, high + 1, pivot) by {
      forall k | i + 2 <= k < high + 1 ensures cmp(t[k], pivot) > 0 {
        if k == high { assert t[k] == s[i + 1]; }
      }
    }
  }

  /** The two recursive calls of `quickSort` around a partitioned window leave
      the whole window sorted and rearranged. */
  lemma {:induction false} CombineSorted<E(!new)>(orig: seq<E>, parted: seq<E>, leftDone: seq<E>, done: seq<E>,
                                                  cmp: (E, E) -> int, low: int, p: int, high: int)
    requires TotalPreorder(cmp)
    requires 0 <= low <= p <= high < |orig| == |parted| == |leftDone| == |done|
    requires Partitioned(parted, orig, cmp, low, high, p)
    requires SortedBetween(leftDone, cmp, low, p)
    requires SameOutside(leftDone, parted, low, p) && Permuted(leftDone, parted, low, p)
    requires SortedBetween(done, cmp, p + 1, high + 1)
    requires SameOutside(done, leftDone, p + 1, high + 1) && Permuted(done, leftDone, p + 1, high + 1)
    ensures SortedBetween(done, cmp, low, high + 1)
    ensures SameOutside(done, orig, low, high + 1) && Permuted(done, orig, low, high + 1)
  {
    CombineParts(orig, parted, leftDone, done, cmp, low, p, high);
    SortedAroundPivot(done, cmp, low, p, high + 1);
  }

  /** Every window inside a window in order is in order. */
  lemma SortedShrink<E>(s: seq<E>, cmp: (E, E) -> int, lo: int, hi: int, lo': int, hi': int)
    requires 0 <= lo <= lo' <= hi' <= hi <= |s|
    requires SortedBetween(s, cmp, lo, hi)
    ensures SortedBetween(s, cmp, lo', hi')
  {
  }

  /** The order-free half of CombineSorted: after both recursive calls the
      pivot is still in place, each side is still sorted and still on its
      side of the pivot, and the window is a rearrangement of the original. */
  lemma CombineParts<E>(orig: seq<E>, parted: seq<E>, leftDone: seq<E>, done: seq<E>,
                        cmp: (E, E) -> int, low: int, p: int, high: int)
    requires 0 <= low <= p <= high < |orig| == |parted| == |leftDone| == |done|
    requires Partitioned(parted, orig, cmp, low, high, p)
    requires SortedBetween(leftDone, cmp, low, p)
    requires SameOutside(leftDone, parted, low, p) && Permuted(leftDone, parted, low, p)
    requires SameOutside(done, leftDone, p + 1, high + 1) && Permuted(done, leftDone, p + 1, high + 1)
    ensures done[p] == parted[p] && SortedBetween(done, cmp, low, p)
    ensures AtMost(done, cmp, low, p, done[p]) && Above(done, cmp, p + 1, high + 1, done[p])
    ensures SameOutside(done, orig, low, high + 1) && Permuted(done, orig, low, high + 1)
  {
    LeftSideKept(parted, leftDone, done, cmp, low, p, high);
    RightSideKept(parted, leftDone, done, cmp, low, p, high);
    PermutedWiden(leftDone, parted, low, p, low, high + 1);
    PermutedWiden(done, leftDone, p + 1, high + 1, low, high + 1);
  }

  /** Sorting the left window keeps it below the pivot, and sorting the right
      window does not touch it. */
  lemma LeftSideKept<E>(parted: seq<E>, leftDone: seq<E>, done: seq<E>,
                        cmp: (E, E) -> int, low: int, p: int, high: int)
    requires 0 <= low <= p <= high < |parted| == |leftDone| == |done|
    requires AtMost(parted, cmp, low, p, parted[p])
    requires SortedBetween(leftDone, cmp, low, p)
    requires SameOutside(leftDone, parted, low, p) && Permuted(leftDone, parted, low, p)
    requires SameOutside(done, leftDone, p + 1, high + 1)
    ensures done[p] == parted[p] && SortedBetween(done, cmp, low, p)
    ensures AtMost(done, cmp, low, p, parted[p])
  {
    forall k | low <= k <= p ensures done[k] == leftDone[k] { }
    AtMostPermuted(leftDone, parted, cmp, low, p, parted[p]);
  }

  /** Sorting the right window keeps it above the pivot; sorting the left
      window before it did not touch it. */
  lemma RightSideKept<E>(parted: seq<E>, leftDone: seq<E>, done: seq<E>,
                         cmp: (E, E) -> int, low: int, p: int, high: int)
    requires 0 <= low <= p <= high < |parted| == |leftDone| == |done|
    requires Above(parted, cmp, p + 1, high + 1, parted[p])
    requires SameOutside(leftDone, parted, low, p)
    requires Permuted(done, leftDone, p + 1, high + 1)
    ensures Above(done, cmp, p + 1, high + 1, parted[p])
  {
    assert Permuted(done, parted, p + 1, high + 1) by {
      assert leftDone[p + 1..high + 1] == parted[p + 1..high + 1];
    }
    AbovePermuted(done, parted, cmp, p + 1, high + 1, parted[p]);
  }

  /** `swap`: exchanges two live slots, reading each through the checked `get`,
      whose index check therefore never fails. */
  method Swap<T>(list: MyArrayList<T>, i: int, j: int)
    requires list.Valid()
    requires 0 <= i < list.size && 0 <= j < list.size
    modifies list.elements
    ensures list.elements[..] == old(list.elements[..])[i := old(list.elements[..])[j]][j := old(list.elements[..])[i]]
  {
    var temp := list.Get(i);
    var other := list.Get(j);
    list.SetInternal(i, other.value);
    list.SetInternal(j, temp.value);
  }

  /** The scan loop of `partition`: every slot of the window before the pivot
      that comes no later than the pivot is swapped to just past the
      boundary `i`, which starts at `low - 1`. When `inOrder` says that no
      slot before the pivot compares greater than it, every slot is taken
      and swapped with itself, so nothing moves. */
  method PartitionScan<T>(list: MyArrayList<T>, cmp: (Option<T>, Option<T>) -> int,
                          low: int, high: int, pivot: Option<T>, ghost inOrder: bool)
    returns (i: int)
    requires list.Valid()
    requires 0 <= low <= high < list.size && list.elements[high] == pivot
    requires inOrder ==> AtMost(list.elements[..], cmp, low, high, pivot)
    modifies list.elements
    ensures low - 1 <= i < high
    ensures ScanInvariant(list.elements[..], old(list.elements[..]), cmp, low, high, i, high, pivot)
    ensures inOrder ==> i == high - 1 && list.elements[..] == old(list.elements[..])
  {
    ghost var orig := list.elements[..];
    i := low - 1;
    for j := low to high
      invariant low - 1 <= i < j
      invariant ScanInvariant(list.elements[..], orig, cmp, low, high, i, j, pivot)
      invariant inOrder ==> i == j - 1 && list.elements[..] == orig
    {
      ghost var s := list.elements[..];
      var current := list.Get(j);
      assert current.value == s[j];
      if cmp(current.value, pivot) <= 0 {
        i := i + 1;
        Swap(list, i, j);
        ScanTake(s, list.elements[..], orig, cmp, low, high, i - 1, j, pivot);
      } else {
        ScanSkip(s, orig, cmp, low, high, i, j, pivot);
      }
    }
  }

  /** `partition`: the last slot of the window is the pivot; it ends at the
      returned index with everything before it (within the window) no later
      than it and everything after it greater. A caller that knows the window
      is already in order says so with `inOrder`: then every swap exchanges a
      slot with itself, so nothing moves and the pivot stays last. */
  method Partition<T>(list: MyArrayList<T>, cmp: (Option<T>, Option<T>) -> int, low: int, high: int,
                      ghost inOrder: bool)
    returns (p: int)
    requires list.Valid()
    requires 0 <= low <= high < list.size
    requires inOrder ==> SortedBetween(list.elements[..], cmp, low, high + 1)
    modifies list.elements
    ensures low <= p <= high
    ensures Partitioned(list.elements[..], old(list.elements[..]), cmp, low, high, p)
    ensures inOrder ==> p == high && list.elements[..] == old(list.elements[..])
  {
    ghost var orig := list.elements[..];
    var pivotRead := list.Get(high);
    var pivot := pivotRead.value;
    if inOrder {
      SortedBelowLast(orig, cmp, low, high);
    }
    var i := PartitionScan(list, cmp, low, high, pivot, inOrder);
    ghost var s := list.elements[..];
    Swap(list, i + 1, high);
    p := i + 1;
    ScanFinish(s, list.elements[..], orig, cmp, low, high, i, pivot);
  }

  /** `quickSort(low, high)`: sorts the window `[low, high]` in place. Java
      passes `high = low - 1` for an empty window. A caller that knows the
      window is already in order says so with `inOrder`, and then nothing
      moves. */
  method QuickSortRange<T(!new)>(list: MyArrayList<T>, cmp: (Option<T>, Option<T>) -> int, low: int, high: int,
                                 ghost inOrder: bool)
    requires list.Valid() && TotalPreorder(cmp)
    requires 0 <= low <= high + 1 <= list.size
    requires inOrder ==> SortedBetween(list.elements[..], cmp, low, high + 1)
    modifies list.elements
    ensures SortedBetween(list.elements[..], cmp, low, high + 1)
    ensures Permuted(list.elements[..], old(list.elements[..]), low, high + 1)
    ensures SameOutside(list.elements[..], old(list.elements[..]), low, high + 1)
    ensures high <= low ==> list.elements[..] == old(list.elements[..])
    ensures inOrder ==> list.elements[..] == old(list.elements[..])
    decreases high - low + 1
  {
    if low < high {
      ghost var orig := list.elements[..];
      var p := Partition(list, cmp, low, high, inOrder);
      ghost var parted := list.elements[..];
      if inOrder {
        SortedShrink(orig, cmp, low, high + 1, low, high);
      }
      QuickSortRange(list, cmp, low, p - 1, inOrder);
      ghost var leftDone := list.elements[..];
      QuickSortRange(list, cmp, p + 1, high, false);
      CombineSorted(orig, parted, leftDone, list.elements[..], cmp, low, p, high);
    }
  }

  /** `sort`: sorts the live elements in place; it only ever exchanges slots,
      so the elements are a rearrangement of the old ones, and slots past
      `size` are not touched. */
  method Sort<T(!new)>(list: MyArrayList<T>, cmp: (Option<T>, Option<T>) -> int)
    requires list.Valid() && TotalPreorder(cmp)
    modifies list.elements
    ensures Sorted(list.Contents(), cmp) && AdjacentSorted(list.Contents(), cmp)
    ensures multiset(list.Contents()) == multiset(old(list.Contents()))
    ensures forall k :: list.size <= k < list.Capacity() ==> list.elements[k] == old(list.elements[k])
    ensures list.size <= 1 ==> list.elements[..] == old(list.elements[..])
    ensures Sorted(old(list.Contents()), cmp) ==> list.elements[..] == old(list.elements[..])
  {
    ghost var before := list.elements[..];
    ghost var inOrder := Sorted(list.Contents(), cmp);
    if inOrder {
      forall i, j | 0 <= i < j < list.size ensures cmp(before[i], before[j]) <= 0 {
        assert before[i] == list.Contents()[i] && before[j] == list.Contents()[j];
      }
    }
    QuickSortRange(list, cmp, 0, list.size - 1, inOrder);
    ghost var live := list.Contents();
    assert live == list.elements[..][0..list.size];
    assert old(list.Contents()) == old(list.elements[..])[0..list.size];
    forall i, j | 0 <= i < j < |live| ensures cmp(live[i], live[j]) <= 0 {
      assert live[i] == list.elements[i] && live[j] == list.elements[j];
    }
    SortedIffAdjacent(live, cmp);
  }
}
