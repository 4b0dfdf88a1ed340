/** The merge sort of `ConcurrentSort`, run sequentially. The two halves
    are sorted on disjoint index ranges and both are joined before the
    merge, so sorting them one after the other computes the same array.
    The array is a sequence value that every step returns updated, and
    `compareTo` is modelled by an integer key: `a.compareTo(b) < 0` holds
    exactly when `key(a) < key(b)`. */
module MergeSort {

  /** Ascending by key. */
  predicate Sorted<T>(s: seq<T>, key: T -> int) {
    forall i, j :: 0 <= i < j < |s| ==> key(s[i]) <= key(s[j])
  }

  /** Java's `a / 2` on `int`, which truncates towards zero. */
  function JavaHalf(a: int): int {
    if a >= 0 then a / 2 else -((-a) / 2)
  }

  /** `(right - left) / 2 + left`: in a range of two cells or more it lies
      in [left, right), so both halves are strictly smaller. */
  function Mid(left: int, right: int): (mid: int)
    ensures left < right ==> left <= mid < right
  {
    JavaHalf(right - left) + left
  }

  /** The merge loops on two sequences: the left element is taken when its
      key is strictly smaller, otherwise the right one, and the remainder
      of whichever side is left over follows. */
  function Merge<T>(a: seq<T>, b: seq<T>, key: T -> int): (r: seq<T>)
    ensures |r| == |a| + |b|
    decreases |a| + |b|
  {
    if a == [] then b
    else if b == [] then a
    else if key(a[0]) < key(b[0]) then [a[0]] + Merge(a[1..], b, key)
    else [b[0]] + Merge(a, b[1..], key)
  }

  /** A non-empty sequence holds its first element and its tail. */
  lemma ConsMultiset<T>(a: seq<T>)
    requires a != []
    ensures multiset(a) == multiset([a[0]]) + multiset(a[1..])
  {
    assert a == [a[0]] + a[1..];
  }

  /** Merging loses and invents nothing: the result is a permutation of the
      two inputs together. */
  lemma {:induction false} MergePermutation<T>(a: seq<T>, b: seq<T>, key: T -> int)
    ensures multiset(Merge(a, b, key)) == multiset(a) + multiset(b)
    decreases |a| + |b|
  {
    if a != [] && b != [] {
      if key(a[0]) < key(b[0]) {
        MergePermutation(a[1..], b, key);
        ConsMultiset(a);
      } else {
        MergePermutation(a, b[1..], key);
        ConsMultiset(b);
      }
    }
  }

  /** No element of `s` has a smaller key than `x`. */
  predicate Below<T>(x: T, s: seq<T>, key: T -> int) {
    forall k :: 0 <= k < |s| ==> key(x) <= key(s[k])
  }

  /** A sorted sequence stays sorted behind an element no larger than any
      of its own. */
  lemma SortedCons<T>(x: T, s: seq<T>, key: T -> int)
    requires Sorted(s, key) && Below(x, s, key)
    ensures Sorted([x] + s, key)
  {
    var t := [x] + s;
    forall i, j | 0 <= i < j < |t|
      ensures key(t[i]) <= key(t[j])
    {
      assert t[j] == s[j - 1];
      if i > 0 {
        assert t[i] == s[i - 1];
      }
    }
  }

  /** The first element of a sorted sequence is below the rest of it, and
      so is anything whose key does not exceed that first element's. */
  lemma FirstIsLeast<T>(s: seq<T>, x: T, key: T -> int)
    requires Sorted(s, key) && s != [] && key(x) <= key(s[0])
    ensures Below(x, s, key) && Below(s[0], s[1..], key)
  {
    assert forall k :: 0 <= k < |s| - 1 ==> s[1..][k] == s[k + 1];
  }

  /** A bound on both inputs of a merge bounds its result. */
  lemma {:induction false} MergeBelow<T>(x: T, a: seq<T>, b: seq<T>, key: T -> int)
    requires Below(x, a, key) && Below(x, b, key)
    ensures Below(x, Merge(a, b, key), key)
    decreases |a| + |b|
  {
    if a != [] && b != [] {
      if key(a[0]) < key(b[0]) {
        assert Below(x, a[1..], key) by {
          assert forall k :: 0 <= k < |a| - 1 ==> a[1..][k] == a[k + 1];
        }
        MergeBelow(x, a[1..], b, key);
        assert Merge(a, b, key) == [a[0]] + Merge(a[1..], b, key);
      } else {
        assert Below(x, b[1..], key) by {
          assert forall k :: 0 <= k < |b| - 1 ==> b[1..][k] == b[k + 1];
        }
        MergeBelow(x, a, b[1..], key);
        assert Merge(a, b, key) == [b[0]] + Merge(a, b[1..], key);
      }
    }
  }

  /** Merging two sorted sequences gives a sorted sequence. */
  lemma {:induction false} MergeSorted<T>(a: seq<T>, b: seq<T>, key: T -> int)
    requires Sorted(a, key) && Sorted(b, key)
    ensures Sorted(Merge(a, b, key), key)
    decreases |a| + |b|
  {
    if a != [] && b != [] {
      if key(a[0]) < key(b[0]) {
        SortedTail(a, key);
        MergeSorted(a[1..], b, key);
        FirstIsLeast(a, a[0], key);
        FirstIsLeast(b, a[0], key);
        MergeBelow(a[0], a[1..], b, key);
        SortedCons(a[0], Merge(a[1..], b, key), key);
      } else {
        SortedTail(b, key);
        MergeSorted(a, b[1..], key);
        FirstIsLeast(a, b[0], key);
        FirstIsLeast(b, b[0], key);
        MergeBelow(b[0], a, b[1..], key);
        SortedCons(b[0], Merge(a, b[1..], key), key);
      }
    }
  }

  /** The tail of a sorted sequence is sorted. */
  lemma SortedTail<T>(s: seq<T>, key: T -> int)
    requires Sorted(s, key) && s != []
    ensures Sorted(s[1..], key)
  {
    assert forall k :: 0 <= k < |s| - 1 ==> s[1..][k] == s[k + 1];
  }

  /** On a tie the element of the right half goes first; only a strictly
      smaller key lets the left element through. */
  lemma MergeTakesRightOnTie<T>(a: seq<T>, b: seq<T>, key: T -> int)
    requires a != [] && b != []
    ensures Merge(a, b, key)[0] == if key(a[0]) < key(b[0]) then a[0] else b[0]
    ensures key(a[0]) == key(b[0]) ==> Merge(a, b, key)[0] == b[0]
  {
  }

  /** What `run` computes for the cells [left, right] of `s`: a range of
      fewer than two cells as it is, otherwise the merge of its two halves
      [left, mid] and [mid + 1, right], each sorted the same way. */
  function SortRange<T>(s: seq<T>, left: int, right: int, key: T -> int): (r: seq<T>)
    requires 0 <= left <= right + 1 <= |s|
    ensures |r| == right + 1 - left
    decreases right - left
  {
    if left >= right then s[left..right + 1]
    else
      var mid := Mid(left, right);
      Merge(SortRange(s, left, mid, key), SortRange(s, mid + 1, right, key), key)
  }

  /** `concurrentSort`'s result as a function of the input: `run` on
      [0, length - 1]. */
  function MergeSort<T>(s: seq<T>, key: T -> int): (r: seq<T>)
    ensures |r| == |s|
  {
    SortRange(s, 0, |s| - 1, key)
  }

  /** A range of two cells or more is the merge of its sorted halves. */
  lemma SortRangeSplits<T>(s: seq<T>, left: int, mid: int, right: int, key: T -> int)
    requires 0 <= left < right < |s| && mid == Mid(left, right)
    ensures SortRange(s, left, right, key) == Merge(SortRange(s, left, mid, key), SortRange(s, mid + 1, right, key), key)
  {
  }

  /** A range of one cell is that cell. */
  lemma SortRangeSingle<T>(s: seq<T>, i: int, key: T -> int)
    requires 0 <= i < |s|
    ensures SortRange(s, i, i, key) == [s[i]]
  {
  }

  /** `SortRange` reads only the cells in its range. */
  lemma {:induction false} SortRangeLocal<T>(s: seq<T>, t: seq<T>, left: int, right: int, key: T -> int)
    requires 0 <= left <= right + 1 <= |s| && right < |t|
    requires forall p :: left <= p <= right ==> s[p] == t[p]
    ensures SortRange(s, left, right, key) == SortRange(t, left, right, key)
    decreases right - left
  {
    if left >= right {
      ShortRange(s, left, right, key);
      ShortRange(t, left, right, key);
      assert s[left..right + 1] == t[left..right + 1];
    } else {
      var mid := Mid(left, right);
      SortRangeLocal(s, t, left, mid, key);
      SortRangeLocal(s, t, mid + 1, right, key);
      HalvesLocal(s, t, left, mid, right, key);
    }
  }

  /** A range of at most one cell is already sorted. */
  lemma ShortRange<T>(s: seq<T>, left: int, right: int, key: T -> int)
    requires 0 <= left <= right + 1 <= |s| && left >= right
    ensures SortRange(s, left, right, key) == s[left..right + 1]
  {
  }

  /** Halves that sort alike merge alike. */
  lemma HalvesLocal<T>(s: seq<T>, t: seq<T>, left: int, mid: int, right: int, key: T -> int)
    requires 0 <= left < right < |s| && right < |t| && mid == Mid(left, right)
    requires SortRange(s, left, mid, key) == SortRange(t, left, mid, key)
    requires SortRange(s, mid + 1, right, key) == SortRange(t, mid + 1, right, key)
    ensures SortRange(s, left, right, key) == SortRange(t, left, right, key)
  {
    SortRangeSplits(s, left, mid, right, key);
    SortRangeSplits(t, left, mid, right, key);
  }

  /** The result of `SortRange` is ascending. */
  lemma {:induction false} SortRangeSorted<T>(s: seq<T>, left: int, right: int, key: T -> int)
    requires 0 <= left <= right + 1 <= |s|
    ensures Sorted(SortRange(s, left, right, key), key)
    decreases right - left
  {
    if left < right {
      var mid := Mid(left, right);
      SortRangeSorted(s, left, mid, key);
      SortRangeSorted(s, mid + 1, right, key);
      HalvesSorted(s, left, mid, right, key);
    }
  }

  /** Merging two ascending halves gives an ascending range. */
  lemma HalvesSorted<T>(s: seq<T>, left: int, mid: int, right: int, key: T -> int)
    requires 0 <= left < right < |s| && mid == Mid(left, right)
    requires Sorted(SortRange(s, left, mid, key), key)
    requires Sorted(SortRange(s, mid + 1, right, key), key)
    ensures Sorted(SortRange(s, left, right, key), key)
  {
    SortRangeSplits(s, left, mid, right, key);
    MergeSorted(SortRange(s, left, mid, key), SortRange(s, mid + 1, right, key), key);
  }

  /** The result of `SortRange` is a permutation of the cells in its range. */
  lemma {:induction false} SortRangePermutation<T>(s: seq<T>, left: int, right: int, key: T -> int)
    requires 0 <= left <= right + 1 <= |s|
    ensures multiset(SortRange(s, left, right, key)) == multiset(s[left..right + 1])
    decreases right - left
  {
    if left < right {
      var mid := Mid(left, right);
      SortRangePermutation(s, left, mid, key);
      SortRangePermutation(s, mid + 1, right, key);
      HalvesPermutation(s, left, mid, right, key);
    }
  }

  /** Merging two permuted halves gives a permutation of the whole range. */
  lemma HalvesPermutation<T>(s: seq<T>, left: int, mid: int, right: int, key: T -> int)
    requires 0 <= left < right < |s| && mid == Mid(left, right)
    requires multiset(SortRange(s, left, mid, key)) == multiset(s[left..mid + 1])
    requires multiset(SortRange(s, mid + 1, right, key)) == multiset(s[mid + 1..right + 1])
    ensures multiset(SortRange(s, left, right, key)) == multiset(s[left..right + 1])
  {
    SortRangeSplits(s, left, mid, right, key);
    MergePermutation(SortRange(s, left, mid, key), SortRange(s, mid + 1, right, key), key);
    SplitMultiset(s, left, mid, right);
  }

  /** The cells [left, right] hold what [left, mid] and [mid + 1, right] hold. */
  lemma SplitMultiset<T>(s: seq<T>, left: int, mid: int, right: int)
    requires 0 <= left <= mid <= right < |s|
    ensures multiset(s[left..right + 1]) == multiset(s[left..mid + 1]) + multiset(s[mid + 1..right + 1])
  {
    assert s[left..right + 1] == s[left..mid + 1] + s[mid + 1..right + 1];
  }

  /** `MergeSort` returns an ascending permutation of its input. */
  lemma MergeSortSorts<T>(s: seq<T>, key: T -> int)
    ensures Sorted(MergeSort(s, key), key)
    ensures multiset(MergeSort(s, key)) == multiset(s)
  {
    SortRangeSorted(s, 0, |s| - 1, key);
    SortRangePermutation(s, 0, |s| - 1, key);
    assert s[0..|s|] == s;
  }

  /** Sorting is unstable: two elements with the same key come out in the
      opposite order. */
  lemma TiesSwap<T>(x: T, y: T, key: T -> int)
    requires key(x) == key(y)
    ensures MergeSort([x, y], key) == [y, x]
  {
    var s := [x, y];
    assert Mid(0, 1) == 0;
    assert SortRange(s, 0, 0, key) == [x];
    assert SortRange(s, 1, 1, key) == [y];
    assert SortRange(s, 0, 1, key) == Merge([x], [y], key);
    assert Merge([x], [y], key) == [y] + Merge([x], [], key);
  }

  /** One step of the merge loops on index ranges [i, mid] and [j, right]:
      the left element is taken while the right range is used up or its
      key is strictly smaller, otherwise the right element. */
  lemma MergeStepAt<T>(s: seq<T>, i: int, mid: int, j: int, right: int, key: T -> int)
    requires 0 <= i <= mid + 1 <= j <= right + 1 <= |s| && (i <= mid || j <= right)
    ensures var takeLeft := j > right || (i <= mid && key(s[i]) < key(s[j]));
            Merge(s[i..mid + 1], s[j..right + 1], key) ==
              if takeLeft then [s[i]] + Merge(s[i + 1..mid + 1], s[j..right + 1], key)
              else [s[j]] + Merge(s[i..mid + 1], s[j + 1..right + 1], key)
  {
    if i <= mid {
      assert s[i..mid + 1] == [s[i]] + s[i + 1..mid + 1];
    }
    if j <= right {
      assert s[j..right + 1] == [s[j]] + s[j + 1..right + 1];
    }
  }

  /** Sequences that agree at every index of [i, j) have equal slices there. */
  lemma SliceAgree<T>(a: seq<T>, b: seq<T>, i: int, j: int)
    requires 0 <= i <= j <= |a| == |b|
    requires forall p :: i <= p < j ==> a[p] == b[p]
    ensures a[i..j] == b[i..j]
  {
  }

  /** A run of cells that holds `m` element by element is a slice equal to `m`. */
  lemma SliceIs<T>(a: seq<T>, i: int, m: seq<T>)
    requires 0 <= i && i + |m| <= |a|
    requires forall p :: 0 <= p < |m| ==> a[i + p] == m[p]
    ensures a[i..i + |m|] == m
  {
  }

  /** The first element of a suffix, and the suffix after it. */
  lemma DropCons<T>(m: seq<T>, a: int, x: T, rest: seq<T>)
    requires 0 <= a <= |m| && m[a..] == [x] + rest
    ensures a < |m| && m[a] == x && m[a + 1..] == rest
  {
    assert m[a..][0] == x;
    assert m[a..][1..] == m[a + 1..];
  }

  /** What the merge loops have done once `i` and `j` reached these
      positions: the cells [left, k) of `result` hold the first `k - left`
      elements of the merge, and what is still to be merged is the rest. */
  ghost predicate Merging<T>(s: seq<T>, left: int, mid: int, right: int, key: T -> int,
                             result: seq<T>, i: int, j: int)
    requires 0 <= left <= mid < right < |s|
  {
    && left <= i <= mid + 1 <= j <= right + 1 && |result| == |s|
    && (forall p :: left <= p < i + j - mid - 1 ==>
          result[p] == Merge(s[left..mid + 1], s[mid + 1..right + 1], key)[p - left])
    && Merge(s[left..mid + 1], s[mid + 1..right + 1], key)[i + j - mid - 1 - left..]
         == Merge(s[i..mid + 1], s[j..right + 1], key)
  }

  /** Before the first loop nothing is written and everything is still to
      be merged. */
  lemma MergingStart<T>(s: seq<T>, left: int, mid: int, right: int, key: T -> int)
    requires 0 <= left <= mid < right < |s|
    ensures Merging(s, left, mid, right, key, s, left, mid + 1)
  {
    var merged := Merge(s[left..mid + 1], s[mid + 1..right + 1], key);
    assert merged[0..] == merged;
  }

  /** Writing the left element at `k` advances `i`. */
  lemma TakeLeft<T>(s: seq<T>, left: int, mid: int, right: int, key: T -> int, result: seq<T>, i: int, j: int, k: int)
    requires 0 <= left <= mid < right < |s|
    requires Merging(s, left, mid, right, key, result, i, j) && k == i + j - mid - 1
    requires i <= mid && (j > right || key(s[i]) < key(s[j]))
    ensures Merging(s, left, mid, right, key, result[k := s[i]], i + 1, j)
  {
    var merged := Merge(s[left..mid + 1], s[mid + 1..right + 1], key);
    var n := i + j - mid - 1 - left;
    MergeStepAt(s, i, mid, j, right, key);
    DropCons(merged, n, s[i], Merge(s[i + 1..mid + 1], s[j..right + 1], key));
    var written := result[k := s[i]];
    forall p | left <= p < left + n + 1
      ensures written[p] == merged[p - left]
    {
    }
    assert Merging(s, left, mid, right, key, written, i + 1, j);
  }

  /** Writing the right element at `k` advances `j`. */
  lemma TakeRight<T>(s: seq<T>, left: int, mid: int, right: int, key: T -> int, result: seq<T>, i: int, j: int, k: int)
    requires 0 <= left <= mid < right < |s|
    requires Merging(s, left, mid, right, key, result, i, j) && k == i + j - mid - 1
    requires j <= right && (i > mid || key(s[i]) >= key(s[j]))
    ensures Merging(s, left, mid, right, key, result[k := s[j]], i, j + 1)
  {
    var merged := Merge(s[left..mid + 1], s[mid + 1..right + 1], key);
    var n := i + j - mid - 1 - left;
    MergeStepAt(s, i, mid, j, right, key);
    DropCons(merged, n, s[j], Merge(s[i..mid + 1], s[j + 1..right + 1], key));
    var written := result[k := s[j]];
    forall p | left <= p < left + n + 1
      ensures written[p] == merged[p - left]
    {
    }
    assert Merging(s, left, mid, right, key, written, i, j + 1);
  }

  /** The first loop of `merge(mid)`: while both ranges have elements, the
      left one is written when its key is strictly smaller, else the right. */
  method MergeHeads<T>(s: seq<T>, left: int, mid: int, right: int, key: T -> int) returns (result: seq<T>, i: int, j: int)
    requires 0 <= left <= mid < right < |s|
    ensures Merging(s, left, mid, right, key, result, i, j) && (i == mid + 1 || j == right + 1)
  {
    result := s;
    i, j := left, mid + 1;
    var k := left;
    MergingStart(s, left, mid, right, key);
    while i <= mid && j <= right
      invariant Merging(s, left, mid, right, key, result, i, j)
      invariant k == i + j - mid - 1
      decreases right + mid - i - j
    {
      result, i, j := CompareHeads(s, left, mid, right, key, result, i, j);
      k := k + 1;
    }
  }

  /** One iteration of the first loop: the left head is written at `k`
      when its key is strictly smaller, else the right head. */
  method CompareHeads<T>(s: seq<T>, left: int, mid: int, right: int, key: T -> int, result0: seq<T>, i0: int, j0: int)
      returns (result: seq<T>, i: int, j: int)
    requires 0 <= left <= mid < right < |s|
    requires Merging(s, left, mid, right, key, result0, i0, j0) && i0 <= mid && j0 <= right
    ensures Merging(s, left, mid, right, key, result, i, j) && i + j == i0 + j0 + 1
  {
    var k := i0 + j0 - mid - 1;
    TakeHead(s, left, mid, right, key, result0, i0, j0, k);
    if key(s[i0]) < key(s[j0]) {
      result, i, j := result0[k := s[i0]], i0 + 1, j0;
    } else {
      result, i, j := result0[k := s[j0]], i0, j0 + 1;
    }
  }

  /** Both cases of the first loop's comparison. */
  lemma TakeHead<T>(s: seq<T>, left: int, mid: int, right: int, key: T -> int, result: seq<T>, i: int, j: int, k: int)
    requires 0 <= left <= mid < right < |s|
    requires Merging(s, left, mid, right, key, result, i, j) && k == i + j - mid - 1 && i <= mid && j <= right
    ensures key(s[i]) < key(s[j]) ==> Merging(s, left, mid, right, key, result[k := s[i]], i + 1, j)
    ensures key(s[i]) >= key(s[j]) ==> Merging(s, left, mid, right, key, result[k := s[j]], i, j + 1)
  {
    if key(s[i]) < key(s[j]) {
      TakeLeft(s, left, mid, right, key, result, i, j, k);
    } else {
      TakeRight(s, left, mid, right, key, result, i, j, k);
    }
  }

  /** The second loop: the rest of [left, mid], once [mid + 1, right] is
      used up. */
  method DrainLeft<T>(s: seq<T>, left: int, mid: int, right: int, key: T -> int, result0: seq<T>, i0: int, j: int)
      returns (result: seq<T>, i: int)
    requires 0 <= left <= mid < right < |s|
    requires Merging(s, left, mid, right, key, result0, i0, j) && (i0 == mid + 1 || j == right + 1)
    ensures Merging(s, left, mid, right, key, result, i, j) && i == mid + 1
  {
    result, i := result0, i0;
    var k := i + j - mid - 1;
    while i <= mid
      invariant Merging(s, left, mid, right, key, result, i, j)
      invariant i <= mid ==> j == right + 1
      invariant k == i + j - mid - 1
    {
      TakeLeft(s, left, mid, right, key, result, i, j, k);
      result := result[k := s[i]];
      i, k := i + 1, k + 1;
    }
  }

  /** The third loop: the rest of [mid + 1, right]. */
  method DrainRight<T>(s: seq<T>, left: int, mid: int, right: int, key: T -> int, result0: seq<T>, j0: int)
      returns (result: seq<T>, j: int)
    requires 0 <= left <= mid < right < |s|
    requires Merging(s, left, mid, right, key, result0, mid + 1, j0)
    ensures Merging(s, left, mid, right, key, result, mid + 1, j) && j == right + 1
  {
    result, j := result0, j0;
    var i := mid + 1;
    var k := i + j - mid - 1;
    while j <= right
      invariant Merging(s, left, mid, right, key, result, i, j) && i == mid + 1
      invariant k == i + j - mid - 1
    {
      TakeRight(s, left, mid, right, key, result, i, j, k);
      result := result[k := s[j]];
      j, k := j + 1, k + 1;
    }
  }

  /** The three loops of `merge(mid)`: [left, mid] and [mid + 1, right] of
      `s` merged into a copy of `s` from index `left` on. */
  method MergeLoops<T>(s: seq<T>, left: int, mid: int, right: int, key: T -> int) returns (result: seq<T>)
    requires 0 <= left <= mid < right < |s|
    ensures |result| == |s|
    ensures var merged := Merge(s[left..mid + 1], s[mid + 1..right + 1], key);
            forall p :: left <= p <= right ==> result[p] == merged[p - left]
  {
    var i, j;
    result, i, j := MergeHeads(s, left, mid, right, key);
    result, i := DrainLeft(s, left, mid, right, key, result, i, j);
    result, j := DrainRight(s, left, mid, right, key, result, j);
  }

  /** `merge(mid)`: the merge loops into a copy of the array, then [left,
      right] copied back from `right` down. Only [left, right] changes. */
  method MergeRange<T>(s: seq<T>, left: int, mid: int, right: int, key: T -> int) returns (r: seq<T>)
    requires 0 <= left <= mid < right < |s|
    ensures |r| == |s|
    ensures forall p :: 0 <= p < |s| && !(left <= p <= right) ==> r[p] == s[p]
    ensures r[left..right + 1] == Merge(s[left..mid + 1], s[mid + 1..right + 1], key)
  {
    ghost var merged := Merge(s[left..mid + 1], s[mid + 1..right + 1], key);
    var result := MergeLoops(s, left, mid, right, key);
    r := s;
    var k := right;
    while k >= left
      invariant left - 1 <= k <= right
      invariant |r| == |s|
      invariant forall p :: 0 <= p < |s| && !(k < p <= right) ==> r[p] == s[p]
      invariant forall p :: k < p <= right ==> r[p] == merged[p - left]
    {
      r := r[k := result[k]];
      k := k - 1;
    }
    SliceIs(r, left, merged);
  }

  /** `run` on [left, right]: a range of fewer than two cells is left as it
      is; otherwise both halves are sorted and then merged. The range ends
      up as `SortRange` of what it held, and cells outside it never change. */
  method Run<T>(s: seq<T>, left: int, right: int, key: T -> int) returns (r: seq<T>)
    requires 0 <= left && right < |s|
    ensures |r| == |s|
    ensures forall p :: 0 <= p < |s| && !(left <= p <= right) ==> r[p] == s[p]
    ensures left <= right + 1 ==> r[left..right + 1] == SortRange(s, left, right, key)
    decreases right - left, 1
  {
    if left < right {
      r := SortHalves(s, left, right, key);
    } else {
      r := s;
    }
  }

  /** The body of `run` once `left < right`: the two halves split at
      `(right - left) / 2 + left`, each sorted by its own `run`, then
      `merge(mid)`. */
  method SortHalves<T>(s: seq<T>, left: int, right: int, key: T -> int) returns (r: seq<T>)
    requires 0 <= left < right < |s|
    ensures |r| == |s|
    ensures forall p :: 0 <= p < |s| && !(left <= p <= right) ==> r[p] == s[p]
    ensures r[left..right + 1] == SortRange(s, left, right, key)
    decreases right - left, 0
  {
    var mid := Mid(left, right);
    var sorted := Run(s, left, mid, key);
    var both := Run(sorted, mid + 1, right, key);
    r := MergeRange(both, left, mid, right, key);
    RunsCompose(s, sorted, both, left, mid, right, key);
    FramesCompose(s, sorted, both, r, left, mid, right);
  }

  /** Cells outside [left, right] are left alone by both runs and by the
      merge, so by the whole of `run`. */
  lemma FramesCompose<T>(s: seq<T>, sorted: seq<T>, both: seq<T>, r: seq<T>, left: int, mid: int, right: int)
    requires 0 <= left <= mid < right < |s| == |sorted| == |both| == |r|
    requires forall p :: 0 <= p < |s| && !(left <= p <= mid) ==> sorted[p] == s[p]
    requires forall p :: 0 <= p < |s| && !(mid + 1 <= p <= right) ==> both[p] == sorted[p]
    requires forall p :: 0 <= p < |s| && !(left <= p <= right) ==> r[p] == both[p]
    ensures forall p :: 0 <= p < |s| && !(left <= p <= right) ==> r[p] == s[p]
  {
  }

  /** The two recursive runs, one after the other, leave each half of the
      range sorted as `SortRange` sorts it, so merging them gives
      `SortRange` of the whole range. */
  lemma RunsCompose<T>(s: seq<T>, sorted: seq<T>, both: seq<T>, left: int, mid: int, right: int, key: T -> int)
    requires 0 <= left <= mid < right < |s| && mid == Mid(left, right)
    requires |sorted| == |s| && |both| == |s|
    requires sorted[left..mid + 1] == SortRange(s, left, mid, key)
    requires forall p :: 0 <= p < |s| && !(left <= p <= mid) ==> sorted[p] == s[p]
    requires both[mid + 1..right + 1] == SortRange(sorted, mid + 1, right, key)
    requires forall p :: 0 <= p < |s| && !(mid + 1 <= p <= right) ==> both[p] == sorted[p]
    ensures Merge(both[left..mid + 1], both[mid + 1..right + 1], key) == SortRange(s, left, right, key)
  {
    SliceAgree(both, sorted, left, mid + 1);
    SortRangeLocal(sorted, s, mid + 1, right, key);
    SortRangeSplits(s, left, mid, right, key);
  }

  /** `concurrentSort`: `run` on the whole array, [0, length - 1], which is
      [0, -1] for the empty array. The result is the array sorted
      ascending, a permutation of the input. */
  method ConcurrentSort<T>(s: seq<T>, key: T -> int) returns (r: seq<T>)
    ensures r == MergeSort(s, key)
    ensures Sorted(r, key) && multiset(r) == multiset(s)
  {
    r := Run(s, 0, |s| - 1, key);
    MergeSortSorts(s, key);
    assert r[0..|s|] == r;
  }
}
