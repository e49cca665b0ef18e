/** The C library's qsort: Hoare partition, recursion on the left part and a loop for the right. */
module QSort {

  ghost predicate AtMost<T>(cmp: (T, T) -> int, x: T, y: T) {
    cmp(x, y) <= 0
  }

  /** The sign conventions of a C comparison function, for a total preorder. */
  ghost predicate IsComparison<T(!new)>(cmp: (T, T) -> int) {
    && (forall x, y :: AtMost(cmp, x, y) <==> cmp(y, x) >= 0)
    && (forall x, y, z :: AtMost(cmp, x, y) && AtMost(cmp, y, z) ==> AtMost(cmp, x, z))
  }

  /** Elements lo to hi - 1 are in order. */
  ghost predicate Sorted<T(!new)>(s: seq<T>, lo: int, hi: int, cmp: (T, T) -> int)
    requires 0 <= lo <= hi <= |s|
  {
    forall i, j :: lo <= i < j < hi ==> cmp(s[i], s[j]) <= 0
  }

  /** Elements before lo and from hi on are the same in s and t, and those between are permuted. */
  ghost predicate PermutedWithin<T>(s: seq<T>, t: seq<T>, lo: int, hi: int)
    requires 0 <= lo <= hi <= |s| == |t|
  {
    s[..lo] == t[..lo] && s[hi..] == t[hi..] && multiset(s[lo..hi]) == multiset(t[lo..hi])
  }

  lemma PermutedTrans<T>(s: seq<T>, t: seq<T>, u: seq<T>, lo: int, hi: int)
    requires 0 <= lo <= hi <= |s| == |t| == |u|
    requires PermutedWithin(s, t, lo, hi) && PermutedWithin(t, u, lo, hi)
    ensures PermutedWithin(s, u, lo, hi)
  {
  }

  lemma PermutedWider<T>(s: seq<T>, t: seq<T>, lo: int, hi: int, lo': int, hi': int)
    requires 0 <= lo' <= lo <= hi <= hi' <= |s| == |t|
    requires PermutedWithin(s, t, lo, hi)
    ensures PermutedWithin(s, t, lo', hi')
  {
    assert s[..lo'] == s[..lo][..lo'] && t[..lo'] == t[..lo][..lo'];
    assert s[hi'..] == s[hi..][hi' - hi..] && t[hi'..] == t[hi..][hi' - hi..];
    assert s[lo'..hi'] == s[..lo][lo'..] + s[lo..hi] + s[hi..][..hi' - hi];
    assert t[lo'..hi'] == t[..lo][lo'..] + t[lo..hi] + t[hi..][..hi' - hi];
  }

  /** A property of all elements between lo and hi survives a permutation of them. */
  lemma PermutedAll<T>(s: seq<T>, t: seq<T>, lo: int, hi: int, p: T -> bool)
    requires 0 <= lo <= hi <= |s| == |t|
    requires PermutedWithin(s, t, lo, hi)
    requires forall k :: lo <= k < hi ==> p(s[k])
    ensures forall k :: lo <= k < hi ==> p(t[k])
  {
    forall k | lo <= k < hi
      ensures p(t[k])
    {
      assert t[k] == t[lo..hi][k - lo];
      assert t[k] in multiset(t[lo..hi]);
      assert t[k] in multiset(s[lo..hi]);
      var j :| 0 <= j < hi - lo && s[lo..hi][j] == t[k];
      assert s[lo + j] == t[k];
    }
  }

  lemma SwapPermutes<T>(s: seq<T>, i: int, j: int, lo: int, hi: int)
    requires 0 <= lo <= i < j < hi <= |s|
    ensures PermutedWithin(s, s[i := s[j]][j := s[i]], lo, hi)
  {
  }

  /** The first index from `from` on whose element is not below the pivot; one at `stop` is known. */
  method ScanUp<T(!new)>(a: array<T>, from: int, pivot: T, cmp: (T, T) -> int, ghost stop: int) returns (i: int)
    requires 0 <= from <= stop < a.Length && cmp(a[stop], pivot) >= 0
    ensures from <= i <= stop && cmp(a[i], pivot) >= 0
    ensures forall k :: from <= k < i ==> cmp(a[k], pivot) < 0
  {
    i := from;
    while cmp(a[i], pivot) < 0
      invariant from <= i <= stop
      invariant forall k :: from <= k < i ==> cmp(a[k], pivot) < 0
      decreases stop - i
    {
      i := i + 1;
    }
  }

  /** The last index up to `from` whose element is not above the pivot; one at `stop` is known. */
  method ScanDown<T(!new)>(a: array<T>, from: int, pivot: T, cmp: (T, T) -> int, ghost stop: int) returns (j: int)
    requires 0 <= stop <= from < a.Length && cmp(a[stop], pivot) <= 0
    ensures stop <= j <= from && cmp(a[j], pivot) <= 0
    ensures forall k :: j < k <= from ==> cmp(a[k], pivot) > 0
  {
    j := from;
    while cmp(a[j], pivot) > 0
      invariant stop <= j <= from
      invariant forall k :: j < k <= from ==> cmp(a[k], pivot) > 0
      decreases j - stop
    {
      j := j - 1;
    }
  }

  /** Elements b..i are not above the pivot, and elements j.. are not below it. */
  ghost predicate Split<T(!new)>(s: seq<T>, b: nat, end: int, i: int, j: int, pivot: T, cmp: (T, T) -> int)
    requires 0 <= b && i < end <= |s| && b <= j
  {
    && (forall k :: b <= k <= i ==> cmp(s[k], pivot) <= 0)
    && (forall k :: j <= k < end ==> cmp(s[k], pivot) >= 0)
  }

  method Swap<T>(a: array<T>, i: int, j: int, ghost lo: int, ghost hi: int)
    requires 0 <= lo <= i < j < hi <= a.Length
    modifies a
    ensures a[..] == old(a[..])[i := old(a[j])][j := old(a[i])]
    ensures PermutedWithin(old(a[..]), a[..], lo, hi)
  {
    SwapPermutes(a[..], i, j, lo, hi);
    a[i], a[j] := a[j], a[i];
  }

  lemma SplitSwapped<T(!new)>(s: seq<T>, b: nat, end: int, i: int, j: int, pivot: T, cmp: (T, T) -> int)
    requires b <= i < j < end <= |s| && Split(s, b, end, i - 1, j + 1, pivot, cmp)
    requires cmp(s[i], pivot) >= 0 && cmp(s[j], pivot) <= 0
    ensures Split(s[i := s[j]][j := s[i]], b, end, i, j, pivot, cmp)
  {
  }

  /** What the partition loop knows: the parts done so far, and the sentinels that stop the scans. */
  ghost predicate Progress<T(!new)>(s: seq<T>, b: nat, end: int, i: int, j: int, pivot: T, cmp: (T, T) -> int) {
    && b - 1 <= i < j <= end <= |s| && b < end
    && (if i < b then j == end && cmp(s[b], pivot) == 0 else j < end)
    && Split(s, b, end, i, j, pivot, cmp)
  }

  /** One round of the partition loop: scan inwards from both sides, then swap unless they met. */
  method Round<T(!new)>(a: array<T>, ghost b: nat, ghost end: int, i0: int, j0: int, pivot: T, cmp: (T, T) -> int)
    returns (i: int, j: int)
    requires end <= a.Length && Progress(a[..], b, end, i0, j0, pivot, cmp)
    modifies a
    ensures b <= j < j0 && i0 < i
    ensures i >= j ==> a[..] == old(a[..]) && Split(a[..], b, end, j, j + 1, pivot, cmp)
    ensures i >= j && j0 == end ==> j == b
    ensures i < j ==> Progress(a[..], b, end, i, j, pivot, cmp) && PermutedWithin(old(a[..]), a[..], b, end)
  {
    i := ScanUp(a, i0 + 1, pivot, cmp, if i0 < b then b else j0);
    j := ScanDown(a, j0 - 1, pivot, cmp, if i0 < b then b else i0);
    if i < j {
      Swap(a, i, j, b, end);
      SplitSwapped(old(a[..]), b, end, i, j, pivot, cmp);
    }
  }

  /** Partitions num elements from b around the first of them; the left part ends at part. */
  method Partition<T(!new)>(a: array<T>, b: nat, num: nat, cmp: (T, T) -> int)
    returns (part: nat, ghost pivot: T)
    requires b + num <= a.Length && num >= 2 && cmp(a[b], a[b]) == 0
    modifies a
    ensures part + 1 < num
    ensures PermutedWithin(old(a[..]), a[..], b, b + num)
    ensures Split(a[..], b, b + num, b + part, b + part + 1, pivot, cmp)
  {
    ghost var s, end := a[..], b + num;
    var p := a[b];
    pivot := p;
    var i, j: int := b - 1, b + num;
    while i < j
      invariant i < j ==> Progress(a[..], b, end, i, j, p, cmp)
      invariant i >= j ==> b <= j < end - 1 && Split(a[..], b, end, j, j + 1, p, cmp)
      invariant PermutedWithin(s, a[..], b, end)
      decreases j - i
    {
      ghost var before := a[..];
      i, j := Round(a, b, end, i, j, p, cmp);
      if i < j { PermutedTrans(s, before, a[..], b, end); }
    }
    part := j - b;
  }

  /** Elements before b are in place: in order, and not above anything after them. */
  ghost predicate InPlace<T(!new)>(s: seq<T>, b0: int, b: int, end: int, cmp: (T, T) -> int)
    requires 0 <= b0 <= end <= |s|
  {
    forall x, y :: b0 <= x < y < end && x < b ==> cmp(s[x], s[y]) <= 0
  }

  /** Permuting what is not in place yet keeps what is. */
  lemma InPlacePermuted<T(!new)>(s: seq<T>, t: seq<T>, b0: int, b: int, end: int, cmp: (T, T) -> int)
    requires 0 <= b0 <= b <= end <= |s| == |t|
    requires InPlace(s, b0, b, end, cmp) && PermutedWithin(s, t, b, end)
    ensures InPlace(t, b0, b, end, cmp)
  {
    forall x, y | b0 <= x < y < end && x < b
      ensures cmp(t[x], t[y]) <= 0
    {
      assert s[..b][x] == t[..b][x];
      if y < b {
        assert s[..b][y] == t[..b][y];
      } else {
        PermutedAll(s, t, b, end, v => cmp(s[x], v) <= 0);
      }
    }
  }

  /** After partitioning and sorting the left part, that part is in place too. */
  lemma LeftInPlace<T(!new)>(s: seq<T>, t: seq<T>, b0: int, b: int, m: int, end: int, pivot: T, cmp: (T, T) -> int)
    requires 0 <= b0 <= b <= m <= end <= |s| == |t| && IsComparison(cmp)
    requires m < end && Split(s, b, end, m - 1, m, pivot, cmp)
    requires PermutedWithin(s, t, b, m) && Sorted(t, b, m, cmp) && InPlace(t, b0, b, end, cmp)
    ensures InPlace(t, b0, m, end, cmp)
  {
    forall x, y | b <= x < y < end && x < m
      ensures cmp(t[x], t[y]) <= 0
    {
      if y >= m {
        PermutedAll(s, t, b, m, v => cmp(v, pivot) <= 0);
        assert t[m..][y - m] == s[m..][y - m];
        assert AtMost(cmp, t[x], pivot) && AtMost(cmp, pivot, t[y]);
        assert AtMost(cmp, t[x], t[y]);
      }
    }
  }

  /** Sorting the left part after partitioning permutes the whole. */
  lemma PermutedTwice<T>(s0: seq<T>, s1: seq<T>, s2: seq<T>, b: int, m: int, end: int)
    requires 0 <= b <= m <= end <= |s0| == |s1| == |s2|
    requires PermutedWithin(s0, s1, b, end) && PermutedWithin(s1, s2, b, m)
    ensures PermutedWithin(s0, s2, b, end)
  {
    PermutedWider(s1, s2, b, m, b, end);
    PermutedTrans(s0, s1, s2, b, end);
  }

  /** One round of the sorting loop: s0 was partitioned into s1, whose left part was sorted in s2. */
  lemma SortStep<T(!new)>(s: seq<T>, s0: seq<T>, s1: seq<T>, s2: seq<T>, b0: int, b: int, m: int, end: int,
                          pivot: T, cmp: (T, T) -> int)
    requires 0 <= b0 <= b < m < end <= |s| == |s0| == |s1| == |s2| && IsComparison(cmp)
    requires PermutedWithin(s, s0, b0, end) && InPlace(s0, b0, b, end, cmp)
    requires PermutedWithin(s0, s1, b, end) && Split(s1, b, end, m - 1, m, pivot, cmp)
    requires PermutedWithin(s1, s2, b, m) && Sorted(s2, b, m, cmp)
    ensures PermutedWithin(s, s2, b0, end) && InPlace(s2, b0, m, end, cmp)
  {
    PermutedTwice(s0, s1, s2, b, m, end);
    InPlacePermuted(s0, s2, b0, b, end, cmp);
    LeftInPlace(s1, s2, b0, b, m, end, pivot, cmp);
    PermutedWider(s0, s2, b, end, b0, end);
    PermutedTrans(s, s0, s2, b0, end);
  }

  lemma EqualToItself<T(!new)>(x: T, cmp: (T, T) -> int)
    requires IsComparison(cmp)
    ensures cmp(x, x) == 0
  {
    assert AtMost(cmp, x, x) <==> cmp(x, x) >= 0;
  }

  /** Partitions num elements from b and sorts the left part, of `left` elements, which ends at m. */
  method SortLeft<T(!new)>(a: array<T>, b: nat, num: nat, cmp: (T, T) -> int, ghost end: nat)
    returns (left: nat, ghost m: nat, ghost s1: seq<T>, ghost pivot: T)
    requires b + num == end <= a.Length && num >= 2 && IsComparison(cmp)
    modifies a
    ensures b < m == b + left < end && |s1| == a.Length
    ensures PermutedWithin(old(a[..]), s1, b, end) && Split(s1, b, end, m - 1, m, pivot, cmp)
    ensures PermutedWithin(s1, a[..], b, m) && Sorted(a[..], b, m, cmp)
    decreases num, 0
  {
    EqualToItself(a[b], cmp);
    var part;
    part, pivot := Partition(a, b, num, cmp);
    s1 := a[..];
    left := part + 1;
    m := b + left;
    QSort(a, b, left, cmp);
  }

  /** Sorts num0 elements of the array from b0 on. */
  method QSort<T(!new)>(a: array<T>, b0: nat, num0: nat, cmp: (T, T) -> int)
    requires b0 + num0 <= a.Length && IsComparison(cmp)
    modifies a
    ensures Sorted(a[..], b0, b0 + num0, cmp)
    ensures PermutedWithin(old(a[..]), a[..], b0, b0 + num0)
    decreases num0, 1
  {
    ghost var s, end := a[..], b0 + num0;
    var b, num := b0, num0;
    while num >= 2
      invariant b0 <= b && b + num == end
      invariant PermutedWithin(s, a[..], b0, end) && InPlace(a[..], b0, b, end, cmp)
      decreases num
    {
      ghost var s0 := a[..];
      ghost var m, s1, pivot;
      var left;
      left, m, s1, pivot := SortLeft(a, b, num, cmp, end);
      SortStep(s, s0, s1, a[..], b0, b, m, end, pivot, cmp);
      b := b + left;
      num := num - left;
    }
  }
}
