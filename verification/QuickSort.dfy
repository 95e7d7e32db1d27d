/** Hoare-style quicksort in place. */
module QuickSort {

  ghost predicate SortedBetween(s: seq<int>, lo: int, hi: int) {
    forall i, j :: 0 <= lo <= i < j < hi <= |s| ==> s[i] <= s[j]
  }

  /** t rearranges s between lo and hi and is equal to it elsewhere. */
  ghost predicate Permutes(s: seq<int>, t: seq<int>, lo: int, hi: int) {
    && |s| == |t| && 0 <= lo <= hi <= |s|
    && s[..lo] == t[..lo] && s[hi..] == t[hi..]
    && multiset(s[lo..hi]) == multiset(t[lo..hi])
  }

  lemma PermutesWider(s: seq<int>, t: seq<int>, lo: int, hi: int, lo': int, hi': int)
    requires Permutes(s, t, lo, hi) && 0 <= lo' <= lo && hi <= hi' <= |s|
    ensures Permutes(s, t, lo', hi')
  {
    assert s[..lo'] == s[..lo][..lo'] && t[..lo'] == t[..lo][..lo'];
    assert s[hi'..] == s[hi..][hi' - hi..] && t[hi'..] == t[hi..][hi' - hi..];
    assert s[lo'..lo] == s[..lo][lo'..] && t[lo'..lo] == t[..lo][lo'..];
    assert s[hi..hi'] == s[hi..][..hi' - hi] && t[hi..hi'] == t[hi..][..hi' - hi];
    assert s[lo'..hi'] == s[lo'..lo] + s[lo..hi] + s[hi..hi'];
    assert t[lo'..hi'] == t[lo'..lo] + t[lo..hi] + t[hi..hi'];
  }

  lemma PermutesTrans(s: seq<int>, t: seq<int>, u: seq<int>, lo: int, hi: int)
    requires Permutes(s, t, lo, hi) && Permutes(t, u, lo, hi)
    ensures Permutes(s, u, lo, hi)
  {}

  /** Every value of the rearranged range was in the range before. */
  lemma PermutesKeepsValues(s: seq<int>, t: seq<int>, lo: int, hi: int, i: int)
    requires Permutes(s, t, lo, hi) && lo <= i < hi
    ensures exists k :: lo <= k < hi && s[k] == t[i]
  {
    assert t[i] == t[lo..hi][i - lo];
    assert t[i] in multiset(t[lo..hi]);
    assert t[i] in s[lo..hi];
    var k :| 0 <= k < hi - lo && s[lo..hi][k] == t[i];
    assert s[lo + k] == t[i];
  }

  /** `exchangeNumbers` */
  method ExchangeNumbers(a: array<int>, i: int, j: int)
    requires 0 <= i <= j < a.Length
    modifies a
    ensures a[..] == old(a[..])[i := old(a[j])][j := old(a[i])]
    ensures Permutes(old(a[..]), a[..], i, j + 1)
  {
    ghost var s := a[..];
    var temp := a[i];
    a[i] := a[j];
    a[j] := temp;
    SwapPermutes(s, i, j);
    assert a[..] == s[i := s[j]][j := s[i]];
  }

  lemma SwapPermutes(s: seq<int>, i: int, j: int)
    requires 0 <= i <= j < |s|
    ensures Permutes(s, s[i := s[j]][j := s[i]], i, j + 1)
  {
    var t := s[i := s[j]][j := s[i]];
    if i == j {
      assert t == s;
    } else {
      assert s[i..j + 1] == [s[i]] + s[i + 1..j] + [s[j]];
      assert t[i..j + 1] == [s[j]] + s[i + 1..j] + [s[i]];
    }
  }

  ghost predicate AllAtMost(s: seq<int>, lo: int, hi: int, pivot: int) {
    forall k :: 0 <= lo <= k < hi <= |s| ==> s[k] <= pivot
  }

  ghost predicate AllAtLeast(s: seq<int>, lo: int, hi: int, pivot: int) {
    forall k :: 0 <= lo <= k < hi <= |s| ==> s[k] >= pivot
  }

  lemma SwapOrders(t: seq<int>, lo: int, i: int, j: int, hi: int, pivot: int)
    requires 0 <= lo <= i <= j <= hi < |t| && t[j] <= pivot <= t[i]
    requires AllAtMost(t, lo, i, pivot) && AllAtLeast(t, j + 1, hi + 1, pivot)
    ensures var u := t[i := t[j]][j := t[i]]; AllAtMost(u, lo, i + 1, pivot) && AllAtLeast(u, j, hi + 1, pivot)
  {}

  lemma SwapStaysPermuted(s: seq<int>, t: seq<int>, lo: int, i: int, j: int, hi: int)
    requires 0 <= lo <= i <= j <= hi < |t| && Permutes(s, t, lo, hi + 1)
    ensures Permutes(s, t[i := t[j]][j := t[i]], lo, hi + 1)
  {
    SwapPermutes(t, i, j);
    PermutesInside(s, t, t[i := t[j]][j := t[i]], lo, i, j + 1, hi + 1);
  }

  lemma PermutesInside(s: seq<int>, t: seq<int>, u: seq<int>, lo: int, i: int, j: int, hi: int)
    requires lo <= i <= j <= hi && Permutes(s, t, lo, hi) && Permutes(t, u, i, j)
    ensures Permutes(s, u, lo, hi)
  {
    PermutesWider(t, u, i, j, lo, hi);
    PermutesTrans(s, t, u, lo, hi);
  }

  /** The upward scan has no bound check; the value at `stop` ends it. */
  method ScanUp(a: array<int>, lo: int, start: int, p: int, ghost stop: int) returns (i: int)
    requires 0 <= lo <= start <= stop < a.Length && a[stop] >= p && AllAtMost(a[..], lo, start, p)
    ensures start <= i <= stop && a[i] >= p && AllAtMost(a[..], lo, i, p)
  {
    i := start;
    while a[i] < p
      invariant start <= i <= stop && AllAtMost(a[..], lo, i, p)
      decreases stop - i
    {
      i := i + 1;
    }
  }

  method ScanDown(a: array<int>, hi: int, start: int, p: int, ghost stop: int) returns (j: int)
    requires 0 <= stop <= start <= hi < a.Length && a[stop] <= p && AllAtLeast(a[..], start + 1, hi + 1, p)
    ensures stop <= j <= start && a[j] <= p && AllAtLeast(a[..], j + 1, hi + 1, p)
  {
    j := start;
    while a[j] > p
      invariant stop <= j <= start && AllAtLeast(a[..], j + 1, hi + 1, p)
      decreases j - stop
    {
      j := j - 1;
    }
  }

  /** One exchange, seen from the whole range. */
  method ExchangeWithin(a: array<int>, lo: int, i: int, j: int, hi: int, p: int, ghost s: seq<int>)
    requires 0 <= lo <= i <= j <= hi < a.Length && a[j] <= p <= a[i]
    requires AllAtMost(a[..], lo, i, p) && AllAtLeast(a[..], j + 1, hi + 1, p) && Permutes(s, a[..], lo, hi + 1)
    modifies a
    ensures a[i] <= p <= a[j]
    ensures AllAtMost(a[..], lo, i + 1, p) && AllAtLeast(a[..], j, hi + 1, p) && Permutes(s, a[..], lo, hi + 1)
  {
    ghost var t := a[..];
    SwapOrders(t, lo, i, j, hi, p);
    SwapStaysPermuted(s, t, lo, i, j, hi);
    ExchangeNumbers(a, i, j);
    assert a[i] == a[..][i] && a[j] == a[..][j];
  }

  /** The loop of `quickSort`: both scans run without a bound check, yet never leave the range,
      because a value that stops them stays ahead of them (at `low` and at `high`). */
  method Partition(a: array<int>, lo: int, hi: int) returns (i: int, j: int, ghost pivot: int)
    requires 0 <= lo <= hi < a.Length
    modifies a
    ensures lo - 1 <= j < i <= hi + 1 && j < hi && lo < i
    ensures AllAtMost(a[..], lo, i, pivot) && AllAtLeast(a[..], j + 1, hi + 1, pivot)
    ensures Permutes(old(a[..]), a[..], lo, hi + 1)
  {
    i, j := lo, hi;
    var p := a[lo + (hi - lo) / 2];
    pivot := p;
    ghost var low, high := lo + (hi - lo) / 2, lo + (hi - lo) / 2;
    ghost var s := a[..];
    while i <= j
      invariant lo <= i <= hi + 1 && lo - 1 <= j <= hi
      invariant (i == lo && j == hi && low == high) || (lo < i && j < hi)
      invariant AllAtMost(a[..], lo, i, p) && AllAtLeast(a[..], j + 1, hi + 1, p)
      invariant i <= j ==> lo <= low <= j && a[low] <= p
      invariant i <= j ==> i <= high <= hi && a[high] >= p
      invariant Permutes(s, a[..], lo, hi + 1)
      decreases j - i
    {
      i := ScanUp(a, lo, i, p, high);
      j := ScanDown(a, hi, j, p, low);
      if i <= j {
        ExchangeWithin(a, lo, i, j, hi, p, s);
        low, high := i, j;
        i := i + 1;
        j := j - 1;
      }
    }
  }

  /** `quickSort`: the range comes out sorted, as a rearrangement of itself, and nothing else moves. */
  method Sort(a: array<int>, lowerIndex: int, higherIndex: int)
    requires 0 <= lowerIndex <= higherIndex < a.Length
    modifies a
    ensures SortedBetween(a[..], lowerIndex, higherIndex + 1)
    ensures Permutes(old(a[..]), a[..], lowerIndex, higherIndex + 1)
    decreases higherIndex - lowerIndex
  {
    ghost var lo, hi := lowerIndex, higherIndex + 1;
    ghost var s := a[..];
    ghost var pivot;
    var i, j;
    i, j, pivot := Partition(a, lowerIndex, higherIndex);
    ghost var t := a[..];
    if lowerIndex < j {
      Sort(a, lowerIndex, j);
    }
    ghost var u := a[..];
    LeftPart(t, u, lo, j + 1, hi, pivot);
    if i < higherIndex {
      Sort(a, i, higherIndex);
    }
    ghost var v := a[..];
    RightPart(u, v, lo, i, hi, pivot);
    PermutesTrans(s, t, u, lo, hi);
    PermutesTrans(s, u, v, lo, hi);
    JoinSorted(u, v, lo, j, i, hi, pivot);
  }

  /** `sort`: the whole array, which may be empty. */
  method SortAll(inputArr: array<int>)
    modifies inputArr
    ensures SortedBetween(inputArr[..], 0, inputArr.Length)
    ensures multiset(inputArr[..]) == multiset(old(inputArr[..]))
  {
    if inputArr.Length == 0 {
      return;
    }
    Sort(inputArr, 0, inputArr.Length - 1);
    assert inputArr[..] == inputArr[0..inputArr.Length] && old(inputArr[..]) == old(inputArr[..])[0..inputArr.Length];
  }

  lemma LeftPart(t: seq<int>, u: seq<int>, lo: int, mid: int, hi: int, pivot: int)
    requires 0 <= lo <= mid <= hi <= |t|
    requires t == u || Permutes(t, u, lo, mid)
    requires forall k :: lo <= k < mid ==> t[k] <= pivot
    ensures Permutes(t, u, lo, hi)
    ensures forall k :: lo <= k < mid ==> u[k] <= pivot
    ensures forall k :: mid <= k < |t| ==> u[k] == t[k]
  {
    if t != u {
      PermutesWider(t, u, lo, mid, lo, hi);
      forall k | lo <= k < mid ensures u[k] <= pivot { PermutesKeepsValues(t, u, lo, mid, k); }
      forall k | mid <= k < |t| ensures u[k] == t[k] { assert u[mid..][k - mid] == t[mid..][k - mid]; }
    }
  }

  lemma RightPart(u: seq<int>, v: seq<int>, lo: int, mid: int, hi: int, pivot: int)
    requires 0 <= lo <= mid <= hi <= |u|
    requires u == v || Permutes(u, v, mid, hi)
    requires forall k :: mid <= k < hi ==> u[k] >= pivot
    ensures Permutes(u, v, lo, hi)
    ensures forall k :: mid <= k < hi ==> v[k] >= pivot
    ensures forall k :: 0 <= k < mid ==> u[k] == v[k]
  {
    if u != v {
      PermutesWider(u, v, mid, hi, lo, hi);
      forall k | mid <= k < hi ensures v[k] >= pivot { PermutesKeepsValues(u, v, mid, hi, k); }
      forall k | 0 <= k < mid ensures u[k] == v[k] { assert u[..mid][k] == v[..mid][k]; }
    }
  }

  lemma JoinSorted(u: seq<int>, v: seq<int>, lo: int, j: int, i: int, hi: int, pivot: int)
    requires 0 <= lo <= hi <= |u| == |v| && lo - 1 <= j < i <= hi
    requires SortedBetween(u, lo, j + 1) && SortedBetween(v, i, hi)
    requires forall k :: 0 <= k < i ==> u[k] == v[k]
    requires forall k :: lo <= k < i ==> u[k] <= pivot
    requires forall k :: j < k < i ==> u[k] >= pivot
    requires forall k :: i <= k < hi ==> v[k] >= pivot
    ensures SortedBetween(v, lo, hi)
  {}
}
