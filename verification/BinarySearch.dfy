/** The binary search that is run on a sorted array, with the overflow of its midpoint sum. */
module BinarySearch {
  import opened JavaInt
  import opened QuickSort

  /** How `search` ends: an index, -1, or an `ArrayIndexOutOfBoundsException`. */
  datatype Outcome = Found(index: int) | Missing | OutOfBounds

  const LIMIT: int := 0x8000_0000

  /** The last midpoint whose sum does not overflow, when the search always goes right from `lower`
      in an array of n elements. */
  function LastSafeProbe(lower: int, n: int): (m: int)
    requires 0 <= lower < n < LIMIT < 2 * n && lower + n - 1 < LIMIT
    ensures (lower + n - 1) / 2 <= m < n - 1 && m < LIMIT / 2
    decreases n - lower
  {
    var m := (lower + n - 1) / 2;
    if m + n >= LIMIT then m else LastSafeProbe(m + 1, n)
  }

  /** Arrays longer than 2^30, and keys beyond the last midpoint the search can compute. */
  ghost predicate Overflows(s: seq<int>, key: int)
    requires |s| < LIMIT
  {
    2 * |s| > LIMIT && s[LastSafeProbe(0, |s|)] < key
  }

  /** It does happen: in 2^30 + 1 zeros the search for 1 overflows. */
  lemma OverflowHappens(s: seq<int>)
    requires |s| == 0x4000_0001 && forall k :: 0 <= k < |s| ==> s[k] == 0
    ensures SortedBetween(s, 0, |s|) && Overflows(s, 1)
  {
    var m := LastSafeProbe(0, |s|);
  }

  /** What the loop of `search` keeps about overflow: it is on its way to the right and has not come past
      the last safe midpoint, or just has, or it has turned left before that midpoint. */
  ghost predicate OnCourse(s: seq<int>, key: int, lower: int, upper: int)
    requires |s| < LIMIT
  {
    2 * |s| > LIMIT ==>
      && (upper < |s| - 1 ==> upper < LastSafeProbe(0, |s|) && !Overflows(s, key))
      && (upper == |s| - 1 ==> 0 <= lower < |s|)
      && (upper == |s| - 1 && lower + upper < LIMIT ==> LastSafeProbe(lower, |s|) == LastSafeProbe(0, |s|))
      && (upper == |s| - 1 && lower + upper >= LIMIT ==> Overflows(s, key))
  }

  /** A right turn at a midpoint below the key, and a left turn at one above it, stay on course. */
  lemma TurnKeepsCourse(s: seq<int>, key: int, lower: int, upper: int, mid: int)
    requires |s| < LIMIT && SortedBetween(s, 0, |s|) && 0 <= lower <= mid <= upper < |s|
    requires OnCourse(s, key, lower, upper) && lower + upper < LIMIT && mid == (lower + upper) / 2
    ensures s[mid] < key ==> OnCourse(s, key, mid + 1, upper)
    ensures s[mid] > key ==> OnCourse(s, key, lower, mid - 1)
    ensures s[mid] == key ==> !Overflows(s, key)
  {}

  /** `search`. Whatever it returns is right, and it fails on exactly those sorted arrays longer than
      2^30 and keys for which a midpoint sum overflows. */
  method Search(sortedArray: array<int>, key: int) returns (r: Outcome)
    requires sortedArray.Length < LIMIT
    requires SortedBetween(sortedArray[..], 0, sortedArray.Length)
    ensures r.Found? ==> 0 <= r.index < sortedArray.Length && sortedArray[r.index] == key
    ensures r.Missing? ==> key !in sortedArray[..]
    ensures r.OutOfBounds? <==> Overflows(sortedArray[..], key)
  {
    var lower := 0;
    var upper := sortedArray.Length - 1;
    var mid := 0;
    ghost var s := sortedArray[..];
    while true
      invariant 0 <= lower <= upper + 1 <= |s|
      invariant forall k :: 0 <= k < lower ==> s[k] < key
      invariant forall k :: upper < k < |s| ==> s[k] > key
      invariant OnCourse(s, key, lower, upper)
      decreases upper - lower + 1
    {
      mid := Half(Wrap(lower + upper));
      Midpoint(lower, upper);
      if lower > upper {
        return Missing;
      } else if mid < 0 {
        return OutOfBounds;
      }
      TurnKeepsCourse(s, key, lower, upper, mid);
      if sortedArray[mid] == key {
        return Found(mid);
      } else if sortedArray[mid] < key {
        assert forall k :: 0 <= k <= mid ==> s[k] <= s[mid];
        lower := mid + 1;
      } else {
        assert forall k :: mid <= k < |s| ==> s[mid] <= s[k];
        upper := mid - 1;
      }
    }
  }

  /** The midpoint as computed: right, or negative when the sum overflows. */
  lemma Midpoint(lower: int, upper: int)
    requires 0 <= lower < LIMIT && -1 <= upper < LIMIT
    ensures lower + upper >= LIMIT ==> Half(Wrap(lower + upper)) < 0
    ensures 0 <= lower + upper < LIMIT ==> Half(Wrap(lower + upper)) == (lower + upper) / 2
  {}

  /** Sorting an array and then searching it: up to length 2^30 the search succeeds exactly if the
      original array held the key. */
  method SortThenSearch(input: array<int>, key: int) returns (r: Outcome)
    requires input.Length < LIMIT
    modifies input
    ensures r.Found? ==> 0 <= r.index < input.Length && input[r.index] == key && key in old(input[..])
    ensures r.Missing? ==> key !in old(input[..])
    ensures r.OutOfBounds? ==> input.Length > 0x4000_0000
    ensures SortedBetween(input[..], 0, input.Length) && multiset(input[..]) == multiset(old(input[..]))
  {
    SortAll(input);
    r := Search(input, key);
    assert forall x :: x in input[..] <==> x in multiset(input[..]);
    if r.Found? { assert key in input[..]; }
  }
}
