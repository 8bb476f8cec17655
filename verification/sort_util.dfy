/** The sort utility: an in-place quicksort with a randomly chosen pivot over
    the slots `0..highIndex` of an array, ordered by a comparator or, when none
    is given, by the elements' natural order. */
module SortUtil {
  import opened Wrappers

  // ---------------------------------------------------------------------------
  // Orderings
  // ---------------------------------------------------------------------------

  /** The contract of java.util.Comparator, as far as sorting needs it:
      `cmp(x, y) <= 0` exactly when `cmp(y, x) >= 0` (so every value compares
      equal to itself and any two values are comparable), and "at most" is
      transitive. */
  ghost predicate TotalPreorder<U(!new)>(cmp: (U, U) -> int) {
    SignConsistent(cmp) && forall x, y, z :: TransitiveAt(cmp, x, y, z)
  }

  /** `cmp(x, y) <= 0` exactly when `cmp(y, x) >= 0`. */
  ghost predicate SignConsistent<U(!new)>(cmp: (U, U) -> int) {
    forall x, y :: cmp(x, y) <= 0 <==> cmp(y, x) >= 0
  }

  /** Transitivity of "at most" for one triple. Kept as a predicate of its
      own so that proofs name the triple they need. */
  ghost predicate TransitiveAt<U>(cmp: (U, U) -> int, x: U, y: U, z: U) {
    cmp(x, y) <= 0 && cmp(y, z) <= 0 ==> cmp(x, z) <= 0
  }

  /** A total preorder under which only equal values compare equal, as the
      natural order of Integer or String. */
  ghost predicate TotalOrder<U(!new)>(cmp: (U, U) -> int) {
    TotalPreorder(cmp) && forall x, y :: cmp(x, y) == 0 ==> x == y
  }

  /** The slots `lo..hi-1` of `s` are in non-decreasing order under `cmp`. */
  ghost predicate SortedBetween<U(!new)>(s: seq<U>, lo: int, hi: int, cmp: (U, U) -> int) {
    forall i, j :: 0 <= lo <= i < j < hi <= |s| ==> cmp(s[i], s[j]) <= 0
  }

  /** The ordering every comparison of a sort uses: the comparator when one is
      given, the elements' natural order (their `compareTo`) otherwise. */
  function Resolve<U(!new)>(comparator: Option<(U, U) -> int>, natural: (U, U) -> int): (cmp: (U, U) -> int)
    ensures comparator.Some? ==> cmp == comparator.value
    ensures comparator.None? ==> cmp == natural
  {
    match comparator
    case Some(c) => c
    case None => natural
  }

  // ---------------------------------------------------------------------------
  // Facts about permutations and orderings
  // ---------------------------------------------------------------------------

  /** Two sequences that hold the same multiset and agree outside `lo..hi-1`
      hold the same multiset inside it. */
  lemma {:induction false} SegmentPermutation<U(!new)>(s: seq<U>, t: seq<U>, lo: int, hi: int)
    requires |s| == |t| && 0 <= lo <= hi <= |s|
    requires multiset(s) == multiset(t)
    requires forall k :: 0 <= k < |s| && !(lo <= k < hi) ==> s[k] == t[k]
    ensures multiset(s[lo..hi]) == multiset(t[lo..hi])
  {
    assert s == s[..lo] + s[lo..hi] + s[hi..];
    assert t == t[..lo] + t[lo..hi] + t[hi..];
    assert s[..lo] == t[..lo];
    assert s[hi..] == t[hi..];
    calc {
      multiset(s[lo..hi]);
      multiset(s) - multiset(s[..lo]) - multiset(s[hi..]);
      multiset(t) - multiset(t[..lo]) - multiset(t[hi..]);
      multiset(t[lo..hi]);
    }
  }

  /** A bound that every element of a segment satisfies survives any
      permutation of that segment. */
  lemma {:induction false} BoundPreserved<U(!new)>(s: seq<U>, t: seq<U>, lo: int, hi: int, bound: U -> bool)
    requires 0 <= lo <= hi <= |s| && hi <= |t|
    requires multiset(s[lo..hi]) == multiset(t[lo..hi])
    requires forall k :: lo <= k < hi ==> bound(t[k])
    ensures forall k :: lo <= k < hi ==> bound(s[k])
  {
    forall k | lo <= k < hi
      ensures bound(s[k])
    {
      assert s[k] == s[lo..hi][k - lo];
      assert s[k] in multiset(t[lo..hi]);
      var k' :| 0 <= k' < hi - lo && t[lo..hi][k'] == s[k];
      assert t[lo + k'] == s[k];
    }
  }

  /** Under a total order a multiset has exactly one sorted arrangement. */
  lemma {:induction false} SortedUnique<U(!new)>(s: seq<U>, t: seq<U>, cmp: (U, U) -> int)
    requires TotalOrder(cmp)
    requires SortedBetween(s, 0, |s|, cmp) && SortedBetween(t, 0, |t|, cmp)
    requires multiset(s) == multiset(t)
    ensures s == t
  {
    if s == [] {
      assert |multiset(t)| == 0;
    } else {
      SameHead(s, t, cmp);
      DropHead(s);
      DropHead(t);
      SortedUnique(s[1..], t[1..], cmp);
      assert s == [s[0]] + s[1..] && t == [t[0]] + t[1..];
    }
  }

  /** Two sorted arrangements of the same non-empty multiset start with the
      same element under a total order: each head is at most the other. */
  lemma SameHead<U(!new)>(s: seq<U>, t: seq<U>, cmp: (U, U) -> int)
    requires TotalOrder(cmp)
    requires SortedBetween(s, 0, |s|, cmp) && SortedBetween(t, 0, |t|, cmp)
    requires multiset(s) == multiset(t)
    requires |s| > 0
    ensures |t| > 0 && s[0] == t[0]
  {
    assert s[0] in multiset(t);
    var j :| 0 <= j < |t| && t[j] == s[0];
    assert cmp(t[0], s[0]) <= 0 by {
      if j > 0 { assert cmp(t[0], t[j]) <= 0; }
    }
    assert t[0] in multiset(s);
    var i :| 0 <= i < |s| && s[i] == t[0];
    assert cmp(s[0], t[0]) <= 0 by {
      if i > 0 { assert cmp(s[0], s[i]) <= 0; }
    }
  }

  /** Dropping the head takes one copy of it out of the multiset. */
  lemma DropHead<U>(s: seq<U>)
    requires |s| > 0
    ensures multiset(s[1..]) == multiset(s) - multiset{s[0]}
  {
    assert s == [s[0]] + s[1..];
  }

  /** A range split at `p` into a sorted part at most `pivot`, the pivot
      itself and a sorted part at least `pivot` is sorted as a whole. */
  lemma {:induction false} JoinSorted<U(!new)>(s: seq<U>, low: int, p: int, high: int, pivot: U, cmp: (U, U) -> int)
    requires TotalPreorder(cmp)
    requires 0 <= low <= p <= high < |s|
    requires SortedBetween(s, low, p, cmp) && SortedBetween(s, p + 1, high + 1, cmp)
    requires forall k :: low <= k < p ==> cmp(s[k], pivot) <= 0
    requires s[p] == pivot
    requires forall k :: p < k <= high ==> cmp(s[k], pivot) >= 0
    ensures SortedBetween(s, low, high + 1, cmp)
  {
    forall i, j | low <= i < j <= high
      ensures cmp(s[i], s[j]) <= 0
    {
      if i < p && p < j {
        assert TransitiveAt(cmp, s[i], pivot, s[j]);
      }
    }
  }

  /** One step of the recursion: after the partition and the sorting of both
      sides (each a permutation of its side that leaves the rest alone), the
      whole range is sorted. */
  lemma {:induction false} QuicksortStep<U(!new)>(partitioned: seq<U>, leftSorted: seq<U>, final: seq<U>,
                                                  low: int, p: int, high: int, pivot: U, cmp: (U, U) -> int)
    requires TotalPreorder(cmp)
    requires 0 <= low <= p <= high < |partitioned| == |leftSorted| == |final|
    requires forall k :: low <= k < p ==> cmp(partitioned[k], pivot) <= 0
    requires partitioned[p] == pivot
    requires forall k :: p < k <= high ==> cmp(partitioned[k], pivot) >= 0
    requires multiset(leftSorted) == multiset(partitioned)
    requires forall k :: 0 <= k < |leftSorted| && !(low <= k <= p - 1) ==> leftSorted[k] == partitioned[k]
    requires SortedBetween(leftSorted, low, p, cmp)
    requires multiset(final) == multiset(leftSorted)
    requires forall k :: 0 <= k < |final| && !(p + 1 <= k <= high) ==> final[k] == leftSorted[k]
    requires SortedBetween(final, p + 1, high + 1, cmp)
    ensures SortedBetween(final, low, high + 1, cmp)
  {
    SegmentPermutation(leftSorted, partitioned, low, p);
    BoundPreserved(leftSorted, partitioned, low, p, x => cmp(x, pivot) <= 0);
    SegmentPermutation(final, leftSorted, p + 1, high + 1);
    BoundPreserved(final, leftSorted, p + 1, high + 1, x => cmp(x, pivot) >= 0);
    assert SortedBetween(final, low, p, cmp) by {
      forall i, j | low <= i < j < p
        ensures cmp(final[i], final[j]) <= 0
      {
        assert final[i] == leftSorted[i] && final[j] == leftSorted[j];
      }
    }
    JoinSorted(final, low, p, high, pivot, cmp);
  }

  // ---------------------------------------------------------------------------
  // The algorithm
  // ---------------------------------------------------------------------------

  /** Exchanges two slots of the array (the two may be the same slot). */
  method Swap<U(!new)>(a: array<U>, i: int, j: int)
    requires 0 <= i < a.Length && 0 <= j < a.Length
    modifies a
    ensures a[i] == old(a[j]) && a[j] == old(a[i])
    ensures forall k :: 0 <= k < a.Length && k != i && k != j ==> a[k] == old(a[k])
    ensures multiset(a[..]) == old(multiset(a[..]))
  {
    var temp := a[i];
    a[i] := a[j];
    a[j] := temp;
  }

  /** Picks a pivot index in `low..high-1` (java.util.Random in the source;
      here any index in that range), reads the pivot and parks it in slot
      `high`. */
  method GetPivot<U(!new)>(a: array<U>, low: int, high: int) returns (pivot: U, ghost pivotIndex: int)
    requires 0 <= low < high < a.Length
    modifies a
    ensures low <= pivotIndex < high
    ensures pivot == old(a[pivotIndex]) && a[high] == pivot
    ensures a[pivotIndex] == old(a[high])
    ensures forall k :: 0 <= k < a.Length && k != pivotIndex && k != high ==> a[k] == old(a[k])
    ensures multiset(a[..]) == old(multiset(a[..]))
  {
    var index :| low <= index < high;
    pivotIndex := index;
    pivot := a[index];
    Swap(a, index, high);
  }

  /** Two-pointer partition of `low..high` around the pivot parked in slot
      `high`. Returns the pivot's final slot `p`: everything before it is at
      most the pivot and everything after it (up to `high`) at least the
      pivot. */
  method Partition<U(!new)>(a: array<U>, cmp: (U, U) -> int, low: int, high: int, pivot: U) returns (p: int)
    requires SignConsistent(cmp)
    requires 0 <= low < high < a.Length && a[high] == pivot
    modifies a
    ensures low <= p <= high
    ensures forall k :: low <= k < p ==> cmp(a[k], pivot) <= 0
    ensures a[p] == pivot
    ensures forall k :: p < k <= high ==> cmp(a[k], pivot) >= 0
    ensures multiset(a[..]) == old(multiset(a[..]))
    ensures forall k :: 0 <= k < a.Length && !(low <= k <= high) ==> a[k] == old(a[k])
  {
    var left, right := low, high;
    while left < right
      invariant low <= left <= right <= high
      invariant a[high] == pivot
      invariant forall k :: low <= k < left ==> cmp(a[k], pivot) <= 0
      invariant forall k :: right <= k <= high ==> cmp(a[k], pivot) >= 0
      invariant multiset(a[..]) == old(multiset(a[..]))
      invariant forall k :: 0 <= k < a.Length && !(low <= k <= high) ==> a[k] == old(a[k])
      decreases right - left
    {
      ghost var left0, right0 := left, right;
      while cmp(a[left], pivot) <= 0 && left < right
        invariant left0 <= left <= right
        invariant forall k :: low <= k < left ==> cmp(a[k], pivot) <= 0
        decreases right - left
      {
        left := left + 1;
      }
      while cmp(a[right], pivot) >= 0 && left < right
        invariant left <= right <= right0
        invariant forall k :: right < k <= high ==> cmp(a[k], pivot) >= 0
        invariant left < right0 ==> cmp(a[left], pivot) > 0
        decreases right - left
      {
        right := right - 1;
      }
      Swap(a, left, right);
    }
    Swap(a, left, high);
    p := left;
  }

  /** The recursive sort of the slots `low..high`; an empty or one-slot range
      is left as it is. */
  method QuicksortRange<U(!new)>(a: array<U>, cmp: (U, U) -> int, low: int, high: int)
    requires TotalPreorder(cmp)
    requires 0 <= low <= high + 1 <= a.Length
    modifies a
    ensures SortedBetween(a[..], low, high + 1, cmp)
    ensures multiset(a[..]) == old(multiset(a[..]))
    ensures forall k :: 0 <= k < a.Length && !(low <= k <= high) ==> a[k] == old(a[k])
    ensures low >= high ==> a[..] == old(a[..])
    decreases high - low
  {
    if low >= high {
      return;
    }
    var pivot;
    ghost var pivotIndex;
    pivot, pivotIndex := GetPivot(a, low, high);
    var p := Partition(a, cmp, low, high, pivot);
    ghost var partitioned := a[..];
    QuicksortRange(a, cmp, low, p - 1);
    ghost var leftSorted := a[..];
    QuicksortRange(a, cmp, p + 1, high);
    QuicksortStep(partitioned, leftSorted, a[..], low, p, high, pivot, cmp);
  }

  /** The public entry point: sorts the slots `0..highIndex` of `a` in place.
      A null array is rejected first, then an index outside `a`. Under a total
      order an already sorted range comes back exactly as it was. */
  method Quicksort<U(!new)>(a: array?<U>, comparator: Option<(U, U) -> int>, natural: (U, U) -> int, highIndex: int)
    returns (outcome: Outcome)
    requires TotalPreorder(Resolve(comparator, natural))
    modifies a
    ensures a == null <==> outcome == Fail(NullPointer)
    ensures a != null ==> (outcome == Fail(IndexOutOfBounds) <==> !(0 <= highIndex < a.Length))
    ensures a != null && 0 <= highIndex < a.Length ==> outcome == Done
    ensures a != null && outcome.Fail? ==> a[..] == old(a[..])
    ensures a != null && outcome == Done ==>
              SortedBetween(a[..], 0, highIndex + 1, Resolve(comparator, natural)) &&
              multiset(a[..]) == old(multiset(a[..])) &&
              (forall k :: highIndex < k < a.Length ==> a[k] == old(a[k]))
    ensures a != null && outcome == Done && TotalOrder(Resolve(comparator, natural)) &&
            SortedBetween(old(a[..]), 0, highIndex + 1, Resolve(comparator, natural)) ==>
              a[..] == old(a[..])
  {
    if a == null {
      return Fail(NullPointer);
    }
    if !(0 <= highIndex < a.Length) {
      return Fail(IndexOutOfBounds);
    }
    var cmp := Resolve(comparator, natural);
    QuicksortRange(a, cmp, 0, highIndex);
    outcome := Done;
    if TotalOrder(cmp) && SortedBetween(old(a[..]), 0, highIndex + 1, cmp) {
      SegmentPermutation(a[..], old(a[..]), 0, highIndex + 1);
      SortedUnique(a[..][..highIndex + 1], old(a[..])[..highIndex + 1], cmp);
      assert a[..] == a[..][..highIndex + 1] + a[..][highIndex + 1..];
      assert old(a[..]) == old(a[..])[..highIndex + 1] + old(a[..])[highIndex + 1..];
    }
  }
}
