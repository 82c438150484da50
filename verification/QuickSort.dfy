/** i_hoarepartition and i_quicksort of src/sort.c. */
module QuickSort {
  import opened Sorting

  /** Everything in s[lo..p] is at least everything in s[p..hi]. */
  ghost predicate Split(s: seq<real>, lo: nat, p: nat, hi: nat)
    requires hi <= |s|
  {
    forall i, j :: lo <= i < p <= j < hi ==> s[i] >= s[j]
  }

  /** t is s with its part lo..hi rearranged so that the elements below p are the greater ones. */
  ghost predicate Partitioned(s: seq<real>, t: seq<real>, lo: nat, p: nat, hi: nat) {
    Rearranged(s, t, lo, hi) && Split(t, lo, p, hi)
  }

  /** The partition stays within low..high, and leaves something on both sides of its result. */
  method HoarePartition(a: array<real>, low: nat, high: nat) returns (p: nat)
    requires low < high < a.Length
    modifies a
    ensures low <= p < high
    ensures Partitioned(old(a[..]), a[..], low, p + 1, high + 1)
  {
    hide Rearranged;
    Unmoved(a[..], low, high + 1);
    var pivot := a[(high - low) / 2 + low];
    var i: int := low - 1;
    var j := high + 1;
    // The scans below stop at these positions at the latest.
    ghost var l, r := (high - low) / 2 + low, (high - low) / 2 + low;
    while true
      invariant low - 1 <= i < j <= high + 1
      invariant (i == low - 1 && j == high + 1) || (low <= i && j <= high)
      invariant i < r <= high && low <= l < j && a[r] <= pivot <= a[l]
      invariant l < high && (j <= high || r < high)
      invariant forall k :: low <= k <= i ==> a[k] >= pivot
      invariant forall k :: j <= k <= high ==> a[k] <= pivot
      invariant Rearranged(old(a[..]), a[..], low, high + 1)
      decreases j - i
    {
      i := i + 1;
      j := j - 1;
      while a[i] > pivot
        invariant low <= i <= r
        invariant forall k :: low <= k < i ==> a[k] >= pivot
        decreases r - i
      {
        i := i + 1;
      }
      while a[j] < pivot
        invariant l <= j <= high
        invariant forall k :: j < k <= high ==> a[k] <= pivot
        decreases j
      {
        j := j - 1;
      }
      if i >= j {
        return j;
      }
      Swap(a, i, j, old(a[..]), low, high + 1);
      l, r := i, j;
    }
  }

  lemma SplitSorts(s: seq<real>, lo: nat, p: nat, hi: nat)
    requires lo <= p <= hi <= |s| && Split(s, lo, p, hi) && Descending(s[lo..p]) && Descending(s[p..hi])
    ensures Descending(s[lo..hi])
  {
    forall i, j | 0 <= i < j < hi - lo
      ensures s[lo..hi][i] >= s[lo..hi][j]
    {
      if j < p - lo {
        assert s[lo..p][i] >= s[lo..p][j];
      } else if i >= p - lo {
        assert s[p..hi][i - (p - lo)] >= s[p..hi][j - (p - lo)];
      }
    }
  }

  lemma RearrangedSplit(s: seq<real>, t: seq<real>, lo: nat, p: nat, hi: nat)
    requires lo <= p <= hi <= |s| && Split(s, lo, p, hi)
    requires Rearranged(s, t, lo, p) || Rearranged(s, t, p, hi)
    ensures Split(t, lo, p, hi)
  {
    forall i, j | lo <= i < p <= j < hi
      ensures t[i] >= t[j]
    {
      if Rearranged(s, t, lo, p) {
        var i' := RearrangedElement(s, t, lo, p, i);
        assert t[p..][j - p] == s[p..][j - p];
      } else {
        var j' := RearrangedElement(s, t, p, hi, j);
        assert t[..p][i] == s[..p][i];
      }
    }
  }

  /** Sorting both sides of a partition sorts the whole. */
  lemma SidesSorted(s0: seq<real>, s: seq<real>, t: seq<real>, u: seq<real>, lo: nat, p: nat, hi: nat)
    requires lo <= p <= hi && Partitioned(s0, s, lo, p, hi) && SortedPart(s, t, lo, p) && SortedPart(t, u, p, hi)
    ensures SortedPart(s0, u, lo, hi)
  {
    RearrangedSplit(s, t, lo, p, hi);
    RearrangedWider(s, t, lo, p, lo, hi);
    RearrangedTrans(s0, s, t, lo, hi);
    RearrangedSplit(t, u, lo, p, hi);
    RearrangedWider(t, u, p, hi, lo, hi);
    RearrangedTrans(s0, t, u, lo, hi);
    assert u[lo..p] == u[..p][lo..] == t[..p][lo..] == t[lo..p];
    SplitSorts(u, lo, p, hi);
  }

  method QuickSort(a: array<real>, low: int, high: int)
    requires 0 <= low <= high + 1 <= a.Length
    modifies a
    ensures SortedPart(old(a[..]), a[..], low, high + 1)
    decreases high - low
  {
    hide Partitioned; hide SortedPart;
    if low >= 0 && high >= 0 && low < high {
      var p := HoarePartition(a, low, high);
      ghost var s := a[..];
      QuickSort(a, low, p);
      ghost var t := a[..];
      QuickSort(a, p + 1, high);
      SidesSorted(old(a[..]), s, t, a[..], low, p + 1, high + 1);
    } else {
      OneSorted(a[..], low, high + 1);
    }
  }

  /** l_quicksort, between reading the numbers from the Lua table and writing them back. */
  method SortAll(a: array<real>)
    requires a.Length > 0
    modifies a
    ensures a[..] == Sorted(old(a[..]))
  {
    QuickSort(a, 0, a.Length - 1);
    WholeSorted(old(a[..]), a[..]);
  }
}
