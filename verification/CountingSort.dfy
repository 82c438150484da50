/** l_countingsort of src/sort.c, which sorts non-negative ints from least to greatest. */
module CountingSort {
  import opened Sorting

  /** How many elements are v. */
  function Count(s: seq<int>, v: int): (c: nat)
    ensures c <= |s|
  {
    if s == [] then 0 else (if s[0] == v then 1 else 0) + Count(s[1..], v)
  }

  /** How many elements are at most v. */
  function UpTo(s: seq<int>, v: int): (c: nat)
    ensures c <= |s|
  {
    if s == [] then 0 else (if s[0] <= v then 1 else 0) + UpTo(s[1..], v)
  }

  function AtMost(s: seq<real>, v: real): (c: nat)
    ensures c <= |s|
  {
    if s == [] then 0 else (if s[0] <= v then 1 else 0) + AtMost(s[1..], v)
  }

  /** The same numbers as reals. */
  function Reals(s: seq<int>): seq<real> {
    seq(|s|, i requires 0 <= i < |s| => s[i] as real)
  }

  lemma {:induction false} CountUpTo(s: seq<int>, v: int)
    ensures UpTo(s, v) == UpTo(s, v - 1) + Count(s, v)
  {
    if s != [] {
      CountUpTo(s[1..], v);
    }
  }

  lemma {:induction false} NoneBelow(s: seq<int>, v: int)
    requires forall i :: 0 <= i < |s| ==> s[i] > v
    ensures UpTo(s, v) == 0
  {
    if s != [] {
      NoneBelow(s[1..], v);
    }
  }

  lemma {:induction false} CountNext(s: seq<int>, i: nat, v: int)
    requires i < |s|
    ensures Count(s[..i + 1], v) == Count(s[..i], v) + if s[i] == v then 1 else 0
    decreases i
  {
    if i > 0 {
      CountNext(s[1..], i - 1, v);
      assert s[1..][..i] == s[..i + 1][1..] && s[1..][..i - 1] == s[..i][1..];
    }
  }

  lemma {:induction false} CountSuffix(s: seq<int>, i: nat, v: int)
    requires i <= |s|
    ensures Count(s[i..], v) <= Count(s, v)
    ensures i > 0 && s[i - 1] == v ==> Count(s[i..], v) < Count(s, v)
    ensures i > 0 ==> Count(s[i - 1..], v) == Count(s[i..], v) + if s[i - 1] == v then 1 else 0
    decreases i
  {
    if i > 0 {
      CountSuffix(s, i - 1, v);
      assert s[i - 1..][1..] == s[i..];
    } else {
      assert s[0..] == s;
    }
  }

  lemma {:induction false} UpToAtMost(s: seq<int>, v: int)
    ensures UpTo(s, v) == AtMost(Reals(s), v as real)
  {
    if s != [] {
      UpToAtMost(s[1..], v);
      assert Reals(s)[1..] == Reals(s[1..]);
    }
  }

  lemma {:induction false} InsertAtMost(x: real, s: seq<real>, v: real)
    ensures AtMost(Insert(x, s), v) == AtMost(s, v) + if x <= v then 1 else 0
  {
    if s != [] && x < s[0] {
      InsertAtMost(x, s[1..], v);
    }
  }

  lemma {:induction false} SortedAtMost(s: seq<real>, v: real)
    ensures AtMost(Sorted(s), v) == AtMost(s, v)
  {
    if s != [] {
      SortedAtMost(s[1..], v);
      InsertAtMost(s[0], Sorted(s[1..]), v);
    }
  }

  /** In descending order, q elements come before the q-th: those after it are at most as great, those before at
      least. */
  lemma {:induction false} Rank(d: seq<real>, q: nat, v: real)
    requires Descending(d) && q < |d|
    ensures d[q] <= v ==> AtMost(d, v) >= |d| - q
    ensures d[q] > v ==> AtMost(d, v) <= |d| - 1 - q
  {
    if q > 0 {
      Rank(d[1..], q - 1, v);
    } else if d[0] <= v {
      AllAtMost(d, v);
    }
  }

  lemma {:induction false} AllAtMost(d: seq<real>, v: real)
    requires forall i :: 0 <= i < |d| ==> d[i] <= v
    ensures AtMost(d, v) == |d|
  {
    if d != [] {
      AllAtMost(d[1..], v);
    }
  }

  /** Every sorted element was there before. */
  lemma SortedElement(s: seq<int>, q: nat) returns (k: nat)
    requires q < |Sorted(Reals(s))|
    ensures k < |s| && Sorted(Reals(s))[q] == s[k] as real
  {
    var d := Sorted(Reals(s));
    SortedSorts(Reals(s));
    assert d[q] in multiset(d);
    assert d[q] in Reals(s);
    k :| 0 <= k < |s| && Reals(s)[k] == d[q];
  }

  /** What is left to place: elements equal to v go to the slots below count[v]; those placed are above. */
  ghost predicate Placing(s: seq<int>, i: nat, count: seq<int>, out: seq<int>) {
    && i <= |s| == |out|
    && (forall v :: 0 <= v < |count| ==> count[v] == UpTo(s, v) - Count(s[i..], v))
    && (forall v, p :: 0 <= v < |count| && 0 <= p < |out| && count[v] <= p < UpTo(s, v) ==> out[p] == v)
  }

  /** The slot for s[i - 1] is in range, and no other element's. */
  lemma {:induction false} PlaceStep(s: seq<int>, i: nat, count: seq<int>, out: seq<int>)
    requires 0 < i && Placing(s, i, count, out) && 0 <= s[i - 1] < |count|
    requires forall k :: 0 <= k < |s| ==> s[k] >= 0
    ensures 0 < count[s[i - 1]] <= |out|
    ensures Placing(s, i - 1, count[s[i - 1] := count[s[i - 1]] - 1], out[count[s[i - 1]] - 1 := s[i - 1]])
  {
    var x := s[i - 1];
    CountSuffix(s, i, x);
    CountUpTo(s, x);
    var slot := count[x] - 1;
    var count' := count[x := slot];
    forall v | 0 <= v < |count|
      ensures count'[v] == UpTo(s, v) - Count(s[i - 1..], v)
      ensures v < x ==> UpTo(s, v) <= slot
      ensures v > x ==> slot < count[v]
    {
      CountSuffix(s, i, v);
      CountUpTo(s, v);
      if v < x {
        UpToMonotone(s, v, x - 1);
      } else {
        UpToMonotone(s, x, v - 1);
      }
    }
  }

  lemma {:induction false} UpToMonotone(s: seq<int>, v: int, w: int)
    ensures v <= w ==> UpTo(s, v) <= UpTo(s, w)
  {
    if s != [] {
      UpToMonotone(s[1..], v, w);
    }
  }

  lemma {:induction false} AllPlaced(s: seq<int>, count: seq<int>, out: seq<int>, p: nat)
    requires Placing(s, 0, count, out) && p < |s| && forall k :: 0 <= k < |s| ==> 0 <= s[k] < |count|
    ensures |Sorted(Reals(s))| == |s| && out[p] as real == Sorted(Reals(s))[|s| - 1 - p]
  {
    var d, q := Sorted(Reals(s)), |s| - 1 - p;
    SortedSorts(Reals(s));
    assert |d| == |multiset(d)| == |multiset(Reals(s))| == |s|;
    var k := SortedElement(s, q);
    var v := s[k];
    assert s[0..] == s;
    CountUpTo(s, v);
    UpToAtMost(s, v);
    UpToAtMost(s, v - 1);
    SortedAtMost(Reals(s), v as real);
    SortedAtMost(Reals(s), (v - 1) as real);
    Rank(d, q, v as real);
    Rank(d, q, (v - 1) as real);
  }

  /** The running sums of the counts. */
  method Accumulate(nums: array<int>, count: array<int>)
    requires nums != count && count.Length > 0 && count[0] == UpTo(nums[..], 0)
    requires forall v :: 0 <= v < count.Length ==> count[v] == Count(nums[..], v)
    modifies count
    ensures nums[..] == old(nums[..]) && forall v :: 0 <= v < count.Length ==> count[v] == UpTo(nums[..], v)
  {
    ghost var s := nums[..];
    for i := 1 to count.Length
      invariant nums[..] == s
      invariant forall v :: 0 <= v < i ==> count[v] == UpTo(s, v)
      invariant forall v :: i <= v < count.Length ==> count[v] == Count(s, v)
    {
      CountUpTo(s, i);
      count[i] := count[i] + count[i - 1];
    }
  }

  /** The placing loop, from the last element to the first. */
  method PlaceAll(nums: array<int>, count: array<int>) returns (out: array<int>)
    requires nums != count && forall v :: 0 <= v < count.Length ==> count[v] == UpTo(nums[..], v)
    requires forall k :: 0 <= k < nums.Length ==> 0 <= nums[k] < count.Length
    modifies count
    ensures fresh(out) && nums[..] == old(nums[..]) && Placing(nums[..], 0, count[..], out[..])
  {
    hide Placing; hide UpTo;
    ghost var s := nums[..];
    out := new int[nums.Length](_ => 0);
    NothingPlaced(s, count[..], out[..]);
    var i := nums.Length - 1;
    while i >= 0
      invariant -1 <= i < nums.Length && nums[..] == s
      invariant Placing(s, i + 1, count[..], out[..])
    {
      ghost var c, o, x := count[..], out[..], s[i];
      PlaceStep(s, i + 1, c, o);
      out[count[nums[i]] - 1] := nums[i];
      count[nums[i]] := count[nums[i]] - 1;
      assert count[..] == c[x := c[x] - 1] && out[..] == o[c[x] - 1 := x];
      i := i - 1;
    }
  }

  method SortAll(nums: array<int>) returns (out: array<int>)
    requires nums.Length > 0
    requires forall k :: 0 <= k < nums.Length ==> nums[k] >= 0
    ensures fresh(out) && out.Length == nums.Length == |Sorted(Reals(nums[..]))|
    ensures forall p :: 0 <= p < out.Length ==> out[p] as real == Sorted(Reals(nums[..]))[out.Length - 1 - p]
  {
    ghost var s := nums[..];
    var max := Max(nums);
    var count := Tally(nums, max);
    Accumulate(nums, count);
    out := PlaceAll(nums, count);
    SameLength(s, count[..], out[..]);
    forall p | 0 <= p < out.Length
      ensures out[..][p] as real == Sorted(Reals(s))[out.Length - 1 - p]
    {
      AllPlaced(s, count[..], out[..], p);
    }
  }

  lemma SameLength(s: seq<int>, count: seq<int>, out: seq<int>)
    requires Placing(s, 0, count, out)
    ensures |out| == |s| == |Sorted(Reals(s))|
  {
    SortedSorts(Reals(s));
    assert |Sorted(Reals(s))| == |multiset(Sorted(Reals(s)))| == |multiset(Reals(s))| == |s|;
  }

  lemma NothingPlaced(s: seq<int>, count: seq<int>, out: seq<int>)
    requires |out| == |s| && forall v :: 0 <= v < |count| ==> count[v] == UpTo(s, v)
    ensures Placing(s, |s|, count, out)
  {
  }

  method Max(nums: array<int>) returns (max: int)
    requires nums.Length > 0 && forall k :: 0 <= k < nums.Length ==> nums[k] >= 0
    ensures 0 <= max && forall k :: 0 <= k < nums.Length ==> nums[k] <= max
  {
    max := 0;
    for i := 0 to nums.Length
      invariant 0 <= max && forall k :: 0 <= k < i ==> nums[k] <= max
    {
      max := if max < nums[i] then nums[i] else max;
    }
  }

  method Tally(nums: array<int>, max: nat) returns (count: array<int>)
    requires forall k :: 0 <= k < nums.Length ==> 0 <= nums[k] <= max
    ensures fresh(count) && count.Length == max + 1
    ensures forall v :: 0 <= v <= max ==> count[v] == Count(nums[..], v)
    ensures count[0] == UpTo(nums[..], 0)
  {
    ghost var s := nums[..];
    count := new int[max + 1](_ => 0);
    for i := 0 to nums.Length
      invariant nums[..] == s
      invariant forall v :: 0 <= v <= max ==> count[v] == Count(s[..i], v)
    {
      forall v: int
        ensures Count(s[..i + 1], v) == Count(s[..i], v) + if s[i] == v then 1 else 0
      {
        CountNext(s, i, v);
      }
      count[nums[i]] := count[nums[i]] + 1;
    }
    assert s[..nums.Length] == s;
    NoneBelow(s, -1);
    CountUpTo(s, 0);
  }
}
