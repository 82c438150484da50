/** i_merge and i_mergesort of src/sort.c. */
module MergeSort {
  import opened Sorting

  /** The merge of two descending sequences; equal elements come from the left one first. */
  function Merged(l: seq<real>, r: seq<real>): (m: seq<real>)
    ensures |m| == |l| + |r|
  {
    if l == [] then r
    else if r == [] then l
    else if l[0] >= r[0] then [l[0]] + Merged(l[1..], r)
    else [r[0]] + Merged(l, r[1..])
  }

  lemma {:induction false} MergedPerm(l: seq<real>, r: seq<real>)
    ensures multiset(Merged(l, r)) == multiset(l) + multiset(r)
  {
    if l != [] && r != [] {
      if l[0] >= r[0] {
        HeadCounted(l);
        MergedPerm(l[1..], r);
      } else {
        HeadCounted(r);
        MergedPerm(l, r[1..]);
      }
    }
  }

  lemma HeadCounted(s: seq<real>)
    requires s != []
    ensures multiset(s) == multiset{s[0]} + multiset(s[1..])
  {
    assert s == [s[0]] + s[1..];
  }

  lemma {:induction false} MergedDescending(l: seq<real>, r: seq<real>)
    requires Descending(l) && Descending(r)
    ensures Descending(Merged(l, r))
  {
    if l != [] && r != [] {
      var x, t := l[0], Merged(l[1..], r);
      HeadCounted(l);
      HeadCounted(r);
      if l[0] >= r[0] {
        MergedDescending(l[1..], r);
        MergedPerm(l[1..], r);
      } else {
        x, t := r[0], Merged(l, r[1..]);
        MergedDescending(l, r[1..]);
        MergedPerm(l, r[1..]);
      }
      HeadGreatest(x, t, l, r);
      ConsDescending(x, t);
    }
  }

  lemma HeadGreatest(x: real, t: seq<real>, l: seq<real>, r: seq<real>)
    requires l != [] && r != [] && Descending(l) && Descending(r) && x >= l[0] && x >= r[0]
    requires multiset(t) <= multiset(l) + multiset(r)
    ensures forall i :: 0 <= i < |t| ==> x >= t[i]
  {
    forall i | 0 <= i < |t|
      ensures x >= t[i]
    {
      assert t[i] in multiset(t);
      assert t[i] in l || t[i] in r;
    }
  }

  lemma MergedNext(l: seq<real>, r: seq<real>, i: nat, j: nat)
    requires i <= |l| && j <= |r|
    ensures i < |l| && (j == |r| || l[i] >= r[j]) ==> Merged(l[i..], r[j..]) == [l[i]] + Merged(l[i + 1..], r[j..])
    ensures j < |r| && (i == |l| || l[i] < r[j]) ==> Merged(l[i..], r[j..]) == [r[j]] + Merged(l[i..], r[j + 1..])
  {
    if i < |l| {
      assert l[i..][1..] == l[i + 1..] && l[i..] == [l[i]] + l[i + 1..];
    }
    if j < |r| {
      assert r[j..][1..] == r[j + 1..] && r[j..] == [r[j]] + r[j + 1..];
    }
  }

  /** s[b..k] and what is still to come make up the whole; the rest of s is as in s0. */
  ghost predicate Filled(s0: seq<real>, s: seq<real>, b: nat, k: nat, e: nat, left: seq<real>, whole: seq<real>) {
    && b <= k <= e <= |s| == |s0| && s[..b] == s0[..b] && s[e..] == s0[e..]
    && s[b..k] + left == whole
  }

  /** arr[k] = x */
  method WriteNext(a: array<real>, k: nat, x: real, ghost s0: seq<real>, ghost b: nat, ghost e: nat,
                   ghost left: seq<real>, ghost whole: seq<real>)
    requires k < e && Filled(s0, a[..], b, k, e, [x] + left, whole)
    modifies a
    ensures Filled(s0, a[..], b, k + 1, e, left, whole)
  {
    ghost var s := a[..];
    a[k] := x;
    assert a[..] == s[k := x];
    assert a[..][b..k + 1] == s[b..k] + [x];
  }

  /** malloc and the copying loop */
  method Copy(a: array<real>, from: nat, n: nat) returns (c: array<real>)
    requires from + n <= a.Length
    ensures fresh(c) && c[..] == a[from..from + n]
  {
    c := new real[n];
    for i := 0 to n
      invariant a[..] == old(a[..])
      invariant forall x :: 0 <= x < i ==> c[x] == a[from + x]
    {
      c[i] := a[from + i];
    }
  }

  /** Copies what is left of one side. */
  method Drain(a: array<real>, k: nat, side: array<real>, i: nat, ghost s0: seq<real>, ghost b: nat, ghost e: nat,
               ghost tail: seq<real>, ghost whole: seq<real>)
    requires a != side && i <= side.Length && k + side.Length - i <= e
    requires Filled(s0, a[..], b, k, e, side[..][i..] + tail, whole)
    modifies a
    ensures side[..] == old(side[..]) && Filled(s0, a[..], b, k + side.Length - i, e, tail, whole)
  {
    hide Filled;
    ghost var sd := side[..];
    for x := i to side.Length
      invariant side[..] == sd
      invariant Filled(s0, a[..], b, k + x - i, e, sd[x..] + tail, whole)
    {
      assert sd[x..] + tail == [sd[x]] + (sd[x + 1..] + tail);
      WriteNext(a, k + x - i, side[x], s0, b, e, sd[x + 1..] + tail, whole);
    }
    assert sd[side.Length..] + tail == tail;
  }

  /** The loop that compares the fronts of both sides, until one is used up. */
  method CompareFronts(a: array<real>, b: nat, left: array<real>, right: array<real>, ghost e: nat)
    returns (lInd: nat, rInd: nat, k: nat)
    requires a != left && a != right && b + left.Length + right.Length == e <= a.Length
    modifies a
    ensures lInd <= left.Length && rInd <= right.Length && k == b + lInd + rInd
    ensures lInd == left.Length || rInd == right.Length
    ensures left[..] == old(left[..]) && right[..] == old(right[..])
    ensures Filled(old(a[..]), a[..], b, k, e, Merged(left[..][lInd..], right[..][rInd..]), Merged(left[..], right[..]))
  {
    hide Merged; hide Filled;
    ghost var s0, l, r := a[..], left[..], right[..];
    ghost var all := Merged(l, r);
    FilledFrom(s0, b, e, l, r);
    lInd, rInd, k := 0, 0, b;
    while lInd < left.Length && rInd < right.Length
      invariant lInd <= |l| && rInd <= |r| && k == b + lInd + rInd
      invariant Filled(s0, a[..], b, k, e, Merged(l[lInd..], r[rInd..]), all)
      invariant left[..] == l && right[..] == r
    {
      MergedNext(l, r, lInd, rInd);
      if left[lInd] >= right[rInd] {
        WriteNext(a, k, left[lInd], s0, b, e, Merged(l[lInd + 1..], r[rInd..]), all);
        lInd := lInd + 1;
      } else {
        WriteNext(a, k, right[rInd], s0, b, e, Merged(l[lInd..], r[rInd + 1..]), all);
        rInd := rInd + 1;
      }
      k := k + 1;
    }
  }

  method Merge(a: array<real>, b: nat, m: nat, e: nat)
    requires b <= m < e < a.Length
    modifies a
    ensures a[..] == old(a[..b]) + Merged(old(a[b..m + 1]), old(a[m + 1..e + 1])) + old(a[e + 1..])
  {
    hide Merged; hide Filled;
    var n1 := m - b + 1;
    var n2 := e - m;
    var left := Copy(a, b, n1);
    var right := Copy(a, m + 1, n2);
    ghost var s0, l, r := a[..], left[..], right[..];
    ghost var all := Merged(l, r);
    var lInd, rInd, k := CompareFronts(a, b, left, right, e + 1);
    MergedEnd(l, r, lInd, rInd);
    Drain(a, k, left, lInd, s0, b, e + 1, r[rInd..] + [], all);
    Drain(a, k + n1 - lInd, right, rInd, s0, b, e + 1, [], all);
    FilledUp(s0, a[..], b, e + 1, all);
  }

  lemma MergedEnd(l: seq<real>, r: seq<real>, i: nat, j: nat)
    requires i <= |l| && j <= |r| && (i == |l| || j == |r|)
    ensures Merged(l[i..], r[j..]) == l[i..] + (r[j..] + [])
  {
    assert r[j..] + [] == r[j..];
    assert i == |l| ==> l[i..] + r[j..] == r[j..];
    assert j == |r| ==> l[i..] + r[j..] == l[i..];
  }

  lemma FilledFrom(s0: seq<real>, b: nat, e: nat, l: seq<real>, r: seq<real>)
    requires b <= e <= |s0|
    ensures Filled(s0, s0, b, b, e, Merged(l[0..], r[0..]), Merged(l, r))
  {
    assert l[0..] == l && r[0..] == r && s0[b..b] + Merged(l, r) == Merged(l, r);
  }

  lemma FilledUp(s0: seq<real>, s: seq<real>, b: nat, e: nat, whole: seq<real>)
    requires Filled(s0, s, b, e, e, [], whole)
    ensures s == s0[..b] + whole + s0[e..]
  {
    assert s == s[..b] + s[b..e] + s[e..];
    assert s[b..e] + [] == s[b..e];
  }

  lemma MergeSortsPart(s: seq<real>, t: seq<real>, b: nat, m: nat, e: nat)
    requires b <= m <= e <= |s| && Descending(s[b..m]) && Descending(s[m..e])
    requires t == s[..b] + Merged(s[b..m], s[m..e]) + s[e..]
    ensures Rearranged(s, t, b, e) && Descending(t[b..e])
  {
    hide Descending; hide Merged;
    MergedPerm(s[b..m], s[m..e]);
    MergedDescending(s[b..m], s[m..e]);
    assert t[b..e] == Merged(s[b..m], s[m..e]);
    assert s[b..e] == s[b..m] + s[m..e];
  }

  lemma HalvesSorted(s: seq<real>, t: seq<real>, u: seq<real>, v: seq<real>, b: nat, m: nat, e: nat)
    requires b <= m <= e && SortedPart(s, t, b, m) && SortedPart(t, u, m, e)
    requires v == u[..b] + Merged(u[b..m], u[m..e]) + u[e..]
    ensures SortedPart(s, v, b, e)
  {
    RearrangedWider(s, t, b, m, b, e);
    RearrangedWider(t, u, m, e, b, e);
    RearrangedTrans(s, t, u, b, e);
    assert u[b..m] == u[..m][b..] == t[..m][b..] == t[b..m];
    MergeSortsPart(u, v, b, m, e);
    RearrangedTrans(s, u, v, b, e);
  }

  method MergeSort(a: array<real>, b: nat, e: int)
    requires b <= e + 1 <= a.Length
    modifies a
    ensures SortedPart(old(a[..]), a[..], b, e + 1)
    decreases e - b
  {
    hide SortedPart; hide Merged;
    if b < e {
      var mid := (b + e) / 2;
      MergeSort(a, b, mid);
      ghost var t := a[..];
      MergeSort(a, mid + 1, e);
      ghost var u := a[..];
      Merge(a, b, mid, e);
      assert u[b..mid + 1] == u[..][b..mid + 1];
      HalvesSorted(old(a[..]), t, u, a[..], b, mid + 1, e + 1);
    } else {
      OneSorted(a[..], b, e + 1);
    }
  }

  /** l_mergesort, between reading the numbers from the Lua table and writing them back. */
  method SortAll(a: array<real>)
    requires a.Length > 0
    modifies a
    ensures a[..] == Sorted(old(a[..]))
  {
    MergeSort(a, 0, a.Length - 1);
    WholeSorted(old(a[..]), a[..]);
  }
}
