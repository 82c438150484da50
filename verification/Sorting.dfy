/** What the sorts of src/sort.c promise: the elements of the array, greatest first. Elements are reals: doubles
    without NaN, of which only the order matters. */
module Sorting {

  /** Greatest to least. */
  ghost predicate Descending(s: seq<real>) {
    forall i, j :: 0 <= i < j < |s| ==> s[i] >= s[j]
  }

  ghost predicate Perm(s: seq<real>, t: seq<real>) {
    multiset(s) == multiset(t)
  }

  /** A reference sort, by insertion. */
  function Insert(x: real, s: seq<real>): seq<real> {
    if s == [] || x >= s[0] then [x] + s else [s[0]] + Insert(x, s[1..])
  }

  function Sorted(s: seq<real>): seq<real> {
    if s == [] then [] else Insert(s[0], Sorted(s[1..]))
  }

  lemma {:induction false} InsertPerm(x: real, s: seq<real>)
    ensures multiset(Insert(x, s)) == multiset(s) + multiset{x}
  {
    if s != [] && x < s[0] {
      InsertPerm(x, s[1..]);
      assert s == [s[0]] + s[1..];
    }
  }

  lemma {:induction false} InsertDescending(x: real, s: seq<real>)
    requires Descending(s)
    ensures Descending(Insert(x, s))
  {
    if s != [] && x < s[0] {
      var t := Insert(x, s[1..]);
      InsertDescending(x, s[1..]);
      InsertPerm(x, s[1..]);
      forall i | 0 <= i < |t|
        ensures s[0] >= t[i]
      {
        assert t[i] in multiset(t);
        assert t[i] == x || t[i] in s[1..];
      }
      ConsDescending(s[0], t);
    } else if s != [] {
      ConsDescending(x, s);
    }
  }

  lemma ConsDescending(x: real, s: seq<real>)
    requires Descending(s) && forall i :: 0 <= i < |s| ==> x >= s[i]
    ensures Descending([x] + s)
  {
    assert forall i :: 0 < i < |s| + 1 ==> ([x] + s)[i] == s[i - 1];
  }

  lemma {:induction false} SortedSorts(s: seq<real>)
    ensures Descending(Sorted(s)) && Perm(Sorted(s), s)
  {
    if s != [] {
      SortedSorts(s[1..]);
      InsertPerm(s[0], Sorted(s[1..]));
      InsertDescending(s[0], Sorted(s[1..]));
      assert s == [s[0]] + s[1..];
    }
  }

  /** A descending arrangement of given elements is unique, so all sorts return the same. */
  lemma {:induction false} SortedIsUnique(s: seq<real>, t: seq<real>)
    requires Descending(s) && Descending(t) && Perm(s, t)
    ensures s == t
  {
    assert |s| == |multiset(s)| == |multiset(t)| == |t|;
    if s != [] {
      assert s[0] in multiset(t) && t[0] in multiset(s);
      assert s[0] == t[0];
      assert s == [s[0]] + s[1..] && t == [t[0]] + t[1..];
      assert multiset(s[1..]) == multiset(s) - multiset{s[0]};
      assert multiset(t[1..]) == multiset(t) - multiset{t[0]};
      SortedIsUnique(s[1..], t[1..]);
    }
  }

  /** Any descending rearrangement is the result of the reference sort. */
  lemma IsSorted(s: seq<real>, t: seq<real>)
    requires Descending(t) && Perm(t, s)
    ensures t == Sorted(s)
  {
    SortedSorts(s);
    SortedIsUnique(t, Sorted(s));
  }

  // ---- Rearranging part of an array ----

  /** t is s with the elements of s[lo..hi] in another order. */
  ghost predicate Rearranged(s: seq<real>, t: seq<real>, lo: nat, hi: nat) {
    lo <= hi <= |s| == |t| && s[..lo] == t[..lo] && s[hi..] == t[hi..] && Perm(s[lo..hi], t[lo..hi])
  }

  lemma RearrangedPerm(s: seq<real>, t: seq<real>, lo: nat, hi: nat)
    requires Rearranged(s, t, lo, hi)
    ensures Perm(s, t)
  {
    assert s == s[..lo] + s[lo..hi] + s[hi..] && t == t[..lo] + t[lo..hi] + t[hi..];
  }

  lemma RearrangedTrans(s: seq<real>, t: seq<real>, u: seq<real>, lo: nat, hi: nat)
    requires Rearranged(s, t, lo, hi) && Rearranged(t, u, lo, hi)
    ensures Rearranged(s, u, lo, hi)
  {
  }

  /** What is rearranged within a part is rearranged within the whole. */
  lemma RearrangedWider(s: seq<real>, t: seq<real>, lo: nat, hi: nat, lo': nat, hi': nat)
    requires Rearranged(s, t, lo, hi) && lo' <= lo && hi <= hi' <= |s|
    ensures Rearranged(s, t, lo', hi')
  {
    assert s[..lo'] == s[..lo][..lo'] && t[..lo'] == t[..lo][..lo'];
    assert s[hi'..] == s[hi..][hi' - hi..] && t[hi'..] == t[hi..][hi' - hi..];
    assert s[lo'..lo] == s[..lo][lo'..] && t[lo'..lo] == t[..lo][lo'..];
    assert s[hi..hi'] == s[hi..][..hi' - hi] && t[hi..hi'] == t[hi..][..hi' - hi];
    assert s[lo'..hi'] == s[lo'..lo] + s[lo..hi] + s[hi..hi'];
    assert t[lo'..hi'] == t[lo'..lo] + t[lo..hi] + t[hi..hi'];
  }

  lemma SwapRearranges(s: seq<real>, i: nat, j: nat, lo: nat, hi: nat)
    requires lo <= i < hi && lo <= j < hi && hi <= |s|
    ensures Rearranged(s, s[i := s[j]][j := s[i]], lo, hi)
  {
    var t := s[i := s[j]][j := s[i]];
    assert t[lo..hi] == s[lo..hi][i - lo := s[j]][j - lo := s[i]];
  }

  /** Every element of the rearranged part was there before. */
  lemma RearrangedElement(s: seq<real>, t: seq<real>, lo: nat, hi: nat, k: nat) returns (j: nat)
    requires Rearranged(s, t, lo, hi) && lo <= k < hi
    ensures lo <= j < hi && s[j] == t[k]
  {
    assert t[lo..hi][k - lo] in multiset(t[lo..hi]);
    assert t[k] in s[lo..hi];
    j :| lo <= j < hi && s[j] == t[k];
  }

  /** i_swap, within a part of the array that stays a rearrangement of what it was in s. */
  method Swap(a: array<real>, i: nat, j: nat, ghost s: seq<real>, ghost lo: nat, ghost hi: nat)
    requires lo <= i < hi && lo <= j < hi && hi <= a.Length && Rearranged(s, a[..], lo, hi)
    modifies a
    ensures a[..] == old(a[..])[i := old(a[j])][j := old(a[i])]
    ensures Rearranged(s, a[..], lo, hi)
  {
    SwapRearranges(a[..], i, j, lo, hi);
    ghost var t := a[..];
    var temp := a[i];
    a[i] := a[j];
    a[j] := temp;
    assert a[..] == t[i := t[j]][j := t[i]];
    RearrangedTrans(s, t, a[..], lo, hi);
  }

  lemma Unmoved(s: seq<real>, lo: nat, hi: nat)
    requires lo <= hi <= |s|
    ensures Rearranged(s, s, lo, hi)
  {
  }

  /** t is s with its part lo..hi sorted. */
  ghost predicate SortedPart(s: seq<real>, t: seq<real>, lo: nat, hi: nat) {
    Rearranged(s, t, lo, hi) && Descending(t[lo..hi])
  }

  lemma OneSorted(s: seq<real>, lo: nat, hi: nat)
    requires lo <= hi <= |s| && hi <= lo + 1
    ensures SortedPart(s, s, lo, hi)
  {
  }

  /** Sorting the whole array gives what the reference sort gives. */
  lemma WholeSorted(s: seq<real>, t: seq<real>)
    requires SortedPart(s, t, 0, |s|)
    ensures t == Sorted(s)
  {
    assert t[0..|s|] == t;
    RearrangedPerm(s, t, 0, |s|);
    IsSorted(s, t);
  }
}
