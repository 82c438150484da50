/** l_bubblesort of src/sort.c, whose passes end where the last swap of the pass before was. */
module BubbleSort {
  import opened Sorting

  /** From position n on, everything is at most everything before it. */
  ghost predicate Settled(s: seq<real>, n: nat, end: nat) {
    end <= |s| && forall x, y :: 0 <= x < y < end && n <= y ==> s[x] >= s[y]
  }

  method SortAll(a: array<real>)
    requires a.Length > 0
    modifies a
    ensures a[..] == Sorted(old(a[..]))
  {
    hide Rearranged;
    ghost var s0 := a[..];
    Unmoved(s0, 0, a.Length);
    var n := a.Length;
    while n > 0
      invariant 0 <= n <= a.Length
      invariant Settled(a[..], n, a.Length) && Rearranged(s0, a[..], 0, a.Length)
    {
      var new_ := 0;
      var i := 0;
      ghost var s := a[..];
      Unmoved(s, 0, n);
      while i != n - 1
        invariant 0 <= new_ <= i < n
        invariant Settled(a[..], new_, i + 1) && Rearranged(s, a[..], 0, n)
        decreases n - i
      {
        if a[i + 1] > a[i] {
          SwapSettles(a[..], new_, i);
          Swap(a, i, i + 1, s, 0, n);
          new_ := i + 1;
        } else {
          NoSwapSettles(a[..], new_, i);
        }
        i := i + 1;
      }
      PassSettles(s, a[..], new_, n);
      RearrangedWider(s, a[..], 0, n, 0, a.Length);
      RearrangedTrans(s0, s, a[..], 0, a.Length);
      n := new_;
    }
    SettledSorted(s0, a[..]);
  }

  lemma SwapSettles(s: seq<real>, n: nat, i: nat)
    requires n <= i && i + 1 < |s| && Settled(s, n, i + 1) && s[i + 1] > s[i]
    ensures Settled(s[i := s[i + 1]][i + 1 := s[i]], i + 1, i + 2)
  {
  }

  lemma NoSwapSettles(s: seq<real>, n: nat, i: nat)
    requires n <= i && i + 1 < |s| && Settled(s, n, i + 1) && s[i + 1] <= s[i]
    ensures Settled(s, n, i + 2)
  {
  }

  /** What a pass settles joins what was settled before. */
  lemma PassSettles(s: seq<real>, t: seq<real>, new_: nat, n: nat)
    requires new_ < n <= |s| && Settled(s, n, |s|) && Settled(t, new_, n) && Rearranged(s, t, 0, n)
    ensures Settled(t, new_, |t|)
  {
    forall x, y | 0 <= x < y < |t| && new_ <= y
      ensures t[x] >= t[y]
    {
      if y >= n {
        assert t[n..][y - n] == s[n..][y - n];
        if x < n {
          var x' := RearrangedElement(s, t, 0, n, x);
        } else {
          assert t[n..][x - n] == s[n..][x - n];
        }
      }
    }
  }

  lemma SettledSorted(s: seq<real>, t: seq<real>)
    requires Settled(t, 0, |t|) && Rearranged(s, t, 0, |s|)
    ensures t == Sorted(s)
  {
    assert t[0..|s|] == t;
    WholeSorted(s, t);
  }
}
