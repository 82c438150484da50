/** l_shellsort of src/sort.c. Sorting with one interval keeps the array ordered with every interval it was ordered
    with. */
module ShellSort {
  import opened Sizes
  import opened Sorting

  /** Elements k apart are in order. */
  ghost predicate Ordered(s: seq<real>, k: nat) {
    forall x :: 0 <= x && x + k < |s| ==> s[x] >= s[x + k]
  }

  // ---- Chains: the positions that are whole intervals apart ----

  /** x % h */
  function Chain(x: nat, h: nat): (c: nat)
    requires 0 < h
    ensures c < h
  {
    if x < h then x else Chain(x - h, h)
  }

  lemma {:induction false} ChainNext(x: nat, h: nat)
    requires 0 < h
    ensures Chain(x + 1, h) == if Chain(x, h) + 1 == h then 0 else Chain(x, h) + 1
    decreases x
  {
    if x >= h {
      ChainNext(x - h, h);
    }
  }

  /** Two positions are on one chain exactly when they are on one chain after both are moved by k. */
  lemma {:induction false} ChainShift(x: nat, y: nat, k: nat, h: nat)
    requires 0 < h
    ensures Chain(x, h) == Chain(y, h) <==> Chain(x + k, h) == Chain(y + k, h)
    decreases k
  {
    if k > 0 {
      ChainShift(x, y, k - 1, h);
      ChainNext(x + k - 1, h);
      ChainNext(y + k - 1, h);
    }
  }

  /** In an array ordered with interval h, each chain is in order. */
  lemma {:induction false} ChainOrdered(s: seq<real>, h: nat, x: nat, y: nat)
    requires 0 < h && Ordered(s, h) && x <= y < |s| && Chain(x, h) == Chain(y, h)
    ensures s[x] >= s[y]
    decreases y
  {
    if x < y {
      if y < h {
        assert Chain(x, h) == x && Chain(y, h) == y;
      } else {
        if x > y - h {
          Apart(x, y, h);
        }
        ChainOrdered(s, h, x, y - h);
        assert s[y - h] >= s[y - h + h];
      }
    }
  }

  /** Distinct positions of one chain are at least h apart. */
  lemma {:induction false} Apart(x: nat, y: nat, h: nat)
    requires 0 < h && x < y && Chain(x, h) == Chain(y, h)
    ensures x + h <= y
    decreases x
  {
    if x >= h {
      Apart(x - h, y - h, h);
    }
  }

  // ---- A pass moves elements along their chains only ----

  /** p[x] is where the element at x came from, r its inverse. */
  ghost predicate AlongChains(s: seq<real>, t: seq<real>, p: seq<nat>, r: seq<nat>, h: nat)
    requires 0 < h
  {
    && |s| == |t| == |p| == |r|
    && (forall x :: 0 <= x < |t| ==> p[x] < |s| && t[x] == s[p[x]] && Chain(p[x], h) == Chain(x, h) && r[p[x]] == x)
    && (forall x :: 0 <= x < |s| ==> r[x] < |s| && p[r[x]] == x)
  }

  /** The positions up to x on the chain of x, from k on. */
  ghost function Upto(x: nat, h: nat, k: nat): set<nat>
    requires 0 < h
  {
    set q: nat | q <= x && k <= q && Chain(q, h) == Chain(x, h)
  }

  function Plus(q: nat, k: nat): nat {
    q + k
  }

  /** Moving by k takes the positions up to x into the positions from k up to x + k. */
  lemma UptoShift(x: nat, h: nat, k: nat)
    requires 0 < h
    ensures |Upto(x, h, 0)| <= |Upto(x + k, h, k)|
  {
    var m := map q | q in Upto(x, h, 0) :: Plus(q, k);
    forall q | q in m
      ensures m[q] in Upto(x + k, h, k)
    {
      ChainShift(q, x, k, h);
    }
    InjectionSize(m, Upto(x + k, h, k));
    assert m.Keys == Upto(x, h, 0);
  }

  /** The positions of Upto(x + k, h, 0) whose elements came from k or beyond: k before where they came from, each has
      an element at least as great, on the chain of x. */
  lemma {:induction false} KeepsOrderAt(s: seq<real>, t: seq<real>, p: seq<nat>, r: seq<nat>, h: nat, k: nat, x: nat)
    requires 0 < h && AlongChains(s, t, p, r, h) && Ordered(t, h) && Ordered(s, k) && x + k < |s|
    ensures t[x] >= t[x + k]
  {
    var all, above := Upto(x + k, h, 0), Upto(x + k, h, k);
    var low := set q | q in all && p[q] < k;
    LowSources(s, t, p, r, h, k, x, low);
    UptoShift(x, h, k);
    assert |all| == |low| + |all - low|;
    assert |all| == |all - above| + |above|;
    if t[x] < t[x + k] {
      HighSources(s, t, p, r, h, k, x, all - low);
    }
  }

  lemma {:induction false} LowSources(s: seq<real>, t: seq<real>, p: seq<nat>, r: seq<nat>, h: nat, k: nat, x: nat,
                                      low: set<nat>)
    requires 0 < h && AlongChains(s, t, p, r, h) && x + k < |s|
    requires low <= Upto(x + k, h, 0) && forall q :: q in low ==> q < |p| && p[q] < k
    ensures |low| <= |Upto(x + k, h, 0) - Upto(x + k, h, k)|
  {
    var m := map q | q in low :: p[q];
    assert m.Keys == low;
    InjectionSize(m, Upto(x + k, h, 0) - Upto(x + k, h, k));
  }

  /** Where the element k before the source of q is now. */
  function Back(p: seq<nat>, r: seq<nat>, k: nat, q: nat): nat {
    if q < |p| && k <= p[q] < k + |r| then r[p[q] - k] else 0
  }

  lemma {:induction false} HighSource(s: seq<real>, t: seq<real>, p: seq<nat>, r: seq<nat>, h: nat, k: nat, x: nat,
                                      q: nat)
    requires 0 < h && AlongChains(s, t, p, r, h) && Ordered(t, h) && Ordered(s, k) && x + k < |s| && t[x] < t[x + k]
    requires q in Upto(x + k, h, 0) && p[q] >= k
    ensures Back(p, r, k, q) in Upto(x, h, 0) - {x}
  {
    var u := p[q] - k;
    ChainOrdered(t, h, q, x + k);
    assert s[u] >= s[u + k];
    ChainShift(u, x, k, h);
    var y := r[u];
    assert p[y] == u && Chain(p[y], h) == Chain(y, h);
    if y >= x {
      ChainOrdered(t, h, x, y);
    }
  }

  lemma {:induction false} BackInjective(s: seq<real>, t: seq<real>, p: seq<nat>, r: seq<nat>, h: nat, k: nat, a: nat,
                                         b: nat)
    requires 0 < h && AlongChains(s, t, p, r, h) && a < |p| && b < |p| && p[a] >= k && p[b] >= k
    requires Back(p, r, k, a) == Back(p, r, k, b)
    ensures a == b
  {
    assert p[r[p[a] - k]] == p[a] - k && p[r[p[b] - k]] == p[b] - k;
    assert r[p[a]] == a && r[p[b]] == b;
  }

  lemma {:induction false} HighSources(s: seq<real>, t: seq<real>, p: seq<nat>, r: seq<nat>, h: nat, k: nat, x: nat,
                                       high: set<nat>)
    requires 0 < h && AlongChains(s, t, p, r, h) && Ordered(t, h) && Ordered(s, k) && x + k < |s| && t[x] < t[x + k]
    requires high <= Upto(x + k, h, 0) && forall q :: q in high ==> q < |p| && p[q] >= k
    ensures |high| < |Upto(x, h, 0)|
  {
    hide Upto; hide Ordered; hide AlongChains; hide Back;
    var m := map q | q in high :: Back(p, r, k, q);
    forall q | q in m
      ensures m[q] in Upto(x, h, 0) - {x}
    {
      HighSource(s, t, p, r, h, k, x, q);
    }
    forall a, b | a in m && b in m && m[a] == m[b]
      ensures a == b
    {
      BackInjective(s, t, p, r, h, k, a, b);
    }
    assert m.Keys == high;
    XUpto(x, h);
    InjectionSize(m, Upto(x, h, 0) - {x});
  }

  lemma XUpto(x: nat, h: nat)
    requires 0 < h
    ensures x in Upto(x, h, 0)
  {
  }

  lemma KeepsOrder(s: seq<real>, t: seq<real>, p: seq<nat>, r: seq<nat>, h: nat, k: nat)
    requires 0 < h && AlongChains(s, t, p, r, h) && Ordered(t, h) && Ordered(s, k)
    ensures Ordered(t, k)
  {
    forall x | 0 <= x && x + k < |t|
      ensures t[x] >= t[x + k]
    {
      KeepsOrderAt(s, t, p, r, h, k, x);
    }
  }

  // ---- One pass, and the whole sort ----

  /** The element being inserted is at j; but for it, s[..i + 1] is ordered. */
  ghost predicate OrderedBut(s: seq<real>, h: nat, i: nat, j: nat) {
    && i < |s|
    && (forall x :: 0 <= x && x + h <= i && x + h != j ==> s[x] >= s[x + h])
    && (h <= j && j + h <= i ==> s[j - h] >= s[j + h])
  }

  ghost predicate OrderedTo(s: seq<real>, h: nat, i: nat) {
    i <= |s| && forall x :: 0 <= x && x + h < i ==> s[x] >= s[x + h]
  }

  /** s with the elements at j and j - h exchanged. */
  function Exchanged(s: seq<real>, j: nat, h: nat): seq<real>
    requires h <= j < |s|
  {
    s[j := s[j - h]][j - h := s[j]]
  }

  lemma ShiftStep(s: seq<real>, h: nat, i: nat, j: nat)
    requires 0 < h <= j <= i && OrderedBut(s, h, i, j) && s[j - h] < s[j]
    ensures OrderedBut(Exchanged(s, j, h), h, i, j - h)
  {
    var t := Exchanged(s, j, h);
    forall x | 0 <= x && x + h <= i && x + h != j - h
      ensures t[x] >= t[x + h]
    {
      if x == j {
        assert s[j - h] >= s[j + h];
      }
    }
    if h <= j - h {
      assert s[j - h - h] >= s[j - h - h + h];
    }
  }

  lemma ChainsSwapped(s: seq<real>, t: seq<real>, p: seq<nat>, r: seq<nat>, h: nat, j: nat)
    returns (p': seq<nat>, r': seq<nat>)
    requires 0 < h <= j < |t| && AlongChains(s, t, p, r, h)
    ensures AlongChains(s, Exchanged(t, j, h), p', r', h)
  {
    assert Chain(j, h) == Chain(j - h, h);
    p' := p[j := p[j - h]][j - h := p[j]];
    r' := r[p[j - h] := j][p[j] := j - h];
  }

  lemma ChainsStart(s: seq<real>, h: nat)
    requires 0 < h
    ensures var p: seq<nat> := seq(|s|, x requires 0 <= x < |s| => x); AlongChains(s, s, p, p, h)
  {
  }

  lemma InsertStarts(s: seq<real>, h: nat, i: nat)
    requires i < |s| && OrderedTo(s, h, i)
    ensures OrderedBut(s, h, i, i)
  {
  }

  lemma InsertEnds(s: seq<real>, h: nat, i: nat, j: nat)
    requires OrderedBut(s, h, i, j) && j <= i && (j < h || s[j - h] >= s[j])
    ensures OrderedTo(s, h, i + 1)
  {
  }

  lemma ExchangeRearranges(s0: seq<real>, s: seq<real>, j: nat, h: nat)
    requires 0 < h <= j < |s| && Rearranged(s0, s, 0, |s|)
    ensures Rearranged(s0, Exchanged(s, j, h), 0, |s|)
  {
    SwapRearranges(s, j, j - h, 0, |s|);
    RearrangedTrans(s0, s, Exchanged(s, j, h), 0, |s|);
  }

  /** The loop body that inserts element i into its chain. In v, the element being inserted is already at j. */
  method Place(a: array<real>, h: nat, i: nat, ghost s0: seq<real>, ghost p0: seq<nat>, ghost r0: seq<nat>)
    returns (ghost p: seq<nat>, ghost r: seq<nat>)
    requires 0 < h <= i < a.Length && OrderedTo(a[..], h, i)
    requires Rearranged(s0, a[..], 0, a.Length) && AlongChains(s0, a[..], p0, r0, h)
    modifies a
    ensures OrderedTo(a[..], h, i + 1)
    ensures Rearranged(s0, a[..], 0, a.Length) && AlongChains(s0, a[..], p, r, h)
  {
    hide Rearranged; hide OrderedBut; hide OrderedTo; hide AlongChains;
    p, r := p0, r0;
    ghost var v := a[..];
    InsertStarts(v, h, i);
    var temp := a[i];
    var j := i;
    while j >= h && a[j - h] < temp
      invariant j <= i && v == a[..][j := temp]
      invariant OrderedBut(v, h, i, j) && Rearranged(s0, v, 0, |v|) && AlongChains(s0, v, p, r, h)
      decreases j
    {
      ShiftStep(v, h, i, j);
      p, r := ChainsSwapped(s0, v, p, r, h, j);
      ExchangeRearranges(s0, v, j, h);
      a[j] := a[j - h];
      v := Exchanged(v, j, h);
      j := j - h;
      assert v == a[..][j := temp];
    }
    InsertEnds(v, h, i, j);
    a[j] := temp;
    assert a[..] == v;
  }

  /** One interval of the outer loop. */
  method Pass(a: array<real>, h: nat)
    requires 0 < h
    modifies a
    ensures Ordered(a[..], h)
    ensures Rearranged(old(a[..]), a[..], 0, a.Length)
    ensures forall k :: Ordered(old(a[..]), k) ==> Ordered(a[..], k)
  {
    hide AlongChains; hide Rearranged; hide OrderedBut; hide OrderedTo; hide Ordered;
    ghost var s0 := a[..];
    ghost var p: seq<nat> := seq(|s0|, x requires 0 <= x < |s0| => x);
    ghost var r: seq<nat> := p;
    Unmoved(s0, 0, a.Length);
    ChainsStart(s0, h);
    FirstOrdered(s0, h);
    var i := h;
    while i < a.Length
      invariant h <= i
      invariant OrderedTo(a[..], h, if i <= a.Length then i else a.Length)
      invariant Rearranged(s0, a[..], 0, a.Length) && AlongChains(s0, a[..], p, r, h)
    {
      p, r := Place(a, h, i, s0, p, r);
      i := i + 1;
    }
    AllOrdered(a[..], h, i);
    forall k | Ordered(s0, k)
      ensures Ordered(a[..], k)
    {
      KeepsOrder(s0, a[..], p, r, h, k);
    }
  }

  lemma FirstOrdered(s: seq<real>, h: nat)
    ensures OrderedTo(s, h, if h <= |s| then h else |s|)
  {
  }

  lemma AllOrdered(s: seq<real>, h: nat, i: nat)
    requires OrderedTo(s, h, if i <= |s| then i else |s|) && i >= |s|
    ensures Ordered(s, h)
  {
  }

  /** The interval loop of l_shellsort. */
  method SortAll(a: array<real>)
    requires a.Length > 0
    modifies a
    ensures a[..] == Sorted(old(a[..]))
  {
    hide Rearranged; hide Ordered;
    ghost var s0 := a[..];
    Unmoved(s0, 0, a.Length);
    OneOrdered(s0);
    var interval := a.Length / 2;
    // The intervals done so far; the array stays ordered with each of them.
    ghost var done: set<nat> := {};
    while interval > 0
      invariant Rearranged(s0, a[..], 0, a.Length)
      invariant forall k :: k in done ==> Ordered(a[..], k)
      invariant 0 <= interval && (interval == 0 ==> Ordered(a[..], 1))
      decreases interval
    {
      ghost var s := a[..];
      Pass(a, interval);
      RearrangedTrans(s0, s, a[..], 0, a.Length);
      done := done + {interval};
      interval := interval / 2;
    }
    OrderedSorted(s0, a[..]);
  }

  lemma OneOrdered(s: seq<real>)
    ensures |s| == 1 ==> Ordered(s, 1)
  {
  }

  lemma OrderedSorted(s: seq<real>, t: seq<real>)
    requires Ordered(t, 1) && Rearranged(s, t, 0, |s|)
    ensures t == Sorted(s)
  {
    forall i, j | 0 <= i < j < |t|
      ensures t[i] >= t[j]
    {
      OneApart(t, i, j);
    }
    assert t[0..|s|] == t;
    WholeSorted(s, t);
  }

  lemma {:induction false} OneApart(t: seq<real>, i: nat, j: nat)
    requires Ordered(t, 1) && i <= j < |t|
    ensures t[i] >= t[j]
    decreases j
  {
    if i < j {
      OneApart(t, i, j - 1);
      assert t[j - 1] >= t[j - 1 + 1];
    }
  }
}
