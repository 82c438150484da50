/** i_heapify and l_heapsort of src/sort.c: a heap with the least element at its root. */
module HeapSort {
  import opened Sorting

  /** c is a child of p. */
  predicate Child(p: nat, c: nat) {
    c == 2 * p + 1 || c == 2 * p + 2
  }

  /** Within s[..n], no parent from lo on is greater than its children. */
  ghost predicate Heap(s: seq<real>, n: nat, lo: nat) {
    n <= |s| && forall p: nat, c: nat {:trigger Child(p, c)} :: lo <= p && Child(p, c) && c < n ==> s[p] <= s[c]
  }

  /** The same, except that i may be greater than its children; its parent is not greater than its children. */
  ghost predicate HeapBut(s: seq<real>, n: nat, lo: nat, i: nat) {
    && n <= |s|
    && (forall p: nat, c: nat {:trigger Child(p, c)} :: lo <= p && p != i && Child(p, c) && c < n ==> s[p] <= s[c])
    && forall p: nat, c: nat {:trigger Child(p, i), Child(i, c)} ::
         lo <= p && Child(p, i) && Child(i, c) && c < n ==> s[p] <= s[c]
  }

  lemma SiftStep(s: seq<real>, n: nat, lo: nat, i: nat, j: nat)
    requires HeapBut(s, n, lo, i) && lo <= i < j < n && Child(i, j) && s[j] < s[i]
    requires forall c: nat {:trigger Child(i, c)} :: Child(i, c) && c < n ==> s[j] <= s[c]
    ensures HeapBut(s[i := s[j]][j := s[i]], n, lo, j)
  {
    var t := s[i := s[j]][j := s[i]];
    forall p: nat, c: nat {:trigger Child(p, c)} | lo <= p && p != j && Child(p, c) && c < n
      ensures t[p] <= t[c]
    {
      if c == i {
        assert Child(i, j);
      }
    }
    forall p: nat, c: nat {:trigger Child(p, j), Child(j, c)} | lo <= p && Child(p, j) && Child(j, c) && c < n
      ensures t[p] <= t[c]
    {
      assert p == i;
    }
  }

  lemma SiftDone(s: seq<real>, n: nat, lo: nat, i: nat)
    requires HeapBut(s, n, lo, i)
    requires forall c: nat {:trigger Child(i, c)} :: Child(i, c) && c < n ==> s[i] <= s[c]
    ensures Heap(s, n, lo)
  {
  }

  /** i_heapify: moves the element at i down to where it belongs. */
  method Heapify(a: array<real>, n: nat, i: nat, ghost lo: nat)
    requires lo <= i && n <= a.Length && HeapBut(a[..], n, lo, i)
    modifies a
    ensures Heap(a[..], n, lo) && Rearranged(old(a[..]), a[..], 0, n)
    decreases n - i
  {
    hide Rearranged; hide Heap; hide HeapBut;
    ghost var s := a[..];
    Unmoved(s, 0, n);
    var largest := i;
    var left := 2 * i + 1;
    var right := 2 * i + 2;
    if left < n && a[left] < a[largest] {
      largest := left;
    }
    if right < n && a[right] < a[largest] {
      largest := right;
    }
    if largest != i {
      SiftStep(s, n, lo, i, largest);
      Swap(a, i, largest, s, 0, n);
      ghost var t := a[..];
      Heapify(a, n, largest, lo);
      RearrangedTrans(s, t, a[..], 0, n);
    } else {
      SiftDone(s, n, lo, i);
    }
  }

  /** The root of a heap is its least element. */
  lemma {:induction false} RootLeast(s: seq<real>, n: nat, k: nat)
    requires Heap(s, n, 0) && k < n
    ensures s[0] <= s[k]
    decreases k
  {
    if k > 0 {
      var p := (k - 1) / 2;
      assert Child(p, k);
      RootLeast(s, n, p);
    }
  }

  /** The heap s[..n], and after it the elements taken out, which are the least ones, sorted. */
  ghost predicate Popping(s: seq<real>, n: nat) {
    && Heap(s, n, 0) && Descending(s[n..])
    && forall i, j :: 0 <= i < n <= j < |s| ==> s[i] >= s[j]
  }

  /** Taking the root out of the heap, before the last element is sifted down from the root. */
  lemma PopStep(s: seq<real>, i: nat)
    requires Popping(s, i + 1)
    ensures var t := s[i := s[0]][0 := s[i]];
            HeapBut(t, i, 0, 0) && Descending(t[i..]) && forall x, y :: 0 <= x < i <= y < |s| ==> t[x] >= t[y]
  {
    var t := s[i := s[0]][0 := s[i]];
    forall x | 0 <= x < i
      ensures t[x] >= t[i]
    {
      RootLeast(s, i + 1, if x == 0 then i else x);
    }
    assert t[i..] == [t[i]] + s[i + 1..];
    ConsDescending(t[i], s[i + 1..]);
  }

  /** Sifting within the heap does not disturb what was taken out. */
  lemma PopDone(s: seq<real>, t: seq<real>, n: nat)
    requires n <= |s| && Heap(t, n, 0) && Rearranged(s, t, 0, n) && Descending(s[n..])
    requires forall x, y :: 0 <= x < n <= y < |s| ==> s[x] >= s[y]
    ensures Popping(t, n)
  {
    forall x, y | 0 <= x < n <= y < |t|
      ensures t[x] >= t[y]
    {
      var x' := RearrangedElement(s, t, 0, n, x);
      assert t[n..][y - n] == s[n..][y - n];
    }
  }

  /** The two loops of l_heapsort. */
  method SortAll(a: array<real>)
    requires a.Length > 0
    modifies a
    ensures a[..] == Sorted(old(a[..]))
  {
    hide Rearranged; hide Heap; hide HeapBut; hide Popping;
    ghost var s0 := a[..];
    var n := a.Length;
    Unmoved(s0, 0, n);
    var i := n / 2 - 1;
    LeavesHeap(s0, n);
    while i >= 0
      invariant -1 <= i < n
      invariant Heap(a[..], n, i + 1) && Rearranged(s0, a[..], 0, n)
    {
      ghost var s := a[..];
      HeapGrows(s, n, i);
      Heapify(a, n, i, i);
      RearrangedTrans(s0, s, a[..], 0, n);
      i := i - 1;
    }
    AllPopping(a[..]);
    i := n - 1;
    while i >= 0
      invariant -1 <= i < n
      invariant Popping(a[..], i + 1) && Rearranged(s0, a[..], 0, n)
    {
      PopStep(a[..], i);
      Swap(a, i, 0, s0, 0, n);
      ghost var t := a[..];
      Heapify(a, i, 0, 0);
      PopDone(t, a[..], i);
      RearrangedWider(t, a[..], 0, i, 0, n);
      RearrangedTrans(s0, t, a[..], 0, n);
      i := i - 1;
    }
    AllPopped(s0, a[..]);
  }

  lemma LeavesHeap(s: seq<real>, n: nat)
    requires n == |s|
    ensures Heap(s, n, n / 2)
  {
  }

  lemma HeapGrows(s: seq<real>, n: nat, i: nat)
    requires Heap(s, n, i + 1)
    ensures HeapBut(s, n, i, i)
  {
  }

  lemma AllPopping(s: seq<real>)
    requires Heap(s, |s|, 0)
    ensures Popping(s, |s|)
  {
  }

  lemma AllPopped(s: seq<real>, t: seq<real>)
    requires Popping(t, 0) && Rearranged(s, t, 0, |s|)
    ensures t == Sorted(s)
  {
    assert t[0..] == t && t[0..|s|] == t;
    WholeSorted(s, t);
  }
}
