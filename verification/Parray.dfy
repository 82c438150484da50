/** The association list of src/types/parray.c. */
module Parray {
  import opened Option

  datatype Entry<V> = Entry(key: string, value: V)

  /** The first position of key k, or the length when it is absent. */
  function Index<V>(p: seq<Entry<V>>, k: string): (i: nat)
    ensures i <= |p|
    ensures i < |p| ==> p[i].key == k
    ensures forall j :: 0 <= j < i ==> p[j].key != k
  {
    if p == [] || p[0].key == k then 0 else 1 + Index(p[1..], k)
  }

  function Put<V>(p: seq<Entry<V>>, k: string, v: V): seq<Entry<V>> {
    var i := Index(p, k);
    if i < |p| then p[i := Entry(k, v)] else p + [Entry(k, v)]
  }

  function PutAll<V>(p: seq<Entry<V>>, es: seq<Entry<V>>): seq<Entry<V>>
    decreases |es|
  {
    if es == [] then p else PutAll(Put(p, es[0].key, es[0].value), es[1..])
  }

  function Lookup<V>(p: seq<Entry<V>>, k: string): Option<V> {
    var i := Index(p, k);
    if i < |p| then Some(p[i].value) else None
  }

  function Keys<V>(p: seq<Entry<V>>): seq<string> {
    seq(|p|, i requires 0 <= i < |p| => p[i].key)
  }

  ghost predicate Distinct<T>(s: seq<T>) {
    forall i, j :: 0 <= i < j < |s| ==> s[i] != s[j]
  }

  lemma IndexIs<V>(p: seq<Entry<V>>, k: string, i: nat)
    requires i < |p| && p[i].key == k && forall j :: 0 <= j < i ==> p[j].key != k
    ensures Index(p, k) == i
  {
  }

  /** Setting a key changes that key's value only, and keeps the keys distinct and in order of first setting. */
  lemma PutLookup<V>(p: seq<Entry<V>>, k: string, v: V, j: string)
    ensures Lookup(Put(p, k, v), j) == if j == k then Some(v) else Lookup(p, j)
    ensures Keys(Put(p, k, v)) == if k in Keys(p) then Keys(p) else Keys(p) + [k]
    ensures Distinct(Keys(p)) ==> Distinct(Keys(Put(p, k, v)))
  {
    var i, q := Index(p, k), Put(p, k, v);
    assert i < |p| ==> Keys(p)[i] == k;
    assert Index(q, k) == i by {
      IndexIs(q, k, i);
    }
    if j != k {
      var a := Index(p, j);
      if a < |p| {
        IndexIs(q, j, a);
      } else {
        assert forall x :: 0 <= x < |q| ==> q[x].key != j;
      }
    }
  }

  /** Setting one key twice keeps the second value. */
  lemma PutTwice<V>(p: seq<Entry<V>>, k: string, v: V, w: V)
    ensures Put(Put(p, k, v), k, w) == Put(p, k, w)
  {
    IndexIs(Put(p, k, v), k, Index(p, k));
  }

  /** Setting a key that is present commutes with setting another key. */
  lemma PutCommutes<V>(p: seq<Entry<V>>, k: string, v: V, j: string, w: V)
    requires k != j && k in Keys(p)
    ensures Put(Put(p, j, w), k, v) == Put(Put(p, k, v), j, w)
  {
    var a, b := Index(p, k), Index(p, j);
    assert a < |p| by {
      var i :| 0 <= i < |p| && Keys(p)[i] == k;
      assert p[i].key == k;
    }
    IndexIs(Put(p, j, w), k, a);
    var q := Put(p, k, v);
    if b < |p| {
      IndexIs(q, j, b);
    } else {
      assert Index(q, j) == |p|;
    }
  }

  lemma PutAllAppend<V>(p: seq<Entry<V>>, es: seq<Entry<V>>, fs: seq<Entry<V>>)
    ensures PutAll(p, es + fs) == PutAll(PutAll(p, es), fs)
    decreases |es|
  {
    if es == [] {
      assert es + fs == fs;
    } else {
      assert (es + fs)[1..] == es[1..] + fs;
      PutAllAppend(Put(p, es[0].key, es[0].value), es[1..], fs);
    }
  }

  /** A value set too early is forgotten when the same keys are all set again in order. */
  lemma {:induction false} StaleForgotten<V>(p: seq<Entry<V>>, k: string, v: V, pre: seq<Entry<V>>, w: V,
                                             post: seq<Entry<V>>)
    requires forall e :: e in pre ==> e.key in Keys(p)
    ensures PutAll(Put(p, k, v), pre + [Entry(k, w)] + post) == PutAll(p, pre + [Entry(k, w)] + post)
    decreases |pre|
  {
    var es := pre + [Entry(k, w)] + post;
    if pre == [] {
      assert es[0] == Entry(k, w);
      PutTwice(p, k, v, w);
    } else {
      var j, x := pre[0].key, pre[0].value;
      assert es[0] == pre[0] && es[1..] == pre[1..] + [Entry(k, w)] + post;
      assert pre[0] in pre;
      if j == k {
        PutTwice(p, k, v, x);
      } else {
        PutCommutes(p, j, x, k, v);
        forall e | e in pre[1..]
          ensures e.key in Keys(Put(p, j, x))
        {
          assert e in pre;
          PutLookup(p, j, x, j);
        }
        StaleForgotten(Put(p, j, x), k, v, pre[1..], w, post);
      }
    }
  }

  /** The value in the last entry for k. */
  function LastSet<V>(es: seq<Entry<V>>, k: string): Option<V>
    decreases |es|
  {
    if es == [] then None
    else if es[|es| - 1].key == k then Some(es[|es| - 1].value)
    else LastSet(es[..|es| - 1], k)
  }

  /** A lookup gives the value set last. */
  lemma {:induction false} LookupIsLastSet<V>(es: seq<Entry<V>>, k: string)
    ensures Lookup(PutAll([], es), k) == LastSet(es, k)
    decreases |es|
  {
    if es != [] {
      var n := |es| - 1;
      var e := es[n];
      LookupIsLastSet(es[..n], k);
      PutAllAppend([], es[..n], [e]);
      assert es == es[..n] + [e];
      PutAllOne(PutAll([], es[..n]), e);
      PutLookup(PutAll([], es[..n]), e.key, e.value, k);
      hide PutAll, Put, Lookup;
    }
  }

  lemma PutAllOne<V>(p: seq<Entry<V>>, e: Entry<V>)
    ensures PutAll(p, [e]) == Put(p, e.key, e.value)
  {
    assert [e][1..] == [];
  }

  /** Entries with distinct new keys are simply appended. */
  lemma {:induction false} DistinctAppended<V>(p: seq<Entry<V>>, es: seq<Entry<V>>)
    requires Distinct(Keys(p + es))
    ensures PutAll(p, es) == p + es
    decreases |es|
  {
    if es != [] {
      forall i | 0 <= i < |p|
        ensures p[i].key != es[0].key
      {
        assert Keys(p + es)[i] == p[i].key && Keys(p + es)[|p|] == es[0].key;
      }
      assert p + es == (p + [es[0]]) + es[1..];
      DistinctAppended(p + [es[0]], es[1..]);
    } else {
      assert p + es == p;
    }
  }

  class Parray<V> {
    var P: seq<Entry<V>>

    /** parray_init */
    constructor ()
      ensures P == []
    {
      P := [];
    }

    /** parray_set */
    method Set(key: string, value: V)
      modifies this
      ensures P == Put(old(P), key, value)
    {
      for i := 0 to |P|
        invariant P == old(P)
        invariant forall j :: 0 <= j < i ==> P[j].key != key
      {
        if P[i].key == key {
          IndexIs(P, key, i);
          P := P[i := P[i].(value := value)];
          return;
        }
      }
      P := P + [Entry(key, value)];
    }

    /** parray_get; None stands for NULL. */
    method Get(key: string) returns (r: Option<V>)
      ensures r == Lookup(P, key)
    {
      for i := 0 to |P|
        invariant forall j :: 0 <= j < i ==> P[j].key != key
      {
        if P[i].key == key {
          IndexIs(P, key, i);
          return Some(P[i].value);
        }
      }
      return None;
    }
  }
}
