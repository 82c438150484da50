/** The open-addressing table of src/types/larray.c: linear probing with a probe
    cap, and fourfold regrowth that calls back into the setter. */
module Larray {
  import opened Option
  import opened Sizes

  const KEYS: nat := 0x1_0000_0000_0000_0000

  /** uint64_t idx */
  type Key = k: nat | k < KEYS

  datatype Slot<T> = Free | Used(idx: Key, value: T)

  /** The slot reached from slot h after d steps of probing in a table of n slots. */
  function At(h: nat, d: nat, n: nat): (p: nat)
    requires h < n && d < n
    ensures p < n
  {
    if h + d < n then h + d else h + d - n
  }

  /** The number of probing steps from slot h to slot p. */
  function Dist(h: nat, p: nat, n: nat): (d: nat)
    requires h < n && p < n
    ensures d < n && At(h, d, n) == p
  {
    if h <= p then p - h else p + n - h
  }

  /** The home slot of a key, idx % size, by repeated subtraction: the proofs below then need no division. */
  function Home(k: nat, n: nat): (h: nat)
    requires 0 < n
    ensures h < n && (k < n ==> h == k)
  {
    if k < n then k else Home(k - n, n)
  }

  lemma {:induction false} HomeIsRemainder(k: nat, n: nat)
    requires 0 < n
    ensures Home(k, n) == k % n
  {
    var q := HomeQuotient(k, n);
    RemainderUnique(q, Home(k, n), k / n, k % n, n);
  }

  lemma {:induction false} HomeQuotient(k: nat, n: nat) returns (q: nat)
    requires 0 < n
    ensures k == q * n + Home(k, n)
  {
    if k < n {
      q := 0;
    } else {
      var p := HomeQuotient(k - n, n);
      q := p + 1;
    }
  }

  lemma RemainderUnique(q: int, r: nat, q': int, r': nat, n: nat)
    requires q * n + r == q' * n + r' && r < n && r' < n
    ensures r == r'
  {
    var m := q - q';
    assert m * n == q * n - q' * n == r' - r;
    if m >= 1 {
      assert m * n == (m - 1) * n + n;
    } else if m <= -1 {
      assert m * n == (m + 1) * n - n;
    }
  }

  ghost function UsedSlots<T>(s: seq<Slot<T>>): set<nat> {
    set p: nat | p < |s| && s[p].Used?
  }

  /** pos locates every key: each key is in one slot only, and each used slot is some key's. */
  ghost predicate Located<T>(s: seq<Slot<T>>, pos: map<Key, nat>) {
    && (forall k :: k in pos ==> pos[k] < |s| && s[pos[k]].Used? && s[pos[k]].idx == k)
    && (forall p: nat :: p < |s| && s[p].Used? ==> s[p].idx in pos && pos[s[p].idx] == p)
  }

  /** The first d slots probed from slot h are used. */
  ghost predicate UsedRun<T>(s: seq<Slot<T>>, h: nat, d: nat)
    requires h < |s| && d <= |s|
  {
    forall j: nat :: j < d ==> s[At(h, j, |s|)].Used?
  }

  /** No free slot lies between the home slot of a key and its slot. */
  ghost predicate Unbroken<T>(s: seq<Slot<T>>, pos: map<Key, nat>)
    requires 0 < |s| && Located(s, pos)
  {
    forall k :: k in pos ==> UsedRun(s, Home(k, |s|), Dist(Home(k, |s|), pos[k], |s|))
  }

  ghost predicate BiggerThanKeys(size: nat, pos: map<Key, nat>) {
    forall k :: k in pos ==> k < size
  }

  /** The table invariant. */
  ghost predicate Table<T>(s: seq<Slot<T>>, len: nat, pos: map<Key, nat>) {
    && len < |s| && |UsedSlots(s)| <= len
    && Located(s, pos)
    && Unbroken(s, pos)
    && (BiggerThanKeys(|s|, pos) ==> forall k :: k in pos ==> pos[k] == k)
  }

  /** The plain map a table stands for. */
  ghost function Mapping<T>(s: seq<Slot<T>>, pos: map<Key, nat>): map<Key, T>
    requires Located(s, pos)
  {
    map k | k in pos :: s[pos[k]].value
  }

  lemma AllUsedSize<T>(s: seq<Slot<T>>)
    requires forall p: nat :: p < |s| ==> s[p].Used?
    ensures |UsedSlots(s)| == |s|
  {
    if s != [] {
      var n := |s| - 1;
      AllUsedSize(s[..n]);
      assert UsedSlots(s) == UsedSlots(s[..n]) + {n};
    }
  }

  /** An always-free slot, which is what stops the lookup loop when the home slot is 0. */
  lemma FreeSlot<T>(s: seq<Slot<T>>, len: nat, pos: map<Key, nat>) returns (f: nat)
    requires Table(s, len, pos)
    ensures f < |s| && s[f].Free?
  {
    assert exists p: nat :: p < |s| && s[p].Free? by {
      if forall p: nat :: p < |s| ==> s[p].Used? {
        AllUsedSize(s);
      }
    }
    f :| f < |s| && s[f].Free?;
  }

  const PROBES: nat := 12

  /** The first d slots probed for idx are used by other keys. */
  ghost predicate PassedBy<T>(s: seq<Slot<T>>, idx: Key, d: nat)
    requires d <= |s|
  {
    forall j: nat :: j < d ==> var p := At(Home(idx, |s|), j, |s|); s[p].Used? && s[p].idx != idx
  }

  /** One of the first twelve slots probed for idx is free or holds idx. */
  ghost predicate WithinCap<T>(s: seq<Slot<T>>, idx: Key) {
    PROBES <= |s| ==> !PassedBy(s, idx, PROBES)
  }

  /** Slot ind is where key idx goes: its own slot, or the free slot that ends its probe run. */
  ghost predicate Belongs<T>(s: seq<Slot<T>>, pos: map<Key, nat>, idx: Key, ind: nat)
    requires ind < |s|
  {
    && (if idx in pos then ind == pos[idx] else s[ind].Free?)
    && UsedRun(s, Home(idx, |s|), Dist(Home(idx, |s|), ind, |s|))
    && (BiggerThanKeys(|s|, pos) && idx < |s| ==> ind == idx)
  }

  /** A probe run stops before it has passed every slot, never passes its key, and is empty in a table larger than every
      key. */
  lemma ProbeRun<T>(s: seq<Slot<T>>, len: nat, pos: map<Key, nat>, idx: Key, d: nat)
    requires Table(s, len, pos) && d <= |s| && PassedBy(s, idx, d)
    ensures d < |s|
    ensures idx in pos ==> d <= Dist(Home(idx, |s|), pos[idx], |s|)
    ensures BiggerThanKeys(|s|, pos) && idx < |s| ==> d == 0
  {
    var f := FreeSlot(s, len, pos);
    var h := Home(idx, |s|);
    assert At(h, Dist(h, f, |s|), |s|) == f;
    if idx in pos {
      assert At(h, Dist(h, pos[idx], |s|), |s|) == pos[idx];
    }
    if d > 0 {
      assert At(h, 0, |s|) == h && s[h].Used? && s[h].idx != idx;
    }
  }

  /** Where a probe run ends is where the key belongs. */
  lemma ProbeEnd<T>(s: seq<Slot<T>>, len: nat, pos: map<Key, nat>, idx: Key, d: nat)
    requires Table(s, len, pos) && d < |s| && PassedBy(s, idx, d)
    requires var p := At(Home(idx, |s|), d, |s|); s[p].Free? || s[p].idx == idx
    ensures Belongs(s, pos, idx, At(Home(idx, |s|), d, |s|))
  {
    ProbeRun(s, len, pos, idx, d);
    var h := Home(idx, |s|);
    assert Dist(h, At(h, d, |s|), |s|) == d;
    if idx in pos {
      assert UsedRun(s, h, Dist(h, pos[idx], |s|));
    }
  }

  /** A free slot says that the key is missing, a slot with the key that this is its slot. */
  lemma ProbeAnswer<T>(s: seq<Slot<T>>, len: nat, pos: map<Key, nat>, idx: Key, d: nat)
    requires Table(s, len, pos) && d < |s| && PassedBy(s, idx, d)
    ensures var p := At(Home(idx, |s|), d, |s|);
            (s[p].Free? ==> idx !in pos) && (s[p].Used? && s[p].idx == idx ==> idx in pos && pos[idx] == p)
  {
    var p := At(Home(idx, |s|), d, |s|);
    if s[p].Free? { ProbeEnd(s, len, pos, idx, d); }
  }

  /** Having passed every slot but the one before the home slot, a probe has met its key if there is one. */
  lemma StoppedEarly<T>(s: seq<Slot<T>>, len: nat, pos: map<Key, nat>, idx: Key, d: nat)
    requires Table(s, len, pos) && d + 1 == |s| && PassedBy(s, idx, d)
    ensures idx !in pos
  {
    var f := FreeSlot(s, len, pos);
    var h := Home(idx, |s|);
    assert At(h, Dist(h, f, |s|), |s|) == f;
    ProbeRun(s, len, pos, idx, d);
  }

  /** Writing a key where it belongs keeps the invariant. */
  lemma WriteKeepsTable<T>(s: seq<Slot<T>>, len: nat, pos: map<Key, nat>, idx: Key, ind: nat, value: T)
    requires Table(s, len, pos) && len + 1 < |s| && ind < |s| && Belongs(s, pos, idx, ind)
    ensures Table(s[ind := Used(idx, value)], len + 1, pos[idx := ind])
  {
    var s', pos' := s[ind := Used(idx, value)], pos[idx := ind];
    assert |UsedSlots(s')| <= len + 1 by {
      assert UsedSlots(s') == UsedSlots(s) + {ind};
    }
    WriteKeepsLocated(s, pos, idx, ind, value);
    WriteKeepsUnbroken(s, pos, idx, ind, value);
    if BiggerThanKeys(|s|, pos') {
      assert BiggerThanKeys(|s|, pos) by {
        assert forall k :: k in pos ==> k in pos';
      }
      assert idx in pos';
    }
  }

  lemma WriteKeepsUnbroken<T>(s: seq<Slot<T>>, pos: map<Key, nat>, idx: Key, ind: nat, value: T)
    requires ind < |s| && Located(s, pos) && Unbroken(s, pos)
    requires if idx in pos then ind == pos[idx] else s[ind].Free?
    requires UsedRun(s, Home(idx, |s|), Dist(Home(idx, |s|), ind, |s|))
    requires Located(s[ind := Used(idx, value)], pos[idx := ind])
    ensures Unbroken(s[ind := Used(idx, value)], pos[idx := ind])
  {
    var s', pos' := s[ind := Used(idx, value)], pos[idx := ind];
    forall k | k in pos'
      ensures UsedRun(s', Home(k, |s'|), Dist(Home(k, |s'|), pos'[k], |s'|))
    {
      WriteKeepsRun(s, Home(k, |s|), Dist(Home(k, |s|), pos'[k], |s|), ind, Used(idx, value));
    }
  }

  lemma WriteKeepsRun<T>(s: seq<Slot<T>>, h: nat, d: nat, ind: nat, x: Slot<T>)
    requires h < |s| && d <= |s| && UsedRun(s, h, d) && ind < |s| && x.Used?
    ensures UsedRun(s[ind := x], h, d)
  {
  }

  lemma WriteMapping<T>(s: seq<Slot<T>>, pos: map<Key, nat>, idx: Key, ind: nat, value: T)
    requires Located(s, pos) && ind < |s|
    requires if idx in pos then ind == pos[idx] else s[ind].Free?
    requires Located(s[ind := Used(idx, value)], pos[idx := ind])
    ensures Mapping(s[ind := Used(idx, value)], pos[idx := ind]) == Mapping(s, pos)[idx := value]
  {
  }

  lemma WriteKeepsLocated<T>(s: seq<Slot<T>>, pos: map<Key, nat>, idx: Key, ind: nat, value: T)
    requires Located(s, pos) && ind < |s|
    requires if idx in pos then ind == pos[idx] else s[ind].Free?
    ensures Located(s[ind := Used(idx, value)], pos[idx := ind])
  {
    var s', pos' := s[ind := Used(idx, value)], pos[idx := ind];
    forall k | k in pos'
      ensures pos'[k] < |s'| && s'[pos'[k]].Used? && s'[pos'[k]].idx == k
    {
      assert k == idx || (k in pos && s[pos[k]].idx == k);
    }
    forall p: nat | p < |s'| && s'[p].Used?
      ensures s'[p].idx in pos' && pos'[s'[p].idx] == p
    {
      assert p == ind || s[p].Used?;
    }
  }

  /** The keys are as many as the used slots. */
  lemma KeyCount<T>(s: seq<Slot<T>>, pos: map<Key, nat>)
    requires Located(s, pos)
    ensures |pos.Keys| == |UsedSlots(s)|
  {
    InjectiveSize(pos);
    assert pos.Values == UsedSlots(s);
  }

  /** How far the table is from being larger than every key. */
  ghost function Room(size: nat): nat {
    if size < KEYS then KEYS - size else 0
  }

  /** m is n quadrupled once or more often. */
  ghost predicate Grown(n: nat, m: nat)
    decreases m - n
  {
    0 < n && (m == 4 * n || (m > 4 * n && Grown(4 * n, m)))
  }

  lemma GrownOnce(n: nat)
    requires 0 < n
    ensures Grown(n, 4 * n)
  {
  }

  lemma {:induction false} GrownTwice(n: nat, m: nat, k: nat)
    requires Grown(n, m) && Grown(m, k)
    ensures Grown(n, k)
    decreases m - n
  {
    if m > 4 * n {
      GrownTwice(4 * n, m, k);
    }
  }

  class LArray<T> {
    var arr: array<Slot<T>>
    var len: nat  // counts the calls of Set since the table was built, overwrites included
    ghost var pos: map<Key, nat>  // the slot of each key

    ghost predicate Valid()
      reads this, arr
    {
      len < arr.Length && Table(arr[..], len, pos)
    }

    ghost function Contents(): map<Key, T>
      reads this, arr
      requires Valid()
    {
      Mapping(arr[..], pos)
    }

    /** larray_initl */
    constructor (size: nat)
      requires 0 < size
      ensures Valid() && fresh(arr) && arr.Length == size && len == 0
      ensures Contents() == map[] && pos == map[]
    {
      arr := new Slot<T>[size](_ => Free);
      len := 0;
      pos := map[];
      new;
      assert UsedSlots(arr[..]) == {};
    }

    /** larray_geti. For home slot 0 the bound `initial - 1` wraps to 2^64 - 1 and does not stop the loop. */
    method Geti(idx: Key) returns (r: int)
      requires Valid()
      ensures r == if idx in pos then pos[idx] else -1
    {
      hide Table, Located, Mapping;
      var n := arr.Length;
      var home := Home(idx, n);
      var ind: nat := home;
      var stop := if home == 0 then KEYS - 1 else home - 1;
      ghost var d: nat := 0;
      while ind != stop
        invariant d < n && ind == At(home, d, n) && PassedBy(arr[..], idx, d)
        invariant d > 0 ==> n < KEYS
        decreases n - d
      {
        assert arr[..][ind] == arr[ind];
        ProbeAnswer(arr[..], len, pos, idx, d);
        if arr[ind].Free? {
          return -1;
        }
        if arr[ind].idx == idx {
          return ind;
        }
        ind := ind + 1;
        if ind >= n {
          ind := 0;
        }
        d := d + 1;
        ProbeRun(arr[..], len, pos, idx, d);
      }
      ProbeRun(arr[..], len, pos, idx, d);
      StoppedEarly(arr[..], len, pos, idx, d);
      return -1;
    }

    /** larray_get; None stands for NULL. */
    method Get(idx: Key) returns (r: Option<T>)
      requires Valid()
      ensures r == if idx in Contents() then Some(Contents()[idx]) else None
    {
      var i := Geti(idx);
      r := if i == -1 then None else Some(arr[i].value);
    }

    /** The probing loop of larray_set: the slot for idx, or none within the probe cap. */
    method Probe(idx: Key) returns (found: bool, ind: nat)
      requires Valid()
      ensures ind < arr.Length
      ensures found ==> Belongs(arr[..], pos, idx, ind)
      ensures found <==> WithinCap(arr[..], idx)
      ensures !found ==> arr.Length < KEYS
    {
      var n := arr.Length;
      var home := Home(idx, n);
      ind := home;
      var count := 0;
      while arr[ind].Used? && arr[ind].idx != idx
        invariant count < n && count < PROBES && ind == At(home, count, n) && PassedBy(arr[..], idx, count)
        decreases n - count
      {
        assert arr[..][ind] == arr[ind];
        ind := ind + 1;
        if ind >= n {
          ind := 0;
        }
        ProbeRun(arr[..], len, pos, idx, count + 1);
        if ind == home || count > 10 {
          return false, ind;
        }
        count := count + 1;
      }
      found := true;
      ProbeEnd(arr[..], len, pos, idx, count);
    }

    /** The write that ends larray_set. */
    method Write(idx: Key, ind: nat, value: T)
      requires Valid() && len + 1 < arr.Length && ind < arr.Length && Belongs(arr[..], pos, idx, ind)
      modifies this, arr
      ensures Valid() && Contents() == old(Contents())[idx := value]
      ensures arr == old(arr) && arr[..] == old(arr[..])[ind := Used(idx, value)]
      ensures len == old(len) + 1 && pos == old(pos)[idx := ind]
    {
      WriteKeepsTable(arr[..], len, pos, idx, ind, value);
      WriteMapping(arr[..], pos, idx, ind, value);
      ghost var after := arr[..][ind := Used(idx, value)];
      arr[ind] := Used(idx, value);
      len := len + 1;
      pos := pos[idx := ind];
      assert arr[..] == after;
    }
  }

  /** The keys in the first i slots. */
  ghost function KeysBefore(pos: map<Key, nat>, i: nat): set<Key> {
    set k | k in pos && pos[k] < i
  }

  lemma NextSlot<T>(l: LArray<T>, i: nat)
    requires l.Valid() && i < l.arr.Length
    ensures KeysBefore(l.pos, i) <= l.Contents().Keys && |KeysBefore(l.pos, i)| <= l.len
    ensures if l.arr[i].Free? then KeysBefore(l.pos, i + 1) == KeysBefore(l.pos, i)
            else var idx := l.arr[i].idx;
              && idx in l.Contents() && l.Contents()[idx] == l.arr[i].value
              && idx !in KeysBefore(l.pos, i) && KeysBefore(l.pos, i + 1) == KeysBefore(l.pos, i) + {idx}
  {
    var s := l.arr[..];
    assert s[i].Used? ==> s[i].idx in l.pos && l.pos[s[i].idx] == i;
    TableKeys(l);
    SubsetSize(KeysBefore(l.pos, i), l.pos.Keys);
  }

  lemma AllKeys<T>(l: LArray<T>)
    requires l.Valid()
    ensures KeysBefore(l.pos, l.arr.Length) == l.pos.Keys
    ensures Restrict(l.Contents(), l.pos.Keys) == l.Contents()
  {
  }

  lemma TableKeys<T>(l: LArray<T>)
    requires l.Valid()
    ensures |l.pos.Keys| <= l.len && l.Contents().Keys == l.pos.Keys
  {
    KeyCount(l.arr[..], l.pos);
  }

  ghost function Restrict<K, V>(m: map<K, V>, keys: set<K>): map<K, V> {
    map k | k in m && k in keys :: m[k]
  }

  lemma NoKeys<V>(m: map<Key, V>, pos: map<Key, nat>)
    ensures KeysBefore(pos, 0) == {} && Restrict(m, {}) == map[]
  {
  }

  lemma OneMoreKey<K, V>(m: map<K, V>, keys: set<K>, k: K)
    requires k in m && k !in keys
    ensures Restrict(m, keys + {k}) == Restrict(m, keys)[k := m[k]] && |keys + {k}| == |keys| + 1
    ensures keys <= m.Keys ==> Restrict(m, keys).Keys == keys
  {
  }

  /** larray_expand: rehash into a table four times as large, which may itself grow while it is filled. */
  method Expand<T>(l: LArray<T>) returns (e: LArray<T>)
    requires l.Valid()
    ensures fresh(e) && fresh(e.arr) && e.Valid()
    ensures e.Contents() == l.Contents()
    ensures e.len == |l.pos.Keys| && e.arr.Length >= 4 * l.arr.Length && Grown(l.arr.Length, e.arr.Length)
    decreases Room(4 * l.arr.Length), 1
  {
    hide Table, Located, Mapping, Grown, KeysBefore, Restrict, WithinCap;
    var n := l.arr.Length;
    e := new LArray(4 * n);
    GrownOnce(n);
    ghost var src, pos := l.Contents(), l.pos;
    NoKeys(src, pos);
    TableKeys(l);
    for i := 0 to n
      invariant fresh(e) && fresh(e.arr) && e.Valid()
      invariant e.Contents() == Restrict(src, KeysBefore(pos, i))
      invariant e.len == |KeysBefore(pos, i)| && e.arr.Length >= 4 * n && Grown(n, e.arr.Length)
    {
      NextSlot(l, i);
      if l.arr[i].Used? {
        TableKeys(e);
        OneMoreKey(src, KeysBefore(pos, i), l.arr[i].idx);
        var slot;
        ghost var size := e.arr.Length;
        e, slot := Set(e, l.arr[i].idx, l.arr[i].value);
        if e.arr.Length != size { GrownTwice(n, size, e.arr.Length); }
      }
    }
    AllKeys(l);
  }

  /** larray_set. The caller's table pointer becomes l'; when the table grew, l is left as it was. */
  method Set<T>(l: LArray<T>, idx: Key, value: T) returns (l': LArray<T>, ind: nat)
    requires l.Valid()
    modifies l, l.arr
    ensures l'.Valid()
    ensures l'.Contents() == old(l.Contents())[idx := value]
    ensures ind < l'.arr.Length && l'.arr[ind] == Used(idx, value)
    ensures l' == l <==> old(l.len + 1 < l.arr.Length && WithinCap(l.arr[..], idx))
    ensures if l' == l then l.arr == old(l.arr) && l.len == old(l.len) + 1 &&
            l.arr[..] == old(l.arr[..])[ind := Used(idx, value)]
            else fresh(l') && fresh(l'.arr) && l'.len == old(|l.pos.Keys|) + 1 && l'.arr.Length >= 4 * old(l.arr.Length)
    ensures l' != l ==> Grown(old(l.arr.Length), l'.arr.Length)
    ensures l' != l ==> l.arr == old(l.arr) && l.arr[..] == old(l.arr[..]) && l.len == old(l.len) && l.pos == old(l.pos)
    decreases Room(l.arr.Length), if l.len + 1 >= l.arr.Length then 2 else 0
  {
    hide Table, Located, Mapping, Belongs, WithinCap, Grown;
    l' := l;
    TableKeys(l);
    if l'.len + 1 >= l'.arr.Length {
      l' := Expand(l');
    }
    while true
      invariant unchanged(l) && unchanged(l.arr)
      invariant l'.Valid() && l'.Contents() == old(l.Contents()) && l'.len + 1 < l'.arr.Length
      invariant if l' == l then old(l.len + 1 < l.arr.Length)
                else !old(l.len + 1 < l.arr.Length && WithinCap(l.arr[..], idx))
      invariant l' != l ==>
                  fresh(l') && fresh(l'.arr) && l'.len == old(|l.pos.Keys|) && l'.arr.Length >= 4 * old(l.arr.Length)
      invariant l' != l ==> Grown(old(l.arr.Length), l'.arr.Length)
      decreases Room(l'.arr.Length)
    {
      var found;
      found, ind := l'.Probe(idx);
      assert l' == l ==> l.arr[..] == old(l.arr[..]);
      if found {
        l'.Write(idx, ind, value);
        return;
      }
      TableKeys(l');
      ghost var first, size := l' == l, l'.arr.Length;
      l' := Expand(l');
      if !first { GrownTwice(l.arr.Length, size, l'.arr.Length); }
    }
  }
}
