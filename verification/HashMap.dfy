/** The map of src/types/map.c: linear probing with a probe cap, removal, and the same fourfold regrowth as Larray. */
module HashMap {
  import opened Option
  import opened HashSlots
  import L = Larray

  /** No slot is left over from a removal. */
  ghost predicate Clean<T>(s: seq<Slot<T>>) {
    forall p: nat :: p < |s| ==> !s[p].Gone?
  }

  class HashMap<T> {
    const hash: string -> Hash
    var arr: array<Slot<T>>
    var len: nat  // counts the calls of Set since the table was built, overwrites included

    ghost predicate Valid()
      reads this, arr
    {
      len < arr.Length && Table(arr[..], len, hash)
    }

    /** What a rehash makes of the table. */
    ghost function Contents(): map<Hash, Pair<T>>
      reads this, arr
    {
      Rehashed(arr[..])
    }

    /** The keys and values of a table with one slot a hash. */
    ghost function View(): map<string, T>
      reads this, arr
      requires Valid()
    {
      Visible(arr[..], hash)
    }

    /** map_initl */
    constructor (size: nat, hash: string -> Hash)
      requires 0 < size
      ensures Valid() && fresh(arr) && arr.Length == size && len == 0 && this.hash == hash
      ensures Contents() == map[] && Clean(arr[..]) && Single(arr[..])
    {
      arr := new Slot<T>[size](_ => Empty);
      len := 0;
      this.hash := hash;
      new;
      NothingSet(arr[..]);
    }

    /** map_geti. A removed slot has hash 0 and a dangling key, so a key whose hash is 0 must not meet one. */
    method Geti(key: string) returns (r: int)
      requires Valid() && (hash(key) == 0 ==> Clean(arr[..]))
      ensures r == First(arr[..], hash(key), key, 0)
    {
      hide First;
      var n, h := arr.Length, hash(key);
      var home := L.Home(h, n);
      var ind: nat := home;
      var stop := if home == 0 then L.KEYS - 1 else home - 1;
      ghost var d: nat := 0;
      while ind != stop
        invariant d < n && ind == Probed(h, d, n) && TakenRun(arr[..], h, d)
        invariant First(arr[..], h, key, 0) == First(arr[..], h, key, d)
        decreases n - d
      {
        assert arr[..][ind] == arr[ind];
        FirstStep(arr[..], h, key, d);
        if arr[ind].Empty? {
          return -1;
        }
        if arr[ind].Used? && arr[ind].hash == h && arr[ind].key == key {
          return ind;
        }
        ind := ind + 1;
        if ind >= n {
          ind := 0;
        }
        d := d + 1;
        RunEnds(arr[..], len, h, d);
      }
      SearchOver(arr[..], len, hash, h, key, d);
      return -1;
    }

    /** map_get; None stands for NULL. */
    method Get(key: string) returns (r: Option<T>)
      requires Valid() && (hash(key) == 0 ==> Clean(arr[..]))
      ensures r == Lookup(arr[..], hash, key)
      ensures Single(arr[..]) ==> r == if key in View() then Some(View()[key]) else None
    {
      var i := Geti(key);
      r := if i == -1 then None else Some(arr[i].value);
      if Single(arr[..]) { LookupIsVisible(arr[..], hash, key); }
    }

    /** map_remove; len is not taken back. */
    method Remove(key: string)
      requires Valid() && (hash(key) == 0 ==> Clean(arr[..]))
      modifies arr
      ensures Valid() && arr[..] == old(Erased(arr[..], First(arr[..], hash(key), key, 0)))
      ensures forall k :: k != key ==> Lookup(arr[..], hash, k) == old(Lookup(arr[..], hash, k))
      ensures old(Single(arr[..])) ==> Single(arr[..]) && View() == old(View()) - {key}
    {
      var ind := Geti(key);
      ghost var s := arr[..];
      EraseKeepsTable(s, len, hash, key, ind);
      EraseHidesNothing(s, hash, key, ind);
      if Single(s) { EraseVisible(s, hash, key, ind); }
      hide Table, Visible, First, Single, Lookup;
      if ind != -1 {
        arr[ind] := Gone;
      }
      assert arr[..] == Erased(s, ind);
      hide Erased;
    }

    /** The probing loop of map_set: the slot for h, or none within the probe cap. */
    method Probe(h: Hash) returns (found: bool, ind: nat)
      requires Valid()
      ensures ind < arr.Length
      ensures found ==> Reaches(arr[..], h, ind)
      ensures found <==> WithinCap(arr[..], h)
      ensures !found ==> arr.Length < L.KEYS
    {
      var n := arr.Length;
      var home := L.Home(h, n);
      ind := home;
      var count := 0;
      while arr[ind].Used? && arr[ind].hash != h
        invariant count < n && count < PROBES && ind == Probed(h, count, n) && PassedBy(arr[..], h, count)
        decreases n - count
      {
        assert arr[..][ind] == arr[ind];
        ind := ind + 1;
        if ind >= n {
          ind := 0;
        }
        ProbeRun(arr[..], len, hash, h, count + 1);
        if ind == home || count > 10 {
          return false, ind;
        }
        count := count + 1;
      }
      found := true;
      assert Steps(h, ind, n) == count;
    }

    /** The write that ends map_set. */
    method Write(key: string, ind: nat, value: T)
      requires Valid() && len + 1 < arr.Length && Reaches(arr[..], hash(key), ind)
      modifies this`len, arr
      ensures Valid() && len == old(len) + 1
      ensures arr[..] == old(arr[..])[ind := Used(hash(key), key, value)]
      ensures Single(arr[..]) <==> old(Single(arr[..]) && !Shadowed(arr[..], hash(key)))
      ensures Single(arr[..]) ==> Contents() == old(Contents())[hash(key) := Pair(key, value)]
      ensures Lookup(arr[..], hash, key) == Some(value)
      ensures forall k :: k != key && !old(arr[ind].Used? && arr[ind].key == k) ==>
                Lookup(arr[..], hash, k) == old(Lookup(arr[..], hash, k))
    {
      ghost var s := arr[..];
      WriteKeepsTable(s, len, hash, ind, key, value);
      WriteStands(s, len, hash, ind, key, value);
      hide Table, Shadowed, Single, Lookup, Rehashed;
      arr[ind] := Used(hash(key), key, value);
      len := len + 1;
      assert arr[..] == s[ind := Used(hash(key), key, value)];
    }
  }

  lemma NothingSet<T>(s: seq<Slot<T>>)
    requires forall p: nat :: p < |s| ==> s[p].Empty?
    ensures Taken(s) == {} && Rehashed(s) == map[]
  {
    if h :| h in Rehashed(s) {
      var p := LastHolder(s, h);
      assert false;
    }
  }

  lemma FirstStep<T>(s: seq<Slot<T>>, h: Hash, key: string, d: nat)
    requires Chained(s) && d < |s|
    ensures First(s, h, key, d) ==
            if IsAt(s[Probed(h, d, |s|)], h, key) then Probed(h, d, |s|) else First(s, h, key, d + 1)
    ensures s[Probed(h, d, |s|)].Empty? ==> First(s, h, key, d) == -1
  {
    if s[Probed(h, d, |s|)].Empty? {
      NothingBeyond(s, h, key, d, d);
    }
  }

  /** Where the loop of map_geti stops by its bound, there is nothing more to find. */
  lemma SearchOver<T>(s: seq<Slot<T>>, len: nat, hash: string -> Hash, h: Hash, key: string, d: nat)
    requires Table(s, len, hash) && d < |s| && TakenRun(s, h, d)
    requires var home := L.Home(h, |s|); Probed(h, d, |s|) == if home == 0 then L.KEYS - 1 else home - 1
    ensures First(s, h, key, d) == -1
  {
    if |s| < L.KEYS {
      LastIsEmpty(s, len, h, d);
      NothingBeyond(s, h, key, d, d);
    } else {
      FoundAtHome(s, h, key, d);
    }
  }

  // ---- Removing ----

  ghost function Erased<T>(s: seq<Slot<T>>, p: int): (s': seq<Slot<T>>)
    ensures |s'| == |s|
  {
    if 0 <= p < |s| then s[p := Gone] else s
  }

  lemma EraseKeepsTable<T>(s: seq<Slot<T>>, len: nat, hash: string -> Hash, key: string, ind: int)
    requires Table(s, len, hash) && ind == First(s, hash(key), key, 0)
    ensures Table(Erased(s, ind), len, hash)
  {
    if ind >= 0 { GoneKeepsTable(s, len, hash, ind); }
  }

  /** In any table, removing a key hides no other key. */
  lemma EraseHidesNothing<T>(s: seq<Slot<T>>, hash: string -> Hash, key: string, ind: int)
    requires ind == First(s, hash(key), key, 0)
    ensures forall k :: k != key ==> Lookup(Erased(s, ind), hash, k) == Lookup(s, hash, k)
  {
    forall k | k != key
      ensures Lookup(Erased(s, ind), hash, k) == Lookup(s, hash, k)
    {
      if ind >= 0 { GoneHidesNothing(s, hash, ind, k); }
    }
  }

  /** In a table with one slot a hash it takes the key out of the plain map. */
  lemma {:induction false} EraseVisible<T>(s: seq<Slot<T>>, hash: string -> Hash, key: string, ind: int)
    requires Hashed(s, hash) && Single(s) && ind == First(s, hash(key), key, 0)
    ensures Hashed(Erased(s, ind), hash) && Single(Erased(s, ind))
    ensures Visible(Erased(s, ind), hash) == Visible(s, hash) - {key}
  {
    var m := Rehashed(s);
    RehashedKeysHash(s, hash);
    LookupIsVisible(s, hash, key);
    if ind >= 0 {
      assert Hashed(Erased(s, ind), hash);
      GoneRehashed(s, ind);
      RemoveIsPlain(m, hash, key);
    } else {
      NothingTakenOut(Visible(s, hash), key);
    }
    hide Plain, Single, First;
  }

  lemma NothingTakenOut<T>(p: map<string, T>, key: string)
    requires key !in p
    ensures p - {key} == p
  {
  }

  // ---- Setting ----

  /** What the write does to what the table stands for and to what lookups see. */
  lemma WriteStands<T>(s: seq<Slot<T>>, len: nat, hash: string -> Hash, ind: nat, key: string, value: T)
    requires Table(s, len, hash) && Reaches(s, hash(key), ind)
    ensures var s' := s[ind := Used(hash(key), key, value)];
            && (Single(s') <==> Single(s) && !Shadowed(s, hash(key)))
            && (Single(s') ==> Rehashed(s') == Rehashed(s)[hash(key) := Pair(key, value)])
            && Lookup(s', hash, key) == Some(value)
            && forall k :: k != key && !(s[ind].Used? && s[ind].key == k) ==> Lookup(s', hash, k) == Lookup(s, hash, k)
  {
    var x := Used(hash(key), key, value);
    WriteSingle(s, ind, x);
    if Single(s[ind := x]) { WriteRehashed(s, ind, x); }
    WriteSeen(s, hash, ind, key, value, key);
    hide Single, Rehashed, Shadowed;
    forall k | k != key && !(s[ind].Used? && s[ind].key == k)
      ensures Lookup(s[ind := x], hash, k) == Lookup(s, hash, k)
    {
      WriteSeen(s, hash, ind, key, value, k);
    }
  }

  lemma CleanIsUnshadowed<T>(s: seq<Slot<T>>, h: Hash)
    requires Clean(s)
    ensures !Shadowed(s, h)
  {
  }

  lemma WriteKeepsClean<T>(s: seq<Slot<T>>, ind: nat, x: Slot<T>)
    requires ind < |s| && !x.Gone?
    ensures Clean(s) ==> Clean(s[ind := x])
  {
  }

  /** Setting a key is setting it in a plain map when no other key present has its hash. */
  lemma SetVisible<T>(s: seq<Slot<T>>, t: seq<Slot<T>>, hash: string -> Hash, key: string, value: T)
    requires Hashed(s, hash) && Hashed(t, hash) && Rehashed(t) == Rehashed(s)[hash(key) := Pair(key, value)]
    ensures Visible(t, hash) == Visible(s, hash)[key := value] <==> Alone(Rehashed(s), hash, key)
  {
    RehashedKeysHash(s, hash);
    SetIsPlain(Rehashed(s), hash, key, value);
  }

  /** t is s with the key set in slot ind; every other key is looked up as before, unless it was in that slot. */
  ghost predicate SetAt<T>(s: seq<Slot<T>>, t: seq<Slot<T>>, ind: nat, hash: string -> Hash, key: string, value: T) {
    && ind < |s| && t == s[ind := Used(hash(key), key, value)]
    && forall k :: k != key && !(s[ind].Used? && s[ind].key == k) ==> Lookup(t, hash, k) == Lookup(s, hash, k)
  }

  /** The end of map_set, with the slot found. */
  method Settle<T>(l: HashMap<T>, key: string, ind: nat, value: T)
    requires l.Valid() && l.len + 1 < l.arr.Length && Reaches(l.arr[..], l.hash(key), ind)
    modifies l`len, l.arr
    ensures l.Valid() && l.len == old(l.len) + 1
    ensures SetAt(old(l.arr[..]), l.arr[..], ind, l.hash, key, value)
    ensures old(Clean(l.arr[..])) ==> Clean(l.arr[..])
    ensures Single(l.arr[..]) <==> old(Single(l.arr[..]) && !Shadowed(l.arr[..], l.hash(key)))
    ensures old(Clean(l.arr[..])) ==> !old(Shadowed(l.arr[..], l.hash(key)))
    ensures Single(l.arr[..]) ==> l.Contents() == old(l.Contents())[l.hash(key) := Pair(key, value)]
    ensures Single(l.arr[..]) ==>
              (l.View() == old(l.View())[key := value] <==> Alone(old(l.Contents()), l.hash, key))
    ensures Lookup(l.arr[..], l.hash, key) == Some(value)
  {
    ghost var s := l.arr[..];
    WriteKeepsClean(s, ind, Used(l.hash(key), key, value));
    if Clean(s) { CleanIsUnshadowed(s, l.hash(key)); }
    l.Write(key, ind, value);
    if Single(l.arr[..]) { SetVisible(s, l.arr[..], l.hash, key, value); }
    hide Single, Clean, Shadowed, Rehashed, Alone, Visible, Lookup;
  }

  // ---- Growing ----

  lemma NextSlot<T>(s: seq<Slot<T>>, len: nat, hash: string -> Hash, i: nat)
    requires Table(s, len, hash) && i < |s|
    ensures |UsedSlots(s[..i])| <= i
    ensures if s[i].Used? then
              && s[i].hash == hash(s[i].key)
              && Rehashed(s[..i + 1]) == Rehashed(s[..i])[s[i].hash := Pair(s[i].key, s[i].value)]
              && |UsedSlots(s[..i + 1])| == |UsedSlots(s[..i])| + 1
              && (Single(s) ==> s[i].hash !in Rehashed(s[..i]))
            else Rehashed(s[..i + 1]) == Rehashed(s[..i]) && UsedSlots(s[..i + 1]) == UsedSlots(s[..i])
  {
    assert s[..i + 1][..i] == s[..i];
    UsedBelow(s[..i]);
    if s[i].Used? {
      assert UsedSlots(s[..i + 1]) == UsedSlots(s[..i]) + {i};
      if Single(s) { NewHash(s, i, s[i].hash); }
    } else {
      assert UsedSlots(s[..i + 1]) == UsedSlots(s[..i]);
    }
  }

  lemma {:induction false} NewHash<T>(s: seq<Slot<T>>, i: nat, h: Hash)
    requires Single(s) && Holds(s, i, h)
    ensures h !in Rehashed(s[..i])
  {
    if h in Rehashed(s[..i]) {
      var p := LastHolder(s[..i], h);
      OneHolder(s, p, i, h);
    }
  }

  lemma {:induction false} UsedBelow<T>(s: seq<Slot<T>>)
    ensures |UsedSlots(s)| <= |s|
    decreases |s|
  {
    if s != [] {
      var n := |s| - 1;
      UsedBelow(s[..n]);
      assert UsedSlots(s) == UsedSlots(s[..n]) + if s[n].Used? then {n} else {};
    }
  }

  lemma Sizes<T>(s: seq<Slot<T>>, len: nat)
    requires Open(s, len)
    ensures |Rehashed(s)| <= |UsedSlots(s)| <= len
  {
    RehashedSize(s);
  }

  /** map_expand: the used slots are set again, in slot order, in a table four times as large; removed ones are not. */
  method Expand<T>(l: HashMap<T>) returns (e: HashMap<T>)
    requires l.Valid()
    ensures fresh(e) && fresh(e.arr) && e.Valid() && e.hash == l.hash
    ensures Clean(e.arr[..]) && Single(e.arr[..]) && e.Contents() == l.Contents()
    ensures e.len <= l.len && (Single(l.arr[..]) ==> e.len == |l.Contents()|)
    ensures e.arr.Length >= 4 * l.arr.Length && L.Grown(l.arr.Length, e.arr.Length)
    decreases L.Room(4 * l.arr.Length), 2
  {
    ghost var s := l.arr[..];
    Sizes(s, l.len);
    NothingBefore(s);
    hide Table, Clean, Rehashed, Single, UsedSlots, Lookup, Shadowed, WithinCap, Reaches;
    hide L.Grown, Visible, Alone, SetAt;
    var n := l.arr.Length;
    e := new HashMap(4 * n, l.hash);
    L.GrownOnce(n);
    for i := 0 to n
      invariant fresh(e) && fresh(e.arr) && e.Valid() && e.hash == l.hash && e.arr.Length >= 4 * n
      invariant L.Grown(n, e.arr.Length)
      invariant Clean(e.arr[..]) && Single(e.arr[..]) && e.Contents() == Rehashed(s[..i])
      invariant e.len <= |UsedSlots(s[..i])| <= i && (Single(s) ==> e.len == |e.Contents()|)
    {
      NextSlot(s, l.len, l.hash, i);
      if l.arr[i].Used? {
        CleanIsUnshadowed(e.arr[..], l.arr[i].hash);
        ghost var size := e.arr.Length;
        e := Set(e, l.arr[i].key, l.arr[i].value);
        if e.arr.Length != size { L.GrownTwice(n, size, e.arr.Length); }
      }
      UsedBelow(s[..i + 1]);
    }
    assert s[..n] == s;
  }

  lemma NothingBefore<T>(s: seq<Slot<T>>)
    ensures UsedSlots(s[..0]) == {} && Rehashed(s[..0]) == map[]
  {
  }

  /** The first part of map_set: grow while there is no room or no slot within the probe cap. */
  method FindRoom<T>(l: HashMap<T>, h: Hash) returns (l': HashMap<T>, ind: nat)
    requires l.Valid()
    ensures l'.Valid() && l'.hash == l.hash && l'.len + 1 < l'.arr.Length && Reaches(l'.arr[..], h, ind)
    ensures l' == l <==> l.len + 1 < l.arr.Length && WithinCap(l.arr[..], h)
    ensures l' != l ==> fresh(l') && fresh(l'.arr) && Clean(l'.arr[..]) && Single(l'.arr[..])
    ensures l' != l ==> l'.Contents() == l.Contents() && l'.len <= l.len && l'.arr.Length >= 4 * l.arr.Length
    ensures l' != l && Single(l.arr[..]) ==> l'.len == |l.Contents()|
    ensures l' != l ==> L.Grown(l.arr.Length, l'.arr.Length)
    decreases L.Room(l.arr.Length), if l.len + 1 >= l.arr.Length then 3 else 0
  {
    hide Table, Clean, Rehashed, Single, WithinCap, Reaches, L.Grown;
    l' := l;
    if l'.len + 1 >= l'.arr.Length {
      l' := Expand(l');
    }
    while true
      invariant l'.Valid() && l'.hash == l.hash && l'.Contents() == l.Contents() && l'.len + 1 < l'.arr.Length
      invariant if l' == l then l.len + 1 < l.arr.Length
                else !(l.len + 1 < l.arr.Length && WithinCap(l.arr[..], h))
      invariant l' != l ==> fresh(l') && fresh(l'.arr) && Clean(l'.arr[..]) && Single(l'.arr[..])
      invariant l' != l ==> l'.len <= l.len && l'.arr.Length >= 4 * l.arr.Length
      invariant l' != l && Single(l.arr[..]) ==> l'.len == |l.Contents()|
      invariant l' != l ==> L.Grown(l.arr.Length, l'.arr.Length)
      decreases L.Room(l'.arr.Length)
    {
      var found;
      found, ind := l'.Probe(h);
      if found { return; }
      ghost var first, size := l' == l, l'.arr.Length;
      l' := Expand(l');
      if !first { L.GrownTwice(l.arr.Length, size, l'.arr.Length); }
    }
  }

  /** map_set. The caller's table pointer becomes l'; when the table grew, l is left as it was. In a table in which a
      hash has two slots, growing keeps the later one in slot order, whichever of them lookups saw. */
  method Set<T>(l: HashMap<T>, key: string, value: T) returns (l': HashMap<T>)
    requires l.Valid()
    modifies l`len, l.arr
    ensures l'.Valid() && l'.hash == l.hash
    ensures l' == l <==> old(l.len + 1 < l.arr.Length && WithinCap(l.arr[..], l.hash(key)))
    ensures Single(l'.arr[..]) <==> l' != l || old(Single(l.arr[..]) && !Shadowed(l.arr[..], l.hash(key)))
    ensures Single(l'.arr[..]) ==> l'.Contents() == old(l.Contents())[l.hash(key) := Pair(key, value)]
    ensures Single(l'.arr[..]) ==>
              (l'.View() == old(l.View())[key := value] <==> Alone(old(l.Contents()), l.hash, key))
    ensures Lookup(l'.arr[..], l.hash, key) == Some(value)
    ensures l' == l ==> l.len == old(l.len) + 1 && exists ind: nat ::
              old(Reaches(l.arr[..], l.hash(key), ind)) && SetAt(old(l.arr[..]), l.arr[..], ind, l.hash, key, value)
    ensures l' != l ==> fresh(l') && fresh(l'.arr) && l'.len <= old(l.len) + 1 && l'.arr.Length >= 4 * old(l.arr.Length)
    ensures l' != l ==> l.len == old(l.len) && l.arr[..] == old(l.arr[..])
    ensures l' != l ==> L.Grown(old(l.arr.Length), l'.arr.Length)
    ensures l' != l && old(Single(l.arr[..])) ==> l'.len == |old(l.Contents())| + 1
    ensures l' != l || old(Clean(l.arr[..])) ==> Clean(l'.arr[..])
    decreases L.Room(l.arr.Length), if l.len + 1 >= l.arr.Length then 4 else 1
  {
    ghost var s := l.arr[..];
    var ind;
    l', ind := FindRoom(l, l.hash(key));
    ghost var t := l'.arr[..];
    SameVisible(s, t, l.hash);
    hide Table, Clean, Rehashed, Single, Lookup, Shadowed, WithinCap, Reaches, Visible, Alone, SetAt, L.Grown;
    Settle(l', key, ind, value);
  }

  lemma SameVisible<T>(s: seq<Slot<T>>, t: seq<Slot<T>>, hash: string -> Hash)
    requires Hashed(s, hash) && Hashed(t, hash) && Rehashed(s) == Rehashed(t)
    ensures Visible(s, hash) == Visible(t, hash)
  {
  }

  // ---- When a key is set again after a removal ----

  /** A table that has grown answers from the last slot of a hash in slot order, wherever lookups found the key
      before. */
  lemma {:induction false} GrowthKeepsLast<T>(s: seq<Slot<T>>, t: seq<Slot<T>>, hash: string -> Hash, key: string,
                                              q: nat)
    requires Hashed(t, hash) && Single(t) && Rehashed(t) == Rehashed(s) && Last(s, q, hash(key))
    ensures Lookup(t, hash, key) == if s[q].key == key then Some(s[q].value) else None
  {
    LastStands(s, q, hash(key));
    RehashedKeysHash(t, hash);
    LookupIsVisible(t, hash, key);
    PlainShows(Rehashed(t), hash, key);
    hide Plain, Single, Lookup, Last;
  }

  /** If the setter stops at a removed slot ind short of slot p, which holds the key, then lookups see the new value,
      but two slots now hold the key. Removing the key brings the old value back; growing brings it back exactly when p
      is after ind in slot order. */
  lemma {:induction false} OldValueComesBack<T>(s: seq<Slot<T>>, hash: string -> Hash, ind: nat, p: nat, key: string,
                                                value: T)
    requires Chained(s) && Hashed(s, hash) && Single(s) && Reaches(s, hash(key), ind) && s[ind].Gone?
    requires Holds(s, p, hash(key)) && s[p].key == key
    ensures var s' := s[ind := Used(hash(key), key, value)];
            && !Single(s') && Lookup(s', hash, key) == Some(value)
            && Lookup(Erased(s', First(s', hash(key), key, 0)), hash, key) == Some(s[p].value)
            && hash(key) in Rehashed(s')
            && Rehashed(s')[hash(key)] == Pair(key, if p > ind then s[p].value else value)
  {
    var h, s' := hash(key), s[ind := Used(hash(key), key, value)];
    TwoHolders(s', ind, p, h);
    WriteFound(s, hash, ind, key, value);
    assert Erased(s', ind) == s;
    FirstOfSingle(s, h, key, p);
    var q := if p > ind then p else ind;
    forall j: nat | Holds(s', j, h)
      ensures j <= q
    {
      if j != ind { OneHolder(s, j, p, h); }
    }
    LastStands(s', q, h);
  }

  /** Such a state: key set second in a table of four, behind a key of the same home slot that was then removed. */
  lemma ShadowedExample<T>(hash: string -> Hash, key: string, value: T)
    requires hash(key) == 4
    ensures var s: seq<Slot<T>> := [Gone, Used(4, key, value), Empty, Empty];
            Table(s, 2, hash) && Single(s) && Reaches(s, 4, 0) && Holds(s, 1, 4)
  {
    var s: seq<Slot<T>> := [Gone, Used(4, key, value), Empty, Empty];
    assert Taken(s) == {0, 1};
    assert L.Home(4, 4) == 0;
  }
}
