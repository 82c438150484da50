/** The slots of the open-addressing map of src/types/map.c: string keys, 64-bit hashes, and slots that removal leaves
    behind. */
module HashSlots {
  import opened Option
  import opened Sizes
  import L = Larray

  type Hash = L.Key

  /** Gone is a removed slot: it is unused, but its key pointer is not NULL. */
  datatype Slot<T> = Empty | Gone | Used(hash: Hash, key: string, value: T)

  datatype Pair<T> = Pair(key: string, value: T)

  /** The slot d steps of probing after the home slot of h. */
  function Probed(h: Hash, d: nat, n: nat): (p: nat)
    requires d < n
    ensures p < n
  {
    L.At(L.Home(h, n), d, n)
  }

  /** The number of steps from the home slot of h to slot p. */
  function Steps(h: Hash, p: nat, n: nat): (d: nat)
    requires p < n
    ensures d < n && Probed(h, d, n) == p
  {
    L.Dist(L.Home(h, n), p, n)
  }

  ghost function Taken<T>(s: seq<Slot<T>>): set<nat> {
    set p: nat | p < |s| && !s[p].Empty?
  }

  /** Some slot is empty, whatever has been set and removed. */
  ghost predicate Open<T>(s: seq<Slot<T>>, len: nat) {
    len < |s| && |Taken(s)| <= len
  }

  ghost predicate TakenRun<T>(s: seq<Slot<T>>, h: Hash, d: nat)
    requires d <= |s|
  {
    forall j: nat :: j < d ==> !s[Probed(h, j, |s|)].Empty?
  }

  /** No empty slot lies between the home slot of a used slot and that slot. */
  ghost predicate Chained<T>(s: seq<Slot<T>>) {
    forall p: nat :: p < |s| && s[p].Used? ==> TakenRun(s, s[p].hash, Steps(s[p].hash, p, |s|))
  }

  /** The keys hash to what the slots say. */
  ghost predicate Hashed<T>(s: seq<Slot<T>>, hash: string -> Hash) {
    forall p: nat :: p < |s| && s[p].Used? ==> s[p].hash == hash(s[p].key)
  }

  ghost predicate AtHome<T>(s: seq<Slot<T>>) {
    forall p: nat :: p < |s| && s[p].Used? ==> s[p].hash == p
  }

  /** The invariant of every table, also of those in which one hash has more than one slot. */
  ghost predicate Table<T>(s: seq<Slot<T>>, len: nat, hash: string -> Hash) {
    Open(s, len) && Chained(s) && Hashed(s, hash) && (L.KEYS <= |s| ==> AtHome(s))
  }

  /** Slot p is used by hash h. */
  ghost predicate Holds<T>(s: seq<Slot<T>>, p: nat, h: Hash) {
    p < |s| && s[p].Used? && s[p].hash == h
  }

  /** No hash has more than one slot. */
  ghost predicate Single<T>(s: seq<Slot<T>>) {
    forall p: nat, q: nat :: p < q < |s| && s[p].Used? && s[q].Used? ==> s[p].hash != s[q].hash
  }

  // ---- Searching ----

  predicate IsAt<T>(x: Slot<T>, h: Hash, key: string) {
    x.Used? && x.hash == h && x.key == key
  }

  /** The first slot in probing order, from step d on, that holds the key; -1 if there is none. */
  ghost function First<T>(s: seq<Slot<T>>, h: Hash, key: string, d: nat): (p: int)
    ensures p == -1 || (0 <= p < |s| && IsAt(s[p], h, key))
    decreases |s| - d
  {
    if d >= |s| then -1
    else if IsAt(s[Probed(h, d, |s|)], h, key) then Probed(h, d, |s|)
    else First(s, h, key, d + 1)
  }

  /** What a lookup of a key gives. */
  ghost function Lookup<T>(s: seq<Slot<T>>, hash: string -> Hash, key: string): Option<T> {
    var p := First(s, hash(key), key, 0);
    if p >= 0 then Some(s[p].value) else None
  }

  lemma AllTakenSize<T>(s: seq<Slot<T>>)
    requires forall p: nat :: p < |s| ==> !s[p].Empty?
    ensures |Taken(s)| == |s|
  {
    if s != [] {
      var n := |s| - 1;
      AllTakenSize(s[..n]);
      assert Taken(s) == Taken(s[..n]) + {n};
    }
  }

  lemma EmptySlot<T>(s: seq<Slot<T>>, len: nat) returns (f: nat)
    requires Open(s, len)
    ensures f < |s| && s[f].Empty?
  {
    assert exists p: nat :: p < |s| && s[p].Empty? by {
      if forall p: nat :: p < |s| ==> !s[p].Empty? {
        AllTakenSize(s);
      }
    }
    f :| f < |s| && s[f].Empty?;
  }

  /** A run of taken slots ends before it has come round. */
  lemma RunEnds<T>(s: seq<Slot<T>>, len: nat, h: Hash, d: nat)
    requires Open(s, len) && d <= |s| && TakenRun(s, h, d)
    ensures d < |s|
  {
    var f := EmptySlot(s, len);
    assert Probed(h, Steps(h, f, |s|), |s|) == f;
  }

  /** A run that has passed every slot but one has left the empty one. */
  lemma LastIsEmpty<T>(s: seq<Slot<T>>, len: nat, h: Hash, d: nat)
    requires Open(s, len) && d + 1 == |s| && TakenRun(s, h, d)
    ensures s[Probed(h, d, |s|)].Empty?
  {
    if !s[Probed(h, d, |s|)].Empty? {
      RunEnds(s, len, h, d + 1);
    }
  }

  /** A search may stop at an empty slot: nothing of its hash lies beyond. */
  lemma {:induction false} NothingBeyond<T>(s: seq<Slot<T>>, h: Hash, key: string, d: nat, e: nat)
    requires Chained(s) && d <= e && d < |s| && s[Probed(h, d, |s|)].Empty?
    ensures First(s, h, key, e) == -1
    decreases |s| - e
  {
    if e < |s| {
      NothingBeyond(s, h, key, d, e + 1);
      var p := Probed(h, e, |s|);
      assert Steps(h, p, |s|) == e;
      assert IsAt(s[p], h, key) ==> TakenRun(s, h, e);
    }
  }

  lemma {:induction false} SkipRun<T>(s: seq<Slot<T>>, h: Hash, key: string, d: nat, e: nat)
    requires d <= e < |s| && forall j: nat :: d <= j < e ==> !IsAt(s[Probed(h, j, |s|)], h, key)
    ensures First(s, h, key, d) == First(s, h, key, e)
    decreases e - d
  {
    if d < e {
      SkipRun(s, h, key, d + 1, e);
    }
  }

  lemma {:induction false} FindNothing<T>(s: seq<Slot<T>>, h: Hash, key: string, d: nat)
    requires forall p: nat :: p < |s| ==> !IsAt(s[p], h, key)
    ensures First(s, h, key, d) == -1
    decreases |s| - d
  {
    if d < |s| {
      FindNothing(s, h, key, d + 1);
    }
  }

  lemma {:induction false} FindSomething<T>(s: seq<Slot<T>>, h: Hash, key: string, d: nat, e: nat)
    requires d <= e < |s| && IsAt(s[Probed(h, e, |s|)], h, key)
    ensures First(s, h, key, d) >= 0
    decreases e - d
  {
    if d < e {
      FindSomething(s, h, key, d + 1, e);
    }
  }

  /** Tables that hold a key in the same slots give the same answer for it. */
  lemma {:induction false} SameAnswer<T>(s: seq<Slot<T>>, t: seq<Slot<T>>, h: Hash, key: string, d: nat)
    requires |s| == |t| && forall p: nat :: p < |s| ==> IsAt(s[p], h, key) == IsAt(t[p], h, key)
    ensures First(s, h, key, d) == First(t, h, key, d)
    decreases |s| - d
  {
    if d < |s| {
      SameAnswer(s, t, h, key, d + 1);
    }
  }

  /** In a table of 2^64 slots or more the search is over after its first step. */
  lemma {:induction false} FoundAtHome<T>(s: seq<Slot<T>>, h: Hash, key: string, d: nat)
    requires L.KEYS <= |s| && AtHome(s) && d > 0
    ensures First(s, h, key, d) == -1
    decreases |s| - d
  {
    if d < |s| {
      FoundAtHome(s, h, key, d + 1);
      assert Probed(h, 0, |s|) == h;
    }
  }

  // ---- What a rehash makes of a table ----

  /** The pairs of the used slots set one after the other, in slot order: of two slots with one hash the later one
      stands. */
  ghost function Rehashed<T>(s: seq<Slot<T>>): (m: map<Hash, Pair<T>>)
    decreases |s|
  {
    if s == [] then map[]
    else
      var n := |s| - 1;
      var m := Rehashed(s[..n]);
      if s[n].Used? then m[s[n].hash := Pair(s[n].key, s[n].value)] else m
  }

  /** Slot p is the last of hash h. */
  ghost predicate Last<T>(s: seq<Slot<T>>, p: nat, h: Hash) {
    Holds(s, p, h) && forall q: nat :: Holds(s, q, h) ==> q <= p
  }

  lemma {:induction false} LastStands<T>(s: seq<Slot<T>>, p: nat, h: Hash)
    requires Last(s, p, h)
    ensures h in Rehashed(s) && Rehashed(s)[h] == Pair(s[p].key, s[p].value)
    decreases |s|
  {
    var n := |s| - 1;
    if p < n {
      assert !Holds(s, n, h);
      assert forall q: nat :: Holds(s[..n], q, h) ==> Holds(s, q, h);
      LastStands(s[..n], p, h);
    }
  }

  lemma {:induction false} LastHolder<T>(s: seq<Slot<T>>, h: Hash) returns (p: nat)
    requires h in Rehashed(s)
    ensures Last(s, p, h)
    decreases |s|
  {
    var n := |s| - 1;
    if Holds(s, n, h) {
      p := n;
    } else {
      p := LastHolder(s[..n], h);
      forall q: nat | Holds(s, q, h)
        ensures q <= p
      {
        assert Holds(s[..n], q, h);
      }
    }
  }

  lemma {:induction false} HolderStands<T>(s: seq<Slot<T>>, p: nat, h: Hash)
    requires Holds(s, p, h)
    ensures h in Rehashed(s)
    decreases |s|
  {
    var n := |s| - 1;
    if p < n {
      assert Holds(s[..n], p, h);
      HolderStands(s[..n], p, h);
    }
  }

  lemma SingleIsLast<T>(s: seq<Slot<T>>, p: nat, h: Hash)
    requires Single(s) && Holds(s, p, h)
    ensures Last(s, p, h)
  {
    forall q: nat | Holds(s, q, h)
      ensures q <= p
    {
    }
  }

  ghost function UsedSlots<T>(s: seq<Slot<T>>): set<nat> {
    set p: nat | p < |s| && s[p].Used?
  }

  lemma {:induction false} RehashedSize<T>(s: seq<Slot<T>>)
    ensures |Rehashed(s)| <= |UsedSlots(s)| <= |Taken(s)|
    decreases |s|
  {
    SubsetSize(UsedSlots(s), Taken(s));
    if s != [] {
      var n := |s| - 1;
      RehashedSize(s[..n]);
      assert UsedSlots(s) == UsedSlots(s[..n]) + if s[n].Used? then {n} else {};
    }
  }

  // ---- Setting ----

  /** The first d slots probed for h are used by other hashes. */
  ghost predicate PassedBy<T>(s: seq<Slot<T>>, h: Hash, d: nat)
    requires d <= |s|
  {
    forall j: nat :: j < d ==> var x := s[Probed(h, j, |s|)]; x.Used? && x.hash != h
  }

  /** The probing loop of map_set stops here. Equal keys have equal hashes, so the comparison of keys decides
      nothing. */
  predicate Stops<T>(x: Slot<T>, h: Hash) {
    !x.Used? || x.hash == h
  }

  /** The slot at which that loop stops. */
  ghost predicate Reaches<T>(s: seq<Slot<T>>, h: Hash, ind: nat) {
    ind < |s| && PassedBy(s, h, Steps(h, ind, |s|)) && Stops(s[ind], h)
  }

  const PROBES: nat := 12

  /** The loop stops within its cap. */
  ghost predicate WithinCap<T>(s: seq<Slot<T>>, h: Hash) {
    PROBES <= |s| ==> !PassedBy(s, h, PROBES)
  }

  /** The loop would stop at a removed slot, short of a slot that holds h. */
  ghost predicate Shadowed<T>(s: seq<Slot<T>>, h: Hash) {
    exists ind: nat, p: nat :: Reaches(s, h, ind) && s[ind].Gone? && Holds(s, p, h)
  }

  lemma ProbeRun<T>(s: seq<Slot<T>>, len: nat, hash: string -> Hash, h: Hash, d: nat)
    requires Table(s, len, hash) && d <= |s| && PassedBy(s, h, d)
    ensures d < |s| && TakenRun(s, h, d)
    ensures L.KEYS <= |s| ==> d == 0
  {
    RunEnds(s, len, h, d);
    if d > 0 {
      var x := s[Probed(h, 0, |s|)];
      assert x.Used? && x.hash != h;
    }
  }

  lemma OneStop<T>(s: seq<Slot<T>>, h: Hash, ind: nat, ind': nat)
    requires Reaches(s, h, ind) && Reaches(s, h, ind')
    ensures ind == ind'
  {
    var d, d' := Steps(h, ind, |s|), Steps(h, ind', |s|);
    assert Probed(h, d, |s|) == ind && Probed(h, d', |s|) == ind';
  }

  /** The slot at which the loop stops is not empty when a slot holds the hash. */
  lemma StopsInChain<T>(s: seq<Slot<T>>, h: Hash, ind: nat, p: nat)
    requires Chained(s) && Reaches(s, h, ind) && Holds(s, p, h)
    ensures Steps(h, ind, |s|) <= Steps(h, p, |s|) && !s[ind].Empty?
  {
    var d, e := Steps(h, ind, |s|), Steps(h, p, |s|);
    assert Probed(h, d, |s|) == ind && Probed(h, e, |s|) == p;
    assert TakenRun(s, h, e);
  }

  lemma WriteKeepsTable<T>(s: seq<Slot<T>>, len: nat, hash: string -> Hash, ind: nat, key: string, value: T)
    requires Table(s, len, hash) && len + 1 < |s| && Reaches(s, hash(key), ind)
    ensures Table(s[ind := Used(hash(key), key, value)], len + 1, hash)
  {
    var h := hash(key);
    var x, s' := Used(h, key, value), s[ind := Used(h, key, value)];
    ProbeRun(s, len, hash, h, Steps(h, ind, |s|));
    assert Taken(s') == Taken(s) + {ind};
    FillKeepsChains(s, ind, x);
  }

  lemma FillKeepsChains<T>(s: seq<Slot<T>>, ind: nat, x: Slot<T>)
    requires Chained(s) && ind < |s| && !x.Empty? && (x.Used? ==> TakenRun(s, x.hash, Steps(x.hash, ind, |s|)))
    ensures Chained(s[ind := x])
  {
    var s' := s[ind := x];
    forall p: nat | p < |s'| && s'[p].Used?
      ensures TakenRun(s', s'[p].hash, Steps(s'[p].hash, p, |s'|))
    {
      assert TakenRun(s, s'[p].hash, Steps(s'[p].hash, p, |s|));
    }
  }

  /** After the write the search for the key stops there. */
  lemma {:induction false} WriteFound<T>(s: seq<Slot<T>>, hash: string -> Hash, ind: nat, key: string, value: T)
    requires Reaches(s, hash(key), ind)
    ensures First(s[ind := Used(hash(key), key, value)], hash(key), key, 0) == ind
  {
    var h := hash(key);
    var s', d := s[ind := Used(h, key, value)], Steps(h, ind, |s|);
    assert Probed(h, d, |s|) == ind;
    forall j: nat | j < d
      ensures !IsAt(s'[Probed(h, j, |s'|)], h, key)
    {
      assert Probed(h, j, |s|) != Probed(h, d, |s|);
    }
    SkipRun(s', h, key, 0, d);
  }

  /** After the write a lookup of the key gives its new value, and a lookup of another key what it gave before, unless
      that key was written over. */
  lemma {:induction false} WriteSeen<T>(s: seq<Slot<T>>, hash: string -> Hash, ind: nat, key: string, value: T,
                                        k: string)
    requires Hashed(s, hash) && Reaches(s, hash(key), ind)
    ensures var s' := s[ind := Used(hash(key), key, value)];
            && Lookup(s', hash, key) == Some(value)
            && (k != key && !(s[ind].Used? && s[ind].key == k) ==> Lookup(s', hash, k) == Lookup(s, hash, k))
  {
    var s' := s[ind := Used(hash(key), key, value)];
    WriteFound(s, hash, ind, key, value);
    if k != key && !(s[ind].Used? && s[ind].key == k) {
      SameAnswer(s, s', hash(k), k, 0);
    }
  }

  /** The write leaves one slot a hash exactly when there was one and the slot written was not short of it. */
  lemma WriteSingle<T>(s: seq<Slot<T>>, ind: nat, x: Slot<T>)
    requires Chained(s) && x.Used? && Reaches(s, x.hash, ind)
    ensures Single(s[ind := x]) <==> Single(s) && !Shadowed(s, x.hash)
  {
    if Single(s) && !Shadowed(s, x.hash) {
      WriteKeepsSingle(s, ind, x);
    } else if Shadowed(s, x.hash) {
      var i: nat, p: nat :| Reaches(s, x.hash, i) && s[i].Gone? && Holds(s, p, x.hash);
      OneStop(s, x.hash, i, ind);
      TwoHolders(s[ind := x], ind, p, x.hash);
    } else {
      var p: nat, q: nat :| p < q < |s| && s[p].Used? && s[q].Used? && s[p].hash == s[q].hash;
      TwoHolders(s[ind := x], p, q, s[p].hash);
    }
  }

  lemma TwoHolders<T>(s: seq<Slot<T>>, p: nat, q: nat, h: Hash)
    requires p != q && Holds(s, p, h) && Holds(s, q, h)
    ensures !Single(s)
  {
    if p < q {
      assert s[p].hash == s[q].hash;
    } else {
      assert s[q].hash == s[p].hash;
    }
  }

  lemma OneHolder<T>(s: seq<Slot<T>>, p: nat, q: nat, h: Hash)
    requires Single(s) && Holds(s, p, h) && Holds(s, q, h)
    ensures p == q
  {
    if p != q {
      TwoHolders(s, p, q, h);
    }
  }

  lemma WriteKeepsSingle<T>(s: seq<Slot<T>>, ind: nat, x: Slot<T>)
    requires Chained(s) && x.Used? && Reaches(s, x.hash, ind) && Single(s) && !Shadowed(s, x.hash)
    ensures Single(s[ind := x])
  {
    forall p: nat | Holds(s, p, x.hash)
      ensures p == ind
    {
      StopsInChain(s, x.hash, ind, p);
      assert s[ind].Used?;
    }
    assert forall p: nat :: p < |s| && s[p].Used? && p != ind ==> !Holds(s, p, x.hash);
  }

  /** When it does, the write is a write to what the table stands for. */
  lemma {:induction false} WriteRehashed<T>(s: seq<Slot<T>>, ind: nat, x: Slot<T>)
    requires x.Used? && ind < |s| && Stops(s[ind], x.hash) && Single(s) && Single(s[ind := x])
    ensures Rehashed(s[ind := x]) == Rehashed(s)[x.hash := Pair(x.key, x.value)]
  {
    var s' := s[ind := x];
    var m, m' := Rehashed(s)[x.hash := Pair(x.key, x.value)], Rehashed(s');
    SingleIsLast(s', ind, x.hash);
    LastStands(s', ind, x.hash);
    forall g | g != x.hash
      ensures (g in m <==> g in m') && (g in m ==> m[g] == m'[g])
    {
      OtherStands(s, s', ind, g);
    }
    hide *;
    assert m' == m;
  }

  /** Two tables that differ in one slot, which does not hold g in either, stand for the same under g. */
  lemma {:induction false} OtherStands<T>(s: seq<Slot<T>>, t: seq<Slot<T>>, ind: nat, g: Hash)
    requires |s| == |t| && ind < |s| && (forall p: nat :: p < |s| && p != ind ==> s[p] == t[p])
    requires Single(s) && Single(t) && !Holds(s, ind, g) && !Holds(t, ind, g)
    ensures g in Rehashed(s) <==> g in Rehashed(t)
    ensures g in Rehashed(s) ==> Rehashed(s)[g] == Rehashed(t)[g]
  {
    if g in Rehashed(s) {
      var p := LastHolder(s, g);
      LastStands(s, p, g);
      SingleIsLast(t, p, g);
      LastStands(t, p, g);
    } else if g in Rehashed(t) {
      var p := LastHolder(t, g);
      HolderStands(s, p, g);
    }
  }

  // ---- Removing ----

  lemma GoneKeepsTable<T>(s: seq<Slot<T>>, len: nat, hash: string -> Hash, p: nat)
    requires Table(s, len, hash) && p < |s| && s[p].Used?
    ensures Table(s[p := Gone], len, hash)
  {
    assert Taken(s[p := Gone]) == Taken(s);
    FillKeepsChains(s, p, Gone);
  }

  /** Removing a slot hides no other key, in any table. */
  lemma GoneHidesNothing<T>(s: seq<Slot<T>>, hash: string -> Hash, p: nat, k: string)
    requires p < |s| && s[p].Used? && s[p].key != k
    ensures Lookup(s[p := Gone], hash, k) == Lookup(s, hash, k)
  {
    SameAnswer(s, s[p := Gone], hash(k), k, 0);
  }

  lemma {:induction false} GoneRehashed<T>(s: seq<Slot<T>>, p: nat)
    requires Single(s) && p < |s| && s[p].Used?
    ensures Single(s[p := Gone]) && Rehashed(s[p := Gone]) == Rehashed(s) - {s[p].hash}
  {
    var s', h := s[p := Gone], s[p].hash;
    var m, m' := Rehashed(s) - {h}, Rehashed(s');
    if h in m' {
      var q := LastHolder(s', h);
      OneHolder(s, p, q, h);
    }
    forall g | g != h
      ensures (g in m <==> g in m') && (g in m ==> m[g] == m'[g])
    {
      OtherStands(s, s', p, g);
    }
    hide *;
    assert m' == m;
  }

  // ---- What a caller sees: keys, not hashes ----

  ghost predicate KeysHash<T>(m: map<Hash, Pair<T>>, hash: string -> Hash) {
    forall h :: h in m ==> hash(m[h].key) == h
  }

  /** The map from keys to values that the lookups answer from. */
  ghost function Plain<T>(m: map<Hash, Pair<T>>, hash: string -> Hash): map<string, T>
    requires KeysHash(m, hash)
  {
    map h | h in m :: m[h].key := m[h].value
  }

  /** p answers a lookup of k from the slot of k's hash, if that slot holds k. */
  ghost predicate Shows<T>(p: map<string, T>, m: map<Hash, Pair<T>>, hash: string -> Hash, k: string) {
    && (k in p <==> hash(k) in m && m[hash(k)].key == k)
    && (k in p ==> p[k] == m[hash(k)].value)
  }

  lemma PlainShows<T>(m: map<Hash, Pair<T>>, hash: string -> Hash, k: string)
    requires KeysHash(m, hash)
    ensures Shows(Plain(m, hash), m, hash, k)
  {
  }

  /** No other key present has this key's hash. */
  ghost predicate Alone<T>(m: map<Hash, Pair<T>>, hash: string -> Hash, key: string) {
    hash(key) in m ==> m[hash(key)].key == key
  }

  lemma AloneMeans<T>(m: map<Hash, Pair<T>>, hash: string -> Hash, key: string)
    requires KeysHash(m, hash)
    ensures Alone(m, hash, key) <==> forall k :: k in Plain(m, hash) && hash(k) == hash(key) ==> k == key
  {
    if hash(key) in m {
      PlainShows(m, hash, m[hash(key)].key);
    }
    forall k | k in Plain(m, hash)
      ensures hash(k) in m && m[hash(k)].key == k
    {
      PlainShows(m, hash, k);
    }
    hide Plain;
  }

  /** Setting a key is setting it in a plain map exactly when no other key present has its hash. */
  lemma SetIsPlain<T>(m: map<Hash, Pair<T>>, hash: string -> Hash, key: string, value: T)
    requires KeysHash(m, hash)
    ensures KeysHash(m[hash(key) := Pair(key, value)], hash)
    ensures Plain(m[hash(key) := Pair(key, value)], hash) == Plain(m, hash)[key := value] <==> Alone(m, hash, key)
  {
    if Alone(m, hash, key) {
      SetAlone(m, hash, key, value);
    } else {
      OtherKeyLost(m, hash, key, value);
    }
    hide Plain;
  }

  lemma SetAlone<T>(m: map<Hash, Pair<T>>, hash: string -> Hash, key: string, value: T)
    requires KeysHash(m, hash) && Alone(m, hash, key) && KeysHash(m[hash(key) := Pair(key, value)], hash)
    ensures Plain(m[hash(key) := Pair(key, value)], hash) == Plain(m, hash)[key := value]
  {
    hide *;
    var p, p' := Plain(m, hash), Plain(m[hash(key) := Pair(key, value)], hash);
    forall k
      ensures (k in p' <==> k in p || k == key) && (k in p' ==> p'[k] == if k == key then value else p[k])
    {
      SetShows(m, hash, key, value, k);
    }
    assert p' == p[key := value];
  }

  /** Setting a key whose hash another key has takes that key out. */
  lemma OtherKeyLost<T>(m: map<Hash, Pair<T>>, hash: string -> Hash, key: string, value: T)
    requires KeysHash(m, hash) && !Alone(m, hash, key) && KeysHash(m[hash(key) := Pair(key, value)], hash)
    ensures hash(key) in m && m[hash(key)].key in Plain(m, hash) && m[hash(key)].key != key
    ensures m[hash(key)].key !in Plain(m[hash(key) := Pair(key, value)], hash)
  {
    PlainShows(m, hash, m[hash(key)].key);
    PlainShows(m[hash(key) := Pair(key, value)], hash, m[hash(key)].key);
    hide Plain;
  }

  lemma SetShows<T>(m: map<Hash, Pair<T>>, hash: string -> Hash, key: string, value: T, k: string)
    requires KeysHash(m, hash) && Alone(m, hash, key) && KeysHash(m[hash(key) := Pair(key, value)], hash)
    ensures var p, p' := Plain(m, hash), Plain(m[hash(key) := Pair(key, value)], hash);
            (k in p' <==> k in p || k == key) && (k in p' ==> p'[k] == if k == key then value else p[k])
  {
    PlainShows(m, hash, k);
    PlainShows(m[hash(key) := Pair(key, value)], hash, k);
    hide Plain;
  }

  lemma RemoveIsPlain<T>(m: map<Hash, Pair<T>>, hash: string -> Hash, key: string)
    requires KeysHash(m, hash)
    ensures KeysHash(m - {hash(key)}, hash)
    ensures key in Plain(m, hash) ==> Plain(m - {hash(key)}, hash) == Plain(m, hash) - {key}
  {
    if key in Plain(m, hash) {
      hide *;
      var p, p' := Plain(m, hash), Plain(m - {hash(key)}, hash);
      forall k
        ensures (k in p' <==> k in p && k != key) && (k in p' ==> p'[k] == p[k])
      {
        RemoveShows(m, hash, key, k);
      }
      assert p' == p - {key};
    }
  }

  lemma RemoveShows<T>(m: map<Hash, Pair<T>>, hash: string -> Hash, key: string, k: string)
    requires KeysHash(m, hash) && key in Plain(m, hash) && KeysHash(m - {hash(key)}, hash)
    ensures var p, p' := Plain(m, hash), Plain(m - {hash(key)}, hash);
            (k in p' <==> k in p && k != key) && (k in p' ==> p'[k] == p[k])
  {
    PlainShows(m, hash, key);
    PlainShows(m, hash, k);
    PlainShows(m - {hash(key)}, hash, k);
    hide Plain;
  }

  lemma RehashedKeysHash<T>(s: seq<Slot<T>>, hash: string -> Hash)
    requires Hashed(s, hash)
    ensures KeysHash(Rehashed(s), hash)
  {
    forall h | h in Rehashed(s)
      ensures hash(Rehashed(s)[h].key) == h
    {
      var p := LastHolder(s, h);
      LastStands(s, p, h);
    }
  }

  /** The keys and values a table with one slot a hash stands for. */
  ghost function Visible<T>(s: seq<Slot<T>>, hash: string -> Hash): map<string, T>
    requires Hashed(s, hash)
  {
    RehashedKeysHash(s, hash);
    Plain(Rehashed(s), hash)
  }

  /** In such a table the lookups answer from that map. */
  lemma {:induction false} LookupIsVisible<T>(s: seq<Slot<T>>, hash: string -> Hash, key: string)
    requires Hashed(s, hash) && Single(s)
    ensures Lookup(s, hash, key) == if key in Visible(s, hash) then Some(Visible(s, hash)[key]) else None
  {
    var h := hash(key);
    RehashedKeysHash(s, hash);
    PlainShows(Rehashed(s), hash, key);
    if h in Rehashed(s) {
      var p := LastHolder(s, h);
      LastStands(s, p, h);
      FirstOfSingle(s, h, key, p);
    } else {
      forall p: nat | p < |s|
        ensures !IsAt(s[p], h, key)
      {
        if IsAt(s[p], h, key) { HolderStands(s, p, h); }
      }
      FindNothing(s, h, key, 0);
    }
    hide Plain;
  }

  lemma {:induction false} FirstOfSingle<T>(s: seq<Slot<T>>, h: Hash, key: string, p: nat)
    requires Single(s) && Holds(s, p, h)
    ensures First(s, h, key, 0) == if s[p].key == key then p else -1
  {
    if s[p].key == key {
      assert Probed(h, Steps(h, p, |s|), |s|) == p;
      FindSomething(s, h, key, 0, Steps(h, p, |s|));
      OneHolder(s, p, First(s, h, key, 0), h);
    } else {
      forall q: nat | q < |s|
        ensures !IsAt(s[q], h, key)
      {
        if IsAt(s[q], h, key) { OneHolder(s, p, q, h); }
      }
      FindNothing(s, h, key, 0);
    }
  }
}
