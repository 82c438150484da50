/** What a copy into a fresh state looks like: the shape of the source, without the filtered keys. */
module DeepCopyShape {
  import opened Option
  import opened DeepCopy

  // ---- Fields ----

  /** Two keys are one after copying: they are the same, or numbers that become the same. */
  predicate SameKey(a: Value, b: Value, number: int -> int) {
    a == b || (a.Num? && b.Num? && number(a.n) == number(b.n))
  }

  predicate Kept(pairs: seq<Pair>, f: Flags, i: nat) {
    i < |pairs| && !f.Skips(pairs[i].key)
  }

  /** Distinct keys of one table get the same copy exactly when both are numbers and become the same number. */
  lemma KeysMerge(x: Ptr, pairs: seq<Pair>, f: Flags, l: Links, i: nat, j: nat)
    requires l.HasPairs(x, pairs, f) && Injective(l.memo) && Injective(l.made) && DistinctKeys(pairs)
    requires Kept(pairs, f, i) && Kept(pairs, f, j)
    ensures l.HasPair(x, i, pairs[i]) && l.HasPair(x, j, pairs[j])
    ensures l.Image(pairs[i].key, Field(x, i, true)) == l.Image(pairs[j].key, Field(x, j, true)) <==>
            SameKey(pairs[i].key, pairs[j].key, l.number)
    ensures i != j && SameKey(pairs[i].key, pairs[j].key, l.number) ==> pairs[i].key.Num? && pairs[j].key.Num?
  {
    assert l.HasPair(x, i, pairs[i]) && l.HasPair(x, j, pairs[j]);
    assert i != j ==> pairs[i].key != pairs[j].key;
  }

  /** The last pair written under the copy of key k. */
  function Find(pairs: seq<Pair>, f: Flags, k: Value, number: int -> int): (i: Option<nat>)
    ensures i.Some? ==> Kept(pairs, f, i.value) && SameKey(pairs[i.value].key, k, number)
    ensures forall j: nat :: Kept(pairs, f, j) && SameKey(pairs[j].key, k, number) ==> i.Some? && j <= i.value
    decreases |pairs|
  {
    if pairs == [] then None
    else
      var n := |pairs| - 1;
      if !f.Skips(pairs[n].key) && SameKey(pairs[n].key, k, number) then Some(n)
      else
        assert forall j :: 0 <= j < n ==> pairs[..n][j] == pairs[j];
        assert forall j: nat :: Kept(pairs, f, j) && j < n ==> Kept(pairs[..n], f, j);
        Find(pairs[..n], f, k, number)
  }

  /** Some number keys become one. */
  ghost predicate Merges(pairs: seq<Pair>, f: Flags, number: int -> int) {
    exists i: nat, j: nat ::
      i < j && Kept(pairs, f, i) && Kept(pairs, f, j) && SameKey(pairs[i].key, pairs[j].key, number)
  }

  /** Under the copy of a key is the copy of the value last written there: the key's own value, unless a later number
      key became the same number. */
  lemma {:induction false} FieldsCorrespond(x: Ptr, pairs: seq<Pair>, f: Flags, l: Links, i: nat)
    requires l.HasPairs(x, pairs, f) && Injective(l.memo) && Injective(l.made) && DistinctKeys(pairs) &&
             Kept(pairs, f, i)
    ensures l.HasPair(x, i, pairs[i])
    ensures var k, j := l.Image(pairs[i].key, Field(x, i, true)), Find(pairs, f, pairs[i].key, l.number);
            && j.Some? && l.HasPair(x, j.value, pairs[j.value]) && k in l.ImageFields(x, pairs, f)
            && l.ImageFields(x, pairs, f)[k] == l.Image(pairs[j.value].value, Field(x, j.value, false))
    ensures !Merges(pairs, f, l.number) ==> Find(pairs, f, pairs[i].key, l.number) == Some(i)
    decreases |pairs|
  {
    var n := |pairs| - 1;
    var j := Find(pairs, f, pairs[i].key, l.number);
    assert l.HasPair(x, i, pairs[i]) && l.HasPair(x, j.value, pairs[j.value]);
    FewerPairs(x, pairs, f, l);
    if Kept(pairs, f, n) {
      KeysMerge(x, pairs, f, l, n, i);
    }
    if i < n {
      assert pairs[..n][i] == pairs[i];
      if !(Kept(pairs, f, n) && SameKey(pairs[n].key, pairs[i].key, l.number)) {
        assert j.value < n && pairs[..n][j.value] == pairs[j.value];
        FindEarlier(pairs, f, pairs[i].key, l.number);
        FieldsCorrespond(x, pairs[..n], f, l, i);
      }
    }
  }

  lemma FindEarlier(pairs: seq<Pair>, f: Flags, k: Value, number: int -> int)
    requires pairs != []
    requires var n := |pairs| - 1; !(Kept(pairs, f, n) && SameKey(pairs[n].key, k, number))
    ensures Find(pairs, f, k, number) == Find(pairs[..|pairs| - 1], f, k, number)
  {
  }

  /** Every field of a copy is the image of a pair of the source table. */
  lemma {:induction false} FieldsComeFromPairs(x: Ptr, pairs: seq<Pair>, f: Flags, l: Links, d: Value) returns (i: nat)
    requires l.HasPairs(x, pairs, f) && d in l.ImageFields(x, pairs, f)
    ensures Kept(pairs, f, i) && l.HasPair(x, i, pairs[i]) && l.Image(pairs[i].key, Field(x, i, true)) == d
    decreases |pairs|
  {
    var n := |pairs| - 1;
    FewerPairs(x, pairs, f, l);
    if Kept(pairs, f, n) {
      assert l.HasPair(x, n, pairs[n]);
    }
    if Kept(pairs, f, n) && l.Image(pairs[n].key, Field(x, n, true)) == d {
      i := n;
    } else {
      i := FieldsComeFromPairs(x, pairs[..n], f, l, d);
    }
  }

  function KeptCount(pairs: seq<Pair>, f: Flags): nat
    decreases |pairs|
  {
    if pairs == [] then 0
    else KeptCount(pairs[..|pairs| - 1], f) + if f.Skips(pairs[|pairs| - 1].key) then 0 else 1
  }

  /** A copy has as many fields as the source table has pairs that are not filtered, exactly when no number keys
      merge. */
  lemma {:induction false} FieldCount(x: Ptr, pairs: seq<Pair>, f: Flags, l: Links)
    requires l.HasPairs(x, pairs, f) && Injective(l.memo) && Injective(l.made) && DistinctKeys(pairs)
    ensures |l.ImageFields(x, pairs, f)| <= KeptCount(pairs, f)
    ensures |l.ImageFields(x, pairs, f)| == KeptCount(pairs, f) <==> !Merges(pairs, f, l.number)
    decreases |pairs|
  {
    if pairs != [] {
      var n := |pairs| - 1;
      FewerPairs(x, pairs, f, l);
      FieldCount(x, pairs[..n], f, l);
      MergesLast(pairs, f, l.number);
      if Kept(pairs, f, n) {
        assert l.HasPair(x, n, pairs[n]);
        LastKeyIsOld(x, pairs, f, l);
      }
      hide Merges, Links.HasPairs, Links.HasPair, Injective, DistinctKeys;
    }
  }

  /** Keys merge among the earlier pairs or with the last one. */
  lemma {:induction false} MergesLast(pairs: seq<Pair>, f: Flags, number: int -> int)
    requires pairs != []
    ensures var n := |pairs| - 1;
            Merges(pairs, f, number) <==>
            Merges(pairs[..n], f, number) || (Kept(pairs, f, n) && Find(pairs[..n], f, pairs[n].key, number).Some?)
  {
    var n := |pairs| - 1;
    var front := pairs[..n];
    forall i: nat | i < n
      ensures front[i] == pairs[i] && Kept(front, f, i) == Kept(pairs, f, i)
    {
    }
    if Merges(front, f, number) {
      var i: nat, j: nat :|
        i < j && Kept(front, f, i) && Kept(front, f, j) && SameKey(front[i].key, front[j].key, number);
      assert Kept(pairs, f, i) && Kept(pairs, f, j);
    }
    if Kept(pairs, f, n) && Find(front, f, pairs[n].key, number).Some? {
      var i := Find(front, f, pairs[n].key, number).value;
      assert Kept(pairs, f, i) && SameKey(pairs[i].key, pairs[n].key, number);
    }
    if Merges(pairs, f, number) {
      var i: nat, j: nat :|
        i < j && Kept(pairs, f, i) && Kept(pairs, f, j) && SameKey(pairs[i].key, pairs[j].key, number);
      assert Kept(front, f, i);
      assert j < n ==> Kept(front, f, j);
    }
  }

  /** The last key is written over exactly when an earlier kept key has the same copy. */
  lemma {:induction false} LastKeyIsOld(x: Ptr, pairs: seq<Pair>, f: Flags, l: Links)
    requires pairs != [] && l.HasPairs(x, pairs, f) && l.HasPairs(x, pairs[..|pairs| - 1], f)
    requires Injective(l.memo) && Injective(l.made) && DistinctKeys(pairs) && Kept(pairs, f, |pairs| - 1)
    requires l.HasPair(x, |pairs| - 1, pairs[|pairs| - 1])
    ensures var n := |pairs| - 1;
            l.Image(pairs[n].key, Field(x, n, true)) in l.ImageFields(x, pairs[..n], f) <==>
            Find(pairs[..n], f, pairs[n].key, l.number).Some?
  {
    var n := |pairs| - 1;
    var front, d := pairs[..n], l.Image(pairs[n].key, Field(x, n, true));
    if Find(front, f, pairs[n].key, l.number).Some? {
      var i := Find(front, f, pairs[n].key, l.number).value;
      FieldsCorrespond(x, front, f, l, i);
      KeysMerge(x, pairs, f, l, i, n);
    } else if d in l.ImageFields(x, front, f) {
      var i := FieldsComeFromPairs(x, front, f, l, d);
      KeysMerge(x, pairs, f, l, i, n);
    }
  }

  // ---- What doubles do to numbers ----

  const DOUBLE_WHOLE: int := 0x20_0000_0000_0000  // 2^53

  /** The distance of the doubles around m, from u on. */
  function Unit(m: nat, u: nat): (v: nat)
    requires u > 0
    ensures v > 0
    decreases m - u
  {
    if m < DOUBLE_WHOLE * u then u else Unit(m, 2 * u)
  }

  /** The double nearest to m; of two, the even one. */
  function Nearest(m: nat): int {
    var u := Unit(m, 1);
    var q, r := m / u, m % u;
    (if 2 * r > u || (2 * r == u && q % 2 == 1) then q + 1 else q) * u
  }

  function Double(n: int): int {
    if n < 0 then -Nearest(-n) else Nearest(n)
  }

  lemma SmallNumbersKept(n: int)
    requires -DOUBLE_WHOLE <= n <= DOUBLE_WHOLE
    ensures Double(n) == n
  {
    assert Unit(DOUBLE_WHOLE, 2) == 2;
    assert DOUBLE_WHOLE / 2 * 2 == DOUBLE_WHOLE;
  }

  /** The keys 2^53 and 2^53 + 1 merge. */
  lemma BigKeysMerge(f: Flags, v: Value, w: Value)
    ensures var pairs := [Pair(Num(DOUBLE_WHOLE), v), Pair(Num(DOUBLE_WHOLE + 1), w)];
            DistinctKeys(pairs) && Merges(pairs, f, Double)
  {
    var pairs := [Pair(Num(DOUBLE_WHOLE), v), Pair(Num(DOUBLE_WHOLE + 1), w)];
    SmallNumbersKept(DOUBLE_WHOLE);
    assert Unit(DOUBLE_WHOLE + 1, 1) == Unit(DOUBLE_WHOLE + 1, 2) == 2;
    assert Double(DOUBLE_WHOLE + 1) == DOUBLE_WHOLE;
    assert Kept(pairs, f, 0) && Kept(pairs, f, 1) && SameKey(pairs[0].key, pairs[1].key, Double);
  }

  // ---- Walks through the graph ----

  /** A value and where it was found. */
  datatype Spot = Spot(v: Value, at: Place)

  ghost predicate Walkable(src: Graph, h: Heap, e: Spot) {
    e.v.Table? && e.v.p in src && e.v.p in h.reached
  }

  /** What the keys of path lead to, starting from e. Number keys that become the same number are one key. */
  ghost function Walk(src: Graph, h: Heap, e: Spot, path: seq<Value>): Option<Spot>
    decreases |path|
  {
    if path == [] then Some(e)
    else if Walkable(src, h, e) then
      var pairs := src[e.v.p].pairs;
      match Find(pairs, h.reached[e.v.p], path[0], h.links.number)
      case None => None
      case Some(i) => Walk(src, h, Spot(pairs[i].value, Field(e.v.p, i, false)), path[1..])
    else None
  }

  /** The copies of the keys along a walk. */
  ghost function CopiedPath(src: Graph, h: Heap, e: Spot, path: seq<Value>): seq<Value>
    decreases |path|
  {
    if path == [] || !Walkable(src, h, e) then []
    else
      var x, pairs := e.v.p, src[e.v.p].pairs;
      match Find(pairs, h.reached[x], path[0], h.links.number)
      case None => []
      case Some(i) =>
        if h.links.Has(pairs[i].key, Field(x, i, true)) then
          [h.links.Image(pairs[i].key, Field(x, i, true))]
          + CopiedPath(src, h, Spot(pairs[i].value, Field(x, i, false)), path[1..])
        else []
  }

  function WalkCopy(tables: map<Ptr, Copy>, w: Value, path: seq<Value>): Option<Value>
    decreases |path|
  {
    if path == [] then Some(w)
    else if w.Table? && w.p in tables && path[0] in tables[w.p].fields then
      WalkCopy(tables, tables[w.p].fields[path[0]], path[1..])
    else None
  }

  /** Everything copied is complete. */
  ghost predicate Complete(src: Graph, h: Heap) {
    Closed(src) && h.Valid(src) && h.DoneSince(src, map[], None)
  }

  /** One step of a walk: what Find gives in the source is what is under the copy of the key. */
  lemma {:induction false} StepCopied(src: Graph, h: Heap, x: Ptr, k: Value)
    requires Complete(src, h) && x in h.links.memo && Find(src[x].pairs, h.reached[x], k, h.links.number).Some?
    ensures var i, pairs := Find(src[x].pairs, h.reached[x], k, h.links.number).value, src[x].pairs;
            && x in src && x in h.reached && h.links.memo[x] in h.tables && h.links.HasPair(x, i, pairs[i])
            && var fields, d := h.tables[h.links.memo[x]].fields, h.links.Image(pairs[i].key, Field(x, i, true));
               d in fields && fields[d] == h.links.Image(pairs[i].value, Field(x, i, false))
  {
    assert h.Done(src, x);
    var i, pairs := Find(src[x].pairs, h.reached[x], k, h.links.number).value, src[x].pairs;
    FieldsCorrespond(x, pairs, h.reached[x], h.links, i);
    var j := Find(pairs, h.reached[x], pairs[i].key, h.links.number).value;
    assert SameKey(pairs[j].key, k, h.links.number);
  }

  /** Every walk in the source has its copy, which ends at the copy of its end. */
  lemma {:induction false} WalkCopied(src: Graph, h: Heap, e: Spot, path: seq<Value>)
    requires Complete(src, h) && h.links.Has(e.v, e.at) && Walk(src, h, e, path).Some?
    ensures var u := Walk(src, h, e, path).value;
            && h.links.Has(u.v, u.at)
            && WalkCopy(h.tables, h.links.Image(e.v, e.at), CopiedPath(src, h, e, path)) ==
              Some(h.links.Image(u.v, u.at))
    decreases |path|
  {
    if path != [] {
      var x := e.v.p;
      StepCopied(src, h, x, path[0]);
      var i := Find(src[x].pairs, h.reached[x], path[0], h.links.number).value;
      var next := Spot(src[x].pairs[i].value, Field(x, i, false));
      WalkCopied(src, h, next, path[1..]);
      var d := h.links.Image(src[x].pairs[i].key, Field(x, i, true));
      assert CopiedPath(src, h, e, path)[1..] == CopiedPath(src, h, next, path[1..]);
      hide Complete, Links.Has, Links.Image, Links.HasPair, Find;
    }
  }

  /** The walk along path in the source has the copy `way`. */
  ghost predicate Traces(src: Graph, h: Heap, e: Spot, path: seq<Value>, way: seq<Value>) {
    Walk(src, h, e, path).Some? && CopiedPath(src, h, e, path) == way
  }

  /** A walk through the copy from the copy of e. */
  ghost predicate Way(h: Heap, e: Spot, way: seq<Value>) {
    h.links.Has(e.v, e.at) && WalkCopy(h.tables, h.links.Image(e.v, e.at), way).Some?
  }

  /** Every walk in the copy is the copy of a walk in the source. */
  lemma {:induction false} WalkComesFromSource(src: Graph, h: Heap, e: Spot, way: seq<Value>) returns (path: seq<Value>)
    requires Complete(src, h) && Way(h, e, way)
    ensures Traces(src, h, e, path, way)
    decreases |way|
  {
    if way == [] {
      path := [];
    } else {
      hide *;
      var k, next := FirstStep(src, h, e, way);
      var rest := WalkComesFromSource(src, h, next, way[1..]);
      path := [k] + rest;
      WalkBegins(src, h, e, k, next, rest, way);
    }
  }

  /** k leads from e to next, by a key whose copy is d. */
  ghost predicate Leads(src: Graph, h: Heap, e: Spot, k: Value, next: Spot, d: Value) {
    Walkable(src, h, e) &&
    var x, pairs := e.v.p, src[e.v.p].pairs;
    match Find(pairs, h.reached[x], k, h.links.number)
    case None => false
    case Some(i) =>
      && next == Spot(pairs[i].value, Field(x, i, false))
      && h.links.Has(pairs[i].key, Field(x, i, true)) && h.links.Image(pairs[i].key, Field(x, i, true)) == d
  }

  lemma {:induction false} FirstStep(src: Graph, h: Heap, e: Spot, way: seq<Value>) returns (k: Value, next: Spot)
    requires Complete(src, h) && way != [] && Way(h, e, way)
    ensures Leads(src, h, e, k, next, way[0]) && Way(h, next, way[1..])
  {
    WayBegins(src, h, e, way);
    hide Complete, WalkCopy, Find;
    var x := e.v.p;
    var j;
    k, j := StepComesFromSource(src, h, x, way[0]);
    next := Spot(src[x].pairs[j].value, Field(x, j, false));
    hide Links.Image;
  }

  lemma WalkBegins(src: Graph, h: Heap, e: Spot, k: Value, next: Spot, rest: seq<Value>, way: seq<Value>)
    requires way != [] && Leads(src, h, e, k, next, way[0]) && Traces(src, h, next, rest, way[1..])
    ensures Traces(src, h, e, [k] + rest, way)
  {
    hide Find, Links.Has, Links.Image;
    assert ([k] + rest)[1..] == rest && way == [way[0]] + way[1..];
  }

  lemma WayBegins(src: Graph, h: Heap, e: Spot, way: seq<Value>)
    requires Complete(src, h) && Way(h, e, way) && way != []
    ensures Walkable(src, h, e) && e.v.Table? && e.v.p in h.links.memo && h.links.memo[e.v.p] in h.tables
    ensures way[0] in h.tables[h.links.memo[e.v.p]].fields
    ensures WalkCopy(h.tables, h.links.Image(e.v, e.at), way) ==
            WalkCopy(h.tables, h.tables[h.links.memo[e.v.p]].fields[way[0]], way[1..])
  {
  }

  /** One step of a walk in the copy, under d, is the step of the source under some key k. */
  lemma {:induction false} StepComesFromSource(src: Graph, h: Heap, x: Ptr, d: Value) returns (k: Value, j: nat)
    requires Complete(src, h) && x in h.links.memo && h.links.memo[x] in h.tables
    requires d in h.tables[h.links.memo[x]].fields
    ensures x in src && x in h.reached && Find(src[x].pairs, h.reached[x], k, h.links.number) == Some(j)
    ensures h.links.Has(src[x].pairs[j].key, Field(x, j, true)) &&
            h.links.Has(src[x].pairs[j].value, Field(x, j, false))
    ensures h.links.Image(src[x].pairs[j].key, Field(x, j, true)) == d
    ensures h.tables[h.links.memo[x]].fields[d] == h.links.Image(src[x].pairs[j].value, Field(x, j, false))
  {
    assert h.Done(src, x);
    var pairs, f := src[x].pairs, h.reached[x];
    var i := FieldsComeFromPairs(x, pairs, f, h.links, d);
    k := pairs[i].key;
    FieldsCorrespond(x, pairs, f, h.links, i);
    j := Find(pairs, f, k, h.links.number).value;
    KeysMerge(x, pairs, f, h.links, j, i);
    StepCopied(src, h, x, k);
  }

  /** Ends of walks whose copies are one: the same place for functions and userdata, the same number after copying for
      numbers, and the same value otherwise. */
  predicate SameCopy(a: Spot, b: Spot, number: int -> int) {
    if a.v.Obj? && b.v.Obj? then a.at == b.at && a.v.body == b.v.body else SameKey(a.v, b.v, number)
  }

  lemma ImagesMeet(l: Links, a: Spot, b: Spot)
    requires Injective(l.memo) && Injective(l.made) && l.Has(a.v, a.at) && l.Has(b.v, b.at)
    ensures l.Image(a.v, a.at) == l.Image(b.v, b.at) <==> SameCopy(a, b, l.number)
  {
  }

  /** Tables, strings, what is copied as it is, and numbers that a double can hold. */
  predicate Exact(v: Value, number: int -> int) {
    !v.Obj? && (v.Num? ==> number(v.n) == v.n)
  }

  /** A copy into a fresh state has the shape of the source, cycles and shared tables included: each walk in the source
      has its copy, and two walks meet in the copy exactly when their ends have one copy. For ends that are copied
      exactly that is when they meet in the source; a function or userdata is shared by no two places. */
  lemma {:induction false} CopyKeepsShape(src: Graph, v: Value, f: Flags, at: Place, number: int -> int, h: Heap,
                                          p: seq<Value>, q: seq<Value>)
    requires Closed(src) && Copied(src, v, f, at, Fresh(number), h)
    requires Walk(src, h, Spot(v, at), p).Some? && Walk(src, h, Spot(v, at), q).Some?
    ensures var e, w := Spot(v, at), h.links.Image(v, at);
            var vp, vq := Walk(src, h, e, p).value, Walk(src, h, e, q).value;
            var wp := WalkCopy(h.tables, w, CopiedPath(src, h, e, p));
            var wq := WalkCopy(h.tables, w, CopiedPath(src, h, e, q));
            && wp.Some? && wq.Some?
            && (wp == wq <==> SameCopy(vp, vq, number))
            && (Exact(vp.v, number) && Exact(vq.v, number) ==> (wp == wq <==> vp.v == vq.v))
            && (vp.v.Obj? && vq.v.Obj? && wp == wq ==> vp.at == vq.at)
  {
    var e := Spot(v, at);
    assert Complete(src, h);
    hide Copied, Visit;
    WalkCopied(src, h, e, p);
    WalkCopied(src, h, e, q);
    ImagesMeet(h.links, Walk(src, h, e, p).value, Walk(src, h, e, q).value);
    hide Walk, WalkCopy, CopiedPath;
  }

  /** In {a = f, b = f} both keys lead to one function; in its copy they lead to two. */
  lemma {:induction false} SharedFunctionSplit(f: Flags, number: int -> int, h: Heap)
    requires Copied(SharedFunction(), Table(0), f, Argument(0), Fresh(number), h)
    ensures var src, e := SharedFunction(), Spot(Table(0), Argument(0));
            var w, a, b := h.links.Image(e.v, e.at), Walk(src, h, e, [Str("a")]), Walk(src, h, e, [Str("b")]);
            && a.Some? && b.Some? && a.value.v == b.value.v
            && WalkCopy(h.tables, w, CopiedPath(src, h, e, [Str("a")])) !=
               WalkCopy(h.tables, w, CopiedPath(src, h, e, [Str("b")]))
  {
    var src, e := SharedFunction(), Spot(Table(0), Argument(0));
    SharedStart(f, number, h);
    hide *;
    WalkTo(h, 0);
    WalkTo(h, 1);
    CopyKeepsShape(src, Table(0), f, Argument(0), number, h, [Str("a")], [Str("b")]);
  }

  lemma SharedStart(f: Flags, number: int -> int, h: Heap)
    requires Copied(SharedFunction(), Table(0), f, Argument(0), Fresh(number), h)
    ensures Closed(SharedFunction()) && 0 in h.reached && h.links.Has(Table(0), Argument(0))
  {
    SharedClosed();
    hide Visit, Closed, SharedFunction, Heap.DoneSince, Made, Injective, Heap.Grew;
  }

  lemma SharedClosed()
    ensures Closed(SharedFunction())
  {
  }

  lemma WalkTo(h: Heap, i: nat)
    requires 0 in h.reached && i < 2
    ensures Walk(SharedFunction(), h, Spot(Table(0), Argument(0)), [if i == 0 then Str("a") else Str("b")]) ==
            Some(Spot(Obj(7, 1), Field(0, i, false)))
  {
    var pairs, k := SharedFunction()[0].pairs, if i == 0 then Str("a") else Str("b");
    assert pairs[i].key == k && Kept(pairs, h.reached[0], i);
    assert Find(pairs, h.reached[0], k, h.links.number) == Some(i);
    hide Find;
    assert [k][1..] == [];
  }

  function SharedFunction(): Graph {
    map[0 := Node([Pair(Str("a"), Obj(7, 1)), Pair(Str("b"), Obj(7, 1))], None)]
  }

  /** And the copy has no other walks. */
  lemma CopyHasNoOtherWalks(src: Graph, v: Value, f: Flags, at: Place, number: int -> int, h: Heap, way: seq<Value>)
    returns (path: seq<Value>)
    requires Closed(src) && Copied(src, v, f, at, Fresh(number), h)
    requires WalkCopy(h.tables, h.links.Image(v, at), way).Some?
    ensures Traces(src, h, Spot(v, at), path, way)
  {
    path := WalkComesFromSource(src, h, Spot(v, at), way);
  }

  // ---- What is in a copy ----

  /** At the end of each copied walk is what the end of the walk becomes, under what its keys become. */
  lemma {:induction false} WalkBecomes(src: Graph, h: Heap, e: Spot, path: seq<Value>)
    requires Complete(src, h) && h.links.Has(e.v, e.at) && Walk(src, h, e, path).Some?
    ensures var way := CopiedPath(src, h, e, path);
            var w := WalkCopy(h.tables, h.links.Image(e.v, e.at), way);
            && w.Some? && Becomes(Walk(src, h, e, path).value.v, w.value, h.links.number, h.tables)
            && |way| == |path| && forall i :: 0 <= i < |path| ==> Becomes(path[i], way[i], h.links.number, h.tables)
  {
    WalkCopied(src, h, e, path);
    var u := Walk(src, h, e, path).value;
    ImageBecomes(src, u.v, u.at, h);
    PathBecomes(src, h, e, path);
    hide Walk, WalkCopy, CopiedPath, Complete, Becomes, Links.Image, Links.Has;
  }

  lemma {:induction false} PathBecomes(src: Graph, h: Heap, e: Spot, path: seq<Value>)
    requires Complete(src, h) && Walk(src, h, e, path).Some? && h.links.Has(e.v, e.at)
    ensures var way := CopiedPath(src, h, e, path);
            |way| == |path| && forall i :: 0 <= i < |path| ==> Becomes(path[i], way[i], h.links.number, h.tables)
    decreases |path|
  {
    if path != [] {
      var x := e.v.p;
      StepCopied(src, h, x, path[0]);
      var i := Find(src[x].pairs, h.reached[x], path[0], h.links.number).value;
      var next := Spot(src[x].pairs[i].value, Field(x, i, false));
      KeyBecomes(src, h, src[x].pairs[i].key, Field(x, i, true), path[0]);
      PathBecomes(src, h, next, path[1..]);
      PathGrows(path, h.links.Image(src[x].pairs[i].key, Field(x, i, true)), CopiedPath(src, h, next, path[1..]), h);
      hide Complete, Becomes, Links.Image, Links.Has, Links.HasPair, Find;
    }
  }

  lemma KeyBecomes(src: Graph, h: Heap, key: Value, at: Place, k: Value)
    requires h.Valid(src) && h.links.Has(key, at) && SameKey(key, k, h.links.number)
    ensures Becomes(k, h.links.Image(key, at), h.links.number, h.tables)
  {
    ImageBecomes(src, key, at, h);
  }

  lemma PathGrows(path: seq<Value>, d: Value, way: seq<Value>, h: Heap)
    requires path != [] && Becomes(path[0], d, h.links.number, h.tables) && |way| == |path| - 1
    requires forall i :: 0 <= i < |way| ==> Becomes(path[1..][i], way[i], h.links.number, h.tables)
    ensures forall i :: 0 <= i < |path| ==> Becomes(path[i], ([d] + way)[i], h.links.number, h.tables)
  {
    hide Becomes;
    forall i | 0 <= i < |path|
      ensures Becomes(path[i], ([d] + way)[i], h.links.number, h.tables)
    {
      if i > 0 {
        assert path[1..][i - 1] == path[i] && ([d] + way)[i] == way[i - 1];
      }
    }
  }

  /** A copy into a fresh state holds what the source holds: from its root w, each walk ends at what the end of the walk
      in the source becomes, under what its keys become. */
  lemma {:induction false} CopyHolds(src: Graph, v: Value, f: Flags, at: Place, number: int -> int, h: Heap, w: Value,
                                     path: seq<Value>)
    requires Closed(src) && Copied(src, v, f, at, Fresh(number), h) && w == h.links.Image(v, at)
    requires Walk(src, h, Spot(v, at), path).Some?
    ensures Becomes(v, w, number, h.tables)
    ensures var way := CopiedPath(src, h, Spot(v, at), path);
            var end := WalkCopy(h.tables, w, way);
            && end.Some? && Becomes(Walk(src, h, Spot(v, at), path).value.v, end.value, number, h.tables)
            && |way| == |path| && forall i :: 0 <= i < |path| ==> Becomes(path[i], way[i], number, h.tables)
  {
    CopyBecomes(src, v, f, at, Fresh(number), h);
    assert Complete(src, h);
    hide Copied, Visit, Walk, WalkCopy, CopiedPath, Becomes, Complete, Links.Image;
    WalkBecomes(src, h, Spot(v, at), path);
  }

  /** The string fields of each copied table: those of the source, but _G and __gc where the flags filter them. */
  lemma {:induction false} StringFields(src: Graph, v: Value, f: Flags, at: Place, number: int -> int, h: Heap, x: Ptr,
                                        k: string)
    requires Closed(src) && Copied(src, v, f, at, Fresh(number), h) && x in h.links.memo
    ensures x in src && h.links.memo[x] in h.tables
    ensures var pairs, fields := src[x].pairs, h.tables[h.links.memo[x]].fields;
            && (Str(k) in fields <==>
                  (exists i :: 0 <= i < |pairs| && pairs[i].key == Str(k)) &&
                  !(f.skipG && k == "_G") && !(f.skipGc && k == "__gc"))
            && forall i :: 0 <= i < |pairs| && pairs[i].key == Str(k) && Str(k) in fields ==>
                 Becomes(pairs[i].value, fields[Str(k)], number, h.tables)
  {
    FiltersKept(src, v, f, at, number, h, x);
    assert h.Done(src, x);
    hide Copied, Visit;
    var pairs, l := src[x].pairs, h.links;
    if Str(k) in l.ImageFields(x, pairs, h.reached[x]) {
      var i := FieldsComeFromPairs(x, pairs, h.reached[x], l, Str(k));
      assert pairs[i].key == Str(k);
    }
    forall i | 0 <= i < |pairs| && pairs[i].key == Str(k) && Kept(pairs, h.reached[x], i)
      ensures Str(k) in l.ImageFields(x, pairs, h.reached[x])
      ensures Becomes(pairs[i].value, l.ImageFields(x, pairs, h.reached[x])[Str(k)], number, h.tables)
    {
      StringField(src, h, x, i, k);
    }
  }

  lemma {:induction false} StringField(src: Graph, h: Heap, x: Ptr, i: nat, k: string)
    requires h.Valid(src) && Closed(src) && h.Done(src, x) && Kept(src[x].pairs, h.reached[x], i)
    requires src[x].pairs[i].key == Str(k)
    ensures var fields := h.tables[h.links.memo[x]].fields;
            Str(k) in fields && Becomes(src[x].pairs[i].value, fields[Str(k)], h.links.number, h.tables)
  {
    var pairs := src[x].pairs;
    FieldsCorrespond(x, pairs, h.reached[x], h.links, i);
    var j := Find(pairs, h.reached[x], Str(k), h.links.number).value;
    assert pairs[j].key == Str(k) && i == j;
    ImageBecomes(src, pairs[i].value, Field(x, i, false), h);
  }

  // ---- Which tables are copied, and which metatables ----

  /** By fields alone, v leads to tables in keys only. */
  ghost predicate FieldsWithin(src: Graph, v: Value, f: Flags, keys: set<Ptr>) {
    Within(v, keys) && forall t :: t in keys && t in src ==> PairsWithin(src[t].pairs, f, keys)
  }

  /** A copied table to which v does not lead by fields was first reached through a metatable, and its copy has no
      metatable. With SKIP_META no copy has one. */
  lemma {:induction false} MetatablesLeftOut(src: Graph, v: Value, f: Flags, at: Place, number: int -> int, h: Heap,
                                             keys: set<Ptr>, x: Ptr)
    requires Copied(src, v, f, at, Fresh(number), h) && x in h.links.memo
    requires f.skipMeta || (FieldsWithin(src, v, f, keys) && x !in keys)
    ensures h.links.memo[x] in h.tables && h.tables[h.links.memo[x]].meta == None
  {
    assert h.Done(src, x);
    VisitFlags(src, v, f, map[], f, if f.skipMeta then {} else keys, true);
  }

  /** The filters apply to every table alike. */
  lemma {:induction false} FiltersKept(src: Graph, v: Value, f: Flags, at: Place, number: int -> int, h: Heap, x: Ptr)
    requires Copied(src, v, f, at, Fresh(number), h) && x in h.links.memo
    ensures x in h.reached && h.reached[x].skipG == f.skipG && h.reached[x].skipGc == f.skipGc
  {
    VisitFlags(src, v, f, map[], f, {}, false);
  }

  /** The filters stay the same throughout. Tables outside keys are first reached with SKIP_META set, if by fields the
      copy does not lead outside keys before it is set. */
  lemma {:induction false} VisitFlags(src: Graph, v: Value, f: Flags, seen: map<Ptr, Flags>, f0: Flags,
                                      keys: set<Ptr>, tracked: bool)
    requires f.skipG == f0.skipG && f.skipGc == f0.skipGc
    requires tracked ==> f.skipMeta || Within(v, keys)
    requires tracked && !f.skipMeta ==> forall t :: t in keys && t in src ==> PairsWithin(src[t].pairs, f0, keys)
    ensures forall s :: s in Visit(src, v, f, seen) && s !in seen ==>
              Reached(Visit(src, v, f, seen)[s], s, f0, keys, tracked)
    decreases src.Keys - seen.Keys, 0
  {
    if v.Table? && v.p in src && v.p !in seen {
      var n := src[v.p];
      assert src.Keys - seen[v.p := f].Keys == src.Keys - seen.Keys - {v.p};
      var r := VisitPairs(src, n.pairs, f, seen[v.p := f]);
      assert v.p in r && r[v.p] == f;
      PairsFlags(src, n.pairs, f, seen[v.p := f], f0, keys, tracked);
      if !f.skipMeta && n.meta.Some? {
        VisitFlags(src, Table(n.meta.value), f.InMeta(), r, f0, keys, tracked);
      }
    }
  }

  ghost predicate Reached(f: Flags, s: Ptr, f0: Flags, keys: set<Ptr>, tracked: bool) {
    f.skipG == f0.skipG && f.skipGc == f0.skipGc && (tracked && s !in keys ==> f.skipMeta)
  }

  lemma {:induction false} PairsFlags(src: Graph, pairs: seq<Pair>, f: Flags, seen: map<Ptr, Flags>, f0: Flags,
                                      keys: set<Ptr>, tracked: bool)
    requires f.skipG == f0.skipG && f.skipGc == f0.skipGc
    requires tracked ==> f.skipMeta || PairsWithin(pairs, f0, keys)
    requires tracked && !f.skipMeta ==> forall t :: t in keys && t in src ==> PairsWithin(src[t].pairs, f0, keys)
    ensures var r := VisitPairs(src, pairs, f, seen);
            forall s :: s in r && s !in seen ==> Reached(r[s], s, f0, keys, tracked)
    decreases src.Keys - seen.Keys, 1 + |pairs|
  {
    if pairs != [] {
      var seen' := seen;
      if !f.Skips(pairs[0].key) {
        assert f0.Skips(pairs[0].key) == f.Skips(pairs[0].key);
        var r := Visit(src, pairs[0].key, f, seen);
        seen' := Visit(src, pairs[0].value, f, r);
        VisitFlags(src, pairs[0].key, f, seen, f0, keys, tracked);
        VisitFlags(src, pairs[0].value, f, r, f0, keys, tracked);
      }
      PairsFlags(src, pairs[1..], f, seen', f0, keys, tracked);
    }
  }

  /** Exactly the tables the followed references lead to are copied: v's, and no set closed under them leaves one
      out. */
  lemma CopiesWhatIsReachable(src: Graph, v: Value, f: Flags, at: Place, number: int -> int, h: Heap, keys: set<Ptr>)
    requires Copied(src, v, f, at, Fresh(number), h)
    ensures Within(v, h.links.memo.Keys)
    ensures forall s :: s in h.links.memo ==> NodeWithin(src[s], h.reached[s], h.links.memo.Keys)
    ensures (Within(v, keys) &&
             forall s :: s in keys && s in h.links.memo ==> NodeWithin(src[s], h.reached[s], keys)) ==>
              h.links.memo.Keys <= keys
  {
    forall s | s in h.links.memo
      ensures NodeWithin(src[s], h.reached[s], h.links.memo.Keys)
    {
      DoneWithin(src, h, s);
    }
    if Within(v, keys) && forall s :: s in keys && s in h.links.memo ==> NodeWithin(src[s], h.reached[s], keys) {
      VisitStaysWithin(src, v, f, map[], h.reached, keys);
    }
  }

  lemma DoneWithin(src: Graph, h: Heap, s: Ptr)
    requires h.DoneSince(src, map[], None) && s in h.links.memo
    ensures s in src && s in h.reached && NodeWithin(src[s], h.reached[s], h.links.memo.Keys)
  {
    assert h.Done(src, s);
    forall i | 0 <= i < |src[s].pairs| && !h.reached[s].Skips(src[s].pairs[i].key)
      ensures Within(src[s].pairs[i].key, h.links.memo.Keys) && Within(src[s].pairs[i].value, h.links.memo.Keys)
    {
      assert h.links.HasPair(s, i, src[s].pairs[i]);
    }
  }

  lemma {:induction false} VisitStaysWithin(src: Graph, v: Value, f: Flags, seen: map<Ptr, Flags>,
                                            all: map<Ptr, Flags>, keys: set<Ptr>)
    requires Within(v, keys) && seen.Keys <= keys && all.Keys <= src.Keys
    requires Extends(Visit(src, v, f, seen), all)
    requires forall s :: s in keys && s in all ==> NodeWithin(src[s], all[s], keys)
    ensures Visit(src, v, f, seen).Keys <= keys
    decreases src.Keys - seen.Keys, 0
  {
    if v.Table? && v.p in src && v.p !in seen {
      var n := src[v.p];
      assert src.Keys - seen[v.p := f].Keys == src.Keys - seen.Keys - {v.p};
      var r := VisitPairs(src, n.pairs, f, seen[v.p := f]);
      assert v.p in r && r[v.p] == f;
      assert v.p in Visit(src, v, f, seen) && Visit(src, v, f, seen)[v.p] == f;
      assert Extends(r, Visit(src, v, f, seen));
      VisitPairsStayWithin(src, n.pairs, f, seen[v.p := f], all, keys);
      if !f.skipMeta && n.meta.Some? {
        VisitStaysWithin(src, Table(n.meta.value), f.InMeta(), r, all, keys);
      }
    }
  }

  lemma {:induction false} VisitPairsStayWithin(src: Graph, pairs: seq<Pair>, f: Flags, seen: map<Ptr, Flags>,
                                                all: map<Ptr, Flags>, keys: set<Ptr>)
    requires PairsWithin(pairs, f, keys) && seen.Keys <= keys && all.Keys <= src.Keys
    requires Extends(VisitPairs(src, pairs, f, seen), all)
    requires forall s :: s in keys && s in all ==> NodeWithin(src[s], all[s], keys)
    ensures VisitPairs(src, pairs, f, seen).Keys <= keys
    decreases src.Keys - seen.Keys, 1 + |pairs|
  {
    if pairs != [] {
      var seen' := seen;
      if !f.Skips(pairs[0].key) {
        var r := Visit(src, pairs[0].key, f, seen);
        seen' := Visit(src, pairs[0].value, f, r);
        assert Extends(seen', VisitPairs(src, pairs, f, seen));
        VisitStaysWithin(src, pairs[0].key, f, seen, all, keys);
        VisitStaysWithin(src, pairs[0].value, f, r, all, keys);
      }
      VisitPairsStayWithin(src, pairs[1..], f, seen', all, keys);
    }
  }

  /** A table's metatable is left out only when the table hangs below some metatable: with `below` closed under the
      references between tables and holding every metatable, each copied table outside it has its metatable copied. */
  lemma MetatablesCopied(src: Graph, v: Value, f: Flags, at: Place, number: int -> int, h: Heap, below: set<Ptr>,
                         s: Ptr)
    requires Copied(src, v, f, at, Fresh(number), h) && !f.skipMeta
    requires forall t :: t in below && t in src ==> PairsWithin(src[t].pairs, f, below)
    requires forall t :: t in src && src[t].meta.Some? ==> src[t].meta.value in below
    requires s in h.links.memo && s !in below
    ensures !h.reached[s].skipMeta
    ensures src[s].meta.Some? ==> src[s].meta.value in h.links.memo
    ensures h.tables[h.links.memo[s]].meta == if src[s].meta.Some? then Some(h.links.memo[src[s].meta.value]) else None
  {
    assert h.Done(src, s);
    VisitSkipsBelow(src, v, f, map[], f, below);
  }

  /** The flags change at metatables only. */
  lemma {:induction false} VisitSkipsBelow(src: Graph, v: Value, f: Flags, seen: map<Ptr, Flags>, f0: Flags,
                                           below: set<Ptr>)
    requires f == f0 || (f == f0.InMeta() && Within(v, below))
    requires !f0.skipMeta
    requires forall t :: t in below && t in src ==> PairsWithin(src[t].pairs, f0, below)
    requires forall t :: t in src && src[t].meta.Some? ==> src[t].meta.value in below
    ensures forall s :: s in Visit(src, v, f, seen) && s !in seen && s !in below ==> Visit(src, v, f, seen)[s] == f0
    decreases src.Keys - seen.Keys, 0
  {
    if v.Table? && v.p in src && v.p !in seen {
      var n := src[v.p];
      assert src.Keys - seen[v.p := f].Keys == src.Keys - seen.Keys - {v.p};
      var r := VisitPairs(src, n.pairs, f, seen[v.p := f]);
      assert v.p in r && r[v.p] == f;
      VisitPairsSkipBelow(src, n.pairs, f, seen[v.p := f], f0, below);
      if !f.skipMeta && n.meta.Some? {
        VisitSkipsBelow(src, Table(n.meta.value), f.InMeta(), r, f0, below);
      }
    }
  }

  lemma {:induction false} VisitPairsSkipBelow(src: Graph, pairs: seq<Pair>, f: Flags, seen: map<Ptr, Flags>,
                                               f0: Flags, below: set<Ptr>)
    requires f == f0 || (f == f0.InMeta() && PairsWithin(pairs, f0, below))
    requires !f0.skipMeta
    requires forall t :: t in below && t in src ==> PairsWithin(src[t].pairs, f0, below)
    requires forall t :: t in src && src[t].meta.Some? ==> src[t].meta.value in below
    ensures var r := VisitPairs(src, pairs, f, seen); forall s :: s in r && s !in seen && s !in below ==> r[s] == f0
    decreases src.Keys - seen.Keys, 1 + |pairs|
  {
    if pairs != [] {
      var seen' := seen;
      if !f.Skips(pairs[0].key) {
        var r := Visit(src, pairs[0].key, f, seen);
        seen' := Visit(src, pairs[0].value, f, r);
        VisitSkipsBelow(src, pairs[0].key, f, seen, f0, below);
        VisitSkipsBelow(src, pairs[0].value, f, r, f0, below);
      }
      VisitPairsSkipBelow(src, pairs[1..], f, seen', f0, below);
    }
  }
}
