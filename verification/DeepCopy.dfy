/** luaI_deepcopy of src/lua.c: copying a table graph, which may share tables and be cyclic, into
    another Lua state. A memo in the destination registry says which tables are copied already. */
module DeepCopy {
  import opened Option

  /** A table's address, in the state it belongs to. */
  type Ptr = nat

  /** Num is a whole number, as an integer or as a double: lua_tonumber makes a double of it in any case.
      Obj is a Lua function or a full userdata, an object with the identity p: its contents (the dumped prototype, the
      bytes) are copied into a new object at every visit. Plain is what is copied as it is: booleans, C functions, light
      userdata, and doubles that are not whole. */
  datatype Value = Plain(id: int) | Num(n: int) | Str(s: string) | Obj(p: Ptr, body: int) | Table(p: Ptr)

  /** What a value becomes: strings and what is copied as it is stay the same, a number becomes what a double makes of
      it, a function or userdata an object with the same contents, and a table a table of the destination. */
  ghost predicate Becomes(v: Value, w: Value, number: int -> int, tables: map<Ptr, Copy>) {
    match v
    case Str(s) => w == Str(s)
    case Plain(id) => w == Plain(id)
    case Num(n) => w == Num(number(n))
    case Obj(_, body) => w.Obj? && w.body == body
    case Table(_) => w.Table? && w.p in tables
  }

  /** Where a value is found: as the key or the value of a pair of a table, or as the argument of a call. */
  datatype Place = Field(table: Ptr, index: nat, isKey: bool) | Argument(call: nat)

  datatype Pair = Pair(key: Value, value: Value)

  /** A source table: its pairs in the order lua_next yields them, and its metatable. */
  datatype Node = Node(pairs: seq<Pair>, meta: Option<Ptr>)

  type Graph = map<Ptr, Node>

  /** A destination table. */
  datatype Copy = Copy(fields: map<Value, Value>, meta: Option<Ptr>)

  type Memo = map<Ptr, Ptr>

  /** What the copies of values depend on: the copies of tables, the object made for the function or userdata at each
      place, and what a number becomes on its way through a double. */
  datatype Links = Links(memo: Memo, made: map<Place, Ptr>, number: int -> int) {
    ghost predicate Grew(l: Links) {
      Extends(memo, l.memo) && Extends(made, l.made) && number == l.number
    }

    /** The value v, found at this place, has a copy. */
    predicate Has(v: Value, at: Place) {
      Within(v, memo.Keys) && (v.Obj? ==> at in made)
    }

    function Image(v: Value, at: Place): Value
      requires Has(v, at)
    {
      match v
      case Table(p) => Table(memo[p])
      case Obj(_, body) => Obj(made[at], body)
      case Num(n) => Num(number(n))
      case _ => v
    }

    /** Both parts of pair i of table x have copies. */
    predicate HasPair(x: Ptr, i: nat, pair: Pair) {
      Has(pair.key, Field(x, i, true)) && Has(pair.value, Field(x, i, false))
    }

    predicate HasPairs(x: Ptr, pairs: seq<Pair>, f: Flags) {
      forall i :: 0 <= i < |pairs| && !f.Skips(pairs[i].key) ==> HasPair(x, i, pairs[i])
    }

    /** The images of the pairs of x that are not skipped, one written after the other. */
    function ImageFields(x: Ptr, pairs: seq<Pair>, f: Flags): map<Value, Value>
      requires HasPairs(x, pairs, f)
      decreases |pairs|
    {
      if pairs == [] then map[]
      else
        var n := |pairs| - 1;
        var m := ImageFields(x, pairs[..n], f);
        if f.Skips(pairs[n].key) then m
        else
          assert HasPair(x, n, pairs[n]);
          m[Image(pairs[n].key, Field(x, n, true)) := Image(pairs[n].value, Field(x, n, false))]
    }

    predicate HasNode(x: Ptr, n: Node, f: Flags) {
      HasPairs(x, n.pairs, f) && (!f.skipMeta && n.meta.Some? ==> n.meta.value in memo)
    }

    function ImageNode(x: Ptr, n: Node, f: Flags): Copy
      requires HasNode(x, n, f)
    {
      Copy(ImageFields(x, n.pairs, f), if !f.skipMeta && n.meta.Some? then Some(memo[n.meta.value]) else None)
    }
  }

  datatype Flags = Flags(skipMeta: bool, skipGc: bool, isMeta: bool, skipG: bool) {
    /** The flags for copying a metatable, and everything first reached through it. */
    function InMeta(): Flags {
      this.(isMeta := true, skipMeta := true)
    }

    predicate Skips(key: Value) {
      (skipG && key == Str("_G")) || (skipGc && key == Str("__gc"))
    }
  }

  // ---- The source graph ----

  predicate Within(v: Value, keys: set<Ptr>) {
    v.Table? ==> v.p in keys
  }

  ghost predicate DistinctKeys(pairs: seq<Pair>) {
    forall i, j :: 0 <= i < j < |pairs| ==> pairs[i].key != pairs[j].key
  }

  /** Every reference leads to a table of the graph, and no table has a key twice. */
  ghost predicate Closed(src: Graph) {
    forall s :: s in src ==>
      && DistinctKeys(src[s].pairs)
      && (forall i :: 0 <= i < |src[s].pairs| ==>
            Within(src[s].pairs[i].key, src.Keys) && Within(src[s].pairs[i].value, src.Keys))
      && (src[s].meta.Some? ==> src[s].meta.value in src)
  }

  // ---- What is to be copied of a table ----

  predicate PairsWithin(pairs: seq<Pair>, f: Flags, keys: set<Ptr>) {
    forall i :: 0 <= i < |pairs| && !f.Skips(pairs[i].key) ==>
      Within(pairs[i].key, keys) && Within(pairs[i].value, keys)
  }

  predicate NodeWithin(n: Node, f: Flags, keys: set<Ptr>) {
    PairsWithin(n.pairs, f, keys) && (!f.skipMeta && n.meta.Some? ==> n.meta.value in keys)
  }

  ghost predicate Injective<K(!new), V>(m: map<K, V>) {
    forall a, b :: a in m && b in m && m[a] == m[b] ==> a == b
  }

  ghost predicate Extends<K, V>(m: map<K, V>, m': map<K, V>) {
    forall k :: k in m ==> k in m' && m'[k] == m[k]
  }

  // ---- The order in which tables are first reached ----

  /** The tables reached by copying v, each with the flags it is first reached with, when those in seen have been
      already. */
  function Visit(src: Graph, v: Value, f: Flags, seen: map<Ptr, Flags>): (r: map<Ptr, Flags>)
    ensures seen.Keys <= r.Keys && (forall k :: k in seen ==> r[k] == seen[k])
    decreases src.Keys - seen.Keys, 0
  {
    if v.Table? && v.p in src && v.p !in seen then
      assert src.Keys - seen[v.p := f].Keys == src.Keys - seen.Keys - {v.p};
      var r := VisitPairs(src, src[v.p].pairs, f, seen[v.p := f]);
      if !f.skipMeta && src[v.p].meta.Some? then Visit(src, Table(src[v.p].meta.value), f.InMeta(), r) else r
    else seen
  }

  function VisitPairs(src: Graph, pairs: seq<Pair>, f: Flags, seen: map<Ptr, Flags>): (r: map<Ptr, Flags>)
    ensures seen.Keys <= r.Keys && (forall k :: k in seen ==> r[k] == seen[k])
    decreases src.Keys - seen.Keys, 1 + |pairs|
  {
    if pairs == [] then seen
    else
      VisitPairs(src, pairs[1..], f,
        if f.Skips(pairs[0].key) then seen else Visit(src, pairs[0].value, f, Visit(src, pairs[0].key, f, seen)))
  }

  // ---- The destination state, and what one copy does to it ----

  /** The tables of the destination state; the memo in its registry and what else copies depend on; and the flags each
      memoized table was first reached with. */
  datatype Heap = Heap(tables: map<Ptr, Copy>, links: Links, reached: map<Ptr, Flags>) {
    ghost predicate Valid(src: Graph) {
      && links.memo.Keys == reached.Keys <= src.Keys
      && (forall s :: s in links.memo ==> links.memo[s] in tables)
      && Injective(links.memo) && Injective(links.made)
      && forall l :: l in links.made && l.Field? ==> l.table in links.memo
    }

    ghost predicate Grew(h: Heap) {
      Extends(tables, h.tables) && links.Grew(h.links) && Extends(reached, h.reached)
    }

    /** Table s, first reached with the recorded flags, has been copied completely. */
    ghost predicate Done(src: Graph, s: Ptr) {
      && s in src && s in reached && s in links.memo && links.memo[s] in tables
      && links.HasNode(s, src[s], reached[s])
      && tables[links.memo[s]] == links.ImageNode(s, src[s], reached[s])
    }

    /** The tables memoized since `before` are copied completely, except x, which is still being filled. */
    ghost predicate DoneSince(src: Graph, before: Memo, x: Option<Ptr>) {
      forall s :: s in links.memo && s !in before && Some(s) != x ==> Done(src, s)
    }

    function Set(d: Ptr, c: Copy): Heap {
      this.(tables := tables[d := c])
    }
  }

  /** Objects were made only for the value itself and in tables newly memoized. */
  ghost predicate Made(v: Value, at: Place, a: Links, b: Links) {
    forall l :: l in b.made ==>
      || l in a.made || (l == at && v.Obj?)
      || (l.Field? && l.table in b.memo && l.table !in a.memo)
  }

  /** What copying v, found at this place, does: old tables, memo entries and objects stay, every table newly memoized
      is complete, and v has an image. */
  ghost predicate Copied(src: Graph, v: Value, f: Flags, at: Place, a: Heap, b: Heap) {
    && b.Valid(src) && a.Grew(b)
    && b.links.Has(v, at)
    && b.reached == Visit(src, v, f, a.reached)
    && b.DoneSince(src, a.links.memo, None)
    && Made(v, at, a.links, b.links)
  }

  /** No object has been made yet for pair i of x or a later one. */
  ghost predicate UnmadeFrom(x: Ptr, i: nat, b: Links) {
    forall l :: l in b.made && l.Field? && l.table == x ==> l.index < i
  }

  /** Table x is being filled: its first i pairs have been copied. */
  ghost predicate Filling(src: Graph, x: Ptr, f: Flags, a: Heap, i: nat, b: Heap)
    requires x in src && i <= |src[x].pairs|
  {
    && b.Valid(src) && a.Grew(b)
    && x in b.links.memo && x !in a.links.memo && b.links.memo[x] !in a.tables && b.reached[x] == f
    && VisitPairs(src, src[x].pairs, f, a.reached[x := f]) == VisitPairs(src, src[x].pairs[i..], f, b.reached)
    && b.links.HasPairs(x, src[x].pairs[..i], f)
    && b.tables[b.links.memo[x]] == Copy(b.links.ImageFields(x, src[x].pairs[..i], f), None)
    && b.DoneSince(src, a.links.memo, Some(x))
    && Made(Table(x), Argument(0), a.links, b.links) && UnmadeFrom(x, i, b.links)
  }

  /** Fields copied earlier stay right when more is copied. */
  lemma {:induction false} ImageFieldsExtends(x: Ptr, pairs: seq<Pair>, f: Flags, a: Links, b: Links)
    requires a.HasPairs(x, pairs, f) && a.Grew(b)
    ensures b.HasPairs(x, pairs, f) && b.ImageFields(x, pairs, f) == a.ImageFields(x, pairs, f)
    decreases |pairs|
  {
    forall i | 0 <= i < |pairs| && !f.Skips(pairs[i].key)
      ensures b.HasPair(x, i, pairs[i])
    {
      assert a.HasPair(x, i, pairs[i]);
    }
    if pairs != [] {
      var n := |pairs| - 1;
      FewerPairs(x, pairs, f, a);
      FewerPairs(x, pairs, f, b);
      ImageFieldsExtends(x, pairs[..n], f, a, b);
      assert !f.Skips(pairs[n].key) ==> a.HasPair(x, n, pairs[n]);
    }
  }

  lemma FewerPairs(x: Ptr, pairs: seq<Pair>, f: Flags, a: Links)
    requires a.HasPairs(x, pairs, f) && pairs != []
    ensures a.HasPairs(x, pairs[..|pairs| - 1], f)
  {
    var n := |pairs| - 1;
    forall i | 0 <= i < n && !f.Skips(pairs[..n][i].key)
      ensures a.HasPair(x, i, pairs[..n][i])
    {
      assert a.HasPair(x, i, pairs[i]);
    }
  }

  lemma DoneExtends(src: Graph, s: Ptr, a: Heap, b: Heap)
    requires a.Done(src, s) && a.links.Grew(b.links) && Extends(a.reached, b.reached)
    requires a.links.memo[s] in b.tables && b.tables[a.links.memo[s]] == a.tables[a.links.memo[s]]
    ensures b.Done(src, s)
  {
    ImageFieldsExtends(s, src[s].pairs, a.reached[s], a.links, b.links);
  }

  lemma GrewTransitive(a: Heap, b: Heap, c: Heap)
    requires a.Grew(b) && b.Grew(c)
    ensures a.Grew(c)
  {
  }

  /** A nested copy leaves the table being filled alone and adds only complete copies. */
  lemma FillingNested(src: Graph, x: Ptr, f: Flags, a: Heap, i: nat, b: Heap, v: Value, g: Flags, at: Place, c: Heap)
    requires x in src && i <= |src[x].pairs| && Filling(src, x, f, a, i, b) && Copied(src, v, g, at, b, c)
    ensures c.Valid(src) && a.Grew(c)
    ensures x in c.links.memo && c.links.memo[x] == b.links.memo[x] && c.reached[x] == f
    ensures c.links.HasPairs(x, src[x].pairs[..i], f)
    ensures c.tables[c.links.memo[x]] == Copy(c.links.ImageFields(x, src[x].pairs[..i], f), None)
    ensures c.DoneSince(src, a.links.memo, Some(x))
  {
    hide Visit, VisitPairs, Links.ImageFields, Links.HasPairs, Made, UnmadeFrom;
    ImageFieldsExtends(x, src[x].pairs[..i], f, b.links, c.links);
    GrewTransitive(a, b, c);
    NestedDone(src, a.links.memo, x, b, c);
  }

  /** What was complete stays complete. */
  lemma NestedDone(src: Graph, before: Memo, x: Ptr, b: Heap, c: Heap)
    requires b.Valid(src) && b.Grew(c) && b.DoneSince(src, before, Some(x)) && c.DoneSince(src, b.links.memo, None)
    ensures c.DoneSince(src, before, Some(x))
  {
    hide Heap.Done, Links.HasNode, Links.ImageNode;
    forall s | s in c.links.memo && s !in before && s != x
      ensures c.Done(src, s)
    {
      if s in b.links.memo {
        StillDone(src, s, b, c);
      }
    }
  }

  lemma StillDone(src: Graph, s: Ptr, b: Heap, c: Heap)
    requires b.Done(src, s) && b.Grew(c)
    ensures c.Done(src, s)
  {
    DoneExtends(src, s, b, c);
  }

  /** Writing the table of x touches no other copy, and no table there was before. */
  lemma WriteKeeps(src: Graph, a: Heap, x: Ptr, b: Heap, c: Copy)
    requires b.Valid(src) && a.Grew(b) && b.DoneSince(src, a.links.memo, Some(x))
    requires x in b.links.memo && b.links.memo[x] !in a.tables
    ensures var h := b.Set(b.links.memo[x], c);
            h.Valid(src) && a.Grew(h) && h.DoneSince(src, a.links.memo, Some(x))
  {
    var h := b.Set(b.links.memo[x], c);
    forall s | s in b.links.memo && s !in a.links.memo && s != x
      ensures h.Done(src, s)
    {
      assert b.Done(src, s);
      DoneExtends(src, s, b, h);
    }
  }

  lemma NextPair(x: Ptr, pairs: seq<Pair>, i: nat, f: Flags, l: Links)
    requires i < |pairs| && l.HasPairs(x, pairs[..i], f)
    requires !f.Skips(pairs[i].key) ==> l.HasPair(x, i, pairs[i])
    ensures l.HasPairs(x, pairs[..i + 1], f)
    ensures l.ImageFields(x, pairs[..i + 1], f) ==
            if f.Skips(pairs[i].key) then l.ImageFields(x, pairs[..i], f)
            else l.ImageFields(x, pairs[..i], f)[
                   l.Image(pairs[i].key, Field(x, i, true)) := l.Image(pairs[i].value, Field(x, i, false))]
  {
    var ps := pairs[..i + 1];
    assert ps[..i] == pairs[..i];
    forall j | 0 <= j < |ps| && !f.Skips(ps[j].key)
      ensures l.HasPair(x, j, ps[j])
    {
      assert j < i ==> pairs[..i][j] == ps[j];
    }
  }

  lemma LeafCopied(src: Graph, v: Value, f: Flags, at: Place, a: Heap)
    requires a.Valid(src) && !v.Table? && !v.Obj?
    ensures Copied(src, v, f, at, a, a)
  {
  }

  ghost predicate Unmade(at: Place, a: Heap) {
    at !in a.links.made && (at.Field? ==> at.table in a.links.memo)
  }

  /** The state with an object made for a place. */
  function Making(a: Heap, at: Place, p: Ptr): Heap {
    a.(links := a.links.(made := a.links.made[at := p]))
  }

  /** A function or userdata gets an object of its own. */
  lemma ObjectCopied(src: Graph, v: Value, f: Flags, at: Place, a: Heap, p: Ptr)
    requires a.Valid(src) && v.Obj? && Unmade(at, a) && p !in a.links.made.Values
    ensures Copied(src, v, f, at, a, Making(a, at, p))
  {
  }

  /** A table allocated and then found to be memoized already is dropped. */
  lemma HitCopied(src: Graph, x: Ptr, f: Flags, at: Place, a: Heap, d: Ptr)
    requires a.Valid(src) && x in a.links.memo && d !in a.tables
    ensures Copied(src, Table(x), f, at, a, a.Set(d, Copy(map[], None)))
  {
  }

  /** The state with an empty table d memoized for x. */
  function Begun(a: Heap, x: Ptr, f: Flags, d: Ptr): Heap {
    Heap(a.tables[d := Copy(map[], None)], a.links.(memo := a.links.memo[x := d]), a.reached[x := f])
  }

  lemma FillingBegins(src: Graph, x: Ptr, f: Flags, a: Heap, d: Ptr)
    requires a.Valid(src) && x in src && x !in a.links.memo && d !in a.tables
    ensures Filling(src, x, f, a, 0, Begun(a, x, f, d))
  {
    assert src[x].pairs[0..] == src[x].pairs;
  }

  lemma FillingSkips(src: Graph, x: Ptr, f: Flags, a: Heap, i: nat, b: Heap)
    requires x in src && i < |src[x].pairs| && Filling(src, x, f, a, i, b) && f.Skips(src[x].pairs[i].key)
    ensures Filling(src, x, f, a, i + 1, b)
  {
    hide Heap.Valid, Heap.Grew, Heap.DoneSince, Made, Visit, Links.ImageFields, Links.HasPairs;
    NextPair(x, src[x].pairs, i, f, b.links);
    assert src[x].pairs[i..][1..] == src[x].pairs[i + 1..];
  }

  /** The key and the value of a pair may have been given objects; nothing else was made in table x. */
  lemma PairMade(src: Graph, x: Ptr, i: nat, pair: Pair, a: Heap, b: Heap, c: Heap, d: Heap)
    requires a.links.Grew(b.links) && b.links.Grew(c.links) && c.links.Grew(d.links)
    requires x in b.links.memo && x !in a.links.memo
    requires Made(Table(x), Argument(0), a.links, b.links) && UnmadeFrom(x, i, b.links)
    requires Made(pair.key, Field(x, i, true), b.links, c.links) &&
             Made(pair.value, Field(x, i, false), c.links, d.links)
    ensures Made(Table(x), Argument(0), a.links, d.links) && UnmadeFrom(x, i + 1, d.links)
  {
  }

  lemma FillingPair(src: Graph, x: Ptr, f: Flags, a: Heap, i: nat, b: Heap, c: Heap, d: Heap)
    requires x in src && i < |src[x].pairs| && Filling(src, x, f, a, i, b) && !f.Skips(src[x].pairs[i].key)
    requires Copied(src, src[x].pairs[i].key, f, Field(x, i, true), b, c)
    requires Copied(src, src[x].pairs[i].value, f, Field(x, i, false), c, d)
    ensures c.links.Has(src[x].pairs[i].key, Field(x, i, true)) &&
            d.links.Has(src[x].pairs[i].value, Field(x, i, false))
    ensures x in d.links.memo && d.links.memo[x] == b.links.memo[x] && d.links.memo[x] in d.tables
    ensures var t := d.tables[d.links.memo[x]];
            var key := c.links.Image(src[x].pairs[i].key, Field(x, i, true));
            var value := d.links.Image(src[x].pairs[i].value, Field(x, i, false));
            Filling(src, x, f, a, i + 1, d.Set(d.links.memo[x], t.(fields := t.fields[key := value])))
  {
    hide Visit, VisitPairs, Heap.DoneSince, Links.ImageFields, Links.HasPairs, Heap.Done, Made, UnmadeFrom, Injective;
    var pairs := src[x].pairs;
    TwoCopies(src, pairs[i].key, pairs[i].value, f, x, i, b, c, d);
    FillingTwice(src, x, f, a, i, b, c, d);
    PairMade(src, x, i, pairs[i], a, b, c, d);
    NextPair(x, pairs, i, f, d.links);
    VisitNext(src, pairs, i, f, b.reached);
    var t := d.tables[d.links.memo[x]];
    var key := c.links.Image(pairs[i].key, Field(x, i, true));
    var value := d.links.Image(pairs[i].value, Field(x, i, false));
    WriteKeeps(src, a, x, d, t.(fields := t.fields[key := value]));
    hide Heap.Valid, Heap.Grew, Links.Has, Links.Image, Links.HasPair;
  }

  lemma VisitNext(src: Graph, pairs: seq<Pair>, i: nat, f: Flags, r: map<Ptr, Flags>)
    requires i < |pairs| && !f.Skips(pairs[i].key)
    ensures VisitPairs(src, pairs[i..], f, r) ==
            VisitPairs(src, pairs[i + 1..], f, Visit(src, pairs[i].value, f, Visit(src, pairs[i].key, f, r)))
  {
    hide Visit;
    assert pairs[i..][1..] == pairs[i + 1..] && pairs[i..][0] == pairs[i];
  }

  lemma FillingTwice(src: Graph, x: Ptr, f: Flags, a: Heap, i: nat, b: Heap, c: Heap, d: Heap)
    requires x in src && i < |src[x].pairs| && Filling(src, x, f, a, i, b)
    requires Copied(src, src[x].pairs[i].key, f, Field(x, i, true), b, c)
    requires Copied(src, src[x].pairs[i].value, f, Field(x, i, false), c, d)
    ensures d.Valid(src) && a.Grew(d)
    ensures x in d.links.memo && d.links.memo[x] == b.links.memo[x] && d.reached[x] == f
    ensures d.links.HasPairs(x, src[x].pairs[..i], f)
    ensures d.tables[d.links.memo[x]] == Copy(d.links.ImageFields(x, src[x].pairs[..i], f), None)
    ensures d.DoneSince(src, a.links.memo, Some(x))
  {
    FillingNested(src, x, f, a, i, b, src[x].pairs[i].key, f, Field(x, i, true), c);
    hide Visit, VisitPairs, Links.ImageFields, Links.HasPairs, Made, UnmadeFrom, Heap.DoneSince, Injective;
    ImageFieldsExtends(x, src[x].pairs[..i], f, c.links, d.links);
    GrewTransitive(a, c, d);
    NestedDone(src, a.links.memo, x, c, d);
  }

  lemma TwoCopies(src: Graph, k: Value, v: Value, f: Flags, x: Ptr, i: nat, b: Heap, c: Heap, d: Heap)
    requires Copied(src, k, f, Field(x, i, true), b, c) && Copied(src, v, f, Field(x, i, false), c, d)
    ensures d.links.HasPair(x, i, Pair(k, v))
    ensures c.links.Image(k, Field(x, i, true)) == d.links.Image(k, Field(x, i, true))
    ensures d.reached == Visit(src, v, f, Visit(src, k, f, b.reached))
  {
    hide Visit, Heap.DoneSince, Made;
  }

  lemma VisitTable(src: Graph, x: Ptr, f: Flags, a: Heap)
    requires a.Valid(src) && x in src && x !in a.links.memo
    ensures var r := VisitPairs(src, src[x].pairs, f, a.reached[x := f]);
            Visit(src, Table(x), f, a.reached) ==
            if !f.skipMeta && src[x].meta.Some? then Visit(src, Table(src[x].meta.value), f.InMeta(), r) else r
    ensures forall r :: VisitPairs(src, [], f, r) == r
  {
  }

  /** When the table being filled is complete, everything is. */
  lemma LastDone(src: Graph, before: Memo, x: Ptr, h: Heap)
    requires h.DoneSince(src, before, Some(x)) && h.Done(src, x)
    ensures h.DoneSince(src, before, None)
  {
  }

  lemma FillingEnds(src: Graph, x: Ptr, f: Flags, at: Place, a: Heap, b: Heap)
    requires a.Valid(src) && x in src && x !in a.links.memo && Filling(src, x, f, a, |src[x].pairs|, b)
    requires f.skipMeta || src[x].meta.None?
    ensures Copied(src, Table(x), f, at, a, b)
  {
    hide Visit, VisitPairs, UnmadeFrom;
    var n := |src[x].pairs|;
    assert src[x].pairs[..n] == src[x].pairs && src[x].pairs[n..] == [];
    VisitTable(src, x, f, a);
    LastDone(src, a.links.memo, x, b);
  }

  lemma MetaCompletes(src: Graph, x: Ptr, h: Heap)
    requires x in src && x in h.links.memo && h.links.memo[x] in h.tables && x in h.reached && !h.reached[x].skipMeta
    requires h.links.HasPairs(x, src[x].pairs, h.reached[x])
    requires h.tables[h.links.memo[x]] == Copy(h.links.ImageFields(x, src[x].pairs, h.reached[x]), None)
    requires src[x].meta.Some? && src[x].meta.value in h.links.memo
    ensures var t := h.tables[h.links.memo[x]].(meta := Some(h.links.memo[src[x].meta.value]));
            h.Set(h.links.memo[x], t).Done(src, x)
  {
  }

  lemma MadeTwice(x: Ptr, v: Value, at: Place, a: Links, b: Links, c: Links)
    requires a.Grew(b) && b.Grew(c) && Made(Table(x), Argument(0), a, b) && Made(v, at, b, c) && v.Table?
    ensures Made(Table(x), at, a, c)
  {
  }

  lemma {:induction false} FillingEndsWithMeta(src: Graph, x: Ptr, f: Flags, at: Place, a: Heap, b: Heap, c: Heap)
    requires a.Valid(src) && x in src && x !in a.links.memo && Filling(src, x, f, a, |src[x].pairs|, b)
    requires !f.skipMeta && src[x].meta.Some? && Copied(src, Table(src[x].meta.value), f.InMeta(), at, b, c)
    ensures x in c.links.memo && c.links.memo[x] == b.links.memo[x] && c.links.memo[x] in c.tables
    ensures src[x].meta.value in c.links.memo
    ensures var t := c.tables[c.links.memo[x]].(meta := Some(c.links.memo[src[x].meta.value]));
            Copied(src, Table(x), f, at, a, c.Set(c.links.memo[x], t))
  {
    hide Visit, VisitPairs, Heap.DoneSince, Links.ImageFields, Links.HasPairs, Heap.Done, Made, UnmadeFrom, Injective;
    var n := |src[x].pairs|;
    assert src[x].pairs[..n] == src[x].pairs && src[x].pairs[n..] == [];
    VisitTable(src, x, f, a);
    FillingNested(src, x, f, a, n, b, Table(src[x].meta.value), f.InMeta(), at, c);
    MadeTwice(x, Table(src[x].meta.value), at, a.links, b.links, c.links);
    var t := c.tables[c.links.memo[x]].(meta := Some(c.links.memo[src[x].meta.value]));
    WriteKeeps(src, a, x, c, t);
    MetaCompletes(src, x, c);
    LastDone(src, a.links.memo, x, c.Set(c.links.memo[x], t));
    hide Heap.Valid, Heap.Grew;
  }

  class State {
    const number: int -> int  // what a whole number becomes by lua_tonumber and back
    var tables: map<Ptr, Copy>
    var next: Ptr
    var registry: Memo
    ghost var made: map<Place, Ptr>
    ghost var reached: map<Ptr, Flags>

    ghost function Now(): Heap
      reads this
    {
      Heap(tables, Links(registry, made, number), reached)
    }

    /** Addresses from `next` on are unused. */
    ghost predicate Bounded()
      reads this
    {
      (forall d :: d in tables ==> d < next) && forall l :: l in made ==> made[l] < next
    }

    constructor (number: int -> int)
      ensures Now() == Fresh(number) && Bounded()
    {
      this.number := number;
      tables, next, registry, made, reached := map[], 0, map[], map[], map[];
    }

    /** lua_newtable */
    method NewTable() returns (d: Ptr)
      requires Bounded()
      modifies this
      ensures Bounded() && d !in old(Now()).tables
      ensures Now() == old(Now()).Set(d, Copy(map[], None))
    {
      d := next;
      next := next + 1;
      tables := tables[d := Copy(map[], None)];
    }

    /** luaL_loadbuffer, lua_newuserdata */
    method NewObject(ghost at: Place) returns (p: Ptr)
      requires Bounded()
      modifies this
      ensures Bounded() && p !in old(Now()).links.made.Values
      ensures Now() == Making(old(Now()), at, p)
    {
      p := next;
      next := next + 1;
      made := made[at := p];
    }

    /** The registry entry under the address of source table x. */
    method Memoized(x: Ptr) returns (r: Option<Ptr>)
      ensures r == if x in Now().links.memo then Some(Now().links.memo[x]) else None
    {
      r := if x in registry then Some(registry[x]) else None;
    }

    method Memoize(x: Ptr, d: Ptr, ghost f: Flags)
      requires Bounded()
      modifies this
      ensures Bounded()
      ensures var h := old(Now());
              Now() == Heap(h.tables, h.links.(memo := h.links.memo[x := d]), h.reached[x := f])
    {
      registry := registry[x := d];
      reached := reached[x := f];
    }

    /** lua_settable */
    method SetField(d: Ptr, key: Value, value: Value)
      requires Bounded() && d in Now().tables
      modifies this
      ensures Bounded()
      ensures var t := old(Now()).tables[d]; Now() == old(Now()).Set(d, t.(fields := t.fields[key := value]))
    {
      tables := tables[d := tables[d].(fields := tables[d].fields[key := value])];
    }

    /** lua_setmetatable */
    method SetMeta(d: Ptr, meta: Ptr)
      requires Bounded() && d in Now().tables
      modifies this
      ensures Bounded()
      ensures Now() == old(Now()).Set(d, old(Now()).tables[d].(meta := Some(meta)))
    {
      tables := tables[d := tables[d].(meta := Some(meta))];
    }
  }

  /** A state into which nothing has been copied. */
  function Fresh(number: int -> int): Heap {
    Heap(map[], Links(map[], map[], number), map[])
  }

  /** luaI_deepcopy: copies v, found at the given place, into dest and returns the copy. */
  method DeepCopy(src: Graph, v: Value, f: Flags, ghost at: Place, dest: State) returns (w: Value)
    requires Closed(src) && Within(v, src.Keys) && dest.Bounded() && dest.Now().Valid(src)
    requires v.Obj? ==> Unmade(at, dest.Now())
    modifies dest
    ensures dest.Bounded() && Copied(src, v, f, at, old(dest.Now()), dest.Now())
    ensures w == dest.Now().links.Image(v, at)
    ensures Becomes(v, w, dest.number, dest.tables)
    decreases src.Keys - dest.Now().links.memo.Keys, 1
  {
    hide Filling, Copied, Visit, Closed, Heap.Valid;
    ghost var a := dest.Now();
    if !v.Table? {
      w := CopyLeaf(src, v, f, at, dest);
      return;
    }
    var x := v.p;
    var d := dest.NewTable();
    var memo := dest.Memoized(x);
    if memo.Some? {
      HitCopied(src, x, f, at, a, d);
      w := Table(memo.value);
      CopyBecomes(src, v, f, at, a, dest.Now());
      return;
    }
    dest.Memoize(x, d, f);
    FillingBegins(src, x, f, a, d);
    FillPairs(src, x, f, d, dest, a);
    w := Table(d);
    ghost var b := dest.Now();
    FillingValid(src, x, f, a, |src[x].pairs|, b);
    if !f.skipMeta && src[x].meta.Some? {
      MetaClosed(src, x);
      var m := DeepCopy(src, Table(src[x].meta.value), f.InMeta(), at, dest);
      FillingEndsWithMeta(src, x, f, at, a, b, dest.Now());
      dest.SetMeta(d, m.p);
    } else {
      FillingEnds(src, x, f, at, a, b);
    }
    CopyBecomes(src, v, f, at, a, dest.Now());
  }

  /** The cases of luaI_deepcopy that are not tables. */
  method CopyLeaf(src: Graph, v: Value, f: Flags, ghost at: Place, dest: State) returns (w: Value)
    requires !v.Table? && dest.Bounded() && dest.Now().Valid(src)
    requires v.Obj? ==> Unmade(at, dest.Now())
    modifies dest
    ensures dest.Bounded() && Copied(src, v, f, at, old(dest.Now()), dest.Now())
    ensures w == dest.Now().links.Image(v, at)
    ensures Becomes(v, w, dest.number, dest.tables)
  {
    hide Visit, Heap.Valid;
    ghost var a := dest.Now();
    if v.Obj? {
      var p := dest.NewObject(at);
      ObjectCopied(src, v, f, at, a, p);
      w := Obj(p, v.body);
    } else {
      LeafCopied(src, v, f, at, a);
      w := if v.Num? then Num(dest.number(v.n)) else v;
    }
  }

  /** The lua_next loop of luaI_deepcopy: copies the pairs of x into the table d. */
  method FillPairs(src: Graph, x: Ptr, f: Flags, d: Ptr, dest: State, ghost a: Heap)
    requires Closed(src) && x in src && dest.Bounded()
    requires Filling(src, x, f, a, 0, dest.Now()) && dest.Now().links.memo[x] == d
    modifies dest
    ensures dest.Bounded() && Filling(src, x, f, a, |src[x].pairs|, dest.Now()) && dest.Now().links.memo[x] == d
    decreases src.Keys - dest.Now().links.memo.Keys, 2
  {
    hide Filling, Copied, Visit, Closed, Heap.Valid, Unmade;
    ghost var b0 := dest.Now();
    FillingValid(src, x, f, a, 0, b0);
    for i := 0 to |src[x].pairs|
      invariant dest.Bounded() && Filling(src, x, f, a, i, dest.Now())
      invariant x in dest.Now().links.memo && dest.Now().links.memo[x] == d
      invariant b0.links.memo.Keys <= dest.Now().links.memo.Keys
    {
      ghost var b := dest.Now();
      var pair := src[x].pairs[i];
      if f.Skips(pair.key) {
        FillingSkips(src, x, f, a, i, b);
        continue;
      }
      PairClosed(src, x, i);
      FillingValid(src, x, f, a, i, b);
      var key := DeepCopy(src, pair.key, f, Field(x, i, true), dest);
      ghost var c := dest.Now();
      KeyCopied(src, x, i, pair.key, f, b, c);
      var value := DeepCopy(src, pair.value, f, Field(x, i, false), dest);
      CopiedGrew(src, pair.value, f, Field(x, i, false), c, dest.Now());
      FillingPair(src, x, f, a, i, b, c, dest.Now());
      dest.SetField(d, key, value);
    }
  }

  lemma ImageBecomes(src: Graph, v: Value, at: Place, h: Heap)
    requires h.Valid(src) && h.links.Has(v, at)
    ensures Becomes(v, h.links.Image(v, at), h.links.number, h.tables)
  {
  }

  lemma CopyBecomes(src: Graph, v: Value, f: Flags, at: Place, a: Heap, b: Heap)
    requires Copied(src, v, f, at, a, b)
    ensures b.links.Has(v, at) && Becomes(v, b.links.Image(v, at), b.links.number, b.tables)
  {
    hide Visit;
    ImageBecomes(src, v, at, b);
  }

  lemma MetaClosed(src: Graph, x: Ptr)
    requires Closed(src) && x in src && src[x].meta.Some?
    ensures src[x].meta.value in src
  {
  }

  lemma PairClosed(src: Graph, x: Ptr, i: nat)
    requires Closed(src) && x in src && i < |src[x].pairs|
    ensures Within(src[x].pairs[i].key, src.Keys) && Within(src[x].pairs[i].value, src.Keys)
  {
  }

  lemma CopiedGrew(src: Graph, v: Value, f: Flags, at: Place, a: Heap, b: Heap)
    requires Copied(src, v, f, at, a, b)
    ensures b.Valid(src) && a.Grew(b)
  {
  }

  lemma KeyCopied(src: Graph, x: Ptr, i: nat, k: Value, f: Flags, b: Heap, c: Heap)
    requires Copied(src, k, f, Field(x, i, true), b, c) && x in b.links.memo && UnmadeFrom(x, i, b.links)
    ensures c.Valid(src) && b.Grew(c) && Unmade(Field(x, i, false), c)
  {
  }

  lemma FillingValid(src: Graph, x: Ptr, f: Flags, a: Heap, i: nat, b: Heap)
    requires x in src && i <= |src[x].pairs| && Filling(src, x, f, a, i, b)
    ensures b.Valid(src) && x in b.links.memo && b.links.memo[x] in b.tables && a.links.memo.Keys <= b.links.memo.Keys
    ensures UnmadeFrom(x, i, b.links) && Unmade(Field(x, i, true), b)
  {
  }
}
