/** The route matcher of src/net/util.c: one left-to-right pass that goes back to the last star
    only, and writes captures it never takes back. */
module RouteMatch {
  import opened Option
  import opened Parray
  import opened Pattern
  import Larray

  datatype Step = Normal | GetKey | GetValue

  // ---- Star-free blocks ----

  /** Matching the star-free tokens b from position i: where it ends and what it captures. */
  function Run(b: seq<Token>, m: string, i: nat): (r: Option<(nat, seq<Capture>)>)
    requires i <= |m|
    ensures r.Some? ==> i <= r.value.0 <= |m|
    decreases |b|
  {
    if b == [] then Some((i, []))
    else
      var n := |b| - 1;
      match Run(b[..n], m, i)
      case None => None
      case Some((e, es)) =>
        match b[n]
        case Lit(c) => if e < |m| && m[e] == c then Some((e + 1, es)) else None
        case Star => None
        case Param(name) =>
          if e < |m| then
            var f := Next(m, e, '/');
            Some((f, es + [Entry(name, m[e..f])]))
          else None
        case Open => None
  }

  /** The end of a block is monotone in its start. */
  lemma {:induction false} RunMonotone(b: seq<Token>, m: string, i: nat, j: nat)
    requires i <= j <= |m| && Run(b, m, i).Some? && Run(b, m, j).Some?
    ensures Run(b, m, i).value.0 <= Run(b, m, j).value.0
    decreases |b|
  {
    if b != [] {
      RunMonotone(b[..|b| - 1], m, i, j);
    }
  }

  /** The reference search goes through a block without a choice. */
  lemma {:induction false} RunIsFirst(b: seq<Token>, rest: seq<Token>, m: string, i: nat)
    requires i <= |m| && Star !in b && Open !in b
    ensures match Run(b, m, i)
            case None => First(b + rest, m, i).None?
            case Some((e, es)) => First(b + rest, m, i) == Prefixed(es, First(rest, m, e))
    decreases |b|
  {
    if b == [] {
      assert b + rest == rest;
      assert First(rest, m, i).Some? ==> [] + First(rest, m, i).value == First(rest, m, i).value;
    } else {
      var n := |b| - 1;
      var c, t := b[..n], b[n];
      assert t in b;
      assert c + ([t] + rest) == b + rest;
      assert ([t] + rest)[1..] == rest;
      RunIsFirst(c, [t] + rest, m, i);
      if Run(b, m, i).Some? && t.Param? && First(rest, m, Run(b, m, i).value.0).Some? {
        var (e, es) := Run(c, m, i).value;
        var v := Entry(t.name, m[e..Next(m, e, '/')]);
        var fs := First(rest, m, Next(m, e, '/')).value;
        assert es + ([v] + fs) == es + [v] + fs;
      }
    }
  }

  // ---- Why the last star is enough ----

  /** Once the block after a star has matched, and the rest cannot match from there or later, no later start helps. */
  lemma {:induction false} LaterStartsFail(b: seq<Token>, rest: seq<Token>, m: string, i: nat, k: nat)
    requires i <= k <= |m| && Star !in b && Open !in b && Run(b, m, i).Some?
    requires forall f :: Run(b, m, i).value.0 <= f <= |m| ==> First(rest, m, f).None?
    ensures FirstFrom(b + rest, m, k).None?
    decreases |m| - k
  {
    RunIsFirst(b, rest, m, k);
    if Run(b, m, k).Some? {
      RunMonotone(b, m, i, k);
    }
    if k < |m| {
      LaterStartsFail(b, rest, m, i, k + 1);
    }
  }

  lemma {:induction false} FirstFromFails(ts: seq<Token>, m: string, i: nat, k: nat)
    requires i <= k <= |m| && FirstFrom(ts, m, i).None?
    ensures FirstFrom(ts, m, k).None? && First(ts, m, k).None?
    decreases k - i
  {
    if i < k {
      FirstFromFails(ts, m, i + 1, k);
    }
  }

  /** Reaching the next star commits the search to the block just matched. */
  lemma NextStarCommits(b: seq<Token>, rest: seq<Token>, m: string, i: nat)
    requires i <= |m| && Star !in b && Open !in b && Run(b, m, i).Some?
    ensures var (e, es) := Run(b, m, i).value;
            FirstFrom(b + [Star] + rest, m, i) == Prefixed(es, FirstFrom(rest, m, e))
  {
    var (e, es) := Run(b, m, i).value;
    assert b + [Star] + rest == b + ([Star] + rest);
    RunIsFirst(b, [Star] + rest, m, i);
    assert ([Star] + rest)[1..] == rest;
    if FirstFrom(rest, m, e).None? {
      forall f | e <= f <= |m|
        ensures First([Star] + rest, m, f).None?
      {
        FirstFromFails(rest, m, e, f);
      }
      LaterStartsFail(b, [Star] + rest, m, i, i);
    }
  }

  /** When the request is used up and the tokens left cannot be empty, no later start helps either. */
  lemma UsedUp(b: seq<Token>, rest: seq<Token>, m: string, i: nat)
    requires i <= |m| && Star !in b && Open !in b && Run(b, m, i).Some? && Run(b, m, i).value.0 == |m|
    requires First(rest, m, |m|).None?
    ensures First(b + rest, m, i).None? && FirstFrom(b + rest, m, i).None?
  {
    LaterStartsFail(b, rest, m, i, i);
    FirstFromFails(b + rest, m, i, i);
  }

  /** At the end of the request only stars can be left. */
  lemma {:induction false} OnlyStarsLeft(path: string, i: nat, j: nat, m: string)
    requires i <= j <= |path|
    requires forall k :: i <= k < j ==> path[k] == '*'
    requires j == |path| || path[j] != '*'
    ensures First(Tokens(path, i), m, |m|) == if j == |path| then Some([]) else None
    decreases j - i
  {
    if i < j {
      OnlyStarsLeft(path, i + 1, j, m);
      assert Tokens(path, i)[1..] == Tokens(path, i + 1);
    }
  }

  // ---- The state of the search ----

  /** The tokens after the last star (the whole pattern before the first) are base = block + rest; base is being
      tried from position start, and its block has matched up to position end. */
  datatype Search = Search(starred: bool, base: seq<Token>, start: nat, caps: seq<Capture>,
                           block: seq<Token>, found: seq<Capture>, rest: seq<Token>, end: nat)
  {
    /** What the search for ts in m will return, in terms of where it stands. */
    ghost predicate On(ts: seq<Token>, m: string) {
      && start <= end <= |m| && base == block + rest && Star !in block && Open !in block
      && (Open in ts <==> Open in rest)
      && Run(block, m, start) == Some((end, found))
      && First(ts, m, 0) == Prefixed(caps, if starred then FirstFrom(base, m, start) else First(base, m, start))
    }

    function Begin(ts: seq<Token>, i: nat, cs: seq<Capture>): Search {
      Search(true, ts, i, cs, [], [], ts, i)
    }

    function AfterStar(): Search
      requires rest != []
    {
      Begin(rest[1..], end, caps + found)
    }

    function Retry(): Search {
      Begin(base, start + 1, caps)
    }

    function Pass(e: nat, cs: seq<Capture>): Search
      requires rest != []
    {
      this.(block := block + [rest[0]], found := found + cs, rest := rest[1..], end := e)
    }
  }

  lemma PassLiteral(s: Search, ts: seq<Token>, m: string)
    requires s.On(ts, m) && s.rest != [] && s.end < |m| && s.rest[0] == Lit(m[s.end])
    ensures s.Pass(s.end + 1, []).On(ts, m)
  {
    BlockMatched(s, ts, m);
    hide *;
    RunNext(s.block, s.rest[0], m, s.start);
    assert s.found + [] == s.found;
    Passed(s, ts, m, s.end + 1, []);
  }

  lemma PassParam(s: Search, ts: seq<Token>, m: string, e: nat)
    requires s.On(ts, m) && s.rest != [] && s.end < |m| && s.rest[0].Param? && e == Next(m, s.end, '/')
    ensures s.Pass(e, [Entry(s.rest[0].name, m[s.end..e])]).On(ts, m)
  {
    BlockMatched(s, ts, m);
    hide *;
    RunNext(s.block, s.rest[0], m, s.start);
    Passed(s, ts, m, e, [Entry(s.rest[0].name, m[s.end..e])]);
  }

  lemma BlockMatched(s: Search, ts: seq<Token>, m: string)
    requires s.On(ts, m)
    ensures s.start <= s.end <= |m| && Run(s.block, m, s.start) == Some((s.end, s.found))
  {
  }

  /** The block grows by the token just matched. */
  lemma Passed(s: Search, ts: seq<Token>, m: string, e: nat, cs: seq<Capture>)
    requires s.On(ts, m) && s.rest != [] && !s.rest[0].Star? && !s.rest[0].Open? && s.start <= e <= |m|
    requires Run(s.block + [s.rest[0]], m, s.start) == Some((e, s.found + cs))
    ensures s.Pass(e, cs).On(ts, m)
  {
    PassedBlock(s, e, cs);
    hide Run, First, FirstFrom;
  }

  lemma RunNext(b: seq<Token>, t: Token, m: string, i: nat)
    requires i <= |m| && Run(b, m, i).Some?
    ensures var (e, es) := Run(b, m, i).value;
            && (e < |m| && t == Lit(m[e]) ==> Run(b + [t], m, i) == Some((e + 1, es)))
            && (e < |m| && t.Param? ==>
                  Run(b + [t], m, i) == Some((Next(m, e, '/'), es + [Entry(t.name, m[e..Next(m, e, '/')])])))
  {
    assert (b + [t])[..|b|] == b;
  }

  lemma PassedBlock(s: Search, e: nat, cs: seq<Capture>)
    requires s.base == s.block + s.rest && s.rest != [] && Star !in s.block && Open !in s.block
    requires !s.rest[0].Star? && !s.rest[0].Open?
    ensures var s' := s.Pass(e, cs);
            && s'.base == s'.block + s'.rest && Star !in s'.block && Open !in s'.block
            && (Open in s'.rest <==> Open in s.rest)
  {
    assert s.rest == [s.rest[0]] + s.rest[1..];
  }

  /** At an open brace with a character left, the reference search has found its way too. */
  lemma ReachedOpen(s: Search, ts: seq<Token>, m: string)
    requires s.On(ts, m) && s.rest == [Open] && s.end < |m|
    ensures Open in ts && First(ts, m, 0).Some?
  {
    RunIsFirst(s.block, s.rest, m, s.start);
    assert s.rest[1..] == [];
  }

  lemma PassStar(s: Search, ts: seq<Token>, m: string)
    requires s.On(ts, m) && s.rest != [] && s.rest[0].Star?
    ensures s.AfterStar().On(ts, m)
  {
    var rest := s.rest[1..];
    assert s.rest == [Star] + rest && s.base == s.block + [Star] + rest;
    assert Open in rest <==> Open in s.rest;
    RunIsFirst(s.block, s.rest, m, s.start);
    NextStarCommits(s.block, rest, m, s.start);
    assert [] + rest == rest;
    StarSearch(s, rest, m);
    hide First, FirstFrom;
  }

  /** What the search returns, once committed to a star. */
  lemma StarSearch(s: Search, rest: seq<Token>, m: string)
    requires s.start <= s.end <= |m| && s.base == s.block + [Star] + rest
    requires FirstFrom(s.base, m, s.start) == Prefixed(s.found, FirstFrom(rest, m, s.end))
    requires First(s.base, m, s.start) == Prefixed(s.found, FirstFrom(rest, m, s.end))
    ensures Prefixed(s.caps, if s.starred then FirstFrom(s.base, m, s.start) else First(s.base, m, s.start)) ==
            Prefixed(s.caps + s.found, FirstFrom(rest, m, s.end))
  {
    hide First, FirstFrom;
    if FirstFrom(rest, m, s.end).Some? {
      var fs := FirstFrom(rest, m, s.end).value;
      assert s.caps + (s.found + fs) == s.caps + s.found + fs;
    }
  }

  lemma Mismatch(s: Search, ts: seq<Token>, m: string)
    requires s.On(ts, m) && s.end < |m| && First(s.rest, m, s.end).None?
    ensures s.starred ==> s.Retry().On(ts, m)
    ensures !s.starred ==> First(ts, m, 0).None?
  {
    RunIsFirst(s.block, s.rest, m, s.start);
    assert [] + s.base == s.base;
  }

  lemma Ended(s: Search, ts: seq<Token>, m: string)
    requires s.On(ts, m) && s.end == |m|
    ensures First(ts, m, 0) == Prefixed(s.caps + s.found, First(s.rest, m, |m|))
  {
    RunIsFirst(s.block, s.rest, m, s.start);
    if First(s.rest, m, |m|).None? {
      UsedUp(s.block, s.rest, m, s.start);
    } else {
      var fs := First(s.rest, m, |m|).value;
      assert s.caps + (s.found + fs) == s.caps + s.found + fs;
    }
  }

  // ---- Captures that are never rolled back ----

  function Names(ts: seq<Token>): seq<string> {
    if ts == [] then []
    else (if ts[0].Param? then [ts[0].name] else []) + Names(ts[1..])
  }

  /** Whatever was captured so far, setting the names still to come leaves the list as if only caps had been set. */
  ghost predicate Settles(p: seq<Capture>, start: seq<Capture>, caps: seq<Capture>, names: seq<string>) {
    forall es: seq<Capture> {:trigger PutAll(p, es)} :: Keys(es) == names ==> PutAll(p, es) == PutAll(start, caps + es)
  }

  /** The captures written so far serve both the block being tried and any retry of it. */
  ghost predicate Captured(s: Search, p: seq<Capture>, start: seq<Capture>) {
    && Settles(p, start, s.caps, Keys(s.found) + Names(s.rest))
    && Settles(p, start, s.caps + s.found, Names(s.rest))
    && Keys(s.found) + Names(s.rest) == Names(s.base)
    && forall e :: e in s.found ==> e.key in Keys(p)
  }

  lemma CaptureParam(s: Search, p: seq<Capture>, start: seq<Capture>, e: nat, v: string)
    requires Captured(s, p, start) && s.rest != [] && s.rest[0].Param?
    ensures var c := Entry(s.rest[0].name, v); Captured(s.Pass(e, [c]), Put(p, c.key, c.value), start)
  {
    var c := Entry(s.rest[0].name, v);
    var s', p' := s.Pass(e, [c]), Put(p, c.key, v);
    assert Keys(s'.found) == Keys(s.found) + [c.key];
    assert Keys(s'.found) + Names(s'.rest) == Keys(s.found) + Names(s.rest);
    assert Names(s.rest) == [c.key] + Names(s'.rest);
    assert s'.found == s.found + [c] && s.caps + s'.found == s.caps + s.found + [c];
    SettlesNext(p, start, s.caps + s.found, c, Names(s'.rest));
    SettlesAgain(p, start, s.caps, s.found, c, Names(s'.rest));
    PutLookup(p, c.key, v, c.key);
    assert c.key in Keys(p') && forall k :: k in Keys(p) ==> k in Keys(p');
  }

  /** Setting the next name moves it from the names to come to the captures. */
  lemma SettlesNext(p: seq<Capture>, start: seq<Capture>, caps: seq<Capture>, c: Capture, names: seq<string>)
    requires Settles(p, start, caps, [c.key] + names)
    ensures Settles(Put(p, c.key, c.value), start, caps + [c], names)
  {
    hide Put;
    forall es: seq<Capture> | Keys(es) == names
      ensures PutAll(Put(p, c.key, c.value), es) == PutAll(start, caps + [c] + es)
    {
      var fs := [c] + es;
      assert Keys(fs) == [c.key] + names;
      assert fs[1..] == es && fs[0] == c && caps + fs == caps + [c] + es;
      assert PutAll(p, fs) == PutAll(start, caps + fs);
    }
  }

  /** A retry sets the names of the block again, so what was set in this try does not matter. */
  lemma SettlesAgain(p: seq<Capture>, start: seq<Capture>, caps: seq<Capture>, found: seq<Capture>, c: Capture,
                     names: seq<string>)
    requires Settles(p, start, caps, Keys(found) + ([c.key] + names))
    requires forall e :: e in found ==> e.key in Keys(p)
    ensures Settles(Put(p, c.key, c.value), start, caps, Keys(found) + ([c.key] + names))
  {
    forall es: seq<Capture> | Keys(es) == Keys(found) + ([c.key] + names)
      ensures PutAll(Put(p, c.key, c.value), es) == PutAll(start, caps + es)
    {
      SetAgain(p, found, c, names, es);
      hide Put, PutAll;
    }
  }

  lemma SetAgain(p: seq<Capture>, found: seq<Capture>, c: Capture, names: seq<string>, es: seq<Capture>)
    requires Keys(es) == Keys(found) + ([c.key] + names) && forall e :: e in found ==> e.key in Keys(p)
    ensures PutAll(Put(p, c.key, c.value), es) == PutAll(p, es)
  {
    hide Put, PutAll;
    var n := |found|;
    forall e | e in es[..n]
      ensures e.key in Keys(p)
    {
      var i :| 0 <= i < n && es[i] == e;
      assert Keys(es)[i] == found[i].key && found[i] in found;
    }
    assert Keys(es)[n] == c.key;
    assert es == es[..n] + [Entry(c.key, es[n].value)] + es[n + 1..];
    StaleForgotten(p, c.key, c.value, es[..n], es[n].value, es[n + 1..]);
  }

  lemma CaptureLiteral(s: Search, p: seq<Capture>, start: seq<Capture>, e: nat)
    requires Captured(s, p, start) && s.rest != [] && s.rest[0].Lit?
    ensures Captured(s.Pass(e, []), p, start)
  {
    assert s.found + [] == s.found && [] + Names(s.rest[1..]) == Names(s.rest[1..]);
  }

  lemma CaptureStar(s: Search, p: seq<Capture>, start: seq<Capture>)
    requires Captured(s, p, start) && s.rest != [] && s.rest[0].Star?
    ensures Captured(s.AfterStar(), p, start)
  {
    CaptureBegin(s, s.rest[1..], s.end, s.caps + s.found, p, start);
  }

  lemma CaptureRetry(s: Search, p: seq<Capture>, start: seq<Capture>)
    requires Captured(s, p, start)
    ensures Captured(s.Retry(), p, start)
  {
    CaptureBegin(s, s.base, s.start + 1, s.caps, p, start);
  }

  lemma Start(ts: seq<Token>, m: string, p: seq<Capture>)
    ensures var s := Search(false, ts, 0, [], [], [], ts, 0); Going(s, ts, m, p, p)
  {
    assert [] + ts == ts;
    assert First(ts, m, 0).Some? ==> [] + First(ts, m, 0).value == First(ts, m, 0).value;
    assert Keys<string>([]) + Names(ts) == Names(ts);
    forall es: seq<Capture> ensures [] + es == es {}
  }

  lemma Finished(s: Search, p: seq<Capture>, start: seq<Capture>)
    requires Captured(s, p, start) && Names(s.rest) == []
    ensures p == PutAll(start, s.caps + s.found)
  {
    assert Keys<string>([]) == [];
    assert PutAll(p, []) == p && s.caps + s.found + [] == s.caps + s.found;
  }

  lemma CaptureBegin(s: Search, ts: seq<Token>, i: nat, caps: seq<Capture>, p: seq<Capture>, start: seq<Capture>)
    requires Settles(p, start, caps, Names(ts))
    ensures Captured(s.Begin(ts, i, caps), p, start)
  {
    assert Keys<string>([]) + Names(ts) == Names(ts) && caps + [] == caps;
  }

  // ---- match_param ----

  /** The search stands between two tokens, before position pi of the pattern. */
  ghost predicate BeforeToken(s: Search, path: string, pi: nat) {
    pi <= |path| && Tokens(path, pi) == s.rest
  }

  /** Inside {name}: the brace is at position start, and path[start + 1..pi] of the name has been read. */
  ghost predicate ReadingKey(s: Search, path: string, pi: nat, start: nat) {
    && start < pi <= |path| && path[start] == '{' && Absent('}', path, start + 1, pi) && BeforeToken(s, path, start)
    && Next(path, start, '}') < |path|
  }

  /** After {name}: its value is m[s.end..mi] so far. */
  ghost predicate ReadingValue(s: Search, path: string, m: string, pi: nat, mi: nat, name: string) {
    && s.end < |m| && s.end <= mi <= |m| && Absent('/', m, s.end, mi)
    && pi <= |path| && s.rest == [Param(name)] + Tokens(path, pi)
  }

  ghost predicate Going(s: Search, ts: seq<Token>, m: string, p: seq<Capture>, start: seq<Capture>) {
    s.On(ts, m) && Captured(s, p, start)
  }

  lemma LiteralStep(s: Search, ts: seq<Token>, path: string, m: string, pi: nat, p: seq<Capture>, start: seq<Capture>)
    requires Going(s, ts, m, p, start) && BeforeToken(s, path, pi)
    requires pi < |path| && path[pi] != '{' && path[pi] != '*' && s.end < |m| && path[pi] == m[s.end]
    ensures s.rest != []
    ensures var s' := s.Pass(s.end + 1, []); Going(s', ts, m, p, start) && BeforeToken(s', path, pi + 1)
  {
    PassLiteral(s, ts, m);
    CaptureLiteral(s, p, start, s.end + 1);
  }

  lemma StarStep(s: Search, ts: seq<Token>, path: string, m: string, pi: nat, p: seq<Capture>, start: seq<Capture>)
    requires Going(s, ts, m, p, start) && BeforeToken(s, path, pi)
    requires pi < |path| && path[pi] == '*'
    ensures s.rest != []
    ensures var s' := s.AfterStar(); Going(s', ts, m, p, start) && BeforeToken(s', path, pi + 1)
  {
    PassStar(s, ts, m);
    CaptureStar(s, p, start);
  }

  lemma MismatchStep(s: Search, ts: seq<Token>, path: string, m: string, pi: nat, p: seq<Capture>, start: seq<Capture>)
    requires Going(s, ts, m, p, start) && BeforeToken(s, path, pi) && s.end < |m|
    requires pi == |path| || (path[pi] != '{' && path[pi] != '*' && path[pi] != m[s.end])
    ensures !s.starred ==> First(ts, m, 0).None?
    ensures s.starred ==> Going(s.Retry(), ts, m, p, start)
    ensures s.start <= s.end
  {
    Mismatch(s, ts, m);
    CaptureRetry(s, p, start);
  }

  lemma BraceStep(s: Search, ts: seq<Token>, path: string, m: string, pi: nat, p: seq<Capture>, start: seq<Capture>)
    requires Going(s, ts, m, p, start) && BeforeToken(s, path, pi) && s.end < |m|
    requires pi < |path| && path[pi] == '{' && Next(path, pi, '}') == |path|
    ensures Open in ts && First(ts, m, 0).Some?
  {
    ReachedOpen(s, ts, m);
  }

  lemma KeyStep(s: Search, path: string, m: string, pi: nat, start: nat)
    requires ReadingKey(s, path, pi, start) && s.end < |m|
    ensures pi < |path| && (path[pi] != '}' ==> ReadingKey(s, path, pi + 1, start))
    ensures path[pi] == '}' ==> ReadingValue(s, path, m, pi + 1, s.end, path[start + 1..pi])
  {
    assert Next(path, start, '}') >= pi;
  }

  lemma ValueStep(s: Search, ts: seq<Token>, path: string, m: string, pi: nat, mi: nat, name: string,
                  p: seq<Capture>, start: seq<Capture>)
    requires Going(s, ts, m, p, start) && ReadingValue(s, path, m, pi, mi, name)
    requires mi == |m| || m[mi] == '/'
    ensures s.rest != []
    ensures var s' := s.Pass(mi, [Entry(name, m[s.end..mi])]);
            Going(s', ts, m, Put(p, name, m[s.end..mi]), start) && BeforeToken(s', path, pi)
  {
    PassParam(s, ts, m, mi);
    CaptureParam(s, p, start, mi, m[s.end..mi]);
  }

  lemma EndStep(s: Search, ts: seq<Token>, path: string, m: string, pi: nat, left: nat, p: seq<Capture>,
                start: seq<Capture>)
    requires Going(s, ts, m, p, start) && BeforeToken(s, path, left) && s.end == |m|
    requires left <= pi <= |path| && (forall k :: left <= k < pi ==> path[k] == '*') &&
             (pi == |path| || path[pi] != '*')
    ensures First(ts, m, 0).Some? <==> pi == |path|
    ensures pi == |path| ==> Open !in ts && p == PutAll(start, First(ts, m, 0).value)
  {
    OnlyStarsLeft(path, left, pi, m);
    NoNamesLeft(path, left, pi);
    Ended(s, ts, m);
    if pi == |path| {
      Finished(s, p, start);
      assert s.caps + s.found + [] == s.caps + s.found;
    }
  }

  lemma {:induction false} NoNamesLeft(path: string, i: nat, j: nat)
    requires i <= j <= |path|
    requires forall k :: i <= k < j ==> path[k] == '*'
    ensures j == |path| ==> Names(Tokens(path, i)) == [] && Open !in Tokens(path, i)
    decreases j - i
  {
    if i < j {
      NoNamesLeft(path, i + 1, j);
      assert Tokens(path, i)[1..] == Tokens(path, i + 1);
    }
  }

  /** RanOff: the code runs off the end of the pattern in search of a closing brace. */
  datatype Outcome = Match | NoMatch | RanOff

  /** Whether the pattern matches; when it does, arr holds the captures of the earliest alignment. */
  method MatchParam(path: string, match_: string, arr: Parray<string>) returns (r: Outcome)
    modifies arr
    ensures r == RanOff <==> RunsOff(path, match_)
    ensures r == Match <==> Matches(path, match_)
    ensures r == Match ==>
      exists cuts ::
        && Earliest(Tokens(path, 0), match_, 0, cuts)
        && arr.P == PutAll(old(arr.P), Captures(Tokens(path, 0), match_, cuts))
    ensures r == Match <==> Pattern.Search(path, match_).Some?
    ensures r == Match ==> arr.P == PutAll(old(arr.P), Pattern.Search(path, match_).value)
  {
    hide Going; hide First; hide Tokens; hide Put;
    ghost var ts, p0 := Tokens(path, 0), arr.P;
    SearchDecidesMatch(path, match_);
    var pi, imatch, start, mi := 0, 0, 0, 0;
    var index := -1;
    var step := Normal;
    var name := "";
    ghost var s := Search(false, ts, 0, [], [], [], ts, 0);
    Start(ts, match_, arr.P);
    while mi < |match_| || step == GetKey
      invariant pi <= |path| && mi <= |match_| && -1 <= index < pi
      invariant Going(s, ts, match_, arr.P, p0)
      invariant s.starred == (index != -1)
      invariant s.starred ==> imatch == s.start <= |match_| && Tokens(path, index + 1) == s.base
      invariant match step
                case Normal => mi == s.end && BeforeToken(s, path, pi)
                case GetKey => mi == s.end < |match_| && ReadingKey(s, path, pi, start)
                case GetValue => s.end == start && ReadingValue(s, path, match_, pi, mi, name)
      decreases |path| - index, |match_| - imatch,
                2 * (|path| - pi + |match_| - mi) + if step == GetValue then 1 else 0
    {
      match step {
        case Normal =>
          if pi < |path| && path[pi] == '{' {
            if Next(path, pi, '}') == |path| {
              BraceStep(s, ts, path, match_, pi, arr.P, p0);
              return RanOff;
            }
            step := GetKey;
            start := pi;
          } else if pi < |path| && path[pi] == '*' {
            index := pi;
            imatch := mi;
            StarStep(s, ts, path, match_, pi, arr.P, p0);
            s := s.AfterStar();
          } else {
            if pi == |path| || path[pi] != match_[mi] {
              MismatchStep(s, ts, path, match_, pi, arr.P, p0);
              if index == -1 {
                return NoMatch;
              }
              s := s.Retry();
              pi := index + 1;
              imatch := imatch + 1;
              mi := imatch;
              continue;
            }
            LiteralStep(s, ts, path, match_, pi, arr.P, p0);
            s := s.Pass(s.end + 1, []);
            mi := mi + 1;
          }
          pi := pi + 1;
        case GetKey =>
          KeyStep(s, path, match_, pi, start);
          if path[pi] == '}' {
            step := GetValue;
            name := path[start + 1..pi];
            start := mi;
          }
          pi := pi + 1;
        case GetValue =>
          if match_[mi] == '/' {
            step := Normal;
            ValueStep(s, ts, path, match_, pi, mi, name, arr.P, p0);
            s := s.Pass(mi, [Entry(name, match_[start..mi])]);
            arr.Set(name, match_[start..mi]);
          } else {
            mi := mi + 1;
          }
      }
    }
    if step == GetValue {
      ValueStep(s, ts, path, match_, pi, mi, name, arr.P, p0);
      s := s.Pass(mi, [Entry(name, match_[start..mi])]);
      arr.Set(name, match_[start..mi]);
    }
    ghost var left := pi;
    while pi < |path| && path[pi] == '*'
      invariant left <= pi <= |path|
      invariant forall k :: left <= k < pi ==> path[k] == '*'
    {
      pi := pi + 1;
    }
    EndStep(s, ts, path, match_, pi, left, arr.P, p0);
    r := if pi == |path| then Match else NoMatch;
  }

  // ---- route_match ----

  type Route<R> = Entry<R>

  /** The routes that match, in the order they were registered. */
  function Routed<R>(paths: seq<Route<R>>, request: string): (out: seq<Route<R>>)
    ensures |out| <= |paths|
    ensures forall j :: 0 <= j < |out| ==> Pattern.Search(out[j].key, request).Some?
  {
    if paths == [] then []
    else
      var n := |paths| - 1;
      Routed(paths[..n], request) + if Pattern.Search(paths[n].key, request).Some? then [paths[n]] else []
  }

  lemma RoutedNone<R>(paths: seq<Route<R>>, request: string)
    ensures Routed(paths[..0], request) == []
  {
  }

  lemma RoutedNext<R>(paths: seq<Route<R>>, i: nat, request: string)
    requires i < |paths|
    ensures Routed(paths[..i + 1], request) ==
            Routed(paths[..i], request) + if Pattern.Search(paths[i].key, request).Some? then [paths[i]] else []
  {
    assert paths[..i + 1][..i] == paths[..i];
  }

  /** The captures of the i-th routed path are what `params` holds under i. */
  ghost predicate ParamsOf<R>(out: seq<Route<R>>, request: string, params: Larray.LArray<Parray<string>>)
    requires forall j :: 0 <= j < |out| ==> Pattern.Search(out[j].key, request).Some?
    requires params.Valid() && |out| <= Larray.KEYS
    reads params, params.arr, params.Contents().Values
  {
    forall i: Larray.Key :: i < |out| ==>
      i in params.Contents() && params.Contents()[i].P == PutAll([], Pattern.Search(out[i].key, request).value)
  }

  type Params = map<Larray.Key, Parray<string>>

  /** c is c0 with held[j] set under each j. */
  ghost predicate Recorded(c0: Params, c: Params, held: seq<Parray<string>>) {
    && (forall k: Larray.Key :: k in c <==> k in c0 || k < |held|)
    && forall j: Larray.Key :: j < |held| ==> c[j] == held[j]
  }

  lemma RecordedNext(c0: Params, c: Params, held: seq<Parray<string>>, t: Parray<string>)
    requires Recorded(c0, c, held) && |held| < Larray.KEYS
    ensures Recorded(c0, c[|held| := t], held + [t])
  {
  }

  ghost predicate CapturedBy<R>(vals: seq<seq<Capture>>, out: seq<Route<R>>, request: string)
    requires forall j :: 0 <= j < |out| ==> Pattern.Search(out[j].key, request).Some?
  {
    |vals| == |out| && forall j :: 0 <= j < |out| ==> vals[j] == PutAll([], Pattern.Search(out[j].key, request).value)
  }

  lemma NothingRecorded<R>(c: Params, request: string)
    ensures Recorded(c, c, []) && CapturedBy<R>([], [], request)
  {
  }

  lemma CapturedByNext<R>(vals: seq<seq<Capture>>, out: seq<Route<R>>, request: string, r: Route<R>)
    requires forall j :: 0 <= j < |out| ==> Pattern.Search(out[j].key, request).Some?
    requires CapturedBy(vals, out, request) && Pattern.Search(r.key, request).Some?
    ensures CapturedBy(vals + [PutAll([], Pattern.Search(r.key, request).value)], out + [r], request)
  {
    hide First; hide PutAll;
  }

  lemma ParamsRecorded<R>(c0: Params, held: seq<Parray<string>>, vals: seq<seq<Capture>>,
                          out: seq<Route<R>>, request: string, params: Larray.LArray<Parray<string>>)
    requires forall j :: 0 <= j < |out| ==> Pattern.Search(out[j].key, request).Some?
    requires params.Valid() && Recorded(c0, params.Contents(), held) && CapturedBy(vals, out, request)
    requires |held| == |out| <= Larray.KEYS && forall j :: 0 <= j < |held| ==> held[j].P == vals[j]
    ensures ParamsOf(out, request, params)
    ensures forall k: Larray.Key :: k in params.Contents().Keys <==> k in c0.Keys || k < |out|
  {
    hide First; hide PutAll; hide Larray.Table;
  }

  /** One route of the loop: match it into a new list, and keep the list under k when it matched. */
  method TryRoute(path: string, request: string, params: Larray.LArray<Parray<string>>, k: Larray.Key)
    returns (matched: bool, params': Larray.LArray<Parray<string>>, temp: Parray<string>)
    requires !RunsOff(path, request) && params.Valid()
    modifies params, params.arr
    ensures matched == Pattern.Search(path, request).Some? && params'.Valid()
    ensures params' == params || (fresh(params') && fresh(params'.arr))
    ensures params' == params ==> params.arr == old(params.arr)
    ensures matched ==> fresh(temp) && temp.P == PutAll([], Pattern.Search(path, request).value)
    ensures matched ==> params'.Contents() == old(params.Contents())[k := temp]
    ensures !matched ==> params' == params && params'.Contents() == old(params.Contents())
  {
    hide Larray.Table; hide Larray.Located; hide Larray.Mapping; hide Matches; hide First; hide PutAll;
    params' := params;
    temp := new Parray<string>();
    var outcome := MatchParam(path, request, temp);
    matched := outcome == Match;
    if matched {
      var ind;
      params', ind := Larray.Set(params', k, temp);
    }
  }

  /** Returns the matching routes in registration order; params holds each one's captures under its position. */
  method RouteMatch<R>(paths: Parray<R>, request: string, params: Larray.LArray<Parray<string>>)
    returns (out: Parray<R>, params': Larray.LArray<Parray<string>>)
    requires forall i :: 0 <= i < |paths.P| ==> !RunsOff(paths.P[i].key, request)
    requires |paths.P| < Larray.KEYS && params.Valid()
    modifies params, params.arr
    ensures fresh(out) && out.P == Routed(paths.P, request)
    ensures params'.Valid() && ParamsOf(out.P, request, params')
    ensures forall k: Larray.Key :: k in params'.Contents().Keys <==> k in old(params.Contents().Keys) || k < |out.P|
  {
    hide Larray.Table, Larray.Located, Larray.Mapping, Matches, First, PutAll, Recorded, CapturedBy;
    hide Routed, ParamsOf;
    params' := params;
    out := new Parray();
    var n := |paths.P|;
    ghost var c0, c := params.Contents(), params.Contents();
    ghost var held: seq<Parray<string>> := [];
    ghost var vals: seq<seq<Capture>> := [];
    NothingRecorded<R>(c, request);
    RoutedNone(paths.P, request);
    for i := 0 to n
      invariant paths.P == old(paths.P)
      invariant fresh(out) && out.P == Routed(paths.P[..i], request) && |out.P| == |held|
      invariant params' != params ==> fresh(params') && fresh(params'.arr)
      invariant params' == params ==> params.arr == old(params.arr)
      invariant params'.Valid() && params'.Contents() == c
      invariant Recorded(c0, c, held)
      invariant forall j :: 0 <= j < |held| ==> fresh(held[j]) && held[j] as object != out
      invariant CapturedBy(vals, out.P, request) && |vals| == |held|
      invariant forall j :: 0 <= j < |held| ==> held[j].P == vals[j]
    {
      RoutedNext(paths.P, i, request);
      var matched, temp;
      matched, params', temp := TryRoute(paths.P[i].key, request, params', |out.P|);
      if matched {
        RecordedNext(c0, c, held, temp);
        c := c[|held| := temp];
        CapturedByNext(vals, out.P, request, paths.P[i]);
        held, vals := held + [temp], vals + [temp.P];
        out.P := out.P + [paths.P[i]];
      }
    }
    assert paths.P[..n] == paths.P;
    ParamsRecorded(c0, held, vals, out.P, request, params');
  }
}
