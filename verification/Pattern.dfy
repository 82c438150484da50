/** What a route pattern means: the tokens written in it, the alignments of those tokens
    with a request path, and the alignment a plain backtracking search finds first. */
module Pattern {
  import opened Option
  import opened Parray

  /** Open is a brace that is never closed, with all that follows it. */
  datatype Token = Lit(c: char) | Star | Param(name: string) | Open

  type Capture = Entry<string>

  /** c does not occur in s[a..b]. */
  predicate Absent(c: char, s: string, a: nat, b: nat)
    requires b <= |s|
  {
    forall k :: a <= k < b ==> s[k] != c
  }

  /** The first position at or after i that holds c, or the end of s. */
  function Next(s: string, i: nat, c: char): (j: nat)
    requires i <= |s|
    ensures i <= j <= |s| && (j < |s| ==> s[j] == c) && Absent(c, s, i, j)
    decreases |s| - i
  {
    if i == |s| || s[i] == c then i else Next(s, i + 1, c)
  }

  /** The tokens of a pattern from position i on. */
  function Tokens(path: string, i: nat): seq<Token>
    requires i <= |path|
    decreases |path| - i
  {
    if i == |path| then []
    else if path[i] == '{' then
      var e := Next(path, i, '}');
      if e == |path| then [Open] else [Param(path[i + 1..e])] + Tokens(path, e + 1)
    else [if path[i] == '*' then Star else Lit(path[i])] + Tokens(path, i + 1)
  }

  /** Every brace is closed. */
  predicate WellFormed(path: string) {
    Open !in Tokens(path, 0)
  }

  // ---- Alignments: what a match is ----

  /** Token t stands for m[a..b]. A parameter needs a remaining character and runs to the next '/' or the end; an open
      brace is reached with a remaining character, and nothing comes after it. */
  predicate Covers(t: Token, m: string, a: nat, b: nat) {
    a <= b <= |m| &&
    match t
    case Lit(c) => b == a + 1 && m[a] == c
    case Star => true
    case Param(_) => a < |m| && Absent('/', m, a, b) && (b == |m| || m[b] == '/')
    case Open => a < |m| && b == |m|
  }

  /** cuts[k] is where token k starts; the tokens cover m from position i to its end. */
  predicate Aligned(ts: seq<Token>, m: string, i: nat, cuts: seq<nat>) {
    && |cuts| == |ts| + 1
    && cuts[0] == i && cuts[|ts|] == |m|
    && forall k :: 0 <= k < |ts| ==> Covers(ts[k], m, cuts[k], cuts[k + 1])
  }

  /** The parameters of an alignment with their values, in pattern order. */
  function Captures(ts: seq<Token>, m: string, cuts: seq<nat>): seq<Capture>
    requires |cuts| == |ts| + 1
    requires forall k :: 0 <= k < |ts| ==> Covers(ts[k], m, cuts[k], cuts[k + 1])
  {
    if ts == [] then []
    else
      assert Covers(ts[0], m, cuts[0], cuts[1]);
      (match ts[0]
       case Param(n) => [Entry(n, m[cuts[0]..cuts[1]])]
       case _ => [])
      + Captures(ts[1..], m, cuts[1..])
  }

  /** Every star of a is as short as it can be, the earlier stars first. */
  predicate Earlier(a: seq<nat>, b: seq<nat>) {
    |a| == |b| && (a == [] || a[0] < b[0] || (a[0] == b[0] && Earlier(a[1..], b[1..])))
  }

  /** Of all alignments, the one with the shortest stars. */
  ghost predicate Earliest(ts: seq<Token>, m: string, i: nat, cuts: seq<nat>) {
    Aligned(ts, m, i, cuts) && forall other :: Aligned(ts, m, i, other) ==> Earlier(cuts, other)
  }

  // ---- The reference search: try every length of every star, shortest first ----

  function Prefixed(es: seq<Capture>, r: Option<seq<Capture>>): Option<seq<Capture>> {
    match r
    case None => None
    case Some(fs) => Some(es + fs)
  }

  function First(ts: seq<Token>, m: string, i: nat): Option<seq<Capture>>
    requires i <= |m|
    decreases |ts|, 0
  {
    if ts == [] then (if i == |m| then Some([]) else None)
    else match ts[0]
      case Lit(c) => if i < |m| && m[i] == c then First(ts[1..], m, i + 1) else None
      case Star => FirstFrom(ts[1..], m, i)
      case Param(n) =>
        if i < |m| then
          var e := Next(m, i, '/');
          Prefixed([Entry(n, m[i..e])], First(ts[1..], m, e))
        else None
      case Open => if i < |m| then First(ts[1..], m, |m|) else None
  }

  function FirstFrom(ts: seq<Token>, m: string, i: nat): Option<seq<Capture>>
    requires i <= |m|
    decreases |ts|, 1, |m| - i
  {
    if First(ts, m, i).Some? || i == |m| then First(ts, m, i) else FirstFrom(ts, m, i + 1)
  }

  /** The search returns the captures of the earliest alignment. */
  lemma {:induction false} FirstFinds(ts: seq<Token>, m: string, i: nat) returns (cuts: seq<nat>)
    requires i <= |m| && First(ts, m, i).Some?
    ensures Earliest(ts, m, i, cuts) && First(ts, m, i) == Some(Captures(ts, m, cuts))
    decreases |ts|
  {
    if ts == [] {
      cuts := [i];
    } else {
      var e := StepEnd(ts, m, i);
      var rest := FirstFinds(ts[1..], m, e);
      cuts := [i] + rest;
      assert cuts[1..] == rest && First(ts[1..], m, e) == Some(Captures(ts[1..], m, rest));
      forall k | 0 <= k < |ts|
        ensures Covers(ts[k], m, cuts[k], cuts[k + 1])
      {
        if k > 0 {
          assert Covers(ts[1..][k - 1], m, rest[k - 1], rest[k]);
        }
      }
      var head := if ts[0].Param? then [Entry(ts[0].name, m[i..e])] else [];
      var tail := Captures(ts[1..], m, rest);
      assert Captures(ts, m, cuts) == head + tail && [] + tail == tail;
      forall other | Aligned(ts, m, i, other)
        ensures Earlier(cuts, other)
      {
        AlignedTail(ts, m, i, other);
        if other[1] != e {
          StepEndLeast(ts, m, i, other);
        }
      }
    }
  }

  lemma AlignedTail(ts: seq<Token>, m: string, i: nat, cuts: seq<nat>)
    requires ts != [] && Aligned(ts, m, i, cuts)
    ensures Covers(ts[0], m, i, cuts[1]) && Aligned(ts[1..], m, cuts[1], cuts[1..])
  {
    forall k | 0 <= k < |ts| - 1
      ensures Covers(ts[1..][k], m, cuts[1..][k], cuts[1..][k + 1])
    {
      assert Covers(ts[k + 1], m, cuts[k + 1], cuts[k + 2]);
    }
  }

  /** Where the first token ends in the alignment the search finds. */
  lemma StepEnd(ts: seq<Token>, m: string, i: nat) returns (e: nat)
    requires ts != [] && i <= |m| && First(ts, m, i).Some?
    ensures Covers(ts[0], m, i, e) && First(ts[1..], m, e).Some?
    ensures First(ts, m, i) == if ts[0].Param? then Prefixed([Entry(ts[0].name, m[i..e])], First(ts[1..], m, e))
                               else First(ts[1..], m, e)
    ensures ts[0].Star? ==> forall k :: i <= k < e ==> First(ts[1..], m, k).None?
    ensures !ts[0].Star? ==> forall b :: Covers(ts[0], m, i, b) ==> b == e
  {
    match ts[0] {
      case Lit(_) => e := i + 1;
      case Star => e := FirstFromEnd(ts[1..], m, i);
      case Param(_) => e := Next(m, i, '/');
      case Open => e := |m|;
    }
  }

  lemma FirstFromEnd(ts: seq<Token>, m: string, i: nat) returns (e: nat)
    requires i <= |m| && FirstFrom(ts, m, i).Some?
    ensures i <= e <= |m| && First(ts, m, e) == FirstFrom(ts, m, i)
    ensures forall k :: i <= k < e ==> First(ts, m, k).None?
    decreases |m| - i
  {
    if First(ts, m, i).Some? {
      e := i;
    } else {
      e := FirstFromEnd(ts, m, i + 1);
    }
  }

  lemma StepEndLeast(ts: seq<Token>, m: string, i: nat, other: seq<nat>)
    requires ts != [] && i <= |m| && First(ts, m, i).Some?
    requires Aligned(ts, m, i, other)
    ensures ts[0].Star? ==> First(ts[1..], m, other[1]).Some?
    decreases |ts|, 0
  {
    AlignedTail(ts, m, i, other);
    AlignmentFound(ts[1..], m, other[1], other[1..]);
  }

  /** The search misses no alignment. */
  lemma {:induction false} AlignmentFound(ts: seq<Token>, m: string, i: nat, cuts: seq<nat>)
    requires i <= |m| && Aligned(ts, m, i, cuts)
    ensures First(ts, m, i).Some?
    decreases |ts|
  {
    if ts != [] {
      AlignedTail(ts, m, i, cuts);
      AlignmentFound(ts[1..], m, cuts[1], cuts[1..]);
      match ts[0] {
        case Lit(_) =>
        case Star => FirstFromReaches(ts[1..], m, i, cuts[1]);
        case Param(_) => assert cuts[1] == Next(m, i, '/');
        case Open =>
      }
    }
  }

  lemma FirstFromReaches(ts: seq<Token>, m: string, i: nat, k: nat)
    requires i <= k <= |m| && First(ts, m, k).Some?
    ensures FirstFrom(ts, m, i).Some?
    decreases k - i
  {
    if i < k {
      FirstFromReaches(ts, m, i + 1, k);
    }
  }

  /** A pattern matches a request when some alignment covers the whole request. */
  ghost predicate Matches(path: string, request: string) {
    WellFormed(path) && exists cuts :: Aligned(Tokens(path, 0), request, 0, cuts)
  }

  /** The code runs off the end of a pattern when its open brace can be reached with a character of the request left. */
  ghost predicate RunsOff(path: string, request: string) {
    !WellFormed(path) && exists cuts :: Aligned(Tokens(path, 0), request, 0, cuts)
  }

  /** The reference search decides the declarative reading, and captures what the earliest alignment does. */
  lemma SearchDecidesMatch(path: string, request: string)
    ensures Matches(path, request) <==> Search(path, request).Some?
    ensures Matches(path, request) ==>
      exists cuts ::
        && Earliest(Tokens(path, 0), request, 0, cuts)
        && Search(path, request).value == Captures(Tokens(path, 0), request, cuts)
    ensures RunsOff(path, request) <==> !WellFormed(path) && First(Tokens(path, 0), request, 0).Some?
  {
    var ts := Tokens(path, 0);
    if First(ts, request, 0).Some? {
      var cuts := FirstFinds(ts, request, 0);
    }
    if cuts :| Aligned(ts, request, 0, cuts) {
      AlignmentFound(ts, request, 0, cuts);
    }
  }

  function Search(path: string, request: string): Option<seq<Capture>> {
    if WellFormed(path) then First(Tokens(path, 0), request, 0) else None
  }
}
