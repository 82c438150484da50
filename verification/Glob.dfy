/** fmatch of src/types/parray.c: `*` stands for any characters and `?` for one. */
module Glob {
  /** What a pattern means: p[j..] matches s[i..]. */
  ghost predicate Matches(s: string, p: string, i: nat, j: nat)
    requires i <= |s| && j <= |p|
    decreases |s| - i + |p| - j
  {
    if j == |p| then i == |s|
    else if p[j] == '*' then Matches(s, p, i, j + 1) || (i < |s| && Matches(s, p, i + 1, j))
    else i < |s| && (p[j] == '?' || p[j] == s[i]) && Matches(s, p, i + 1, j + 1)
  }

  /** A star takes any number of characters. */
  lemma {:induction false} StarTakes(s: string, p: string, i: nat, j: nat, k: nat)
    requires i <= k <= |s| && j < |p| && p[j] == '*' && Matches(s, p, k, j + 1)
    ensures Matches(s, p, i, j)
    decreases k - i
  {
    if i < k {
      StarTakes(s, p, i + 1, j, k);
    }
  }

  lemma {:induction false} StarTook(s: string, p: string, i: nat, j: nat) returns (k: nat)
    requires i <= |s| && j < |p| && p[j] == '*' && Matches(s, p, i, j)
    ensures i <= k <= |s| && Matches(s, p, k, j + 1)
    decreases |s| - i
  {
    if Matches(s, p, i, j + 1) {
      k := i;
    } else {
      k := StarTook(s, p, i + 1, j);
    }
  }

  predicate StarFree(p: string, j: nat, m: nat)
    requires j <= m <= |p|
  {
    forall x :: j <= x < m ==> p[x] != '*'
  }

  function NonStars(p: string, j: nat): (n: nat)
    requires j <= |p|
    decreases |p| - j
  {
    if j == |p| then 0 else (if p[j] == '*' then 0 else 1) + NonStars(p, j + 1)
  }

  /** A match needs a character for each part of the pattern that is not a star. */
  lemma {:induction false} NeedsRoom(s: string, p: string, i: nat, j: nat)
    requires i <= |s| && j <= |p| && Matches(s, p, i, j)
    ensures |s| - i >= NonStars(p, j)
    decreases |s| - i + |p| - j
  {
    if j < |p| {
      if p[j] == '*' {
        if Matches(s, p, i, j + 1) { NeedsRoom(s, p, i, j + 1); } else { NeedsRoom(s, p, i + 1, j); }
      } else {
        NeedsRoom(s, p, i + 1, j + 1);
      }
    }
  }

  lemma {:induction false} StarFreeCount(p: string, j: nat, m: nat)
    requires j <= m <= |p| && StarFree(p, j, m)
    ensures NonStars(p, j) == m - j + NonStars(p, m)
    decreases m - j
  {
    if j < m {
      StarFreeCount(p, j + 1, m);
    }
  }

  /** What matches a star-free stretch has its length. */
  lemma {:induction false} StarFreeTakes(s: string, p: string, i: nat, j: nat, m: nat)
    requires i <= |s| && j <= m <= |p| && StarFree(p, j, m) && Matches(s, p, i, j)
    ensures i + (m - j) <= |s| && Matches(s, p, i + (m - j), m)
    decreases m - j
  {
    if j < m {
      StarFreeTakes(s, p, i + 1, j + 1, m);
    }
  }

  /** Only stars are left. */
  lemma {:induction false} AtEnd(s: string, p: string, j: nat)
    requires j <= |p|
    ensures Matches(s, p, |s|, j) <==> forall x :: j <= x < |p| ==> p[x] == '*'
    ensures Matches(s, p, |s|, j) <==> NonStars(p, j) == 0
    decreases |p| - j
  {
    if j < |p| {
      AtEnd(s, p, j + 1);
    }
  }

  // ---- The loop ----

  /** Some start from a on matches p[next..]. */
  ghost predicate From(s: string, p: string, a: nat, next: nat)
    requires next <= |p|
  {
    exists k: nat :: a <= k <= |s| && Matches(s, p, k, next)
  }

  /** From the current position the loop answers for the whole match. */
  ghost predicate Sound(s: string, p: string, i: nat, j: nat, next: nat, back: nat)
    requires i <= |s| && j <= |p| && next <= |p|
  {
    && (Matches(s, p, i, j) ==> Matches(s, p, 0, 0))
    && (next > 0 && From(s, p, back, next) ==> Matches(s, p, 0, 0))
  }

  /** Before any star all is still to be matched; after one, some start of p[next..] not before `start` is left. */
  ghost predicate Complete(s: string, p: string, i: nat, j: nat, next: nat, start: nat)
    requires i <= |s| && j <= |p| && next <= |p|
  {
    if next == 0 then Matches(s, p, 0, 0) ==> Matches(s, p, i, j)
    else
      && start <= i && next <= j && i - start == j - next && StarFree(p, next, j)
      && (Matches(s, p, 0, 0) ==> From(s, p, start, next))
      && (Matches(s, p, start, next) ==> Matches(s, p, i, j))
  }

  /** The loop of fmatch; next is 0 until a star has been met. */
  ghost function Run(s: string, p: string, sidx: nat, pidx: nat, next: nat, back: nat): bool
    requires sidx <= |s| && next <= pidx <= |p| && back <= sidx + 1
    decreases |p| - next, |s| + 1 - back, |s| - sidx
  {
    if sidx == |s| then forall x :: pidx <= x < |p| ==> p[x] == '*'
    else if pidx < |p| && (p[pidx] == '?' || p[pidx] == s[sidx]) then Run(s, p, sidx + 1, pidx + 1, next, back)
    else if pidx < |p| && p[pidx] == '*' then Run(s, p, sidx, pidx + 1, pidx + 1, sidx)
    else if next == 0 then false
    else Run(s, p, back, next, next, back + 1)
  }

  method Fmatch(s: string, p: string) returns (r: bool)
    ensures r == Run(s, p, 0, 0, 0, 0)
    ensures r ==> Matches(s, p, 0, 0)
    ensures '*' !in s ==> (r <==> Matches(s, p, 0, 0))
  {
    var sidx, pidx, next, back := 0, 0, 0, 0;
    while sidx < |s|
      invariant sidx <= |s| && next <= pidx <= |p| && back <= sidx + 1
      invariant Run(s, p, 0, 0, 0, 0) == Run(s, p, sidx, pidx, next, back)
      decreases |p| - next, |s| + 1 - back, |s| - sidx
    {
      if pidx < |p| && (p[pidx] == '?' || p[pidx] == s[sidx]) {
        sidx := sidx + 1;
        pidx := pidx + 1;
      } else if pidx < |p| && p[pidx] == '*' {
        pidx := pidx + 1;
        next := pidx;
        back := sidx;
      } else if next == 0 {
        RunSound(s, p, 0, 0, 0, 0);
        RunComplete(s, p, 0, 0, 0, 0, 0);
        return false;
      } else {
        pidx := next;
        sidx := back;
        back := back + 1;
      }
    }
    r := true;
    for i := pidx to |p|
      invariant r && forall x :: pidx <= x < i ==> p[x] == '*'
    {
      if p[i] != '*' { r := false; break; }
    }
    RunSound(s, p, 0, 0, 0, 0);
    RunComplete(s, p, 0, 0, 0, 0, 0);
  }

  /** A pattern the loop accepts matches. */
  lemma {:induction false} RunSound(s: string, p: string, i: nat, j: nat, next: nat, back: nat)
    requires i <= |s| && next <= j <= |p| && back <= i + 1 && Sound(s, p, i, j, next, back)
    ensures Run(s, p, i, j, next, back) ==> Matches(s, p, 0, 0)
    decreases |p| - next, |s| + 1 - back, |s| - i
  {
    if i == |s| {
      AtEnd(s, p, j);
    } else if j < |p| && (p[j] == '?' || p[j] == s[i]) {
      MatchStep(s, p, i, j, next, back, 0);
      RunSound(s, p, i + 1, j + 1, next, back);
    } else if j < |p| && p[j] == '*' {
      StarStep(s, p, i, j, next, back, 0);
      RunSound(s, p, i, j + 1, j + 1, i);
    } else if next > 0 {
      RetryStep(s, p, i, j, next, back, 0);
      RunSound(s, p, back, next, next, back + 1);
    }
  }

  /** Without stars in the subject, a pattern that matches is accepted. */
  lemma {:induction false} RunComplete(s: string, p: string, i: nat, j: nat, next: nat, back: nat, start: nat)
    requires i <= |s| && next <= j <= |p| && start <= back <= start + 1 && back <= i + 1
    requires '*' !in s ==> Complete(s, p, i, j, next, start)
    ensures '*' !in s && Matches(s, p, 0, 0) ==> Run(s, p, i, j, next, back)
    decreases |p| - next, |s| + 1 - back, |s| - i
  {
    if '*' !in s {
      if i == |s| {
        AtEnd(s, p, j);
        EndStep(s, p, j, next, start);
      } else if j < |p| && (p[j] == '?' || p[j] == s[i]) {
        MatchStep(s, p, i, j, next, back, start);
        RunComplete(s, p, i + 1, j + 1, next, back, start);
      } else if j < |p| && p[j] == '*' {
        StarStep(s, p, i, j, next, back, start);
        RunComplete(s, p, i, j + 1, j + 1, i, i);
      } else if next > 0 {
        RetryStep(s, p, i, j, next, back, start);
        RunComplete(s, p, back, next, next, back + 1, back);
      }
    }
  }

  lemma StarTakesSome(s: string, p: string, i: nat, j: nat)
    requires j < |p| && p[j] == '*' && From(s, p, i, j + 1)
    ensures i <= |s| && Matches(s, p, i, j)
  {
    var q := j + 1;
    var k: nat :| i <= k <= |s| && Matches(s, p, k, q);
    StarTakes(s, p, i, j, k);
  }

  lemma MatchStep(s: string, p: string, i: nat, j: nat, next: nat, back: nat, start: nat)
    requires i < |s| && j < |p| && next <= |p| && (p[j] == '?' || p[j] == s[i])
    ensures Sound(s, p, i, j, next, back) ==> Sound(s, p, i + 1, j + 1, next, back)
    ensures '*' !in s && Complete(s, p, i, j, next, start) ==> Complete(s, p, i + 1, j + 1, next, start)
  {
    if p[j] == '*' && Matches(s, p, i + 1, j + 1) {
      StarTakes(s, p, i, j, i + 1);
    }
  }

  /** Committing to the latest star loses nothing. */
  lemma StarStep(s: string, p: string, i: nat, j: nat, next: nat, back: nat, start: nat)
    requires i < |s| && j < |p| && next <= |p| && p[j] == '*' && s[i] != '*'
    ensures Sound(s, p, i, j, next, back) ==> Sound(s, p, i, j + 1, j + 1, i)
    ensures Complete(s, p, i, j, next, start) ==> Complete(s, p, i, j + 1, j + 1, i)
  {
    if From(s, p, i, j + 1) { StarTakesSome(s, p, i, j); }
    if Complete(s, p, i, j, next, start) && Matches(s, p, 0, 0) {
      var m := i;
      if next > 0 {
        var k: nat :| start <= k <= |s| && Matches(s, p, k, next);
        StarFreeTakes(s, p, k, next, j);
        m := k + (j - next);
      }
      var k' := StarTook(s, p, m, j);
      assert i <= k' <= |s| && Matches(s, p, k', j + 1);
    }
  }

  /** A retry starts one later, except the first, which repeats the same start. */
  lemma RetryStep(s: string, p: string, i: nat, j: nat, next: nat, back: nat, start: nat)
    requires i < |s| && j <= |p| && 0 < next <= |p| && back <= |s|
    requires j < |p| ==> p[j] != '?' && p[j] != s[i] && p[j] != '*'
    ensures Sound(s, p, i, j, next, back) ==> Sound(s, p, back, next, next, back + 1)
    ensures start <= back <= start + 1 && Complete(s, p, i, j, next, start) ==> Complete(s, p, back, next, next, back)
  {
  }

  lemma EndStep(s: string, p: string, j: nat, next: nat, start: nat)
    requires j <= |p| && next <= |p| && Complete(s, p, |s|, j, next, start)
    ensures Matches(s, p, 0, 0) ==> Matches(s, p, |s|, j)
  {
    if next > 0 && Matches(s, p, 0, 0) {
      var k: nat :| start <= k <= |s| && Matches(s, p, k, next);
      NeedsRoom(s, p, k, next);
      StarFreeCount(p, next, j);
      AtEnd(s, p, j);
    }
  }

  // ---- Stars in the subject ----

  lemma {:induction false} LiteralRun(s: string, p: string, i: nat, k: nat)
    requires i <= k <= |s| && k <= |p| && forall x :: i <= x < k ==> p[x] == s[x]
    ensures Run(s, p, i, i, 0, 0) == Run(s, p, k, k, 0, 0)
    decreases k - i
  {
    if i < k {
      LiteralRun(s, p, i + 1, k);
    }
  }

  lemma {:induction false} LiteralMatches(s: string, p: string, i: nat, k: nat)
    requires i <= k <= |s| && k <= |p| && forall x :: i <= x < k ==> p[x] == s[x] != '*'
    ensures Matches(s, p, k, k) ==> Matches(s, p, i, i)
    decreases k - i
  {
    if i < k {
      LiteralMatches(s, p, i + 1, k);
    }
  }

  lemma {:induction false} FirstStar(s: string) returns (c: nat)
    requires '*' in s
    ensures c < |s| && s[c] == '*' && forall x :: 0 <= x < c ==> s[x] != '*'
  {
    if s[0] == '*' {
      c := 0;
    } else {
      var d := FirstStar(s[1..]);
      c := d + 1;
    }
  }

  /** A star in the subject meets a star of some pattern as a literal, and that pattern is refused though it matches. */
  lemma Refused(s: string) returns (p: string)
    requires '*' in s
    ensures Matches(s, p, 0, 0) && !Run(s, p, 0, 0, 0, 0)
  {
    var c := FirstStar(s);
    p := s[..c + 1] + if c + 1 == |s| then "?" else "";
    LiteralRun(s, p, 0, c + 1);
    LiteralMatches(s, p, 0, c);
    if c + 1 == |s| {
      assert Matches(s, p, c + 1, c + 2);
      assert Matches(s, p, c, c + 1);
    } else {
      assert Matches(s, p, |s|, c + 1);
      StarTakes(s, p, c, c, |s|);
    }
  }

  /** The loop decides matching for every pattern exactly when the subject holds no star. */
  lemma ExactWithoutStars(s: string)
    ensures (forall p :: Run(s, p, 0, 0, 0, 0) <==> Matches(s, p, 0, 0)) <==> '*' !in s
  {
    if '*' in s {
      var p := Refused(s);
    } else {
      forall p
        ensures Run(s, p, 0, 0, 0, 0) <==> Matches(s, p, 0, 0)
      {
        RunSound(s, p, 0, 0, 0, 0);
        RunComplete(s, p, 0, 0, 0, 0, 0);
      }
    }
  }
}
