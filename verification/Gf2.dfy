/** Polynomials over GF(2), and the register that divides by one of them a bit at a time.
    A polynomial is the sequence of its coefficients, highest first. */
module Gf2 {
  type Poly = seq<bool>

  function Zeros(n: nat): (z: Poly)
    ensures |z| == n
  {
    seq(n, _ => false)
  }

  /** The sum, which is also the difference. */
  function Xor(a: Poly, b: Poly): (c: Poly)
    requires |a| == |b|
    ensures |c| == |a|
  {
    seq(|a|, i requires 0 <= i < |a| => a[i] != b[i])
  }

  /** c * g * x^n. */
  function Term(c: bool, g: Poly, n: nat): (t: Poly)
    ensures |t| == |g| + n
  {
    if c then g + Zeros(n) else Zeros(|g| + n)
  }

  /** The product q * g, by schoolbook multiplication. */
  function Mul(q: Poly, g: Poly): (m: Poly)
    requires g != []
    ensures |m| == |q| + |g| - 1
  {
    if q == [] then Zeros(|g| - 1)
    else Xor(Term(q[0], g, |q| - 1), [false] + Mul(q[1..], g))
  }

  /** m == q * g + r, with a remainder of lower degree than g. */
  ghost predicate Divides(m: Poly, g: Poly, q: Poly, r: Poly) {
    g != [] && g[0] && |r| == |g| - 1 && |m| == |q| + |r| && m == Xor(Mul(q, g), Zeros(|q|) + r)
  }

  /** Quotient and remainder are unique. */
  lemma {:induction false} RemainderUnique(m: Poly, g: Poly, q: Poly, r: Poly, q': Poly, r': Poly)
    requires Divides(m, g, q, r) && Divides(m, g, q', r')
    ensures q == q' && r == r'
    decreases |q|
  {
    if q == [] {
      assert forall i :: 0 <= i < |m| ==> m[i] == r[i] && m[i] == r'[i];
    } else {
      assert m[0] == q[0] && m[0] == q'[0];
      var first := Term(q[0], g, |q| - 1);
      var m' := Xor(m, first)[1..];
      LeadingTerm(m, g, q, r);
      LeadingTerm(m, g, q', r');
      RemainderUnique(m', g, q[1..], r, q'[1..], r');
    }
  }

  /** Taking the leading term off a dividend. */
  lemma LeadingTerm(m: Poly, g: Poly, q: Poly, r: Poly)
    requires Divides(m, g, q, r) && q != []
    ensures m[0] == q[0]
    ensures Divides(Xor(m, Term(q[0], g, |q| - 1))[1..], g, q[1..], r)
  {
    var first := Term(q[0], g, |q| - 1);
    var m' := Xor(m, first)[1..];
    var rest := Xor(Mul(q[1..], g), Zeros(|q| - 1) + r);
    forall i | 0 <= i < |m'|
      ensures m'[i] == rest[i]
    {
      assert m[i + 1] == (Mul(q, g)[i + 1] != (Zeros(|q|) + r)[i + 1]);
    }
  }

  // ---- The shift register ----

  /** One bit b into register r; g is the generator without its leading coefficient. */
  function Shift(r: Poly, b: bool, g: Poly): (r': Poly)
    requires |r| == |g| > 0
    ensures |r'| == |r|
  {
    var s := r[1..] + [false];
    if r[0] != b then Xor(s, g) else s
  }

  function Process(r: Poly, bits: Poly, g: Poly): (r': Poly)
    requires |r| == |g| > 0
    ensures |r'| == |r|
    decreases |bits|
  {
    if bits == [] then r
    else Shift(Process(r, bits[..|bits| - 1], g), bits[|bits| - 1], g)
  }

  lemma {:induction false} ProcessAppend(r: Poly, a: Poly, b: Poly, g: Poly)
    requires |r| == |g| > 0
    ensures Process(r, a + b, g) == Process(Process(r, a, g), b, g)
    decreases |b|
  {
    if b == [] {
      assert a + b == a;
    } else {
      var n := |b| - 1;
      assert (a + b)[..|a + b| - 1] == a + b[..n];
      ProcessAppend(r, a, b[..n], g);
    }
  }

  lemma ProcessNext(r: Poly, bits: Poly, z: nat, g: Poly)
    requires |r| == |g| > 0 && z < |bits|
    ensures Process(r, bits[..z + 1], g) == Shift(Process(r, bits[..z], g), bits[z], g)
  {
    assert bits[..z + 1][..z] == bits[..z];
  }

  /** What is left of bits that move out at the front while zeros move in at the back. */
  lemma Taken(bits: Poly, z: nat)
    requires z < |bits|
    ensures (bits[z..] + Zeros(z))[0] == bits[z]
    ensures (bits[z..] + Zeros(z))[1..] + [false] == bits[z + 1..] + Zeros(z + 1)
  {
  }

  /** The message times x^w, plus the initial register times x^n: what the register divides. */
  function Dividend(r: Poly, bits: Poly): (m: Poly)
    ensures |m| == |bits| + |r|
  {
    Xor(bits + Zeros(|r|), r + Zeros(|bits|))
  }

  lemma {:induction false} MulNext(q: Poly, c: bool, g: Poly)
    requires g != []
    ensures Mul(q + [c], g) == Xor(Mul(q, g) + [false], Zeros(|q|) + Term(c, g, 0))
    decreases |q|
  {
    if q == [] {
      MulOne(c, g);
    } else {
      assert (q + [c])[1..] == q[1..] + [c];
      hide Mul;
      MulNext(q[1..], c, g);
      MulNextAt(q, c, g);
    }
  }

  lemma MulOne(c: bool, g: Poly)
    requires g != []
    ensures Mul([] + [c], g) == Xor(Mul([], g) + [false], Zeros(0) + Term(c, g, 0))
  {
    assert ([] + [c])[1..] == [];
    Unfolded([] + [c], g);
    assert [false] + Zeros(|g| - 1) == Mul([], g) + [false] == Zeros(|g|);
    hide Mul;
    assert Xor(Term(c, g, 0), Zeros(|g|)) == Term(c, g, 0) == Xor(Zeros(|g|), Zeros(0) + Term(c, g, 0));
  }

  lemma {:induction false} MulNextAt(q: Poly, c: bool, g: Poly)
    requires g != [] && q != []
    requires Mul(q[1..] + [c], g) == Xor(Mul(q[1..], g) + [false], Zeros(|q| - 1) + Term(c, g, 0))
    ensures Mul(q + [c], g) == Xor(Mul(q, g) + [false], Zeros(|q|) + Term(c, g, 0))
  {
    assert (q + [c])[1..] == q[1..] + [c];
    var t, x := Mul(q[1..], g), Zeros(|q| - 1) + Term(c, g, 0);
    var first, first' := Term(q[0], g, |q| - 1), Term(q[0], g, |q|);
    Unfolded(q, g);
    Unfolded(q + [c], g);
    TermLonger(q[0], g, |q| - 1);
    ZerosLonger(|q| - 1, Term(c, g, 0));
    hide *;
    Regroup(first, t, x);
  }

  lemma TermLonger(c: bool, g: Poly, n: nat)
    ensures Term(c, g, n + 1) == Term(c, g, n) + [false]
  {
  }

  lemma ZerosLonger(n: nat, p: Poly)
    ensures [false] + (Zeros(n) + p) == Zeros(n + 1) + p
  {
  }

  lemma Unfolded(q: Poly, g: Poly)
    requires g != [] && q != []
    ensures Mul(q, g) == Xor(Term(q[0], g, |q| - 1), [false] + Mul(q[1..], g))
  {
  }

  lemma Regroup(f: Poly, t: Poly, x: Poly)
    requires |f| == |x| == |t| + 1
    ensures Xor(f + [false], [false] + Xor(t + [false], x)) == Xor(Xor(f, [false] + t) + [false], [false] + x)
  {
    var a, b := Xor(f + [false], [false] + Xor(t + [false], x)), Xor(Xor(f, [false] + t) + [false], [false] + x);
    forall i | 0 <= i < |a|
      ensures a[i] == b[i]
    {
      if 0 < i {
        assert ([false] + Xor(t + [false], x))[i] == Xor(t + [false], x)[i - 1];
        if i < |f| { assert ([false] + t)[i] == t[i - 1]; }
      }
    }
  }

  /** The register holds the remainder of the dividend by the generator. */
  lemma {:induction false} RegisterIsRemainder(r: Poly, bits: Poly, g: Poly) returns (q: Poly)
    requires |r| == |g| > 0
    ensures |q| == |bits| && Divides(Dividend(r, bits), [true] + g, q, Process(r, bits, g))
    decreases |bits|
  {
    if bits == [] {
      q := [];
      assert Dividend(r, bits) == r;
    } else {
      var n := |bits| - 1;
      var p := RegisterIsRemainder(r, bits[..n], g);
      var s := Process(r, bits[..n], g);
      var b := bits[n];
      q := p + [s[0] != b];
      MulNext(p, s[0] != b, [true] + g);
      RegisterStep(r, bits[..n], b, g, p, s);
      assert bits == bits[..n] + [b];
    }
  }

  lemma {:induction false} RegisterStep(r: Poly, bits: Poly, b: bool, g: Poly, p: Poly, s: Poly)
    requires |r| == |g| == |s| > 0 && |p| == |bits| && Divides(Dividend(r, bits), [true] + g, p, s)
    requires var c := s[0] != b;
             Mul(p + [c], [true] + g) == Xor(Mul(p, [true] + g) + [false], Zeros(|p|) + Term(c, [true] + g, 0))
    ensures Divides(Dividend(r, bits + [b]), [true] + g, p + [s[0] != b], Shift(s, b, g))
  {
    var G, n := [true] + g, |p|;
    var m, t := Dividend(r, bits + [b]), Mul(p, G);
    var out := Xor(Mul(p + [s[0] != b], G), Zeros(n + 1) + Shift(s, b, g));
    forall i | 0 <= i < |m|
      ensures m[i] == out[i]
    {
      if i < n + |g| { DividedAt(Dividend(r, bits), G, p, s, i); }
      DividendNext(r, bits, b, i);
      StepAt(t, s, b, g, n, i);
      hide *;
    }
    assert m == out;
  }

  lemma StepAt(t: Poly, s: Poly, b: bool, g: Poly, n: nat, i: nat)
    requires |s| == |g| > 0 && |t| == n + |g| && i <= n + |g|
    ensures Xor(Xor(t + [false], Zeros(n) + Term(s[0] != b, [true] + g, 0)), Zeros(n + 1) + Shift(s, b, g))[i] ==
            ((i < n + |g| && t[i] != (i >= n && s[i - n])) != (i == n && b))
  {
    if i >= n { ShiftAt(s, b, g, i - n); }
    hide Shift;
  }

  lemma DividedAt(m: Poly, g: Poly, q: Poly, r: Poly, i: nat)
    requires Divides(m, g, q, r) && i < |m|
    ensures m[i] == (Mul(q, g)[i] != (i >= |q| && r[i - |q|]))
  {
    hide Mul;
  }

  lemma DividendNext(r: Poly, bits: Poly, b: bool, i: nat)
    requires r != [] && i <= |bits| + |r|
    ensures Dividend(r, bits + [b])[i] == ((i < |bits| + |r| && Dividend(r, bits)[i]) != (i == |bits| && b))
  {
  }

  lemma ShiftAt(s: Poly, b: bool, g: Poly, j: nat)
    requires |s| == |g| > 0 && j <= |g|
    ensures (j > 0 && Shift(s, b, g)[j - 1]) ==
            (((j < |s| && s[j]) != (j == 0 && b)) != (s[0] != b && ([true] + g)[j]))
  {
  }

  /** Feeding a register its own bits empties it. */
  lemma {:induction false} OwnBitsEmpty(r: Poly, k: nat, g: Poly)
    requires |r| == |g| > 0 && k <= |r|
    ensures Process(r, r[..k], g) == r[k..] + Zeros(k)
    decreases k
  {
    if k > 0 {
      OwnBitsEmpty(r, k - 1, g);
      assert r[..k][..k - 1] == r[..k - 1];
      assert (r[k - 1..] + Zeros(k - 1))[1..] + [false] == r[k..] + Zeros(k);
    } else {
      assert r[0..] + Zeros(0) == r;
    }
  }

  /** What the register holds, without the register: it is the one remainder of the dividend. */
  lemma {:induction false} RegisterIffRemainder(r: Poly, bits: Poly, g: Poly, out: Poly)
    requires |r| == |g| > 0
    ensures out == Process(r, bits, g) <==>
            exists q :: Divides(Dividend(r, bits), [true] + g, q, out)
  {
    var p := RegisterIsRemainder(r, bits, g);
    forall q | Divides(Dividend(r, bits), [true] + g, q, out)
      ensures out == Process(r, bits, g)
    {
      RemainderUnique(Dividend(r, bits), [true] + g, p, Process(r, bits, g), q, out);
    }
  }

  // ---- Bits added in advance, and what the register tells apart ----

  /** Adding up to a register's width of bits at once and shifting them through
      is the same as feeding them one at a time. */
  lemma {:induction false} AheadOfTime(r: Poly, bits: Poly, z: nat, g: Poly)
    requires |r| == |g| > 0 && z <= |bits| <= |r|
    ensures Process(Xor(r, bits + Zeros(|r| - |bits|)), Zeros(z), g) ==
            Xor(Process(r, bits[..z], g), bits[z..] + Zeros(|r| - |bits| + z))
    decreases z
  {
    if z == 0 {
      assert bits[0..] == bits && bits[..0] == [];
    } else {
      AheadOfTime(r, bits, z - 1, g);
      assert Zeros(z)[..z - 1] == Zeros(z - 1);
      assert bits[..z][..z - 1] == bits[..z - 1];
      AheadNext(Process(r, bits[..z - 1], g), bits, z, g);
      hide Xor, Shift;
    }
  }

  lemma AheadNext(s: Poly, bits: Poly, z: nat, g: Poly)
    requires |s| == |g| > 0 && 0 < z <= |bits| <= |s|
    ensures Shift(Xor(s, bits[z - 1..] + Zeros(|s| - |bits| + z - 1)), false, g) ==
            Xor(Shift(s, bits[z - 1], g), bits[z..] + Zeros(|s| - |bits| + z))
  {
    var a := bits[z - 1..] + Zeros(|s| - |bits| + z - 1);
    assert a[1..] + [false] == bits[z..] + Zeros(|s| - |bits| + z);
    ShiftAhead(s, a, g);
    hide Xor, Shift;
  }

  lemma ShiftAhead(s: Poly, a: Poly, g: Poly)
    requires |s| == |a| == |g| > 0
    ensures Shift(Xor(s, a), false, g) == Xor(Shift(s, a[0], g), a[1..] + [false])
  {
    var x, y := Shift(Xor(s, a), false, g), Xor(Shift(s, a[0], g), a[1..] + [false]);
    forall i | 0 <= i < |x|
      ensures x[i] == y[i]
    {
      ShiftAt(Xor(s, a), false, g, i + 1);
      ShiftAt(s, a[0], g, i + 1);
    }
  }

  /** A generator with a constant term never merges two registers. */
  lemma {:induction false} RegistersStayApart(r: Poly, r': Poly, bits: Poly, g: Poly)
    requires |r| == |r'| == |g| > 0 && g[|g| - 1]
    ensures Process(r, bits, g) == Process(r', bits, g) ==> r == r'
    decreases |bits|
  {
    if bits != [] {
      var n := |bits| - 1;
      RegistersStayApart(r, r', bits[..n], g);
      ShiftInjective(Process(r, bits[..n], g), Process(r', bits[..n], g), bits[n], g);
    }
  }

  lemma ShiftInjective(s: Poly, s': Poly, b: bool, g: Poly)
    requires |s| == |s'| == |g| > 0 && g[|g| - 1]
    ensures Shift(s, b, g) == Shift(s', b, g) ==> s == s'
  {
    if Shift(s, b, g) == Shift(s', b, g) {
      ShiftAt(s, b, g, |g|);
      ShiftAt(s', b, g, |g|);
      forall j | 0 < j < |g|
        ensures s[j] == s'[j]
      {
        ShiftAt(s, b, g, j);
        ShiftAt(s', b, g, j);
      }
    }
  }

  /** Two messages that differ only inside a window no wider than the register leave different
      registers: every burst error is noticed. */
  lemma {:induction false} BurstNoticed(r: Poly, before: Poly, x: Poly, y: Poly, after: Poly, g: Poly)
    requires |r| == |g| > 0 && g[|g| - 1] && |x| == |y| <= |g|
    ensures Process(r, before + x + after, g) == Process(r, before + y + after, g) <==> x == y
  {
    var s := Process(r, before, g);
    ProcessAppend(r, before + x, after, g);
    ProcessAppend(r, before + y, after, g);
    ProcessAppend(r, before, x, g);
    ProcessAppend(r, before, y, g);
    RegistersStayApart(Process(s, x, g), Process(s, y, g), after, g);
    var pad := Zeros(|g| - |x|);
    Ahead(s, x, g);
    Ahead(s, y, g);
    RegistersStayApart(Xor(s, x + pad), Xor(s, y + pad), Zeros(|x|), g);
    hide Process;
    if Xor(s, x + pad) == Xor(s, y + pad) {
      forall i | 0 <= i < |x|
        ensures x[i] == y[i]
      {
        assert Xor(s, x + pad)[i] == (s[i] != x[i]);
        assert Xor(s, y + pad)[i] == (s[i] != y[i]);
      }
    }
  }

  lemma Ahead(s: Poly, x: Poly, g: Poly)
    requires |s| == |g| > 0 && |x| <= |s|
    ensures Process(Xor(s, x + Zeros(|s| - |x|)), Zeros(|x|), g) == Process(s, x, g)
  {
    AheadOfTime(s, x, |x|, g);
    assert x[..|x|] == x;
    hide Process;
    var t := Process(s, x, g);
    assert Xor(t, x[|x|..] + Zeros(|s|)) == t;
  }

  /** A register is emptied by its own bits and by no others. */
  lemma {:induction false} EmptiedOnlyByOwnBits(r: Poly, bits: Poly, g: Poly)
    requires |r| == |g| == |bits| > 0 && g[|g| - 1]
    ensures Process(r, bits, g) == Zeros(|g|) <==> bits == r
  {
    OwnBitsEmpty(r, |r|, g);
    OwnBitsEmpty(bits, |r|, g);
    assert r[..|r|] == r && r[|r|..] + Zeros(|r|) == Zeros(|r|);
    assert bits[..|r|] == bits && bits[|r|..] + Zeros(|r|) == Zeros(|r|);
    RegistersStayApart(r, bits, bits, g);
  }
}
