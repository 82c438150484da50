/** The three cyclic redundancy checks of src/hash/crc.c. Their registers are reflected: bit 0 of
    the integer is the highest coefficient, and each byte enters with its bit 0 first. */
module Crc {
  import opened Gf2

  predicate Odd(c: bv32) {
    c & 1 != 0
  }

  function Rest(c: bv32): bv32 {
    c >> 1
  }

  function Plus(c: bv32, d: bv32): bv32 {
    c ^ d
  }

  /** The low w bits of c, bit 0 first. */
  function Bits(c: bv32, w: nat): (p: Poly)
    ensures |p| == w
    decreases w
  {
    if w == 0 then [] else [Odd(c)] + Bits(Rest(c), w - 1)
  }

  predicate Fits(c: bv32, w: nat)
    decreases w
  {
    if w == 0 then c == 0 else Fits(c >> 1, w - 1)
  }

  lemma FitsUnfolded(c: bv32, w: nat)
    ensures Fits(c, w) <==> if w == 0 then c == 0 else Fits(Rest(c), w - 1)
  {
  }

  predicate Below(c: bv32, m: bv32) {
    c <= m
  }

  lemma {:induction false} FitsBelow(c: bv32, m: bv32, w: nat)
    requires Below(c, m) && Fits(m, w)
    ensures Fits(c, w)
    decreases w
  {
    FitsUnfolded(c, w);
    FitsUnfolded(m, w);
    RestBelow(c, m);
    hide *;
    if w > 0 {
      FitsBelow(Rest(c), Rest(m), w - 1);
    }
  }

  lemma RestBelow(c: bv32, m: bv32)
    requires Below(c, m)
    ensures Below(Rest(c), Rest(m)) && (m == 0 ==> c == 0)
  {
  }

  lemma Widths()
    ensures Fits(0xFF, 8) && Fits(0xFFFF, 16) && Fits(0xFFFF_FFFF, 32)
  {
  }

  lemma {:induction false} Halved(c: bv32, w: nat)
    requires w > 0 && Fits(c, w)
    ensures Bits(Rest(c), w) == Bits(c, w)[1..] + [false]
    decreases w
  {
    if w > 1 {
      Halved(Rest(c), w - 1);
    }
  }

  lemma {:induction false} Summed(c: bv32, d: bv32, w: nat)
    ensures Bits(Plus(c, d), w) == Xor(Bits(c, w), Bits(d, w))
    decreases w
  {
    if w > 0 {
      hide *;
      Summed(Rest(c), Rest(d), w - 1);
      SummedStep(c, d, w);
    }
  }

  lemma SummedStep(c: bv32, d: bv32, w: nat)
    requires w > 0 && Bits(Plus(Rest(c), Rest(d)), w - 1) == Xor(Bits(Rest(c), w - 1), Bits(Rest(d), w - 1))
    ensures Bits(Plus(c, d), w) == Xor(Bits(c, w), Bits(d, w))
  {
    LowBits(c, d);
    hide Odd, Rest, Plus;
    XorCons(Odd(c), Odd(d), Bits(Rest(c), w - 1), Bits(Rest(d), w - 1));
  }

  lemma XorCons(a: bool, b: bool, x: Poly, y: Poly)
    requires |x| == |y|
    ensures Xor([a] + x, [b] + y) == [a != b] + Xor(x, y)
  {
  }

  lemma LowBits(c: bv32, d: bv32)
    ensures Odd(Plus(c, d)) == (Odd(c) != Odd(d))
    ensures Rest(Plus(c, d)) == Plus(Rest(c), Rest(d))
  {
  }

  lemma {:induction false} Widened(c: bv32, w: nat, k: nat)
    requires Fits(c, w)
    ensures Bits(c, w + k) == Bits(c, w) + Zeros(k)
    decreases w + k
  {
    if w > 0 {
      Widened(Rest(c), w - 1, k);
    } else if k > 0 {
      Widened(Rest(c), 0, k - 1);
    }
  }

  lemma {:induction false} BitsTell(c: bv32, d: bv32, w: nat)
    requires Fits(c, w) && Fits(d, w) && Bits(c, w) == Bits(d, w)
    ensures c == d
    decreases w
  {
    if w > 0 {
      assert Bits(c, w)[0] == Odd(c) && Bits(d, w)[0] == Odd(d);
      assert Bits(c, w)[1..] == Bits(Rest(c), w - 1) && Bits(d, w)[1..] == Bits(Rest(d), w - 1);
      BitsTell(Rest(c), Rest(d), w - 1);
      SameNumber(c, d);
    }
  }

  lemma SameNumber(c: bv32, d: bv32)
    requires Odd(c) == Odd(d) && Rest(c) == Rest(d)
    ensures c == d
  {
  }

  function Drop(c: bv32, k: nat): bv32
    decreases k
  {
    if k == 0 then c else Drop(Rest(c), k - 1)
  }

  lemma {:induction false} Parted(c: bv32, k: nat, w: nat)
    ensures Bits(c, k + w) == Bits(c, k) + Bits(Drop(c, k), w)
    decreases k
  {
    if k > 0 {
      Parted(Rest(c), k - 1, w);
    }
  }

  function Masked(c: bv32, m: bv32): bv32 {
    c & m
  }

  /** The low w bits of m are ones. */
  predicate Ones(m: bv32, w: nat)
    decreases w
  {
    w == 0 || (m & 1 != 0 && Ones(m >> 1, w - 1))
  }

  lemma {:induction false} OnesAt(m: bv32, w: nat, k: nat)
    requires Ones(m, w) && k < w
    ensures Bits(m, w)[k]
    decreases w
  {
    if k > 0 {
      OnesAt(m >> 1, w - 1, k - 1);
    }
  }

  lemma ByteMask()
    ensures Ones(0xFF, 8)
  {
  }

  lemma FullMask()
    ensures Ones(0xFFFF_FFFF, 32)
  {
    ByteMask();
    assert Ones(0xFFFF, 16);
    assert Ones(0xFF_FFFF, 24);
  }

  lemma {:induction false} Kept(c: bv32, m: bv32, w: nat)
    requires Ones(m, w)
    ensures Bits(Masked(c, m), w) == Bits(c, w)
    decreases w
  {
    if w > 0 {
      Kept(Rest(c), Rest(m), w - 1);
      LowMasked(c, m);
      hide Masked, Odd, Rest, Ones;
    }
  }

  lemma LowMasked(c: bv32, m: bv32)
    requires Odd(m)
    ensures Odd(Masked(c, m)) == Odd(c)
    ensures Rest(Masked(c, m)) == Masked(Rest(c), Rest(m))
  {
  }

  // ---- Registers and generators ----

  function Register8(c: bv8): (p: Poly)
    ensures |p| == 8
  {
    Bits(c as bv32, 8)
  }

  function Register16(c: bv16): (p: Poly)
    ensures |p| == 16
  {
    Bits(Word(c), 16)
  }

  function Register32(c: bv32): (p: Poly)
    ensures |p| == 32
  {
    Bits(c, 32)
  }

  function Generator8(): (g: Poly)
    ensures |g| == 8
  {
    Register8(0x8c)
  }

  function Generator16(): (g: Poly)
    ensures |g| == 16
  {
    Register16(0xA001)
  }

  function Generator32(): (g: Poly)
    ensures |g| == 32
  {
    Register32(0xEDB8_8320)
  }

  lemma {:induction false} LastBit(c: bv32, w: nat)
    requires w > 0 && Fits(c, w)
    ensures Bits(c, w)[w - 1] == !Fits(c, w - 1)
    decreases w
  {
    if w > 1 {
      LastBit(Rest(c), w - 1);
    }
  }

  lemma TopBitsSet()
    ensures !Fits(0x8c, 7)
    ensures !Fits(0xA001, 15)
    ensures !Fits(0xEDB8_8320, 31)
  {
    assert !Fits(0xA0, 7);
    assert !Fits(0xED, 7);
    assert !Fits(0xEDB8, 15);
    assert !Fits(0xED_B883, 23);
  }

  /** All three generators have a constant term. */
  lemma ConstantTerms()
    ensures Generator8()[7] && Generator16()[15] && Generator32()[31]
  {
    TopBitsSet();
    Fits8(0x8c);
    Fits16(0xA001);
    Fits32(0xEDB8_8320);
    LastBit(0x8c, 8);
    LastBit(0xA001, 16);
    LastBit(0xEDB8_8320, 32);
    hide Bits, Fits;
  }

  // ---- The generators as polynomials ----

  /** The polynomial of degree below w with these exponents. */
  function WithExponents(w: nat, es: set<nat>): (p: Poly)
    ensures |p| == w
  {
    seq(w, i requires 0 <= i < w => w - 1 - i in es)
  }

  lemma BytePieces(c: bv32, w: nat)
    ensures Bits(c, 8 + w) == Bits(c, 8) + Bits(c >> 8, w)
  {
    Parted(c, 8, w);
    EightDropped(c);
    hide Bits, Drop;
  }

  lemma EightDropped(c: bv32)
    ensures Drop(c, 8) == c >> 8
  {
  }

  lemma Byte8C()
    ensures Bits(0x8c, 8) == [false, false, true, true, false, false, false, true]
  {
    assert Bits(0x2, 2) == [false, true];
    assert Bits(0x8, 4) == [false, false, false, true];
    assert Bits(0x23, 6) == [true, true, false, false, false, true];
  }

  lemma Byte01()
    ensures Bits(0x1, 8) == [true, false, false, false, false, false, false, false]
  {
    assert Bits(0x0, 2) == [false, false];
    assert Bits(0x0, 4) == [false, false, false, false];
    assert Bits(0x0, 6) == [false, false, false, false, false, false];
  }

  lemma ByteA0()
    ensures Bits(0xa0, 8) == [false, false, false, false, false, true, false, true]
  {
    assert Bits(0x2, 2) == [false, true];
    assert Bits(0xa, 4) == [false, true, false, true];
    assert Bits(0x28, 6) == [false, false, false, true, false, true];
  }

  lemma Byte20()
    ensures Bits(0x20, 8) == [false, false, false, false, false, true, false, false]
  {
    assert Bits(0x0, 2) == [false, false];
    assert Bits(0x2, 4) == [false, true, false, false];
    assert Bits(0x8, 6) == [false, false, false, true, false, false];
  }

  lemma Byte83()
    ensures Bits(0x83, 8) == [true, true, false, false, false, false, false, true]
  {
    assert Bits(0x2, 2) == [false, true];
    assert Bits(0x8, 4) == [false, false, false, true];
    assert Bits(0x20, 6) == [false, false, false, false, false, true];
  }

  lemma ByteB8()
    ensures Bits(0xb8, 8) == [false, false, false, true, true, true, false, true]
  {
    assert Bits(0x2, 2) == [false, true];
    assert Bits(0xb, 4) == [true, true, false, true];
    assert Bits(0x2e, 6) == [false, true, true, true, false, true];
  }

  lemma ByteED()
    ensures Bits(0xed, 8) == [true, false, true, true, false, true, true, true]
  {
    assert Bits(0x3, 2) == [true, true];
    assert Bits(0xe, 4) == [false, true, true, true];
    assert Bits(0x3b, 6) == [true, true, false, true, true, true];
  }

  /** crc8 divides by x^8 + x^5 + x^4 + 1. */
  lemma Generator8Is()
    ensures Generator8() == WithExponents(8, {5, 4, 0})
  {
    Byte8C();
    hide Bits;
  }

  /** crc16 divides by x^16 + x^15 + x^2 + 1. */
  lemma Generator16Is()
    ensures Generator16() == WithExponents(16, {15, 2, 0})
  {
    Byte01();
    ByteA0();
    BytePieces(0xA001, 8);
    LowPart(0xA001, 0x01);
    hide Bits;
  }

  /** crc32 divides by x^32 + x^26 + x^23 + x^22 + x^16 + x^12 + x^11 + x^10 + x^8 + x^7 + x^5 + x^4 + x^2 + x + 1. */
  lemma Generator32Is()
    ensures Generator32() == WithExponents(32, {26, 23, 22, 16, 12, 11, 10, 8, 7, 5, 4, 2, 1, 0})
  {
    Byte20();
    Byte83();
    ByteB8();
    ByteED();
    BytePieces(0xEDB8_8320, 24);
    BytePieces(0xED_B883, 16);
    BytePieces(0xEDB8, 8);
    LowPart(0xEDB8_8320, 0x20);
    LowPart(0xED_B883, 0x83);
    LowPart(0xEDB8, 0xB8);
    hide Bits;
    Exponents32(Bits(0x20, 8), Bits(0x83, 8), Bits(0xB8, 8), Bits(0xED, 8));
  }

  lemma Exponents32(a: Poly, b: Poly, c: Poly, d: Poly)
    requires a == [false, false, false, false, false, true, false, false]
    requires b == [true, true, false, false, false, false, false, true]
    requires c == [false, false, false, true, true, true, false, true]
    requires d == [true, false, true, true, false, true, true, true]
    ensures a + (b + (c + d)) == WithExponents(32, {26, 23, 22, 16, 12, 11, 10, 8, 7, 5, 4, 2, 1, 0})
  {
  }

  /** Only the low byte matters to the low eight bits. */
  lemma LowPart(c: bv32, b: bv32)
    requires c & 0xFF == b
    ensures Bits(c, 8) == Bits(b, 8)
  {
    ByteMask();
    Kept(c, 0xFF, 8);
  }

  /** The message as a polynomial. */
  function MessageBits(data: seq<bv8>): (p: Poly)
    ensures |p| == 8 * |data|
    decreases |data|
  {
    if data == [] then [] else MessageBits(data[..|data| - 1]) + Register8(data[|data| - 1])
  }

  lemma {:induction false} MessageAppend(a: seq<bv8>, b: seq<bv8>)
    ensures MessageBits(a + b) == MessageBits(a) + MessageBits(b)
    decreases |b|
  {
    hide Register8;
    if b == [] {
      assert a + b == a;
    } else {
      var n := |b| - 1;
      assert (a + b)[..|a + b| - 1] == a + b[..n];
      MessageAppend(a, b[..n]);
    }
  }

  // ---- One round of the inner loops ----

  lemma Step(c: bv32, b: bool, h: bv32, w: nat)
    requires w > 0 && Fits(c, w)
    ensures Bits(c, w)[0] == Odd(c)
    ensures Shift(Bits(c, w), b, Bits(h, w)) ==
            if Odd(c) != b then Bits(Plus(Rest(c), h), w) else Bits(Rest(c), w)
  {
    hide Plus;
    Halved(c, w);
    Summed(Rest(c), h, w);
    hide Rest, Odd, Fits;
  }

  /** One round of the inner loop of crc8. */
  function Turned8(c: bv8, a: bv8): bv8 {
    if (c ^ a) & 1 != 0 then (c >> 1) ^ 0x8c else c >> 1
  }

  lemma Round8(c: bv8, a: bv8)
    ensures Register8(Turned8(c, a)) ==
            Shift(Register8(c), Register8(a)[0], Generator8())
  {
    Fits8(c);
    Fits8(a);
    Step(c as bv32, Odd(a as bv32), 0x8c, 8);
    Step(a as bv32, false, 0x8c, 8);
    Cast8(c, a);
    hide Bits, Fits, Shift;
  }

  lemma Cast8(c: bv8, a: bv8)
    ensures ((c ^ a) & 1 != 0) == (Odd(c as bv32) != Odd(a as bv32))
    ensures (c >> 1) as bv32 == Rest(c as bv32)
    ensures ((c >> 1) ^ 0x8c) as bv32 == Plus(Rest(c as bv32), 0x8c)
  {
  }

  lemma Fits8(c: bv8)
    ensures Fits(c as bv32, 8)
  {
    Widths();
    FitsBelow(c as bv32, 0xFF, 8);
  }

  /** One round of the inner loop of crc16. */
  function Turned16(c: bv16): bv16 {
    if c & 1 != 0 then Half16(c) ^ 0xA001 else Half16(c)
  }

  function Half16(c: bv16): bv16 {
    c >> 1
  }

  lemma Round16(c: bv16)
    ensures Register16(Turned16(c)) == Shift(Register16(c), false, Generator16())
  {
    Fits16(c);
    Step(Word(c), false, 0xA001, 16);
    Cast16(c);
    hide Bits, Fits, Shift, Odd, Plus, Rest, Turned16, Word;
  }

  function Word(c: bv16): bv32 {
    c as bv32
  }

  lemma Cast16(c: bv16)
    ensures Word(Turned16(c)) == if Odd(Word(c)) then Plus(Rest(Word(c)), 0xA001) else Rest(Word(c))
  {
    CastOdd16(c);
    CastRest16(c);
    CastPlus16(Half16(c));
    hide Odd, Rest, Plus, Word, Half16;
  }

  lemma CastOdd16(c: bv16)
    ensures (c & 1 != 0) == Odd(Word(c))
  {
  }

  lemma CastRest16(c: bv16)
    ensures Word(Half16(c)) == Rest(Word(c))
  {
  }

  lemma CastPlus16(c: bv16)
    ensures Word(c ^ 0xA001) == Plus(Word(c), 0xA001)
  {
  }

  lemma Fits16(c: bv16)
    ensures Fits(Word(c), 16)
  {
    Widths();
    FitsBelow(c as bv32, 0xFFFF, 16);
  }

  /** A byte enters crc16 in one addition, at the end of the register that is shifted out first. */
  lemma AddByte16(c: bv16, a: bv8)
    ensures Register16(c ^ (a as bv16)) == Xor(Register16(c), Register8(a) + Zeros(8))
  {
    CastByte16(c, a);
    Summed(c as bv32, a as bv32, 16);
    Fits8(a);
    Widened(a as bv32, 8, 8);
    hide Bits, Fits, Plus;
  }

  lemma CastByte16(c: bv16, a: bv8)
    ensures (c ^ (a as bv16)) as bv32 == Plus(c as bv32, a as bv32)
  {
  }

  /** One round of the inner loop of crc32. */
  function Turned32(c: bv32, x: bv32): bv32 {
    if (x ^ c) & 1 != 0 then (c >> 1) ^ 0xEDB8_8320 else c >> 1
  }

  lemma Round32(c: bv32, x: bv32)
    ensures Register32(Turned32(c, x)) ==
            Shift(Register32(c), Register32(x)[0], Generator32())
  {
    Fits32(c);
    Fits32(x);
    Step(c, Odd(x), 0xEDB8_8320, 32);
    Step(x, false, 0xEDB8_8320, 32);
    Cast32(c, x);
    hide Bits, Fits, Shift;
  }

  lemma Cast32(c: bv32, x: bv32)
    ensures ((x ^ c) & 1 != 0) == (Odd(c) != Odd(x))
    ensures c >> 1 == Rest(c)
    ensures (c >> 1) ^ 0xEDB8_8320 == Plus(Rest(c), 0xEDB8_8320)
  {
  }

  lemma Fits32(c: bv32)
    ensures Fits(c, 32)
  {
    Widths();
    FitsBelow(c, 0xFFFF_FFFF, 32);
  }

  // ---- The checks ----

  class Crc8 {
    var crc: bv8

    constructor ()
      ensures Register8(crc) == Zeros(8)
    {
      Widened(0, 0, 8);
      crc := 0;
    }

    method Byte(byte: bv8)
      modifies this
      ensures Register8(crc) == Process(old(Register8(crc)), Register8(byte), Generator8())
    {
      var a := byte;
      ghost var was := Register8(crc);
      Enter8(crc, byte);
      var z := 0;
      while z < 8
        invariant 0 <= z <= 8 && Inside8(crc, a, was, byte, z)
      {
        hide Inside8, Turned8;
        Inner8(crc, a, was, byte, z);
        crc, a := Turned8(crc, a), a >> 1;
        z := z + 1;
      }
      Leave8(crc, a, was, byte);
    }

    method Update(aa: seq<bv8>)
      modifies this
      ensures Register8(crc) == Process(old(Register8(crc)), MessageBits(aa), Generator8())
      ensures IsRemainder(old(Register8(crc)), aa, Generator8(), Register8(crc))
    {
      ghost var was := Register8(crc);
      NoneFed(was, aa, Generator8());
      hide *;
      var i := 0;
      while i != |aa|
        invariant 0 <= i <= |aa| && Fed(Register8(crc), was, aa, i, Generator8())
      {
        NextFed(Register8(crc), was, aa, i, Generator8());
        Byte(aa[i]);
        i := i + 1;
      }
      AllFed(Register8(crc), was, aa, Generator8());
      UpdateLeavesRemainder(was, aa, Generator8(), Register8(crc));
    }
  }

  /** z rounds into a byte, from register was. */
  ghost predicate Inside8(c: bv8, x: bv8, was: Poly, byte: bv8, z: nat) {
    var bits := Register8(byte);
    |was| == 8 && z <= 8 &&
    Register8(c) == Process(was, bits[..z], Generator8()) && Register8(x) == bits[z..] + Zeros(z)
  }

  lemma Enter8(c: bv8, byte: bv8)
    ensures Inside8(c, byte, Register8(c), byte, 0)
  {
    hide Bits;
    var bits := Register8(byte);
    assert bits[..0] == [];
    assert bits[0..] + Zeros(0) == bits;
  }

  lemma Inner8(c: bv8, x: bv8, was: Poly, byte: bv8, z: nat)
    requires z < 8 && Inside8(c, x, was, byte, z)
    ensures Inside8(Turned8(c, x), x >> 1, was, byte, z + 1)
  {
    var bits := Register8(byte);
    Round8(c, x);
    HalvedByte(x);
    hide Register8, Turned8, Generator8;
    ProcessNext(was, bits, z, Generator8());
    Taken(bits, z);
    hide Process, Shift;
  }

  lemma Leave8(c: bv8, x: bv8, was: Poly, byte: bv8)
    requires Inside8(c, x, was, byte, 8)
    ensures |was| == 8 && Register8(c) == Process(was, Register8(byte), Generator8())
  {
    hide Process, Register8;
    assert (Register8(byte))[..8] == Register8(byte);
  }

  lemma HalvedByte(a: bv8)
    ensures Register8(a >> 1) == Register8(a)[1..] + [false]
  {
    Fits8(a);
    Halved(a as bv32, 8);
    Cast8(a, a);
    hide Bits, Fits;
  }

  /** Register c has taken in the first i bytes of data, starting from was. */
  ghost predicate Fed(c: Poly, was: Poly, data: seq<bv8>, i: nat, g: Poly) {
    |was| == |g| > 0 && i <= |data| && c == Process(was, MessageBits(data[..i]), g)
  }

  lemma NoneFed(was: Poly, data: seq<bv8>, g: Poly)
    requires |was| == |g| > 0
    ensures Fed(was, was, data, 0, g)
  {
    assert data[..0] == [];
  }

  lemma AllFed(c: Poly, was: Poly, data: seq<bv8>, g: Poly)
    requires Fed(c, was, data, |data|, g)
    ensures |was| == |g| > 0 && c == Process(was, MessageBits(data), g)
  {
    assert data[..|data|] == data;
  }

  lemma NextFed(c: Poly, was: Poly, data: seq<bv8>, i: nat, g: Poly)
    requires Fed(c, was, data, i, g) && i < |data|
    ensures |c| == |g| > 0 && Fed(Process(c, Register8(data[i]), g), was, data, i + 1, g)
  {
    assert data[..i + 1][..i] == data[..i];
    ProcessAppend(was, MessageBits(data[..i]), Register8(data[i]), g);
    hide Process, Register8;
  }

  class Crc16 {
    var crc: bv16

    constructor ()
      ensures Register16(crc) == Zeros(16)
    {
      Widened(0, 0, 16);
      crc := 0;
    }

    method Byte(a: bv8)
      modifies this
      ensures Register16(crc) == Process(old(Register16(crc)), Register8(a), Generator16())
    {
      ghost var was := Register16(crc);
      ghost var ahead := Xor(was, Register8(a) + Zeros(8));
      AddByte16(crc, a);
      crc := crc ^ (a as bv16);
      var z := 0;
      while z < 8
        invariant 0 <= z <= 8
        invariant Register16(crc) == Process(ahead, Zeros(z), Generator16())
      {
        Round16(crc);
        NextZero(ahead, z, Generator16());
        hide Register16, Process, Shift, Generator16, Turned16;
        crc := Turned16(crc);
        z := z + 1;
      }
      Ahead(was, Register8(a), Generator16());
    }

    method Update(aa: seq<bv8>)
      modifies this
      ensures Register16(crc) == Process(old(Register16(crc)), MessageBits(aa), Generator16())
      ensures IsRemainder(old(Register16(crc)), aa, Generator16(), Register16(crc))
    {
      ghost var was := Register16(crc);
      NoneFed(was, aa, Generator16());
      hide *;
      var i := 0;
      while i != |aa|
        invariant 0 <= i <= |aa| && Fed(Register16(crc), was, aa, i, Generator16())
      {
        NextFed(Register16(crc), was, aa, i, Generator16());
        Byte(aa[i]);
        i := i + 1;
      }
      AllFed(Register16(crc), was, aa, Generator16());
      UpdateLeavesRemainder(was, aa, Generator16(), Register16(crc));
    }
  }

  class Crc32 {
    var crc: bv32

    constructor ()
      ensures forall k :: 0 <= k < 32 ==> Register32(crc)[k]
    {
      crc := 0xFFFF_FFFF;
      new;
      FullMask();
      forall k | 0 <= k < 32
        ensures Register32(0xFFFF_FFFF)[k]
      {
        OnesAt(0xFFFF_FFFF, 32, k);
      }
    }

    method Byte(byte: bv8)
      modifies this
      ensures Register32(crc) == Process(old(Register32(crc)), Register8(byte), Generator32())
    {
      var extract := byte as bv32;
      ghost var was := Register32(crc);
      Enter32(crc, byte);
      var z := 0;
      while z < 8
        invariant 0 <= z <= 8 && Inside32(crc, extract, was, byte, z)
      {
        hide Inside32, Turned32;
        Inner32(crc, extract, was, byte, z);
        crc, extract := Turned32(crc, extract), extract >> 1;
        z := z + 1;
      }
      Leave32(crc, extract, was, byte);
    }

    method Update(data: seq<bv8>)
      modifies this
      ensures Register32(crc) == Process(old(Register32(crc)), MessageBits(data), Generator32())
      ensures IsRemainder(old(Register32(crc)), data, Generator32(), Register32(crc))
    {
      ghost var was := Register32(crc);
      NoneFed(was, data, Generator32());
      hide *;
      var i := 0;
      while i < |data|
        invariant 0 <= i <= |data| && Fed(Register32(crc), was, data, i, Generator32())
      {
        NextFed(Register32(crc), was, data, i, Generator32());
        Byte(data[i]);
        i := i + 1;
      }
      AllFed(Register32(crc), was, data, Generator32());
      UpdateLeavesRemainder(was, data, Generator32(), Register32(crc));
    }
  }

  function Final32(crc: bv32): bv32 {
    -(crc + 1)
  }

  lemma NextZero(r: Poly, z: nat, g: Poly)
    requires |r| == |g| > 0
    ensures Process(r, Zeros(z + 1), g) == Shift(Process(r, Zeros(z), g), false, g)
  {
    assert Zeros(z + 1)[..z] == Zeros(z);
  }

  /** z rounds into a byte, from register was. */
  ghost predicate Inside32(c: bv32, x: bv32, was: Poly, byte: bv8, z: nat) {
    var bits := Register8(byte) + Zeros(24);
    |was| == 32 && z <= 8 &&
    Register32(c) == Process(was, bits[..z], Generator32()) && Register32(x) == bits[z..] + Zeros(z)
  }

  lemma Enter32(c: bv32, byte: bv8)
    ensures Inside32(c, byte as bv32, Register32(c), byte, 0)
  {
    Fits8(byte);
    Widened(byte as bv32, 8, 24);
    hide Bits;
    var bits := Register8(byte) + Zeros(24);
    assert bits[..0] == [];
    assert bits[0..] + Zeros(0) == bits;
  }

  lemma Inner32(c: bv32, x: bv32, was: Poly, byte: bv8, z: nat)
    requires z < 8 && Inside32(c, x, was, byte, z)
    ensures Inside32(Turned32(c, x), x >> 1, was, byte, z + 1)
  {
    var bits := Register8(byte) + Zeros(24);
    Round32(c, x);
    HalvedWord(x);
    hide Register32, Turned32, Generator32;
    ProcessNext(was, bits, z, Generator32());
    Taken(bits, z);
    hide Process, Shift, Register8;
  }

  lemma Leave32(c: bv32, x: bv32, was: Poly, byte: bv8)
    requires Inside32(c, x, was, byte, 8)
    ensures |was| == 32 && Register32(c) == Process(was, Register8(byte), Generator32())
  {
    hide Process, Register32;
    assert (Register8(byte) + Zeros(24))[..8] == Register8(byte);
  }

  lemma HalvedWord(x: bv32)
    ensures Register32(x >> 1) == Register32(x)[1..] + [false]
  {
    Fits32(x);
    Halved(x, 32);
    Cast32(x, x);
    hide Bits, Fits;
  }

  /** The final step turns over every bit of the register. */
  lemma Complement(c: bv32, k: nat)
    requires k < 32
    ensures Register32(Final32(c))[k] == !Register32(c)[k]
  {
    Negated(c);
    Summed(c, 0xFFFF_FFFF, 32);
    FullMask();
    OnesAt(0xFFFF_FFFF, 32, k);
    hide Bits, Plus, Final32;
  }

  lemma Negated(c: bv32)
    ensures Final32(c) == Plus(c, 0xFFFF_FFFF)
  {
  }

  // ---- What the checks are good for ----

  /** The remainder of the message, times x to the width of the register, by the generator. */
  ghost predicate IsRemainder(start: Poly, data: seq<bv8>, g: Poly, out: Poly) {
    exists q :: Divides(Dividend(start, MessageBits(data)), [true] + g, q, out)
  }

  /** What Update leaves is that remainder and nothing else. */
  lemma UpdateLeavesRemainder(start: Poly, data: seq<bv8>, g: Poly, out: Poly)
    requires |start| == |g| > 0
    ensures out == Process(start, MessageBits(data), g) <==> IsRemainder(start, data, g, out)
  {
    RegisterIffRemainder(start, MessageBits(data), g, out);
  }

  /** Cutting the data into two updates changes nothing. */
  lemma UpdatesCompose(start: Poly, a: seq<bv8>, b: seq<bv8>, g: Poly)
    requires |start| == |g| > 0
    ensures Process(Process(start, MessageBits(a), g), MessageBits(b), g) == Process(start, MessageBits(a + b), g)
  {
    MessageAppend(a, b);
    ProcessAppend(start, MessageBits(a), MessageBits(b), g);
  }

  /** The register sent low byte first. */
  function Bytes16(c: bv16): seq<bv8> {
    [(c & 0xFF) as bv8, (c >> 8) as bv8]
  }

  /** Two bytes sent after a message empty crc16 exactly when they are its register, low byte first. */
  lemma EmptiedOnlyByChecksum(start: bv16, data: seq<bv8>, c: bv16, low: bv8, high: bv8)
    requires Register16(c) == Process(Register16(start), MessageBits(data), Generator16())
    ensures Process(Register16(start), MessageBits(data + [low, high]), Generator16()) == Zeros(16)
            <==> [low, high] == Bytes16(c)
  {
    UpdatesCompose(Register16(start), data, [low, high], Generator16());
    ConstantTerms();
    EmptiedOnlyByOwnBits(Register16(c), MessageBits([low, high]), Generator16());
    BytesAreRegister(c, low, high);
  }

  lemma BytesAreRegister(c: bv16, low: bv8, high: bv8)
    ensures MessageBits([low, high]) == Register16(c) <==> [low, high] == Bytes16(c)
  {
    var l, h := Bytes16(c)[0], Bytes16(c)[1];
    TwoBytes(low, high);
    Halves(c);
    hide Bytes16, Register16, MessageBits;
    if Register8(low) + Register8(high) == Register8(l) + Register8(h) {
      assert (Register8(low) + Register8(high))[..8] == Register8(low);
      assert (Register8(low) + Register8(high))[8..] == Register8(high);
      assert (Register8(l) + Register8(h))[..8] == Register8(l);
      assert (Register8(l) + Register8(h))[8..] == Register8(h);
      SameByte(low, l);
      SameByte(high, h);
    }
  }

  lemma TwoBytes(low: bv8, high: bv8)
    ensures MessageBits([low, high]) == Register8(low) + Register8(high)
  {
    assert [low, high][..1] == [low];
    assert [low][..0] == [];
    assert MessageBits([low]) == Register8(low);
  }

  lemma Halves(c: bv16)
    ensures Register16(c) == Register8(Bytes16(c)[0]) + Register8(Bytes16(c)[1])
  {
    var x := c as bv32;
    Parted(x, 8, 8);
    CastHalves(c);
    ByteMask();
    Kept(x, 0xFF, 8);
    hide Bits, Bytes16, Drop, Masked;
  }

  lemma CastHalves(c: bv16)
    ensures Bytes16(c)[0] as bv32 == Masked(c as bv32, 0xFF)
    ensures Bytes16(c)[1] as bv32 == Drop(c as bv32, 8)
  {
  }

  lemma SameByte(a: bv8, b: bv8)
    requires Register8(a) == Register8(b)
    ensures a == b
  {
    Fits8(a);
    Fits8(b);
    BitsTell(a as bv32, b as bv32, 8);
    hide Bits, Fits;
  }
}