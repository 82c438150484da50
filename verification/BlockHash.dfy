/** The buffering, padding and finishing of SHA-0, SHA-1 (src/hash/sha01.c) and MD5 (src/hash/md5.c). The compression
    function is left open. */
module BlockHash {
  type Byte = b: int | 0 <= b < 256

  const BS: nat := 64
  const SIZE: nat := 0x1_0000_0000_0000_0000

  type Compression<!H> = (H, seq<Byte>) -> H

  // ---- Blocks ----

  /** The chaining value after the full blocks of s. */
  function Absorb<H>(f: Compression<H>, h: H, s: seq<Byte>): H
    decreases |s|
  {
    if |s| < BS then h else Absorb(f, f(h, s[..BS]), s[BS..])
  }

  /** What is left of s after its full blocks. */
  function Tail(s: seq<Byte>): (t: seq<Byte>)
    ensures |t| < BS && |t| <= |s|
    decreases |s|
  {
    if |s| < BS then s else Tail(s[BS..])
  }

  function Zeros(n: nat): (z: seq<Byte>)
    ensures |z| == n
  {
    seq(n, _ => 0)
  }

  /** Absorbing in two portions: the second one starts with what the first one left. */
  lemma {:induction false} AbsorbMore<H>(f: Compression<H>, h: H, s: seq<Byte>, t: seq<Byte>)
    ensures Absorb(f, h, s + t) == Absorb(f, Absorb(f, h, s), Tail(s) + t)
    ensures Tail(s + t) == Tail(Tail(s) + t)
    decreases |s|
  {
    if |s| >= BS {
      assert (s + t)[..BS] == s[..BS] && (s + t)[BS..] == s[BS..] + t;
      AbsorbMore(f, f(h, s[..BS]), s[BS..], t);
    }
  }

  /** The chaining value after the first n blocks of s, block by block. */
  function AfterBlocks<H>(f: Compression<H>, h: H, s: seq<Byte>, n: nat): H
    requires 64 * n <= |s|
  {
    if n == 0 then h else f(AfterBlocks(f, h, s, n - 1), s[64 * (n - 1)..64 * n])
  }

  /** The blocks are the 64-byte pieces of s in order, and what is left is what comes after the last of them. */
  lemma {:induction false} AbsorbsInOrder<H>(f: Compression<H>, h: H, s: seq<Byte>)
    ensures Absorb(f, h, s) == AfterBlocks(f, h, s, |s| / 64)
    ensures Tail(s) == s[64 * (|s| / 64)..]
    decreases |s|
  {
    if |s| >= BS {
      AbsorbsInOrder(f, f(h, s[..BS]), s[BS..]);
      FirstBlock(f, h, s, |s| / 64);
    }
  }

  lemma {:induction false} FirstBlock<H>(f: Compression<H>, h: H, s: seq<Byte>, n: nat)
    requires 0 < n && 64 * n <= |s|
    ensures AfterBlocks(f, h, s, n) == AfterBlocks(f, f(h, s[..64]), s[64..], n - 1)
    decreases n
  {
    if n > 1 {
      FirstBlock(f, h, s, n - 1);
      assert s[64..][64 * (n - 2)..64 * (n - 1)] == s[64 * (n - 1)..64 * n];
    } else {
      assert AfterBlocks(f, h, s, 0) == h && s[0..64] == s[..64];
    }
  }

  // ---- Length fields ----

  /** x >> (8 * i) */
  function Shifted(x: nat, i: nat): nat {
    if i == 0 then x else Shifted(x / 256, i - 1)
  }

  function LittleEndian(x: nat, n: nat): (b: seq<Byte>)
    ensures |b| == n
  {
    if n == 0 then [] else [x % 256] + LittleEndian(x / 256, n - 1)
  }

  function BigEndian(x: nat, n: nat): (b: seq<Byte>)
    ensures |b| == n
  {
    if n == 0 then [] else BigEndian(x / 256, n - 1) + [x % 256]
  }

  lemma {:induction false} BigEndianAt(x: nat, n: nat, i: nat)
    requires i < n
    ensures BigEndian(x, n)[n - 1 - i] == Shifted(x, i) % 256
  {
    if i > 0 {
      BigEndianAt(x / 256, n - 1, i - 1);
    }
  }

  lemma {:induction false} LittleEndianAt(x: nat, n: nat, i: nat)
    requires i < n
    ensures LittleEndian(x, n)[i] == Shifted(x, i) % 256
  {
    if i > 0 {
      LittleEndianAt(x / 256, n - 1, i - 1);
    }
  }

  lemma {:induction false} ZeroBytes(n: nat)
    ensures LittleEndian(0, n) == Zeros(n)
  {
    if n > 0 {
      ZeroBytes(n - 1);
    }
  }

  // ---- Padding ----

  function BitLength(m: seq<Byte>): nat {
    8 * |m| % SIZE
  }

  /** 0x80, then zeros until eight bytes are missing to a full block, then the length field. */
  function Padded(m: seq<Byte>, field: seq<Byte>): seq<Byte> {
    var t := |Tail(m)|;
    m + ([0x80] + Zeros(if t <= 55 then 55 - t else 119 - t) + field)
  }

  /** Section 5.1.1 of FIPS 180-4. */
  function ShaPadded(m: seq<Byte>): seq<Byte> {
    Padded(m, BigEndian(BitLength(m), 8))
  }

  /** Sections 3.1 and 3.2 of RFC 1321. */
  function Md5Padded(m: seq<Byte>): seq<Byte> {
    Padded(m, LittleEndian(BitLength(m), 8))
  }

  /** The low four bytes of the length, and zeros: the field md5_final writes. */
  function ShortField(m: seq<Byte>): seq<Byte> {
    LittleEndian(BitLength(m), 4) + Zeros(4)
  }

  lemma {:induction false} TailLength(s: seq<Byte>) returns (q: nat)
    ensures |s| == BS * q + |Tail(s)|
    decreases |s|
  {
    if |s| < BS {
      q := 0;
    } else {
      var p := TailLength(s[BS..]);
      q := p + 1;
    }
  }

  /** The padding is the shortest that leaves no partial block. */
  lemma PaddingFits(m: seq<Byte>, field: seq<Byte>)
    requires |field| == 8
    ensures Tail(Padded(m, field)) == []
    ensures |Padded(m, field)| < |m| + 1 + 8 + BS
  {
    var t := Tail(m);
    var k := if |t| <= 55 then 55 - |t| else 119 - |t|;
    var end := [0x80] + Zeros(k) + field;
    AbsorbMore((h: int, b: seq<Byte>) => h, 0, m, end);
    var last := t + end;
    assert |last| == if |t| <= 55 then BS else 2 * BS;
    if |t| > 55 {
      assert Tail(last) == Tail(last[BS..]);
    }
  }

  // ---- What a padded message is ----

  /** The number written in b, most significant byte first. */
  function BigValue(b: seq<Byte>): nat {
    if b == [] then 0 else 256 * BigValue(b[..|b| - 1]) + b[|b| - 1]
  }

  /** The number written in b, least significant byte first. */
  function LittleValue(b: seq<Byte>): nat {
    if b == [] then 0 else b[0] + 256 * LittleValue(b[1..])
  }

  lemma {:induction false} BigEndianValue(x: nat, n: nat)
    ensures Shifted(x, n) == 0 ==> BigValue(BigEndian(x, n)) == x
    decreases n
  {
    if n > 0 {
      BigEndianValue(x / 256, n - 1);
      assert BigEndian(x, n)[..n - 1] == BigEndian(x / 256, n - 1);
    }
  }

  lemma {:induction false} BigValueBytes(b: seq<Byte>)
    ensures BigEndian(BigValue(b), |b|) == b
    decreases |b|
  {
    if b != [] {
      BigValueBytes(b[..|b| - 1]);
      LastByte(b[|b| - 1], BigValue(b[..|b| - 1]));
    }
  }

  lemma LastByte(x: Byte, v: nat)
    ensures (x + 256 * v) % 256 == x && (x + 256 * v) / 256 == v
  {
  }

  lemma {:induction false} LittleEndianValue(x: nat, n: nat)
    ensures Shifted(x, n) == 0 ==> LittleValue(LittleEndian(x, n)) == x
    decreases n
  {
    if n > 0 {
      LittleEndianValue(x / 256, n - 1);
      assert LittleEndian(x, n)[1..] == LittleEndian(x / 256, n - 1);
    }
  }

  lemma {:induction false} LittleValueBytes(b: seq<Byte>)
    ensures LittleEndian(LittleValue(b), |b|) == b
    decreases |b|
  {
    if b != [] {
      var x, v := b[0], LittleValue(b[1..]);
      LittleValueBytes(b[1..]);
      LastByte(x, v);
      assert LittleEndian(x + 256 * v, |b|) == [x] + LittleEndian(v, |b| - 1);
      hide LittleEndian;
    }
  }

  /** m, then 0x80, then the fewest zeros that let eight more bytes complete a block. */
  ghost predicate PaddedTo(p: seq<Byte>, m: seq<Byte>) {
    && |m| + 9 <= |p| < |m| + 9 + 64 && |p| % 64 == 0
    && m <= p && p[|m|] == 0x80 && forall i :: |m| < i < |p| - 8 ==> p[i] == 0
  }

  lemma PaddedShape(m: seq<Byte>, field: seq<Byte>)
    requires |field| == 8
    ensures var p := Padded(m, field); PaddedTo(p, m) && p[|p| - 8..] == field
  {
    PaddingFits(m, field);
    PaddedField(m, field);
    var p := Padded(m, field);
    var q := TailLength(p);
    assert |p| == 64 * q;
    hide Tail;
  }

  /** A padded message is determined by the message and the field. */
  lemma PaddedAlike(p: seq<Byte>, q: seq<Byte>, m: seq<Byte>)
    requires PaddedTo(p, m) && PaddedTo(q, m) && p[|p| - 8..] == q[|q| - 8..]
    ensures p == q
  {
    assert |p| == |q|;
    var k := |p| - 8;
    forall i | 0 <= i < |p|
      ensures p[i] == q[i]
    {
      if i < |m| {
        assert p[i] == m[i] == q[i];
      } else if i >= k {
        assert p[i] == p[k..][i - k] && q[i] == q[k..][i - k];
      }
    }
  }

  /** The length field is the bit length of the message, modulo 2^64, in the order of bytes each standard asks for. */
  lemma {:induction false} ShaPaddedIs(m: seq<Byte>, p: seq<Byte>)
    ensures p == ShaPadded(m) <==>
            PaddedTo(p, m) && BigValue(p[|p| - 8..]) == 8 * |m| % 0x1_0000_0000_0000_0000
  {
    var x := BitLength(m);
    var field := BigEndian(x, 8);
    PaddedShape(m, field);
    ShiftedByFour(x);
    BigEndianValue(x, 8);
    hide Padded, BigEndian, Shifted;
    if PaddedTo(p, m) && BigValue(p[|p| - 8..]) == x {
      BigValueBytes(p[|p| - 8..]);
      PaddedAlike(p, ShaPadded(m), m);
    }
  }

  lemma {:induction false} Md5PaddedIs(m: seq<Byte>, p: seq<Byte>)
    ensures p == Md5Padded(m) <==>
            PaddedTo(p, m) && LittleValue(p[|p| - 8..]) == 8 * |m| % 0x1_0000_0000_0000_0000
  {
    var x := BitLength(m);
    var field := LittleEndian(x, 8);
    PaddedShape(m, field);
    ShiftedByFour(x);
    LittleEndianValue(x, 8);
    hide Padded, LittleEndian, Shifted;
    if PaddedTo(p, m) && LittleValue(p[|p| - 8..]) == x {
      LittleValueBytes(p[|p| - 8..]);
      PaddedAlike(p, Md5Padded(m), m);
    }
  }

  /** What md5_final pads to: the same, with the bit length modulo 2^32. */
  lemma {:induction false} ShortPaddedIs(m: seq<Byte>, p: seq<Byte>)
    ensures p == Padded(m, ShortField(m)) <==>
            PaddedTo(p, m) && LittleValue(p[|p| - 8..]) == 8 * |m| % 0x1_0000_0000
  {
    ShortFieldIs(m);
    PaddedShape(m, ShortField(m));
    hide Padded, LittleEndian, ShortField;
    if PaddedTo(p, m) && LittleValue(p[|p| - 8..]) == 8 * |m| % 0x1_0000_0000 {
      LittleValueBytes(p[|p| - 8..]);
      LittleValueBytes(ShortField(m));
      PaddedAlike(p, Padded(m, ShortField(m)), m);
    }
  }

  lemma {:induction false} ShortFieldIs(m: seq<Byte>)
    ensures |ShortField(m)| == 8 && LittleValue(ShortField(m)) == 8 * |m| % 0x1_0000_0000
  {
    var y := BitLength(m) % 0x1_0000_0000;
    LowOfBits(|m|);
    LowBytes(BitLength(m));
    WithZeros(y);
    hide LittleEndian, LittleValue, Shifted, BitLength;
    assert ShortField(m) == LittleEndian(y, 8);
  }

  lemma LowOfBits(n: nat)
    ensures 8 * n % SIZE % 0x1_0000_0000 == 8 * n % 0x1_0000_0000
  {
    var q, r := 8 * n / SIZE, 8 * n % SIZE;
    assert 8 * n == 0x1_0000_0000 * (0x1_0000_0000 * q) + r;
  }

  /** A number below 2^32 in eight bytes. */
  lemma {:induction false} WithZeros(y: nat)
    requires y < 0x1_0000_0000
    ensures LittleEndian(y, 8) == LittleEndian(y, 4) + Zeros(4) && LittleValue(LittleEndian(y, 8)) == y
  {
    LowAndHigh(y, 4, 4);
    ShiftedByFour(y);
    ZeroBytes(4);
    LittleEndianValue(y, 8);
    hide LittleEndian, LittleValue, Shifted;
  }

  lemma {:induction false} LowAndHigh(x: nat, n: nat, k: nat)
    ensures LittleEndian(x, n + k) == LittleEndian(x, n) + LittleEndian(Shifted(x, n), k)
    decreases n
  {
    if n > 0 {
      LowAndHigh(x / 256, n - 1, k);
    } else {
      assert LittleEndian(x, k) == [] + LittleEndian(x, k);
    }
  }

  /** A number of at most n bytes is zero when its bytes are. */
  lemma {:induction false} ZeroWhenBytesAre(x: nat, n: nat)
    requires Shifted(x, n) == 0 && LittleEndian(x, n) == Zeros(n)
    ensures x == 0
    decreases n
  {
    if n > 0 {
      assert LittleEndian(x, n)[0] == Zeros(n)[0] && LittleEndian(x, n)[1..] == Zeros(n)[1..] == Zeros(n - 1);
      ZeroWhenBytesAre(x / 256, n - 1);
    }
  }

  lemma {:induction false} ShiftedTwice(x: nat, n: nat, k: nat)
    ensures Shifted(Shifted(x, n), k) == Shifted(x, n + k)
    decreases n
  {
    if n > 0 {
      ShiftedTwice(x / 256, n - 1, k);
    }
  }

  lemma {:induction false} FourShifts(x: nat)
    ensures Shifted(x, 4) == x / 256 / 256 / 256 / 256
  {
    assert Shifted(x, 4) == Shifted(x / 256, 3);
    assert Shifted(x / 256, 3) == Shifted(x / 256 / 256, 2);
    assert Shifted(x / 256 / 256, 2) == Shifted(x / 256 / 256 / 256, 1);
  }

  lemma {:induction false} ShiftedByFour(x: nat)
    ensures Shifted(x, 4) == 0 <==> x < 0x1_0000_0000
    ensures x < SIZE ==> Shifted(x, 8) == 0
  {
    FourShifts(x);
    FourShifts(Shifted(x, 4));
    ShiftedTwice(x, 4, 4);
  }

  /** md5_final pads as RFC 1321 asks exactly when the bit length fits in 32 bits. */
  lemma {:induction false} Md5FieldExact(m: seq<Byte>)
    ensures Padded(m, ShortField(m)) == Md5Padded(m) <==> BitLength(m) < 0x1_0000_0000
  {
    var x := BitLength(m);
    var short, full := ShortField(m), LittleEndian(x, 8);
    LowAndHigh(x, 4, 4);
    ShiftedByFour(x);
    ShiftedTwice(x, 4, 4);
    hide Shifted; hide LittleEndian;
    assert short[4..] == Zeros(4) && full[4..] == LittleEndian(Shifted(x, 4), 4);
    if x < 0x1_0000_0000 {
      ZeroBytes(4);
    } else if short == full {
      ZeroWhenBytesAre(Shifted(x, 4), 4);
    }
    PaddedField(m, short);
    PaddedField(m, full);
  }

  /** The shortest message whose padding md5_final gets wrong has 2^29 bytes. */
  lemma Md5FieldTooShort()
    ensures var m := Zeros(0x2000_0000); Padded(m, ShortField(m)) != Md5Padded(m)
  {
    hide Padded, ShortField, Md5Padded;
    Md5FieldExact(Zeros(0x2000_0000));
  }

  lemma PaddedField(m: seq<Byte>, field: seq<Byte>)
    ensures Padded(m, field)[|Padded(m, field)| - |field|..] == field
  {
  }

  // ---- The bytes that md5_update and sha01_update read ----

  function Later(a: nat, b: nat): nat {
    if a < b then b else a
  }

  /** The end of the bytes an update reads, counted from the start of its input. */
  function ReadEnd(bufflen: nat, len: nat): nat {
    if bufflen + len <= BS then len else bufflen + len
  }

  /** The bytes it takes in. After the first block the read offset is a whole block, even when the buffer was partly
      filled and that block took fewer bytes: as many bytes as were in the buffer are passed over. */
  function Taken(mem: seq<Byte>, bufflen: nat, len: nat): (t: seq<Byte>)
    requires bufflen < BS && ReadEnd(bufflen, len) <= |mem|
    ensures |t| == len
  {
    if bufflen + len <= BS then mem[..len] else mem[..BS - bufflen] + mem[BS..bufflen + len]
  }

  /** An update stays within its input exactly when the buffer was empty or the input does not go beyond one block, and
      exactly then it takes in that input whatever follows it in memory. */
  lemma ReadsWithinInput(bufflen: nat, len: nat)
    requires bufflen < BS
    ensures ReadEnd(bufflen, len) <= len <==> bufflen == 0 || bufflen + len <= BS
    ensures (forall mem: seq<Byte> :: ReadEnd(bufflen, len) <= |mem| ==> Taken(mem, bufflen, len) == mem[..len])
            <==> bufflen == 0 || bufflen + len <= BS
  {
    if bufflen == 0 || bufflen + len <= BS {
      forall mem: seq<Byte> | ReadEnd(bufflen, len) <= |mem|
        ensures Taken(mem, bufflen, len) == mem[..len]
      {
      }
    } else {
      var mem: seq<Byte> := Zeros(BS) + [1] + Zeros(len);
      assert Taken(mem, bufflen, len)[BS - bufflen] == mem[BS] == 1 && mem[..len][BS - bufflen] == 0;
    }
  }

  /** One byte in the buffer and 64 more: one of them is passed over, and one after them is read. */
  lemma ReadsBeyond(mem: seq<Byte>)
    requires |mem| == 65
    ensures ReadEnd(1, 64) == 65 && Taken(mem, 1, 64) == mem[..63] + [mem[64]]
  {
  }

  // ---- The hash objects ----

  /** struct sha01_hash and struct md5_hash. */
  class BlockHash<!H> {
    const compress: Compression<H>
    const init: H
    var h: H               // the chaining words
    var buffer: array<Byte>
    var bufflen: nat
    var total: nat         // size_t
    ghost var msg: seq<Byte>  // everything fed in so far

    ghost predicate Valid()
      reads this, buffer
    {
      && buffer.Length == BS && bufflen == |Tail(msg)| && total == |msg| % SIZE
      && h == Absorb(compress, init, msg)
      && buffer[..] == Tail(msg) + Zeros(BS - bufflen)
    }

    /** sha01_init, md5_init */
    constructor (compress: Compression<H>, init: H)
      ensures Valid() && msg == [] && fresh(buffer) && this.compress == compress && this.init == init
    {
      this.compress, this.init, h := compress, init, init;
      buffer := new Byte[BS](_ => 0);
      bufflen, total, msg := 0, 0, [];
      new;
      assert buffer[..] == Zeros(BS);
    }

    /** memcpy(buffer + at, src + from, n) */
    method Memcpy(at: nat, src: seq<Byte>, from: nat, n: nat)
      requires at + n <= buffer.Length && from + n <= |src|
      modifies buffer
      ensures buffer[..] == old(buffer[..at]) + src[from..from + n] + old(buffer[at + n..])
    {
      forall i | at <= i < at + n {
        buffer[i] := src[from + i - at];
      }
    }

    method Restore(saved: seq<Byte>)
      requires |saved| == buffer.Length
      modifies buffer
      ensures buffer[..] == saved
    {
      Memcpy(0, saved, 0, buffer.Length);
    }

    /** memset(buffer + at, 0, ..) to the end of the block */
    method ClearFrom(at: nat)
      requires at <= buffer.Length
      modifies buffer
      ensures buffer[..] == old(buffer[..at]) + Zeros(buffer.Length - at)
    {
      forall i | at <= i < buffer.Length {
        buffer[i] := 0;
      }
    }

    /** Completes the block in the buffer and compresses it. */
    method OneBlock(mem: seq<Byte>, read: nat, ghost left: seq<Byte>)
      requires buffer.Length == BS && bufflen < BS <= |left| && read + BS - bufflen <= |mem|
      requires left[..BS] == buffer[..bufflen] + mem[read..read + BS - bufflen]
      modifies this`h, this`bufflen, buffer
      ensures h == compress(old(h), left[..BS]) && bufflen == 0 && buffer[..bufflen] == []
    {
      Memcpy(bufflen, mem, read, BS - bufflen);
      assert buffer[..] == left[..BS];
      bufflen := 0;
      h := compress(h, buffer[..]);
    }

    /** The loop of sha01_update and md5_update over the blocks that are completed. pending is what is not absorbed yet,
        end is where the bytes copied so far end. */
    method Blocks(mem: seq<Byte>, len: nat, ghost pending: seq<Byte>)
      returns (read: nat, totalAdd: nat, ghost left: seq<Byte>, ghost end: nat)
      requires buffer.Length == BS && bufflen < BS <= bufflen + len && ReadEnd(bufflen, len) <= |mem|
      requires pending == buffer[..bufflen] + Taken(mem, bufflen, len)
      modifies this`h, this`bufflen, buffer
      ensures bufflen == 0 && totalAdd < BS && read + totalAdd == old(bufflen) + len
      ensures Absorb(compress, old(h), pending) == h && Tail(pending) == left
      ensures |left| == totalAdd && (totalAdd > 0 ==> read + totalAdd <= |mem| && left == mem[read..read + totalAdd])
      ensures (if totalAdd > 0 then Later(end, read + totalAdd) else end) == ReadEnd(old(bufflen), len)
    {
      totalAdd := len + bufflen;
      read, end := 0, 0;
      left := pending;
      ghost var h0, b0 := h, bufflen;
      BlocksBegin(mem, b0, len, buffer[..bufflen], pending);
      hide *;
      while totalAdd >= BS
        invariant bufflen < BS && |left| == totalAdd && read + totalAdd == b0 + len
        invariant Absorb(compress, h0, pending) == Absorb(compress, h, left) && Tail(pending) == Tail(left)
        invariant InBlocks(mem, b0, len, buffer[..bufflen], read, left, end)
        decreases totalAdd
      {
        NextBlock(mem, b0, len, buffer[..bufflen], read, left, end);
        FullBlock(compress, h, left);
        end := Later(end, read + BS - bufflen);
        OneBlock(mem, read, left);
        totalAdd := totalAdd - BS;
        read := read + BS;
        left := left[BS..];
      }
      ShortInput(compress, h, left);
      BlocksDone(mem, b0, len, buffer[..bufflen], read, left, end);
    }

    /** The input completes no block: it joins the tail t. */
    method AddToTail(input: seq<Byte>, ghost t: seq<Byte>)
      requires buffer.Length == BS && bufflen + |input| < BS && |t| == bufflen && buffer[..] == t + Zeros(BS - bufflen)
      modifies this`bufflen, buffer
      ensures bufflen == old(bufflen) + |input| && buffer[..] == t + input + Zeros(BS - bufflen)
    {
      ZerosDrop(BS - bufflen, |input|);
      Memcpy(bufflen, input, 0, |input|);
      bufflen := bufflen + |input|;
    }

    /** After the blocks: the n bytes left start a new tail. */
    method KeepTail(mem: seq<Byte>, read: nat, n: nat, ghost left: seq<Byte>)
      requires buffer.Length == BS && bufflen == 0 && n < BS && |left| == n
      requires n > 0 ==> read + n <= |mem| && left == mem[read..read + n]
      modifies this`bufflen, buffer
      ensures bufflen == n && buffer[..] == left + Zeros(BS - n)
    {
      hide *;
      ClearFrom(0);
      ghost var z := buffer[..];
      assert buffer[..0] == [];
      ZerosDrop(BS, n);
      assert z == Zeros(BS);
      if n != 0 {
        assert buffer[n..] == z[n..] == Zeros(BS - n);
        Memcpy(0, mem, read, n);
        bufflen := n;
        assert buffer[..] == [] + left + Zeros(BS - n);
      } else {
        assert left == [];
      }
    }

    /** sha01_update, md5_update. The input is the first len bytes of mem, the memory that can be read from its start;
        the bytes taken in and the end of the bytes read are not always the input and its end. */
    method Update(mem: seq<Byte>, len: nat) returns (ghost end: nat)
      requires Valid() && ReadEnd(bufflen, len) <= |mem|
      modifies this, buffer
      ensures Valid() && buffer == old(buffer)
      ensures msg == old(msg) + Taken(mem, old(bufflen), len)
      ensures end == ReadEnd(old(bufflen), len)
      ensures old(bufflen) == 0 || old(bufflen) + len <= BS ==> msg == old(msg) + mem[..len]
    {
      hide Absorb; hide Tail;
      ghost var input := Taken(mem, bufflen, len);
      total := (total + len) % SIZE;
      var totalAdd := len + bufflen;
      ghost var pending := Tail(msg) + input;
      AbsorbMore(compress, init, msg, input);
      TotalLength(|msg|, len);
      msg := msg + input;
      if totalAdd < BS {
        ShortInput(compress, h, pending);
        AddToTail(mem[..len], Tail(old(msg)));
        return len;
      }
      var read;
      ghost var left;
      assert buffer[..bufflen] == Tail(old(msg));
      read, totalAdd, left, end := Blocks(mem, len, pending);
      KeepTail(mem, read, totalAdd, left);
      end := if totalAdd > 0 then Later(end, read + totalAdd) else end;
    }

    /** The part sha01_final and md5_final share: the 0x80 byte, and one more block when the length does not fit. */
    method BeginFinal()
      requires Valid()
      modifies this`h, buffer
      ensures buffer[56..] == Zeros(8)
      ensures LastBlock(compress, init, msg, h, buffer[..56])
    {
      hide Absorb, Tail, Padded, LastBlock;
      ghost var t := Tail(msg);
      ZerosDrop(BS - bufflen, 1);
      buffer[bufflen] := 0x80;
      assert buffer[..] == t + [0x80] + Zeros(BS - 1 - bufflen);
      if bufflen > 55 {
        ClearFrom(bufflen + 1);
        assert buffer[..] == t + [0x80] + Zeros(BS - 1 - bufflen);
        h := compress(h, buffer[..]);
        ClearFrom(0);
        assert buffer[..56] == Zeros(56) && buffer[56..] == Zeros(8);
      } else {
        assert buffer[..56] == t + [0x80] + Zeros(55 - bufflen) && buffer[56..] == Zeros(8);
      }
      BeforeLength(compress, init, msg, h, buffer[..56]);
    }

    /** The loop that stores the length, last byte first. */
    method WriteBigEndian(bits: nat)
      requires buffer.Length == BS
      modifies buffer
      ensures buffer[..] == old(buffer[..56]) + BigEndian(bits, 8)
    {
      for i := 0 to 8
        invariant buffer[..56] == old(buffer[..56])
        invariant forall j :: 64 - i <= j < 64 ==> buffer[j] == BigEndian(bits, 8)[j - 56]
      {
        BigEndianAt(bits, 8, i);
        buffer[63 - i] := Shifted(bits, i) % 256;
      }
    }

    /** memcpy(buffer + 56, &bits, 4) on a little-endian machine */
    method WriteLittleEndian(bits: nat)
      requires buffer.Length == BS && buffer[60..] == Zeros(4)
      modifies buffer
      ensures buffer[..] == old(buffer[..56]) + (LittleEndian(bits, 4) + Zeros(4))
    {
      for i := 0 to 4
        invariant buffer[..56] == old(buffer[..56]) && buffer[60..] == Zeros(4)
        invariant forall j :: 56 <= j < 56 + i ==> buffer[j] == LittleEndian(bits, 4)[j - 56]
      {
        LittleEndianAt(bits, 4, i);
        buffer[56 + i] := Shifted(bits, i) % 256;
      }
      assert buffer[60..] == Zeros(4);
    }

    /** sha01_final: the digest of everything fed in. The object is left as it was. */
    method Sha01Final() returns (digest: H)
      requires Valid()
      modifies this`h, buffer
      ensures Valid() && h == old(h) && buffer[..] == old(buffer[..])
      ensures digest == Absorb(compress, init, ShaPadded(msg))
    {
      hide Absorb; hide Tail;
      var oldH, saved := h, buffer[..];
      BeginFinal();
      var bits := 8 * total % SIZE;
      BitCount(|msg|);
      WriteBigEndian(bits);
      h := compress(h, buffer[..]);
      digest := h;
      h := oldH;
      Restore(saved);
    }

    /** md5_final: it keeps the low 32 bits of the bit length only. */
    method Md5Final() returns (digest: H)
      requires Valid()
      modifies this`h, buffer
      ensures Valid() && h == old(h) && buffer[..] == old(buffer[..])
      ensures digest == Absorb(compress, init, Padded(msg, ShortField(msg)))
      ensures BitLength(msg) < 0x1_0000_0000 ==> digest == Absorb(compress, init, Md5Padded(msg))
    {
      hide Absorb; hide Tail; hide Padded;
      var oldH, saved := h, buffer[..];
      BeginFinal();
      var bits := (8 * total % SIZE) % 0x1_0000_0000;
      BitCount(|msg|);
      LowBytes(BitLength(msg));
      ZerosDrop(8, 4);
      assert buffer[60..] == buffer[56..][4..];
      Md5FieldExact(msg);
      WriteLittleEndian(bits);
      h := compress(h, buffer[..]);
      digest := h;
      h := oldH;
      Restore(saved);
    }

    /** The clone functions: a new object in the same state, with a buffer of its own. */
    method Clone() returns (b: BlockHash<H>)
      requires Valid()
      ensures fresh(b) && fresh(b.buffer) && b.Valid() && b.msg == msg && b.compress == compress && b.init == init
    {
      hide Absorb, Tail;
      b := new BlockHash(compress, init);
      b.h, b.bufflen, b.total, b.msg := h, bufflen, total, msg;
      b.Restore(buffer[..]);
    }
  }

  /** Where the loop over the blocks is: held is in the buffer, left is not absorbed yet. */
  ghost predicate InBlocks(mem: seq<Byte>, b0: nat, len: nat, held: seq<Byte>, read: nat, left: seq<Byte>, end: nat) {
    b0 < BS && ReadEnd(b0, len) <= |mem| && read + |left| == b0 + len &&
    if read == 0 then |held| == b0 && left == held + Taken(mem, b0, len) && end == 0
    else
      && held == [] && read >= BS && end == (if read == BS then BS - b0 else read)
      && (left != [] ==> read + |left| <= |mem| && left == mem[read..read + |left|])
  }

  lemma BlocksBegin(mem: seq<Byte>, b0: nat, len: nat, held: seq<Byte>, pending: seq<Byte>)
    requires b0 == |held| < BS && ReadEnd(b0, len) <= |mem| && pending == held + Taken(mem, b0, len)
    ensures InBlocks(mem, b0, len, held, 0, pending, 0)
  {
  }

  /** The block assembled next, and where the loop is after it. */
  lemma NextBlock(mem: seq<Byte>, b0: nat, len: nat, held: seq<Byte>, read: nat, left: seq<Byte>, end: nat)
    requires InBlocks(mem, b0, len, held, read, left, end) && BS <= |left|
    ensures |held| < BS && read + BS - |held| <= |mem| && left[..BS] == held + mem[read..read + BS - |held|]
    ensures InBlocks(mem, b0, len, [], read + BS, left[BS..], Later(end, read + BS - |held|))
  {
    if read > 0 || b0 == 0 {
      assert held == [];
    }
  }

  lemma BlocksDone(mem: seq<Byte>, b0: nat, len: nat, held: seq<Byte>, read: nat, left: seq<Byte>, end: nat)
    requires InBlocks(mem, b0, len, held, read, left, end) && |left| < BS <= b0 + len
    ensures held == [] && (left != [] ==> read + |left| <= |mem| && left == mem[read..read + |left|])
    ensures (if left != [] then Later(end, read + |left|) else end) == ReadEnd(b0, len)
  {
  }

  /** All that is left to do is to compress front and the length field. */
  ghost predicate LastBlock<H>(f: Compression<H>, init: H, m: seq<Byte>, h: H, front: seq<Byte>) {
    forall field: seq<Byte> :: |field| == 8 ==> Absorb(f, init, Padded(m, field)) == f(h, front + field)
  }

  lemma BeforeLength<H>(f: Compression<H>, init: H, m: seq<Byte>, h: H, front: seq<Byte>)
    requires var t, h0 := Tail(m), Absorb(f, init, m);
             if |t| <= 55 then h == h0 && front == t + [0x80] + Zeros(55 - |t|)
             else h == f(h0, t + [0x80] + Zeros(63 - |t|)) && front == Zeros(56)
    ensures LastBlock(f, init, m, h, front)
  {
    LastBlocks(f, init, m);
    hide Absorb, Tail, Padded;
  }

  lemma {:induction false} LastBlocks<H>(f: Compression<H>, init: H, m: seq<Byte>)
    ensures var t, h := Tail(m), Absorb(f, init, m);
            forall field: seq<Byte> :: |field| == 8 ==>
              Absorb(f, init, Padded(m, field)) ==
              if |t| <= 55 then f(h, t + [0x80] + Zeros(55 - |t|) + field)
              else f(f(h, t + [0x80] + Zeros(63 - |t|)), Zeros(56) + field)
  {
    var t, h := Tail(m), Absorb(f, init, m);
    forall field: seq<Byte> | |field| == 8
      ensures Absorb(f, init, Padded(m, field)) ==
              if |t| <= 55 then f(h, t + [0x80] + Zeros(55 - |t|) + field)
              else f(f(h, t + [0x80] + Zeros(63 - |t|)), Zeros(56) + field)
    {
      var end := [0x80] + Zeros(if |t| <= 55 then 55 - |t| else 119 - |t|) + field;
      AbsorbMore(f, init, m, end);
      hide Tail; hide Absorb;
      FullBlock(f, h, t + end);
      if |t| <= 55 {
        var block := t + [0x80] + Zeros(55 - |t|) + field;
        assert (t + end)[..BS] == block && (t + end)[BS..] == [];
        ShortInput(f, f(h, block), []);
      } else {
        var block := t + [0x80] + Zeros(63 - |t|);
        assert (t + end)[..BS] == block && (t + end)[BS..] == Zeros(56) + field;
        FullBlock(f, f(h, block), Zeros(56) + field);
        assert (Zeros(56) + field)[..BS] == Zeros(56) + field && (Zeros(56) + field)[BS..] == [];
        ShortInput(f, f(f(h, block), Zeros(56) + field), []);
      }
    }
  }

  lemma BitCount(n: nat)
    ensures 8 * (n % SIZE) % SIZE == 8 * n % SIZE
  {
    var q, r := n / SIZE, n % SIZE;
    assert 8 * n == SIZE * (8 * q) + 8 * r;
    WholeSizes(8 * q, 8 * r);
  }

  lemma WholeSizes(k: nat, x: nat)
    ensures (SIZE * k + x) % SIZE == x % SIZE
  {
    assert SIZE * k + x == SIZE * (k + x / SIZE) + x % SIZE;
  }

  /** Keeping the low 32 bits keeps the low four bytes. */
  lemma {:induction false} LowBytes(x: nat)
    ensures LittleEndian(x % 0x1_0000_0000, 4) == LittleEndian(x, 4)
  {
    var y := x % 0x1_0000_0000;
    LowByte4(x);
    LowByte3(x / 256);
    LowByte2(x / 256 / 256);
    FourBytes(x);
    FourBytes(y);
  }

  lemma LowByte4(x: nat)
    ensures (x % 0x1_0000_0000) % 256 == x % 256 && (x % 0x1_0000_0000) / 256 == (x / 256) % 0x100_0000
  {
    var q, y := x / 0x1_0000_0000, x % 0x1_0000_0000;
    assert x == 0x1_0000_0000 * q + y;
    assert y == 256 * (y / 256) + y % 256;
    assert x / 256 == 0x100_0000 * q + y / 256;
  }

  lemma LowByte3(x: nat)
    ensures (x % 0x100_0000) % 256 == x % 256 && (x % 0x100_0000) / 256 == (x / 256) % 0x1_0000
  {
    var q, y := x / 0x100_0000, x % 0x100_0000;
    assert x == 0x100_0000 * q + y;
    assert y == 256 * (y / 256) + y % 256;
    assert x / 256 == 0x1_0000 * q + y / 256;
  }

  lemma LowByte2(x: nat)
    ensures (x % 0x1_0000) % 256 == x % 256 && (x % 0x1_0000) / 256 == (x / 256) % 0x100
  {
    var q, y := x / 0x1_0000, x % 0x1_0000;
    assert x == 0x1_0000 * q + y;
    assert y == 256 * (y / 256) + y % 256;
    assert x / 256 == 0x100 * q + y / 256;
  }

  lemma {:induction false} FourBytes(x: nat)
    ensures LittleEndian(x, 4) == [x % 256, x / 256 % 256, x / 256 / 256 % 256, x / 256 / 256 / 256 % 256]
  {
    assert LittleEndian(x, 4) == [x % 256] + LittleEndian(x / 256, 3);
    assert LittleEndian(x / 256, 3) == [x / 256 % 256] + LittleEndian(x / 256 / 256, 2);
    assert LittleEndian(x / 256 / 256, 2) == [x / 256 / 256 % 256] + LittleEndian(x / 256 / 256 / 256, 1);
  }

  lemma {:induction false} ShortInput<H>(f: Compression<H>, h: H, s: seq<Byte>)
    requires |s| < BS
    ensures Tail(s) == s && Absorb(f, h, s) == h
  {
  }

  lemma {:induction false} FullBlock<H>(f: Compression<H>, h: H, s: seq<Byte>)
    requires |s| >= BS
    ensures Tail(s) == Tail(s[BS..]) && Absorb(f, h, s) == Absorb(f, f(h, s[..BS]), s[BS..])
  {
  }

  lemma ZerosDrop(n: nat, k: nat)
    requires k <= n
    ensures Zeros(n)[k..] == Zeros(n - k)
  {
  }

  lemma TotalLength(a: nat, b: nat)
    ensures (a % SIZE + b) % SIZE == (a + b) % SIZE
  {
  }
}
