/** The chunked transfer decoder of src/net.c, fed one read at a time. */
module ChunkedBody {
  import opened Reads

  // ---- strtoll(.., NULL, 16), and the assignment of its result to an int ----

  function HexDigit(c: char): int {
    if '0' <= c <= '9' then c as int - '0' as int
    else if 'a' <= c <= 'f' then c as int - 'a' as int + 10
    else if 'A' <= c <= 'F' then c as int - 'A' as int + 10
    else -1
  }

  predicate IsSpace(c: char) {
    c == ' ' || 9 <= c as int <= 13
  }

  function SkipSpace(s: string): string {
    if s != "" && IsSpace(s[0]) then SkipSpace(s[1..]) else s
  }

  /** The value of the leading hexadecimal digits of s, after digits worth acc. */
  function HexRun(s: string, acc: nat): nat
    decreases |s|
  {
    if s != "" && HexDigit(s[0]) >= 0 then HexRun(s[1..], 16 * acc + HexDigit(s[0])) else acc
  }

  function Unprefixed(s: string): string {
    if |s| >= 3 && s[0] == '0' && (s[1] == 'x' || s[1] == 'X') && HexDigit(s[2]) >= 0 then s[2..] else s
  }

  const LLONG_MAX: int := 0x7fff_ffff_ffff_ffff

  function Strtoll(s: string): int {
    var t := SkipSpace(s);
    var negative := t != "" && t[0] == '-';
    var body := if t != "" && (t[0] == '-' || t[0] == '+') then t[1..] else t;
    var v: int := HexRun(Unprefixed(body), 0);
    if negative then (if v > LLONG_MAX + 1 then -LLONG_MAX - 1 else -v)
    else if v > LLONG_MAX then LLONG_MAX else v
  }

  function ToInt(x: int): int {
    var m := x % 0x1_0000_0000;
    if m < 0x8000_0000 then m else m - 0x1_0000_0000
  }

  /** The conversion of an int or a difference to size_t. */
  function ToSize(x: int): nat {
    x % 0x1_0000_0000_0000_0000
  }

  // ---- The decoder ----

  datatype State = State(reading: bool, length: int, buffer: string, content: string)

  const Init: State := State(true, 0, "", "")

  predicate EndsLine(s: string) {
    |s| >= 2 && s[|s| - 2] == '\r' && s[|s| - 1] == '\n'
  }

  /** One byte of a size line. */
  function ReadByte(s: State, b: char): State {
    var buffer := s.buffer + [b];
    if EndsLine(buffer) then
      var length := ToInt(Strtoll(buffer[..|buffer| - 2]));
      State(length == 0, length, "", s.content)
    else s.(buffer := buffer)
  }

  /** How many of the n bytes at hand belong to the chunk. */
  function Wanted(s: State, n: nat): (k: nat)
    ensures k <= n
  {
    var want := ToSize(s.length - |s.buffer|);
    if want > n then n else want
  }

  function ReadData(s: State, data: string): State {
    var buffer := s.buffer + data;
    if |buffer| >= ToSize(s.length) then State(true, s.length, "", s.content + buffer) else s.(buffer := buffer)
  }

  /** What one read does to the state. The byte after the data of a chunk is skipped when the same read brings it. */
  function Round(s: State, input: string): State
    decreases |input|
  {
    if input == "" then s
    else if s.reading then Round(ReadByte(s, input[0]), input[1..])
    else
      var k := Wanted(s, |input|);
      var s' := ReadData(s, input[..k]);
      if k < |input| then Round(s', input[k + 1..]) else s'
  }

  /** The input from position i on. */
  function Rest(input: string, i: nat): string {
    if i < |input| then input[i..] else ""
  }

  lemma {:induction false} RoundByte(s: State, input: string, i: nat)
    requires i < |input| && s.reading
    ensures Round(s, Rest(input, i)) == Round(ReadByte(s, input[i]), Rest(input, i + 1))
  {
    hide ReadByte;
    assert input[i..][1..] == Rest(input, i + 1);
  }

  lemma {:induction false} RoundData(s: State, input: string, i: nat)
    requires i < |input| && !s.reading
    ensures var k := Wanted(s, |input| - i);
            Round(s, Rest(input, i)) == Round(ReadData(s, input[i..i + k]), Rest(input, i + k + 1))
  {
    hide ReadData; hide Wanted;
    var left, k := input[i..], Wanted(s, |input| - i);
    var s' := ReadData(s, left[..k]);
    assert left[..k] == input[i..i + k];
    if k < |left| {
      assert left[k + 1..] == Rest(input, i + k + 1);
      assert Round(s, left) == Round(s', left[k + 1..]);
    } else {
      assert Round(s, left) == s';
    }
  }

  class Decoder {
    var reading: bool
    var length: int
    var buffer: string
    var content: string

    function Now(): State
      reads this
    {
      State(reading, length, buffer, content)
    }

    constructor ()
      ensures Now() == Init
    {
      reading, length, buffer, content := true, 0, "", "";
    }

    /** chunked_encoding_round */
    method Feed(input: string)
      modifies this
      ensures Now() == Round(old(Now()), input)
    {
      hide Round; hide Strtoll; hide ToInt; hide ToSize;
      var i := 0;
      assert Rest(input, 0) == input;
      while i < |input|
        invariant 0 <= i <= |input| + 1
        invariant Round(old(Now()), input) == Round(Now(), Rest(input, i))
        decreases |input| - i
      {
        if reading {
          RoundByte(Now(), input, i);
          buffer := buffer + [input[i]];
          if |buffer| >= 2 && buffer[|buffer| - 2] == '\r' && buffer[|buffer| - 1] == '\n' {
            buffer := buffer[..|buffer| - 2];
            length := ToInt(Strtoll(buffer));
            buffer := "";
            if length != 0 {
              reading := false;
            }
          }
        } else {
          RoundData(Now(), input, i);
          var want := ToSize(length - |buffer|);
          var len := if want > |input| - i then |input| - i else want;
          buffer := buffer + input[i..i + len];
          i := i + len;
          if |buffer| >= ToSize(length) {
            reading := true;
            content := content + buffer;
            buffer := "";
          }
        }
        i := i + 1;
      }
      RoundNothing(Now());
    }
  }

  lemma RoundNothing(s: State)
    ensures Round(s, "") == s
  {
  }

  // ---- The encoding, section 7.1 of RFC 9112, without trailer fields ----

  datatype Chunk = Chunk(digits: string, ext: string, data: string) {
    function Line(): string {
      digits + ext + "\r\n"
    }

    function Encoding(): string {
      Line() + data + "\r\n"
    }
  }

  /** c is the digit worth d, in either case. */
  predicate IsDigit(c: char, d: nat) {
    d < 16 && (c == "0123456789abcdef"[d] || c == "0123456789ABCDEF"[d])
  }

  /** s is n written in base 16, with any leading zeros. */
  ghost predicate Numeral(s: string, n: nat)
    decreases |s|
  {
    if s == "" then n == 0 else IsDigit(s[|s| - 1], n % 16) && Numeral(s[..|s| - 1], n / 16)
  }

  /** A chunk extension starts with ';' or white space and stays on its line. */
  predicate Extension(s: string) {
    (s != "" ==> s[0] in {';', ' ', '\t'}) && '\n' !in s
  }

  ghost predicate SizeLine(c: Chunk) {
    c.digits != "" && Numeral(c.digits, |c.data|) && Extension(c.ext) && |c.data| < 0x8000_0000
  }

  /** The chunks of a body, then the last chunk, whose size is zero. */
  ghost predicate Body(chunks: seq<Chunk>, last: Chunk) {
    && (forall c :: c in chunks ==> SizeLine(c) && c.data != "")
    && SizeLine(last) && last.data == ""
  }

  function Encode(chunks: seq<Chunk>, last: Chunk): string {
    if chunks == [] then last.Encoding() else chunks[0].Encoding() + Encode(chunks[1..], last)
  }

  /** The data of the chunks whose data lies in the first n bytes of the encoding. */
  function Delivered(chunks: seq<Chunk>, n: nat): string {
    if chunks == [] then ""
    else
      var c := chunks[0];
      if n < |c.Line()| + |c.data| then ""
      else c.data + if n < |c.Encoding()| then "" else Delivered(chunks[1..], n - |c.Encoding()|)
  }

  function Payload(chunks: seq<Chunk>): string {
    if chunks == [] then "" else chunks[0].data + Payload(chunks[1..])
  }

  function FeedAll(s: State, reads_: seq<string>): State
    decreases |reads_|
  {
    if reads_ == [] then s else FeedAll(Round(s, reads_[0]), reads_[1..])
  }

  // ---- The states the decoder can be in after n bytes of an encoding ----

  /** k bytes into a chunk. The CR after the data may have been skipped or kept, the LF after it is kept or not
      accordingly. */
  ghost predicate InChunk(c: Chunk, k: nat, s: State, done: string)
    requires k < |c.Encoding()|
  {
    var line, end := |c.Line()|, |c.Line()| + |c.data|;
    if k < line then
      s.reading && s.content == done && (s.buffer == c.Line()[..k] || s.buffer == "\n" + c.Line()[..k])
    else if k < end then
      !s.reading && s.content == done && s.length == |c.data| && s.buffer == c.data[..k - line]
    else if k == end then
      s.reading && s.content == done + c.data && s.buffer == ""
    else
      s.reading && s.content == done + c.data && (s.buffer == "\r" || (s.buffer == "" && c.data != ""))
  }

  ghost predicate InBody(chunks: seq<Chunk>, last: Chunk, n: nat, s: State, done: string)
    requires n <= |Encode(chunks, last)|
    decreases |chunks|
  {
    if chunks != [] && n >= |chunks[0].Encoding()| then
      InBody(chunks[1..], last, n - |chunks[0].Encoding()|, s, done + chunks[0].data)
    else if chunks == [] && n == |last.Encoding()| then
      s == State(true, 0, "", done)
    else
      InChunk(if chunks == [] then last else chunks[0], n, s, done)
  }

  // ---- Size lines ----

  lemma DigitWorth(c: char, d: nat)
    requires d < 16
    ensures IsDigit(c, d) <==> HexDigit(c) == d
  {
  }

  /** Another digit multiplies what came before by 16. */
  lemma {:induction false} HexRunNext(s: string, c: char, acc: nat)
    requires forall i :: 0 <= i < |s| ==> HexDigit(s[i]) >= 0
    requires HexDigit(c) >= 0
    ensures HexRun(s + [c], acc) == 16 * HexRun(s, acc) + HexDigit(c)
    decreases |s|
  {
    if s == "" {
      assert (s + [c])[1..] == "";
    } else {
      assert (s + [c])[1..] == s[1..] + [c];
      HexRunNext(s[1..], c, 16 * acc + HexDigit(s[0]));
    }
  }

  /** strtoll reads every numeral in base 16 as its number, whatever the case of the digits and however many zeros
      lead. */
  lemma {:induction false} NumeralRead(s: string, n: nat)
    requires Numeral(s, n)
    ensures (forall i :: 0 <= i < |s| ==> HexDigit(s[i]) >= 0) && HexRun(s, 0) == n
    decreases |s|
  {
    if s != "" {
      var k := |s| - 1;
      NumeralRead(s[..k], n / 16);
      DigitWorth(s[k], n % 16);
      HexRunNext(s[..k], s[k], 0);
      assert s == s[..k] + [s[k]];
    }
  }

  /** And every run of hexadecimal digits is a numeral of the number read. */
  lemma {:induction false} DigitsAreNumeral(s: string)
    requires forall i :: 0 <= i < |s| ==> HexDigit(s[i]) >= 0
    ensures Numeral(s, HexRun(s, 0))
    decreases |s|
  {
    if s != "" {
      var t, c := s[..|s| - 1], s[|s| - 1];
      assert forall i :: 0 <= i < |t| ==> HexDigit(t[i]) >= 0;
      assert HexDigit(c) >= 0;
      DigitsAreNumeral(t);
      LongerNumeral(t, c);
      hide *;
      assert s == t + [c];
    }
  }

  lemma LongerNumeral(t: string, c: char)
    requires (forall i :: 0 <= i < |t| ==> HexDigit(t[i]) >= 0) && HexDigit(c) >= 0 && Numeral(t, HexRun(t, 0))
    ensures Numeral(t + [c], HexRun(t + [c], 0))
  {
    hide *;
    DigitBounds(c);
    DigitWorth(c, HexDigit(c));
    HexRunNext(t, c, 0);
    NumeralNext(t, c, HexRun(t, 0), HexDigit(c));
  }

  lemma DigitBounds(c: char)
    ensures HexDigit(c) < 16
  {
  }

  lemma LastDigit(a: nat, d: nat)
    requires d < 16
    ensures (16 * a + d) % 16 == d && (16 * a + d) / 16 == a
  {
  }

  lemma NumeralNext(t: string, c: char, a: nat, d: nat)
    requires Numeral(t, a) && IsDigit(c, d)
    ensures Numeral(t + [c], 16 * a + d)
  {
    LastDigit(a, d);
    hide IsDigit;
    assert (t + [c])[..|t|] == t;
  }

  lemma {:induction false} HexRunStops(digits: string, rest: string, acc: nat)
    requires (forall i :: 0 <= i < |digits| ==> HexDigit(digits[i]) >= 0) && (rest != "" ==> HexDigit(rest[0]) < 0)
    ensures HexRun(digits + rest, acc) == HexRun(digits, acc)
    decreases |digits|
  {
    if digits == "" {
      assert digits + rest == rest;
    } else {
      assert (digits + rest)[1..] == digits[1..] + rest;
      HexRunStops(digits[1..], rest, 16 * acc + HexDigit(digits[0]));
    }
  }

  /** A line feed left over before the size line does not change the size read. */
  lemma SizeRead(c: Chunk)
    requires SizeLine(c)
    ensures ToInt(Strtoll(c.digits + c.ext)) == |c.data| && ToInt(Strtoll("\n" + (c.digits + c.ext))) == |c.data|
  {
    var t := c.digits + c.ext;
    NumeralRead(c.digits, |c.data|);
    hide Numeral;
    HexRunStops(c.digits, c.ext, 0);
    SizeText(c);
    hide HexRun, HexDigit;
    assert ("\n" + t)[1..] == t;
    assert SkipSpace("\n" + t) == SkipSpace(t);
    hide SkipSpace, Unprefixed;
  }

  /** Before a size there is nothing to skip. */
  lemma SizeText(c: Chunk)
    requires c.digits != "" && (forall i :: 0 <= i < |c.digits| ==> HexDigit(c.digits[i]) >= 0) && Extension(c.ext)
    ensures var t := c.digits + c.ext;
            t != "" && SkipSpace(t) == t && Unprefixed(t) == t && t[0] != '-' && t[0] != '+'
  {
    var t := c.digits + c.ext;
    assert t[0] == c.digits[0];
    if |t| >= 2 {
      assert t[1] == if |c.digits| >= 2 then c.digits[1] else c.ext[0];
    }
  }

  /** A long long nearest to x. */
  function Clamped(x: int): int {
    if x > 0x7fff_ffff_ffff_ffff then 0x7fff_ffff_ffff_ffff
    else if x < -0x8000_0000_0000_0000 then -0x8000_0000_0000_0000
    else x
  }

  /** What strtoll with base 16 makes of any number: white space, a sign, 0x or 0X, digits, and what comes after. */
  lemma StrtollReads(ws: string, sign: string, prefix: string, digits: string, n: nat, rest: string)
    requires (forall i :: 0 <= i < |ws| ==> ws[i] in " \t\n" || ws[i] as int in [11, 12, 13])
    requires sign in ["", "+", "-"] && prefix in ["", "0x", "0X"] && digits != "" && Numeral(digits, n)
    requires rest != "" ==> HexDigit(rest[0]) < 0 && (prefix == "" && digits == "0" ==> rest[0] !in "xX")
    ensures Strtoll(ws + (sign + (prefix + (digits + rest)))) == Clamped(if sign == "-" then 0 - (n as int) else n)
  {
    var t := digits + rest;
    var u := sign + (prefix + t);
    NumeralRead(digits, n);
    HexRunStops(digits, rest, 0);
    Prefixed(prefix, digits, rest);
    SpaceSkipped(ws, u);
    hide HexRun, Numeral, Unprefixed, HexDigit;
    assert sign != "" ==> u[0] == sign[0] && u[1..] == prefix + t;
    assert sign == "" ==> u == prefix + t;
  }

  lemma Prefixed(prefix: string, digits: string, rest: string)
    requires prefix in ["", "0x", "0X"] && digits != "" && forall i :: 0 <= i < |digits| ==> HexDigit(digits[i]) >= 0
    requires rest != "" ==> HexDigit(rest[0]) < 0 && (prefix == "" && digits == "0" ==> rest[0] !in "xX")
    ensures var v := prefix + (digits + rest);
            Unprefixed(v) == digits + rest && v != "" && v[0] !in "+-" && !IsSpace(v[0])
  {
    var t, v := digits + rest, prefix + (digits + rest);
    assert t[0] == digits[0];
    if prefix == "" {
      assert v == t;
      if |t| >= 2 && |digits| >= 2 { assert t[1] == digits[1]; }
      if |t| >= 2 && |digits| == 1 { assert t[1] == rest[0] && digits == [digits[0]]; }
    } else {
      assert v[2..] == t && v[2] == t[0];
    }
  }

  lemma {:induction false} SpaceSkipped(ws: string, u: string)
    requires (forall i :: 0 <= i < |ws| ==> IsSpace(ws[i])) && (u != "" ==> !IsSpace(u[0]))
    ensures SkipSpace(ws + u) == u
    decreases |ws|
  {
    if ws == "" {
      assert ws + u == u;
    } else {
      assert (ws + u)[1..] == ws[1..] + u;
      SpaceSkipped(ws[1..], u);
    }
  }

  // ---- One step ----

  /** No byte of a size line but its last is a line feed. */
  lemma LineFeedLast(c: Chunk, k: nat)
    requires SizeLine(c) && k + 1 < |c.Line()|
    ensures c.Line()[k] != '\n'
  {
    NumeralRead(c.digits, |c.data|);
    if k < |c.digits| {
      assert c.Line()[k] == c.digits[k];
    } else if k < |c.digits + c.ext| {
      assert c.Line()[k] == c.ext[k - |c.digits|];
    }
  }

  lemma LineByte(c: Chunk, k: nat, s: State, done: string)
    requires SizeLine(c) && k < |c.Line()| && InChunk(c, k, s, done)
    ensures InChunk(c, k + 1, ReadByte(s, c.Encoding()[k]), done)
  {
    hide Strtoll; hide SizeLine;
    var line := c.Line();
    assert c.Encoding()[k] == line[k] && line[..k] + [line[k]] == line[..k + 1];
    assert ("\n" + line[..k]) + [line[k]] == "\n" + line[..k + 1];
    if k + 1 < |line| {
      LineFeedLast(c, k);
    } else {
      LineEnd(c, s);
    }
  }

  lemma LineEnd(c: Chunk, s: State)
    requires SizeLine(c)
    requires var line := c.Line(); s.buffer == line[..|line| - 1] || s.buffer == "\n" + line[..|line| - 1]
    ensures ReadByte(s, '\n') == State(c.data == "", |c.data|, "", s.content)
  {
    hide Strtoll; hide ToInt;
    var t := c.digits + c.ext;
    SizeRead(c);
    assert c.Line()[..|t| + 1] == t + "\r";
    var buffer := s.buffer + "\n";
    assert s.buffer == t + "\r" ==> buffer[..|buffer| - 2] == t;
    assert s.buffer == "\n" + (t + "\r") ==> buffer[..|buffer| - 2] == "\n" + t;
  }

  lemma AfterDataByte(c: Chunk, k: nat, s: State, done: string)
    requires SizeLine(c) && |c.Line()| + |c.data| <= k < |c.Encoding()| && InChunk(c, k, s, done)
    ensures var s' := ReadByte(s, c.Encoding()[k]);
            if k + 1 < |c.Encoding()| then InChunk(c, k + 1, s', done)
            else if c.data == "" then s' == State(true, 0, "", done)
            else s'.reading && s'.content == done + c.data && (s'.buffer == "" || s'.buffer == "\n")
  {
    assert c.Encoding()[k] == "\r\n"[k - |c.Line()| - |c.data|];
    assert Strtoll("") == 0;
    assert c.data == "" ==> done + c.data == done;
  }

  /** While data is read, the bytes taken are those of the chunk, however many the read brings. */
  lemma DataTaken(c: Chunk, k: nat, s: State, done: string, n: nat)
    requires SizeLine(c) && k < |c.Encoding()| && InChunk(c, k, s, done) && !s.reading
    ensures |c.Line()| <= k < |c.Line()| + |c.data|
    ensures var left := |c.Line()| + |c.data| - k;
            var w := Wanted(s, n);
            && w == (if left < n then left else n)
            && InChunk(c, k + w, ReadData(s, c.Encoding()[k..k + w]), done)
            && (w == left ==> InChunk(c, k + w + 1, ReadData(s, c.Encoding()[k..k + w]), done))
  {
    var line := |c.Line()|;
    var left := line + |c.data| - k;
    var w := Wanted(s, n);
    assert c.Encoding()[k..k + w] == c.data[k - line..k - line + w];
    assert c.data[..k - line] + c.data[k - line..k - line + w] == c.data[..k - line + w];
    assert w == left ==> c.data[..k - line + w] == c.data;
  }

  // ---- The whole encoding ----

  lemma EncodeParts(chunks: seq<Chunk>, last: Chunk, n: nat, m: nat)
    requires chunks != [] && n <= m <= |Encode(chunks, last)|
    ensures var e := |chunks[0].Encoding()|;
            && (n >= e ==> Encode(chunks, last)[n..m] == Encode(chunks[1..], last)[n - e..m - e])
            && (m <= e ==> Encode(chunks, last)[n..m] == chunks[0].Encoding()[n..m])
  {
  }

  lemma {:induction false} ByteKeepsInBody(chunks: seq<Chunk>, last: Chunk, n: nat, s: State, done: string)
    requires Body(chunks, last) && n < |Encode(chunks, last)| && InBody(chunks, last, n, s, done) && s.reading
    ensures InBody(chunks, last, n + 1, ReadByte(s, Encode(chunks, last)[n]), done)
    decreases |chunks|
  {
    if chunks != [] && n >= |chunks[0].Encoding()| {
      ByteKeepsInBody(chunks[1..], last, n - |chunks[0].Encoding()|, s, done + chunks[0].data);
    } else {
      var c := if chunks == [] then last else chunks[0];
      assert chunks != [] ==> c in chunks;
      assert Encode(chunks, last)[n] == c.Encoding()[n];
      if n < |c.Line()| {
        LineByte(c, n, s, done);
      } else {
        AfterDataByte(c, n, s, done);
        if n + 1 == |c.Encoding()| && chunks != [] {
          StartsChunk(chunks[1..], last, ReadByte(s, c.Encoding()[n]), done + c.data);
        }
      }
    }
  }

  lemma StartsChunk(chunks: seq<Chunk>, last: Chunk, s: State, done: string)
    requires s.reading && s.content == done && (s.buffer == "" || s.buffer == "\n")
    ensures InBody(chunks, last, 0, s, done)
  {
    var c := if chunks == [] then last else chunks[0];
    assert c.Line()[..0] == "" && "\n" + "" == "\n";
  }

  lemma {:induction false} DataKeepsInBody(chunks: seq<Chunk>, last: Chunk, n: nat, s: State, done: string, m: nat)
    requires Body(chunks, last) && n < m <= |Encode(chunks, last)| && InBody(chunks, last, n, s, done) && !s.reading
    ensures var w := Wanted(s, m - n);
            var s' := ReadData(s, Encode(chunks, last)[n..n + w]);
            InBody(chunks, last, if n + w < m then n + w + 1 else m, s', done)
    decreases |chunks|
  {
    hide Wanted; hide ReadData; hide InChunk; hide SizeLine;
    var e := Encode(chunks, last);
    var w := Wanted(s, m - n);
    if chunks != [] && n >= |chunks[0].Encoding()| {
      var k := |chunks[0].Encoding()|;
      EncodeParts(chunks, last, n, n + w);
      DataKeepsInBody(chunks[1..], last, n - k, s, done + chunks[0].data, m - k);
    } else {
      var c := if chunks == [] then last else chunks[0];
      assert chunks != [] ==> c in chunks;
      DataTaken(c, n, s, done, m - n);
      FirstEncoding(chunks, last);
      SameSlice(c.Encoding(), e, n, n + w);
    }
  }

  lemma FirstEncoding(chunks: seq<Chunk>, last: Chunk)
    ensures (if chunks == [] then last else chunks[0]).Encoding() <= Encode(chunks, last)
  {
  }

  lemma SameSlice(p: string, s: string, a: nat, b: nat)
    requires p <= s && a <= b <= |p|
    ensures s[a..b] == p[a..b]
  {
  }

  /** However the encoding has been cut so far, one more read of any length leaves the decoder in step with it. */
  lemma {:induction false} RoundKeepsInBody(chunks: seq<Chunk>, last: Chunk, n: nat, m: nat, s: State)
    requires Body(chunks, last) && n <= m <= |Encode(chunks, last)| && InBody(chunks, last, n, s, "")
    ensures InBody(chunks, last, m, Round(s, Encode(chunks, last)[n..m]), "")
    decreases m - n
  {
    hide Wanted; hide ReadData; hide ReadByte; hide InBody; hide Encode; hide Body;
    var e := Encode(chunks, last);
    if n < m {
      if s.reading {
        ByteKeepsInBody(chunks, last, n, s, "");
        assert e[n..m][0] == e[n] && e[n..m][1..] == e[n + 1..m];
        RoundKeepsInBody(chunks, last, n + 1, m, ReadByte(s, e[n]));
      } else {
        var w := Wanted(s, m - n);
        DataKeepsInBody(chunks, last, n, s, "", m);
        var s' := ReadData(s, e[n..n + w]);
        assert e[n..m][..w] == e[n..n + w];
        if n + w < m {
          assert e[n..m][w + 1..] == e[n + w + 1..m];
          RoundKeepsInBody(chunks, last, n + w + 1, m, s');
        }
      }
    }
  }

  lemma {:induction false} InBodyDelivers(chunks: seq<Chunk>, last: Chunk, n: nat, s: State, done: string)
    requires Body(chunks, last) && n <= |Encode(chunks, last)| && InBody(chunks, last, n, s, done)
    ensures s.content == done + Delivered(chunks, n)
    ensures n == |Encode(chunks, last)| ==>
              Delivered(chunks, n) == Payload(chunks) && s == State(true, 0, "", s.content)
    decreases |chunks|
  {
    if chunks != [] {
      var c := chunks[0];
      if n >= |c.Encoding()| {
        InBodyDelivers(chunks[1..], last, n - |c.Encoding()|, s, done + c.data);
        Regrouped(done, c.data, Delivered(chunks[1..], n - |c.Encoding()|));
      }
    }
  }

  lemma Regrouped(a: string, b: string, c: string)
    ensures a + b + c == a + (b + c)
  {
  }

  /** Chunked decoding does not depend on how the stream was cut: after reads that together bring the first n bytes of
      an encoding, the content is the data of the chunks received completely; after all of it, the whole payload. */
  lemma CutsDoNotMatter(chunks: seq<Chunk>, last: Chunk, reads_: seq<string>)
    requires Body(chunks, last) && Joined(reads_) <= Encode(chunks, last)
    ensures var s := FeedAll(Init, reads_);
            && s.content == Delivered(chunks, |Joined(reads_)|)
            && (Joined(reads_) == Encode(chunks, last) ==> s == State(true, 0, "", Payload(chunks)))
  {
    var e := Encode(chunks, last);
    StartsChunk(chunks, last, Init, "");
    FeedKeepsInBody(chunks, last, 0, Init, reads_);
    var n := |Joined(reads_)|;
    InBodyDelivers(chunks, last, n, FeedAll(Init, reads_), "");
    assert "" + Delivered(chunks, n) == Delivered(chunks, n);
  }

  lemma {:induction false} FeedKeepsInBody(chunks: seq<Chunk>, last: Chunk, n: nat, s: State, reads_: seq<string>)
    requires Body(chunks, last) && n <= |Encode(chunks, last)| && InBody(chunks, last, n, s, "")
    requires Joined(reads_) <= Encode(chunks, last)[n..]
    ensures n + |Joined(reads_)| <= |Encode(chunks, last)|
    ensures InBody(chunks, last, n + |Joined(reads_)|, FeedAll(s, reads_), "")
    decreases |reads_|
  {
    hide InBody; hide Round; hide Encode; hide Body;
    if reads_ != [] {
      var e := Encode(chunks, last);
      var m := n + |reads_[0]|;
      JoinedHead(reads_);
      assert reads_[0] == Joined(reads_)[..|reads_[0]|] == e[n..m];
      RoundKeepsInBody(chunks, last, n, m, s);
      assert Joined(reads_[1..]) == Joined(reads_)[|reads_[0]|..];
      assert e[m..] == e[n..][|reads_[0]|..];
      FeedKeepsInBody(chunks, last, m, Round(s, reads_[0]), reads_[1..]);
    }
  }
}
