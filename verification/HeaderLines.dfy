/** What parse_header answers for any header text: the request line in words, the field lines in parts. */
module HeaderLines {
  import opened Parray
  import opened ParseHeader
  import opened Pattern

  // ---- Words ----

  /** The pieces of s between its spaces. */
  function Words(s: string): (ws: seq<string>)
    ensures |ws| > 0
    decreases |s|
  {
    if s == "" then [""]
    else
      var ws, n := Words(s[..|s| - 1]), |Words(s[..|s| - 1])| - 1;
      if s[|s| - 1] == ' ' then ws + [""] else ws[..n] + [ws[n] + [s[|s| - 1]]]
  }

  /** Words separated by single spaces. */
  function Spaced(ws: seq<string>): string
    requires |ws| > 0
  {
    if |ws| == 1 then ws[0] else Spaced(ws[..|ws| - 1]) + " " + ws[|ws| - 1]
  }

  /** Words written with single spaces between them are the words that are read. */
  lemma {:induction false} WordsOfSpaced(ws: seq<string>)
    requires |ws| > 0 && forall k :: 0 <= k < |ws| ==> ' ' !in ws[k]
    ensures Words(Spaced(ws)) == ws
    decreases |ws|
  {
    var n := |ws| - 1;
    if n == 0 {
      WordGrows("", ws[0]);
      FirstWord(ws);
    } else {
      WordsOfSpaced(ws[..n]);
      NextWord(ws);
    }
  }

  lemma FirstWord(ws: seq<string>)
    requires |ws| == 1 && Words("" + ws[0]) == Words("")[..0] + [Words("")[0] + ws[0]]
    ensures Words(Spaced(ws)) == ws
  {
    assert "" + ws[0] == ws[0] && ws == [ws[0]];
  }

  lemma NextWord(ws: seq<string>)
    requires |ws| > 1 && ' ' !in ws[|ws| - 1] && Words(Spaced(ws[..|ws| - 1])) == ws[..|ws| - 1]
    ensures Words(Spaced(ws)) == ws
  {
    hide Words;
    var n := |ws| - 1;
    var s := Spaced(ws[..n]);
    assert Spaced(ws) == s + " " + ws[n];
    hide Spaced;
    WordsNext(s, ' ');
    WordGrows(s + " ", ws[n]);
    Rejoined(ws, ws[..n] + [""]);
  }

  lemma Rejoined(ws: seq<string>, vs: seq<string>)
    requires ws != [] && vs == ws[..|ws| - 1] + [""]
    ensures vs[..|vs| - 1] + [vs[|vs| - 1] + ws[|ws| - 1]] == ws
  {
    var n := |ws| - 1;
    assert vs[..n] == ws[..n] && vs[n] + ws[n] == ws[n];
  }

  lemma {:induction false} WordGrows(s: string, w: string)
    requires ' ' !in w
    ensures var ws, n := Words(s), |Words(s)| - 1;
            Words(s + w) == ws[..n] + [ws[n] + w]
    decreases |w|
  {
    hide Words;
    var ws, n := Words(s), |Words(s)| - 1;
    if w == "" {
      assert s + w == s;
      NothingJoined(ws);
    } else {
      var v, c := w[..|w| - 1], w[|w| - 1];
      assert c in w;
      WordGrows(s, v);
      WordsNext(s + v, c);
      ByteJoined(ws, v, c);
      assert s + v + [c] == s + w && v + [c] == w;
    }
  }

  lemma NothingJoined(ws: seq<string>)
    requires |ws| > 0
    ensures ws[..|ws| - 1] + [ws[|ws| - 1] + ""] == ws
  {
    assert ws[|ws| - 1] + "" == ws[|ws| - 1];
  }

  lemma ByteJoined(ws: seq<string>, v: string, c: char)
    requires |ws| > 0
    ensures var n := |ws| - 1;
            var vs := ws[..n] + [ws[n] + v];
            vs[..n] + [vs[n] + [c]] == ws[..n] + [ws[n] + (v + [c])]
  {
    var n := |ws| - 1;
    assert ws[n] + v + [c] == ws[n] + (v + [c]);
    assert (ws[..n] + [ws[n] + v])[..n] == ws[..n];
  }

  /** What is stored of the words of a request line: the first three, the others are ignored. */
  function Stored(ws: seq<string>): Table {
    var none: Table := [];
    var a := if |ws| >= 1 then Put(none, "Request", Text(ws[0])) else none;
    var b := if |ws| >= 2 then Put(a, "Path", Text(ws[1])) else a;
    if |ws| >= 3 then Put(b, "Version", Text(ws[2])) else b
  }

  lemma StoredNext(ws: seq<string>, w: string)
    ensures Stored(ws + [w]) == PutItem(Stored(ws), |ws|, w)
  {
    hide Put, Text;
  }

  /** A stored string ends before its first NUL. */
  lemma {:induction false} TextEndsAtNul(s: string)
    ensures Text(s) == s[..Next(s, 0, '\0')]
    decreases |s|
  {
    if s != "" && s[0] != '\0' {
      TextEndsAtNul(s[1..]);
      var j, k := Next(s, 0, '\0'), Next(s[1..], 0, '\0');
      FirstIs(s, j, k + 1);
      assert s[..j] == [s[0]] + s[1..][..k];
    }
  }

  lemma FirstIs(s: string, j: nat, k: nat)
    requires s != "" && s[0] != '\0' && k > 0 && j == Next(s, 0, '\0') && k - 1 == Next(s[1..], 0, '\0')
    ensures j == k
  {
    assert forall i :: 0 < i < |s| ==> s[1..][i - 1] == s[i];
    assert Absent('\0', s, 1, k) by {
      assert forall i :: 1 <= i < k ==> s[1..][i - 1] == s[i];
    }
  }

  // ---- The request line ----

  /** No byte that is collected lies at the limit of 4096 or beyond. */
  predicate Fits(s: string) {
    forall i :: 4096 <= i < |s| ==> s[i] == ' '
  }

  /** The first loop at offset oi, in the last of these words, with those before it stored. */
  function LineAt(rest: string, oi: nat, ws: seq<string>): Outcome
    requires |ws| > 0
  {
    Line(rest, oi, ws[|ws| - 1], |ws| - 1, Stored(ws[..|ws| - 1]))
  }

  /** Where the first loop is after s. */
  function After(s: string, rest: string): Outcome {
    LineAt(rest, |s|, Words(s))
  }

  lemma {:induction false} LineReads(s: string, rest: string)
    requires '\n' !in s && Fits(s)
    ensures Line(s + rest, 0, "", 0, []) == After(s, rest)
    decreases |s|
  {
    if s == "" {
      assert s + rest == rest;
      assert Words(s)[..0] == [];
    } else {
      var q, c := s[..|s| - 1], s[|s| - 1];
      assert c in s;
      hide Line, After;
      assert s + rest == q + ([c] + rest);
      LineReads(q, [c] + rest);
      OneMore(q, c, rest);
      assert q + [c] == s;
    }
  }

  lemma {:induction false} OneMore(q: string, c: char, rest: string)
    requires c != '\n' && (c != ' ' ==> |q| < 4096)
    ensures After(q, [c] + rest) == After(q + [c], rest)
  {
    WordsNext(q, c);
    hide Words, LineAt;
    if c == ' ' {
      SpaceStores(rest, |q|, Words(q));
    } else {
      ByteJoins(c, rest, |q|, Words(q));
    }
  }

  lemma SpaceStores(rest: string, oi: nat, ws: seq<string>)
    requires |ws| > 0
    ensures LineAt([' '] + rest, oi, ws) == LineAt(rest, oi + 1, ws + [""])
  {
    var n := |ws| - 1;
    LineByte(' ', rest, oi, ws[n], n, Stored(ws[..n]));
    StoredNext(ws[..n], ws[n]);
    hide Line, Stored, PutItem;
    var vs := ws + [""];
    assert vs[..n + 1] == ws[..n] + [ws[n]];
  }

  lemma ByteJoins(c: char, rest: string, oi: nat, ws: seq<string>)
    requires |ws| > 0 && c != ' ' && c != '\n' && oi < 4096
    ensures var n := |ws| - 1; LineAt([c] + rest, oi, ws) == LineAt(rest, oi + 1, ws[..n] + [ws[n] + [c]])
  {
    var n := |ws| - 1;
    LineByte(c, rest, oi, ws[n], n, Stored(ws[..n]));
    hide Line, Stored, PutItem;
    var vs := ws[..n] + [ws[n] + [c]];
    assert vs[..n] == ws[..n];
  }

  lemma WordsNext(q: string, c: char)
    ensures var ws, n := Words(q), |Words(q)| - 1;
            Words(q + [c]) == if c == ' ' then ws + [""] else ws[..n] + [ws[n] + [c]]
  {
    assert (q + [c])[..|q + [c]| - 1] == q;
  }

  lemma LineByte(c: char, rest: string, oi: nat, current: string, item: nat, table: Table)
    requires c != '\n' && (c != ' ' ==> oi < 4096)
    ensures Line([c] + rest, oi, current, item, table) ==
            if c == ' ' then Line(rest, oi + 1, "", item + 1, PutItem(table, item, current))
            else Line(rest, oi + 1, current + [c], item, table)
  {
    assert ([c] + rest)[1..] == rest;
  }

  /** The first collected byte at the limit ends the parse with -2. */
  lemma {:induction false} LineTooLong(text: string, i: nat)
    requires 4096 <= i < |text| && text[i] != ' ' && text[i] != '\n' && '\n' !in text[..i] && Fits(text[..i])
    ensures var ws := Words(text[..i]); Line(text, 0, "", 0, []) == Failed(-2, Stored(ws[..|ws| - 1]))
  {
    assert text == text[..i] + text[i..];
    LineReads(text[..i], text[i..]);
  }

  /** Text that ends before any line feed: with fewer than three spaces the answer is -1. */
  lemma {:induction false} LineUnended(text: string)
    requires '\n' !in text && Fits(text)
    ensures var ws := Words(text);
            Line(text, 0, "", 0, []) == if |ws| - 1 < 3 then Failed(-1, Stored(ws[..|ws| - 1])) else Undefined
  {
    assert text + "" == text;
    LineReads(text, "");
  }

  /** A line feed ends the line. Its last word loses a byte, the CR; with fewer than three words the answer is -1. */
  lemma {:induction false} LineEnds(line: string, rest: string)
    requires '\n' !in line && Fits(line)
    ensures var ws, n := Words(line), |Words(line)| - 1;
            Line(line + ("\n" + rest), 0, "", 0, []) ==
            if ws[n] == "" then Undefined
            else
              var stored := Stored(ws[..n] + [ws[n][..|ws[n]| - 1]]);
              if |ws| < 3 then Failed(-1, stored) else Fields(rest, true, "", "", stored)
  {
    LineReads(line, "\n" + rest);
    var ws, n := Words(line), |Words(line)| - 1;
    LineFeed(rest, |line|, ws[n], n, Stored(ws[..n]));
    if ws[n] != "" {
      StoredNext(ws[..n], ws[n][..|ws[n]| - 1]);
    }
    hide Stored, Fields, Words, Line;
  }

  lemma LineFeed(rest: string, oi: nat, current: string, item: nat, table: Table)
    ensures Line("\n" + rest, oi, current, item, table) ==
            if current == "" then Undefined
            else
              var t := PutItem(table, item, current[..|current| - 1]);
              if item + 1 < 3 then Failed(-1, t) else Fields(rest, true, "", "", t)
  {
    assert ("\n" + rest)[1..] == rest;
    hide Fields;
  }

  /** A request line of any number of words: with three or more, the first three are stored, the later ones ignored, and
      the fields follow; with fewer, the words are stored and the answer is -1. */
  lemma {:induction false} RequestWords(ws: seq<string>, rest: string)
    requires |ws| > 0 && (forall k :: 0 <= k < |ws| ==> ' ' !in ws[k] && '\n' !in ws[k]) && |Spaced(ws)| < 4096
    ensures Line(Spaced(ws) + ("\r\n" + rest), 0, "", 0, []) ==
            if |ws| < 3 then Failed(-1, Stored(ws)) else Fields(rest, true, "", "", Stored(ws))
  {
    NoLineFeed(ws);
    ReturnJoined(ws);
    hide *;
    ReturnFits(Spaced(ws), rest);
    LineEnds(Spaced(ws) + "\r", rest);
  }

  lemma ReturnFits(s: string, rest: string)
    requires |s| < 4096 && '\n' !in s
    ensures Fits(s + "\r") && '\n' !in s + "\r" && s + "\r" + ("\n" + rest) == s + ("\r\n" + rest)
  {
  }

  /** The CR is read as part of the last word, and cut off again. */
  lemma {:induction false} ReturnJoined(ws: seq<string>)
    requires |ws| > 0 && forall k :: 0 <= k < |ws| ==> ' ' !in ws[k]
    ensures var vs, n := Words(Spaced(ws) + "\r"), |Words(Spaced(ws) + "\r")| - 1;
            |vs| == |ws| && vs[n] != "" && vs[..n] + [vs[n][..|vs[n]| - 1]] == ws
  {
    WordsOfSpaced(ws);
    WordGrows(Spaced(ws), "\r");
    hide Words, Spaced;
    var n := |ws| - 1;
    var w := ws[n] + "\r";
    assert w[..|w| - 1] == ws[n];
    assert (ws[..n] + [w])[..n] == ws[..n];
    assert ws[..n] + [ws[n]] == ws;
  }

  lemma {:induction false} NoLineFeed(ws: seq<string>)
    requires |ws| > 0 && forall k :: 0 <= k < |ws| ==> '\n' !in ws[k]
    ensures '\n' !in Spaced(ws)
    decreases |ws|
  {
    if |ws| > 1 {
      NoLineFeed(ws[..|ws| - 1]);
    }
  }

  // ---- The field lines ----

  function Stripped(s: string): (t: string)
    ensures StartsPlain(t) && |t| <= |s| && s == Spaces(|s| - |t|) + t
  {
    if s != "" && s[0] == ' ' then Stripped(s[1..]) else s
  }

  /** Each field is what comes before the next colon and what comes after it up to the next line feed, both without the
      spaces in front. The value loses its last byte, the CR, unless the text ends there. Text after the last field that
      holds no colon is ignored. */
  function InParts(text: string, table: Table): Outcome
    decreases |text|
  {
    var k := Next(text, 0, ':');
    if k == |text| then Parsed(table)
    else
      var key, after := Stripped(text[..k]), text[k + 1..];
      var n := Next(after, 0, '\n');
      var value := Stripped(after[..n]);
      if n == |after| then Parsed(Put(table, key, value))
      else if value == "" then Undefined
      else InParts(after[n + 1..], Put(table, key, value[..|value| - 1]))
  }

  /** The second loop reads any text without NUL in these parts. */
  lemma {:induction false} FieldsInParts(text: string, table: Table)
    requires '\0' !in text
    ensures Fields(text, true, "", "", table) == InParts(text, table)
    decreases |text|
  {
    var k := Next(text, 0, ':');
    if k == |text| {
      PartRead(text, k, true, "", table);
      PartsOver(text, table, Stripped(text[..k]));
      hide Fields;
    } else {
      var key, after := Stripped(text[..k]), text[k + 1..];
      var n := Next(after, 0, '\n');
      var value := Stripped(after[..n]);
      hide *;
      FieldRead(text, k, n, table);
      PartsNext(text, k, n, table);
      if n < |after| && value != "" {
        NoNul(text, after, n + 1);
        FieldsInParts(after[n + 1..], Put(table, key, value[..|value| - 1]));
      }
    }
  }

  lemma NoNul(text: string, after: string, n: nat)
    requires '\0' !in text && |after| <= |text| && after == text[|text| - |after|..] && n <= |after|
    ensures '\0' !in after[n..]
  {
  }

  lemma PartsOver(text: string, table: Table, key: string)
    requires Next(text, 0, ':') == |text|
    ensures InParts(text, table) == Parsed(table) == Fields(text[|text|..], true, key, "", table)
  {
    hide Next;
  }

  /** InParts, one field further. */
  lemma PartsNext(text: string, k: nat, n: nat, table: Table)
    requires k < |text| && k == Next(text, 0, ':') && n == Next(text[k + 1..], 0, '\n')
    ensures var key, after, value := Stripped(text[..k]), text[k + 1..], Stripped(text[k + 1..][..n]);
            InParts(text, table) ==
            if n == |after| then Parsed(Put(table, key, value))
            else if value == "" then Undefined
            else InParts(after[n + 1..], Put(table, key, value[..|value| - 1]))
  {
    hide Next, Stripped, Put, Text;
  }

  /** The second loop, one field further. */
  lemma {:induction false} FieldRead(text: string, k: nat, n: nat, table: Table)
    requires '\0' !in text && k < |text| && k == Next(text, 0, ':') && n == Next(text[k + 1..], 0, '\n')
    ensures var key, after, value := Stripped(text[..k]), text[k + 1..], Stripped(text[k + 1..][..n]);
            Fields(text, true, "", "", table) ==
            if n == |after| then Parsed(Put(table, key, value))
            else if value == "" then Undefined
            else Fields(after[n + 1..], true, "", "", Put(table, key, value[..|value| - 1]))
  {
    PartRead(text, k, true, "", table);
    NameEnds(text, k, Stripped(text[..k]), table);
    PartIsText(text[..k]);
    NoNul(text, text[k + 1..], 0);
    assert text[k + 1..][0..] == text[k + 1..];
    hide Fields, Stripped, Put, Text;
    ValueRead(text[k + 1..], n, Stripped(text[..k]), table);
  }

  lemma NameEnds(text: string, k: nat, key: string, table: Table)
    requires k < |text| && text[k] == ':'
    ensures Fields(text[k..], true, key, "", table) == Fields(text[k + 1..], false, "", key, table)
  {
    ColonTaken(key, text[k + 1..], table);
    assert text[k..] == ":" + text[k + 1..];
  }

  lemma {:induction false} ValueRead(after: string, n: nat, key: string, table: Table)
    requires '\0' !in after && n == Next(after, 0, '\n') && Text(key) == key
    ensures var value := Stripped(after[..n]);
            Fields(after, false, "", key, table) ==
            if n == |after| then Parsed(Put(table, key, value))
            else if value == "" then Undefined
            else Fields(after[n + 1..], true, "", "", Put(table, key, value[..|value| - 1]))
  {
    PartRead(after, n, false, key, table);
    PartIsText(after[..n]);
    var value := Stripped(after[..n]);
    if value != "" {
      TextIsAll(value[..|value| - 1], "\0");
    }
    ValueEnds(after[n..], key, value, table);
    assert n < |after| ==> after[n..][1..] == after[n + 1..];
    hide Fields, Text, Stripped, Put;
  }

  lemma ValueEnds(rest: string, key: string, value: string, table: Table)
    requires rest != "" ==> rest[0] == '\n'
    ensures Fields(rest, false, value, key, table) ==
            if rest == "" then Parsed(Put(table, Text(key), Text(value)))
            else if value == "" then Undefined
            else Fields(rest[1..], true, "", "", Put(table, Text(key), Text(value[..|value| - 1])))
  {
  }

  lemma PartIsText(s: string)
    requires '\0' !in s
    ensures '\0' !in Stripped(s) && Text(Stripped(s)) == Stripped(s)
  {
    var t := Stripped(s);
    forall i | 0 <= i < |t|
      ensures t[i] != '\0'
    {
      assert t[i] == s[|s| - |t| + i];
    }
    TextIsAll(t, "\0");
  }

  /** A part is collected up to its end, without the spaces in front. */
  lemma {:induction false} PartRead(text: string, k: nat, key: bool, sw: string, table: Table)
    requires k <= |text| && Absent(if key then ':' else '\n', text, 0, k) && '\0' !in text
    ensures Fields(text, key, "", sw, table) == Fields(text[k..], key, Stripped(text[..k]), sw, table)
  {
    var part := text[..k];
    var t := Stripped(part);
    var bad := if key then "\0:" else "\0\n";
    PartFree(text, k, if key then ':' else '\n', bad);
    hide Fields, Stripped, Next;
    var n := |part| - |t|;
    assert text == Spaces(n) + (t + text[k..]);
    SpacesSkipped(n, t + text[k..], key, sw, table);
    PartCollected(t, text[k..], key, "", sw, table, bad);
    assert "" + t == t;
  }

  lemma PartFree(text: string, k: nat, c: char, bad: string)
    requires k <= |text| && Absent(c, text, 0, k) && '\0' !in text && bad == ['\0', c]
    ensures Free(Stripped(text[..k]), bad)
  {
    var t := Stripped(text[..k]);
    forall i | 0 <= i < |t|
      ensures t[i] !in bad
    {
      assert t[i] == text[k - |t| + i];
    }
  }
}
