/** parse_header of src/net/util.c: a request header becomes an association list. */
module ParseHeader {
  import opened Parray

  const MAX_URI_LEN: nat := 4096

  type Table = seq<Entry<string>>

  /** Undefined: the code writes before a string or reads past the header. */
  datatype Outcome = Parsed(table: Table) | Failed(code: int, table: Table) | Undefined

  /** A C string ends at its first NUL. */
  function Text(s: string): (t: string) {
    if s == "" || s[0] == '\0' then "" else [s[0]] + Text(s[1..])
  }

  function LineKey(item: nat): string {
    if item == 0 then "Request" else if item == 1 then "Path" else "Version"
  }

  function PutItem(table: Table, item: nat, value: string): Table {
    if item < 3 then Put(table, LineKey(item), Text(value)) else table
  }

  /** The first loop: rest is unread and starts at offset oi. */
  function Line(rest: string, oi: nat, current: string, item: nat, table: Table): Outcome
    decreases |rest|
  {
    if rest == "" then
      if item < 3 then Failed(-1, table) else Undefined
    else if rest[0] == ' ' then
      Line(rest[1..], oi + 1, "", item + 1, PutItem(table, item, current))
    else if rest[0] == '\n' then
      if current == "" then Undefined
      else
        var t := PutItem(table, item, current[..|current| - 1]);
        if item + 1 < 3 then Failed(-1, t) else Fields(rest[1..], true, "", "", t)
    else if oi >= MAX_URI_LEN then Failed(-2, table)
    else Line(rest[1..], oi + 1, current + [rest[0]], item, table)
  }

  /** The second loop. */
  function Fields(rest: string, key: bool, current: string, sw: string, table: Table): Outcome
    decreases |rest|
  {
    if rest == "" then
      Parsed(if key then table else Put(table, Text(sw), Text(current)))
    else if rest[0] == ' ' && Text(current) == "" then
      Fields(rest[1..], key, current, sw, table)
    else if key && rest[0] == ':' then
      Fields(rest[1..], false, "", current, table)
    else if !key && rest[0] == '\n' then
      if current == "" then Undefined
      else Fields(rest[1..], true, "", "", Put(table, Text(sw), Text(current[..|current| - 1])))
    else
      Fields(rest[1..], key, current + [rest[0]], sw, table)
  }

  /** parse_header. */
  method ParseHeader(buffer: string, header_eof: int) returns (o: Outcome)
    requires -1 <= header_eof <= |buffer|
    ensures header_eof == -1 ==> o == Failed(-1, [])
    ensures header_eof != -1 ==> o == Line(buffer[..header_eof], 0, "", 0, [])
  {
    if header_eof == -1 { return Failed(-1, []); }
    ghost var text := buffer[..header_eof];
    var table := new Parray<string>();
    var current := "";
    var oi, item := 0, 0;
    var ended := false;
    while oi != header_eof && !ended
      invariant 0 <= oi <= header_eof && fresh(table) && item >= 0
      invariant if ended then oi < header_eof && current == "" &&
                  Line(text, 0, "", 0, []) ==
                  if item < 3 then Failed(-1, table.P) else Fields(text[oi + 1..], true, "", "", table.P)
                else Line(text, 0, "", 0, []) == Line(text[oi..], oi, current, item, table.P)
      decreases header_eof - oi, !ended
    {
      assert text[oi..][0] == buffer[oi] && text[oi..][1..] == text[oi + 1..];
      hide Put, Text, Fields;
      if buffer[oi] == ' ' || buffer[oi] == '\n' {
        if buffer[oi] == '\n' {
          if current == "" { return Undefined; }
          current := current[..|current| - 1];
        }
        if item < 3 {
          table.Set(LineKey(item), Text(current));
        }
        current := "";
        item := item + 1;
        if buffer[oi] == '\n' { ended := true; } else { oi := oi + 1; }
      } else {
        if oi >= MAX_URI_LEN {
          return Failed(-2, table.P);
        }
        current := current + [buffer[oi]];
        oi := oi + 1;
      }
    }
    if item < 3 { return Failed(-1, table.P); }
    if !ended { return Undefined; }
    o := ParseFields(buffer, header_eof, oi, table);
  }

  method ParseFields(buffer: string, header_eof: int, oi: nat, table: Parray<string>) returns (o: Outcome)
    requires oi < header_eof <= |buffer|
    modifies table
    ensures o == Fields(buffer[oi + 1..header_eof], true, "", "", old(table.P))
  {
    var key, sw, current := true, "", "";
    var i := oi + 1;
    while i != header_eof
      invariant oi < i <= header_eof
      invariant Fields(buffer[oi + 1..header_eof], true, "", "", old(table.P)) ==
                  Fields(buffer[i..header_eof], key, current, sw, table.P)
    {
      assert buffer[i..header_eof][0] == buffer[i] && buffer[i..header_eof][1..] == buffer[i + 1..header_eof];
      hide Put, Text;
      if buffer[i] == ' ' && Text(current) == "" {
      } else if (key && buffer[i] == ':') || (!key && buffer[i] == '\n') {
        if key {
          sw := current;
          current := "";
          key := false;
        } else {
          if current == "" { return Undefined; }
          current := current[..|current| - 1];
          table.Set(Text(sw), Text(current));
          current := "";
          sw := "";
          key := true;
        }
      } else {
        current := current + [buffer[i]];
      }
      i := i + 1;
    }
    if !key {
      table.Set(Text(sw), Text(current));
    }
    o := Parsed(table.P);
  }

  // ---- Printed headers ----

  datatype Field = Field(name: string, pad: nat, value: string)

  datatype Request = Request(verb: string, path: string, version: string, fields: seq<Field>)

  predicate Free(s: string, bad: string) {
    forall i :: 0 <= i < |s| ==> s[i] !in bad
  }

  predicate StartsPlain(s: string) {
    s != "" ==> s[0] != ' '
  }

  predicate WellFormedField(f: Field) {
    Free(f.name, "\0:") && StartsPlain(f.name) && Free(f.value, "\0\n") && StartsPlain(f.value)
  }

  predicate WellFormed(r: Request) {
    && Free(r.verb, "\0 \n") && Free(r.path, "\0 \n") && Free(r.version, "\0 \n")
    && r.fields != [] && forall i :: 0 <= i < |r.fields| ==> WellFormedField(r.fields[i])
  }

  function Spaces(n: nat): (s: string) {
    if n == 0 then "" else " " + Spaces(n - 1)
  }

  /** The field lines, separated by CRLF. */
  function PrintFields(fs: seq<Field>): string {
    if fs == [] then ""
    else
      var rest := if |fs| == 1 then "" else "\r\n" + PrintFields(fs[1..]);
      fs[0].name + (":" + (Spaces(fs[0].pad) + (fs[0].value + rest)))
  }

  /** A request header up to, but not including, the CRLFCRLF that ends it. */
  function Print(r: Request): string {
    r.verb + (" " + (r.path + (" " + (r.version + ("\r\n" + PrintFields(r.fields))))))
  }

  function Entries(fs: seq<Field>): (es: Table) {
    if fs == [] then [] else [Entry(fs[0].name, fs[0].value)] + Entries(fs[1..])
  }

  /** The request line and then the fields, in order. */
  function AllEntries(r: Request): Table {
    [Entry("Request", r.verb), Entry("Path", r.path), Entry("Version", r.version)] + Entries(r.fields)
  }

  lemma TextIsAll(s: string, bad: string)
    requires Free(s, bad) && '\0' in bad
    ensures Text(s) == s
  {
    if s != "" {
      assert s[0] in s && s[0] != '\0';
      TextIsAll(s[1..], bad);
      assert s == [s[0]] + s[1..];
    }
  }

  lemma TextEmpty(s: string, bad: string)
    requires Free(s, bad) && '\0' in bad
    ensures Text(s) == "" <==> s == ""
  {
    TextIsAll(s, bad);
  }

  /** A word of the request line is collected if it stays below the limit. */
  lemma {:induction false} WordCollected(w: string, tail: string, oi: nat, current: string, item: nat, table: Table,
                                         bad: string)
    requires Free(w, bad) && ' ' in bad && '\n' in bad
    ensures Line(w + tail, oi, current, item, table) ==
            if w == "" || oi + |w| <= MAX_URI_LEN then Line(tail, oi + |w|, current + w, item, table)
            else Failed(-2, table)
    decreases |w|
  {
    if w == "" {
      assert w + tail == tail && current + w == current;
    } else {
      assert (w + tail)[0] == w[0] && w[0] !in bad;
      assert (w + tail)[1..] == w[1..] + tail;
      if oi < MAX_URI_LEN {
        WordCollected(w[1..], tail, oi + 1, current + [w[0]], item, table, bad);
        assert current + [w[0]] + w[1..] == current + w;
      }
    }
  }

  lemma {:induction false} SpacesSkipped(n: nat, tail: string, key: bool, sw: string, table: Table)
    ensures Fields(Spaces(n) + tail, key, "", sw, table) == Fields(tail, key, "", sw, table)
    decreases n
  {
    if n == 0 {
      assert Spaces(0) + tail == tail;
    } else {
      assert (Spaces(n) + tail)[0] == ' ' && (Spaces(n) + tail)[1..] == Spaces(n - 1) + tail;
      SpacesSkipped(n - 1, tail, key, sw, table);
    }
  }

  /** A name or a value is collected whole, whatever else it contains. */
  lemma {:induction false} PartCollected(w: string, tail: string, key: bool, current: string, sw: string, table: Table,
                                         bad: string)
    requires Free(w, bad) && Free(current, bad) && '\0' in bad && (if key then ':' else '\n') in bad
    requires current != "" || StartsPlain(w)
    ensures Fields(w + tail, key, current, sw, table) == Fields(tail, key, current + w, sw, table)
    decreases |w|
  {
    if w == "" {
      assert w + tail == tail && current + w == current;
    } else {
      assert (w + tail)[0] == w[0] && (w + tail)[1..] == w[1..] + tail;
      assert w[0] in bad || w[0] != if key then ':' else '\n';
      TextEmpty(current, bad);
      PartCollected(w[1..], tail, key, current + [w[0]], sw, table, bad);
      assert current + [w[0]] + w[1..] == current + w;
    }
  }

  /** One field line, up to its value. */
  lemma FieldCollected(f: Field, tail: string, table: Table)
    requires WellFormedField(f)
    ensures Fields(f.name + (":" + (Spaces(f.pad) + (f.value + tail))), true, "", "", table) ==
            Fields(tail, false, f.value, f.name, table)
  {
    var v := Spaces(f.pad) + (f.value + tail);
    PartCollected(f.name, ":" + v, true, "", "", table, "\0:");
    assert "" + f.name == f.name;
    ColonTaken(f.name, v, table);
    SpacesSkipped(f.pad, f.value + tail, false, f.name, table);
    PartCollected(f.value, tail, false, "", f.name, table, "\0\n");
    assert "" + f.value == f.value;
  }

  lemma ColonTaken(name: string, v: string, table: Table)
    ensures Fields(":" + v, true, name, "", table) == Fields(v, false, "", name, table)
  {
    assert (":" + v)[0] == ':' && (":" + v)[1..] == v;
  }

  /** The CR before the line feed is cut off again. */
  lemma LineEnded(f: Field, tail: string, table: Table)
    requires WellFormedField(f)
    ensures Fields("\r\n" + tail, false, f.value, f.name, table) ==
              Fields(tail, true, "", "", Put(table, f.name, f.value))
  {
    var t := "\r\n" + tail;
    assert t[0] == '\r' && t[1..][0] == '\n' && t[1..][1..] == tail;
    var c := f.value + [t[0]];
    assert c[..|c| - 1] == f.value;
    TextIsAll(f.value, "\0\n");
    TextIsAll(f.name, "\0:");
    CarriageReturn(f.value);
    hide Put;
    assert Fields(t, false, f.value, f.name, table) == Fields(t[1..], false, c, f.name, table);
  }

  lemma CarriageReturn(v: string)
    requires Free(v, "\0\n")
    ensures Text(v + ['\r']) != ""
  {
    assert (v + ['\r'])[0] != '\0' by {
      if v != "" { assert v[0] !in "\0\n"; assert '\0' in "\0\n"; }
    }
  }

  lemma {:induction false} FieldsParsed(fs: seq<Field>, table: Table)
    requires fs != [] && forall i :: 0 <= i < |fs| ==> WellFormedField(fs[i])
    ensures Fields(PrintFields(fs), true, "", "", table) == Parsed(PutAll(table, Entries(fs)))
    decreases |fs|
  {
    var f := fs[0];
    var tail := if |fs| == 1 then "" else "\r\n" + PrintFields(fs[1..]);
    FieldCollected(f, tail, table);
    TextIsAll(f.value, "\0\n");
    TextIsAll(f.name, "\0:");
    var t := Put(table, f.name, f.value);
    assert Entries(fs) == [Entry(f.name, f.value)] + Entries(fs[1..]);
    assert PutAll(table, Entries(fs)) == PutAll(t, Entries(fs[1..]));
    if |fs| == 1 {
      assert fs[1..] == [];
    } else {
      LineEnded(f, PrintFields(fs[1..]), table);
      FieldsParsed(fs[1..], t);
    }
  }

  lemma SpaceTaken(tail: string, oi: nat, current: string, item: nat, table: Table)
    ensures Line(" " + tail, oi, current, item, table) ==
              Line(tail, oi + 1, "", item + 1, PutItem(table, item, current))
  {
    assert (" " + tail)[0] == ' ' && (" " + tail)[1..] == tail;
  }

  lemma LineTaken(tail: string, oi: nat, current: string, table: Table)
    ensures Line("\r\n" + tail, oi, current, 2, table) ==
            if oi < MAX_URI_LEN then Fields(tail, true, "", "", Put(table, "Version", Text(current)))
            else Failed(-2, table)
  {
    var t := "\r\n" + tail;
    assert t[0] == '\r' && t[1..][0] == '\n' && t[1..][1..] == tail;
    var c := current + [t[0]];
    assert c[..|c| - 1] == current;
    hide Fields, Put, Text;
    assert oi < MAX_URI_LEN ==> Line(t, oi, current, 2, table) == Line(t[1..], oi + 1, c, 2, table);
  }

  /** A word of the request line that ends in a space. */
  lemma WordStored(w: string, tail: string, oi: nat, item: nat, table: Table)
    requires Free(w, "\0 \n") && item < 3
    ensures Line(w + (" " + tail), oi, "", item, table) ==
            if w == "" || oi + |w| <= MAX_URI_LEN then
              Line(tail, oi + |w| + 1, "", item + 1, Put(table, LineKey(item), w))
            else Failed(-2, table)
  {
    WordCollected(w, " " + tail, oi, "", item, table, "\0 \n");
    assert "" + w == w;
    SpaceTaken(tail, oi + |w|, w, item, table);
    TextIsAll(w, "\0 \n");
    hide Line, Put, Text;
  }

  lemma LastWordStored(w: string, tail: string, oi: nat, table: Table)
    requires Free(w, "\0 \n")
    ensures Line(w + ("\r\n" + tail), oi, "", 2, table) ==
            if oi + |w| < MAX_URI_LEN then Fields(tail, true, "", "", Put(table, "Version", w))
            else Failed(-2, table)
  {
    WordCollected(w, "\r\n" + tail, oi, "", 2, table, "\0 \n");
    assert "" + w == w;
    LineTaken(tail, oi + |w|, w, table);
    TextIsAll(w, "\0 \n");
    hide Line, Put, Text, Fields;
  }

  /** Reading the request line. */
  lemma RequestLine(r: Request, tail: string)
    requires WellFormed(r)
    ensures var o := Line(r.verb + (" " + (r.path + (" " + (r.version + ("\r\n" + tail))))), 0, "", 0, []);
            if |r.verb| + |r.path| + |r.version| + 2 < MAX_URI_LEN then
              o == Fields(tail, true, "", "",
                Put(Put(Put([], "Request", r.verb), "Path", r.path), "Version", r.version))
            else o.Failed? && o.code == -2
  {
    var t2 := r.version + ("\r\n" + tail);
    var a := Put([], "Request", r.verb);
    var b := Put(a, "Path", r.path);
    WordStored(r.verb, r.path + (" " + t2), 0, 0, []);
    WordStored(r.path, t2, |r.verb| + 1, 1, a);
    LastWordStored(r.version, tail, |r.verb| + 1 + |r.path| + 1, b);
    hide Line, Fields, Put;
  }

  /** Parsing undoes printing exactly when the request line, CR included, fits in 4096 bytes. */
  lemma ParsePrinted(r: Request)
    requires WellFormed(r)
    ensures var o := Line(Print(r), 0, "", 0, []);
            if |r.verb| + |r.path| + |r.version| + 2 < MAX_URI_LEN then o == Parsed(PutAll([], AllEntries(r)))
            else o.Failed? && o.code == -2
  {
    RequestLine(r, PrintFields(r.fields));
    var first := [Entry("Request", r.verb), Entry("Path", r.path), Entry("Version", r.version)];
    var table := Put(Put(Put([], "Request", r.verb), "Path", r.path), "Version", r.version);
    ThreePut("Request", r.verb, "Path", r.path, "Version", r.version);
    FieldsParsed(r.fields, table);
    PutAllAppend([], first, Entries(r.fields));
    hide Line, Fields, Put, PutAll;
  }

  lemma ThreePut(k: string, v: string, k': string, v': string, k'': string, v'': string)
    ensures PutAll([], [Entry(k, v), Entry(k', v'), Entry(k'', v'')]) == Put(Put(Put([], k, v), k', v'), k'', v'')
  {
    var es := [Entry(k, v), Entry(k', v'), Entry(k'', v'')];
    var p := Put([], k, v);
    var q := Put(p, k', v');
    assert es[1..] == [Entry(k', v'), Entry(k'', v'')] && es[2..] == [Entry(k'', v'')] && es[1..][1..] == es[2..];
    assert PutAll([], es) == PutAll(p, es[1..]) == PutAll(q, es[2..]);
    PutAllOne(q, es[2]);
    hide Put;
  }

  /** The table gives each name its last value; the request line counts as the first three. */
  lemma PrintedLookup(r: Request, name: string)
    requires WellFormed(r) && |r.verb| + |r.path| + |r.version| + 2 < MAX_URI_LEN
    ensures var o := Line(Print(r), 0, "", 0, []);
            o.Parsed? && Lookup(o.table, name) == LastSet(AllEntries(r), name)
  {
    ParsePrinted(r);
    LookupIsLastSet(AllEntries(r), name);
    hide Line;
  }
}
