/** The LDIF reader and line printer of startup_config.py.  Base64 over UTF-8 is
    a parameter: any pair of inverse functions whose output holds no newline. */
module Ldif {
  import opened Prelude
  import opened Text

  /** One entry: a DN and its attributes, keyed by lower-case name. */
  datatype Entry = Entry(dn: string, attrs: map<string, seq<string>>)

  datatype Codec = Codec(encode: string -> string, decode: string -> string)

  ghost predicate Faithful(codec: Codec) {
    forall s: string :: codec.decode(codec.encode(s)) == s && '\n' !in codec.encode(s)
  }

  const DN_KEY := "__dn__"

  // ---- The parser, as a fold over lines --------------------------------------

  /** An attribute still open for continuation lines. */
  datatype Pending = Pending(name: string, raw: string, b64: bool)

  datatype State = State(entries: seq<Entry>, attrs: Option<map<string, seq<string>>>, pending: Option<Pending>)

  const START := State([], None, None)

  function Decode(codec: Codec, p: Pending): string {
    if p.b64 then codec.decode(p.raw) else p.raw
  }

  function Append(m: map<string, seq<string>>, name: string, value: string): map<string, seq<string>> {
    m[name := (if name in m then m[name] else []) + [value]]
  }

  function CloseAttribute(codec: Codec, st: State): State {
    if st.pending.None? then st
    else
      var p := st.pending.value;
      var value := Decode(codec, p);
      var m := if st.attrs.Some? then st.attrs.value else map[];
      State(st.entries, Some(if p.name == "dn" then m[DN_KEY := [value]] else Append(m, p.name, value)), None)
  }

  function CloseEntry(codec: Codec, st: State): State {
    var c := CloseAttribute(codec, st);
    if c.attrs.Some? && DN_KEY in c.attrs.value && c.attrs.value[DN_KEY] != [] then
      State(c.entries + [Entry(c.attrs.value[DN_KEY][0], c.attrs.value - {DN_KEY})], None, None)
    else State(c.entries, None, None)
  }

  /** The first part and the rest around the first separator. */
  function Cut(s: string, c: char): (string, string)
    requires c in s
  {
    if s[0] == c then ("", s[1..])
    else var r := Cut(s[1..], c); ([s[0]] + r.0, r.1)
  }

  predicate StartsWith(s: string, c: char) {
    s != "" && s[0] == c
  }

  function OpenAttribute(codec: Codec, st: State, name: string, raw: string, b64: bool): State {
    var c := if name == "dn" then CloseEntry(codec, st) else st;
    State(c.entries, if name == "dn" || c.attrs.None? then Some(map[]) else c.attrs, Some(Pending(name, raw, b64)))
  }

  /** A line of the form head:rest. */
  function OpenFrom(codec: Codec, c: State, head: string, rest0: string): State {
    var b64 := StartsWith(rest0, ':');
    var rest := if b64 then rest0[1..] else rest0;
    if StartsWith(rest, '<') then c
    else OpenAttribute(codec, c, Lower(Trim(head)), if StartsWith(rest, ' ') then rest[1..] else rest, b64)
  }

  /** A line that continues nothing. */
  function FreshLine(codec: Codec, c: State, line: string): State {
    if Trim(line) == "" then CloseEntry(codec, c)
    else if StartsWith(line, '#') || ':' !in line then c
    else OpenFrom(codec, c, Cut(line, ':').0, Cut(line, ':').1)
  }

  function Line(codec: Codec, st: State, line: string): State {
    if StartsWith(line, ' ') && st.pending.Some? then
      st.(pending := Some(st.pending.value.(raw := st.pending.value.raw + line[1..])))
    else FreshLine(codec, CloseAttribute(codec, st), line)
  }

  function Reader(codec: Codec): (State, string) -> State {
    (st, line) => Line(codec, st, line)
  }

  function Feed(codec: Codec, st: State, lines: seq<string>): State {
    Fold(Reader(codec), st, lines)
  }

  function Parsed(codec: Codec, text: string): seq<Entry> {
    CloseEntry(codec, Feed(codec, START, Split(text, '\n'))).entries
  }

  /** The line loop itself, mutating what is open, against the fold. */
  method ParseLdif(codec: Codec, text: string) returns (entries: seq<Entry>)
    ensures entries == Parsed(codec, text)
  {
    entries := [];
    var attrs: Option<map<string, seq<string>>> := None;
    var pending: Option<Pending> := None;
    var lines := Split(text, '\n');
    var i := 0;
    while i < |lines|
      invariant 0 <= i <= |lines|
      invariant Feed(codec, State(entries, attrs, pending), lines[i..]) == Feed(codec, START, lines)
    {
      var line := lines[i];
      assert lines[i..][1..] == lines[i + 1..];
      i := i + 1;
      if StartsWith(line, ' ') && pending.Some? {
        pending := Some(pending.value.(raw := pending.value.raw + line[1..]));
        continue;
      }
      var c := CloseAttribute(codec, State(entries, attrs, pending));
      attrs, pending := c.attrs, None;
      if Trim(line) == "" {
        entries := CloseEntry(codec, c).entries;
        attrs := None;
        continue;
      }
      if StartsWith(line, '#') || ':' !in line {
        continue;
      }
      var cut := Cut(line, ':');
      var name, rest := Lower(Trim(cut.0)), cut.1;
      var b64 := StartsWith(rest, ':');
      if b64 {
        rest := rest[1..];
      }
      if StartsWith(rest, '<') {
        continue;
      }
      var raw := if StartsWith(rest, ' ') then rest[1..] else rest;
      if name == "dn" {
        entries := CloseEntry(codec, c).entries;
        attrs := Some(map[]);
      }
      if attrs.None? {
        attrs := Some(map[]);
      }
      pending := Some(Pending(name, raw, b64));
    }
    entries := CloseEntry(codec, State(entries, attrs, pending)).entries;
  }

  // ---- The printer -----------------------------------------------------------

  predicate NeedsBase64(value: string) {
    || (exists i :: 0 <= i < |value| && (value[i] as int >= 128 || (value[i] as int) < 32))
    || (value != "" && (value[0] in " :<" || value[|value| - 1] == ' '))
  }

  /** A line any producer may write: the value as it is, or in base64. */
  function Header(name: string, b64: bool): string {
    name + (if b64 then ":: " else ": ")
  }

  function Payload(codec: Codec, value: string, b64: bool): string {
    if b64 then codec.encode(value) else value
  }

  function PrintedLine(codec: Codec, name: string, value: string, b64: bool): string {
    Header(name, b64) + Payload(codec, value, b64)
  }

  /** The line this script writes. */
  function LdifLine(codec: Codec, name: string, value: string): string {
    PrintedLine(codec, name, value, NeedsBase64(value))
  }

  // ---- Printed documents, folded at will -------------------------------------

  /** An attribute line, whether its value is encoded, and the physical lines it was
      folded into. */
  datatype Printed = Printed(name: string, value: string, b64: bool, folded: seq<string>)

  /** The text continuation lines carry: each drops its leading space. */
  function Continued(lines: seq<string>): string {
    if lines == [] then "" else (if lines[0] == "" then "" else lines[0][1..]) + Continued(lines[1..])
  }

  /** `folded` is the printed line broken at any points after its header.  The producer
      encodes what it likes, but a value with a newline it must. */
  ghost predicate IsFoldingOf(codec: Codec, p: Printed) {
    && ('\n' in p.value ==> p.b64)
    && |p.folded| >= 1
    && Header(p.name, p.b64) <= p.folded[0]
    && (forall i :: 1 <= i < |p.folded| ==> StartsWith(p.folded[i], ' '))
    && p.folded[0] + Continued(p.folded[1..]) == PrintedLine(codec, p.name, p.value, p.b64)
  }

  /** What this script writes is one of the lines the reader is proved on. */
  lemma OwnLinesAreAdmitted(codec: Codec, name: string, value: string)
    ensures IsFoldingOf(codec, Printed(name, value, NeedsBase64(value), [LdifLine(codec, name, value)]))
  {
    var line := LdifLine(codec, name, value);
    assert [line][1..] == [] && line + "" == line;
    assert Header(name, NeedsBase64(value)) <= line;
  }

  predicate NameChar(c: char) {
    33 <= c as int <= 126 && c != ':'
  }

  /** Attribute names: printable, no colon, not the DN's key. */
  predicate ValidName(name: string) {
    && name != "" && name[0] != '#' && (forall i :: 0 <= i < |name| ==> NameChar(name[i]))
    && Lower(name) != DN_KEY
  }

  datatype Document = Document(dn: Printed, attrs: seq<Printed>)

  ghost predicate WellPrinted(codec: Codec, d: Document) {
    && d.dn.name == "dn" && IsFoldingOf(codec, d.dn)
    && forall i :: 0 <= i < |d.attrs| ==>
         ValidName(d.attrs[i].name) && Lower(d.attrs[i].name) != "dn" && IsFoldingOf(codec, d.attrs[i])
  }

  ghost predicate AllPrinted(codec: Codec, docs: seq<Document>) {
    forall i :: 0 <= i < |docs| ==> WellPrinted(codec, docs[i])
  }

  function AttributeLines(attrs: seq<Printed>): seq<string> {
    if attrs == [] then [] else attrs[0].folded + AttributeLines(attrs[1..])
  }

  /** One entry's lines and the blank line that ends it. */
  function EntryLines(d: Document): seq<string> {
    d.dn.folded + AttributeLines(d.attrs) + [""]
  }

  function DocumentLines(docs: seq<Document>): seq<string> {
    Flatten(seq(|docs|, i requires 0 <= i < |docs| => EntryLines(docs[i])))
  }

  function DocumentText(docs: seq<Document>): string {
    Join(DocumentLines(docs) + [""], '\n')
  }

  /** The values a document states for one attribute, in order. */
  function ValuesOf(attrs: seq<Printed>, name: string): seq<string> {
    if attrs == [] then []
    else (if Lower(attrs[0].name) == name then [attrs[0].value] else []) + ValuesOf(attrs[1..], name)
  }

  function NamesOf(attrs: seq<Printed>): set<string> {
    set i | 0 <= i < |attrs| :: Lower(attrs[i].name)
  }

  /** What a document says: its DN, and for every name its values in order. */
  function EntryOf(d: Document): Entry {
    Entry(d.dn.value, map name | name in NamesOf(d.attrs) :: ValuesOf(d.attrs, name))
  }

  function EntriesOf(docs: seq<Document>): (r: seq<Entry>)
    ensures |r| == |docs|
  {
    seq(|docs|, i requires 0 <= i < |docs| => EntryOf(docs[i]))
  }

  // ---- Round trip ------------------------------------------------------------

  lemma {:induction false} CutAt(name: string, c: char, rest: string)
    requires c !in name
    ensures c in name + [c] + rest && Cut(name + [c] + rest, c) == (name, rest)
  {
    var s := name + [c] + rest;
    assert s[|name|] == c;
    if name == "" {
      assert s == [c] + rest;
    } else {
      assert s[1..] == name[1..] + [c] + rest;
      CutAt(name[1..], c, rest);
      assert name == [name[0]] + name[1..];
    }
  }

  lemma {:induction false} TrimRightKeepsFirst(s: string)
    requires s != "" && !IsSpace(s[0])
    ensures TrimRight(s) != ""
  {
    if IsSpace(s[|s| - 1]) { TrimRightKeepsFirst(s[..|s| - 1]); }
  }

  /** The first physical line opens the attribute with the text it holds so far. */
  lemma FirstLineOpens(codec: Codec, st: State, name: string, b64: bool, part: string)
    requires ValidName(name)
    ensures Line(codec, st, Header(name, b64) + part)
         == OpenAttribute(codec, CloseAttribute(codec, st), Lower(name), part, b64)
  {
    var c := CloseAttribute(codec, st);
    HeaderCuts(name, b64, part);
    StartsAfresh(codec, st, Header(name, b64) + part, name);
    OpensWithPart(codec, c, name, part, b64);
  }

  lemma StartsAfresh(codec: Codec, st: State, line: string, name: string)
    requires ValidName(name) && name <= line && ':' in line
    ensures Line(codec, st, line) == OpenFrom(codec, CloseAttribute(codec, st), Cut(line, ':').0, Cut(line, ':').1)
  {
    assert line[0] == name[0] && NameChar(name[0]);
    TrimRightKeepsFirst(line);
  }

  lemma OpensWithPart(codec: Codec, c: State, name: string, part: string, b64: bool)
    requires ValidName(name)
    ensures OpenFrom(codec, c, name, (if b64 then ": " else " ") + part) == OpenAttribute(codec, c, Lower(name), part, b64)
  {
    assert NameChar(name[0]) && NameChar(name[|name| - 1]);
    assert Trim(name) == name;
    assert (": " + part)[1..] == " " + part && (" " + part)[1..] == part;
  }

  lemma HeaderCuts(name: string, b64: bool, part: string)
    requires ':' !in name
    ensures ':' in Header(name, b64) + part
    ensures Cut(Header(name, b64) + part, ':') == (name, (if b64 then ": " else " ") + part)
  {
    var rest := (if b64 then ": " else " ") + part;
    assert Header(name, b64) + part == name + ":" + rest;
    CutAt(name, ':', rest);
  }

  lemma {:induction false} ContinuationsAppend(codec: Codec, st: State, lines: seq<string>)
    requires st.pending.Some? && forall i :: 0 <= i < |lines| ==> StartsWith(lines[i], ' ')
    ensures Feed(codec, st, lines) == st.(pending := Some(st.pending.value.(raw := st.pending.value.raw + Continued(lines))))
    decreases |lines|
  {
    if lines == [] {
      assert st.pending.value.raw + "" == st.pending.value.raw;
    } else {
      var raw := st.pending.value.raw;
      var st' := st.(pending := Some(st.pending.value.(raw := raw + lines[0][1..])));
      assert Line(codec, st, lines[0]) == st';
      ContinuationsAppend(codec, st', lines[1..]);
      assert raw + lines[0][1..] + Continued(lines[1..]) == raw + (lines[0][1..] + Continued(lines[1..]));
    }
  }

  /** However it was folded, an attribute line leaves its whole payload pending. */
  lemma FoldedLineOpens(codec: Codec, st: State, p: Printed)
    requires ValidName(p.name) && IsFoldingOf(codec, p)
    ensures Feed(codec, st, p.folded)
         == OpenAttribute(codec, CloseAttribute(codec, st), Lower(p.name), Payload(codec, p.value, p.b64), p.b64)
  {
    var h := Header(p.name, p.b64);
    var part := p.folded[0][|h|..];
    assert p.folded[0] == h + part;
    FirstLineOpens(codec, st, p.name, p.b64, part);
    var st' := Line(codec, st, p.folded[0]);
    ContinuationsAppend(codec, st', p.folded[1..]);
    SamePrefix(h, part, Continued(p.folded[1..]), Payload(codec, p.value, p.b64));
  }

  lemma SamePrefix(h: string, a: string, b: string, c: string)
    requires h + a + b == h + c
    ensures a + b == c
  {
    assert (h + a + b)[|h|..] == a + b && (h + c)[|h|..] == c;
  }

  lemma PayloadDecodes(codec: Codec, name: string, value: string, b64: bool)
    requires Faithful(codec)
    ensures Decode(codec, Pending(name, Payload(codec, value, b64), b64)) == value
  {
  }

  /** What an entry's open attributes amount to. */
  ghost predicate Collected(m: map<string, seq<string>>, dn: string, attrs: seq<Printed>) {
    && DN_KEY in m && m[DN_KEY] == [dn]
    && forall name :: name != DN_KEY ==>
         && (name in m <==> name in NamesOf(attrs))
         && (name in m ==> m[name] == ValuesOf(attrs, name))
  }

  lemma {:induction false} ValuesOfSnoc(attrs: seq<Printed>, p: Printed, name: string)
    ensures ValuesOf(attrs + [p], name)
         == ValuesOf(attrs, name) + (if Lower(p.name) == name then [p.value] else [])
  {
    if attrs == [] {
      assert attrs + [p] == [p] && [p][1..] == [];
    } else {
      assert (attrs + [p])[0] == attrs[0] && (attrs + [p])[1..] == attrs[1..] + [p];
      ValuesOfSnoc(attrs[1..], p, name);
    }
  }

  /** Whatever each attribute's lines keep, item by item, all the lines keep. */
  lemma {:induction false} LinesCollect(step: (State, string) -> State, good: (State, seq<Printed>) -> bool,
                                        st: State, done: seq<Printed>, attrs: seq<Printed>)
    requires good(st, done)
    requires forall s, d, i :: 0 <= i < |attrs| && good(s, d) ==> good(Fold(step, s, attrs[i].folded), d + [attrs[i]])
    ensures good(Fold(step, st, AttributeLines(attrs)), done + attrs)
    decreases |attrs|
  {
    if attrs == [] {
      assert done + attrs == done;
    } else {
      var p, rest := attrs[0], attrs[1..];
      assert forall i :: 0 <= i < |rest| ==> rest[i] == attrs[i + 1];
      LinesCollect(step, good, Fold(step, st, p.folded), done + [p], rest);
      FoldConcat(step, st, p.folded, AttributeLines(rest));
      assert done + [p] + rest == done + attrs;
    }
  }

  /** Closing what is open leaves these entries and, for the open one, these attributes. */
  ghost predicate Open(codec: Codec, st: State, entries: seq<Entry>, dn: string, done: seq<Printed>) {
    var c := CloseAttribute(codec, st);
    c.entries == entries && c.attrs.Some? && Collected(c.attrs.value, dn, done)
  }

  /** Feeding the attribute lines collects them behind those already collected. */
  lemma AttributesCollect(codec: Codec, st: State, entries: seq<Entry>, dn: string, attrs: seq<Printed>)
    requires Faithful(codec) && Open(codec, st, entries, dn, [])
    requires forall i :: 0 <= i < |attrs| ==>
      ValidName(attrs[i].name) && Lower(attrs[i].name) != "dn" && IsFoldingOf(codec, attrs[i])
    ensures Open(codec, Feed(codec, st, AttributeLines(attrs)), entries, dn, attrs)
  {
    var good := (s: State, d: seq<Printed>) => Open(codec, s, entries, dn, d);
    forall s, d, i | 0 <= i < |attrs| && good(s, d) ensures good(Fold(Reader(codec), s, attrs[i].folded), d + [attrs[i]]) {
      AttributeCollects(codec, s, entries, dn, d, attrs[i]);
    }
    LinesCollect(Reader(codec), good, st, [], attrs);
    assert [] + attrs == attrs;
  }

  lemma AttributeCollects(codec: Codec, st: State, entries: seq<Entry>, dn: string, done: seq<Printed>, p: Printed)
    requires Faithful(codec) && ValidName(p.name) && Lower(p.name) != "dn" && IsFoldingOf(codec, p)
    requires Open(codec, st, entries, dn, done)
    ensures Open(codec, Feed(codec, st, p.folded), entries, dn, done + [p])
  {
    FoldedLineOpens(codec, st, p);
    PayloadDecodes(codec, Lower(p.name), p.value, p.b64);
    AppendCollects(CloseAttribute(codec, st).attrs.value, dn, done, p);
  }

  lemma AppendCollects(m: map<string, seq<string>>, dn: string, done: seq<Printed>, p: Printed)
    requires Collected(m, dn, done) && Lower(p.name) != DN_KEY
    ensures Collected(Append(m, Lower(p.name), p.value), dn, done + [p])
  {
    var m' := Append(m, Lower(p.name), p.value);
    assert NamesOf(done + [p]) == NamesOf(done) + {Lower(p.name)} by {
      assert (done + [p])[|done|] == p;
      assert forall i :: 0 <= i < |done| ==> (done + [p])[i] == done[i];
    }
    forall name | name != DN_KEY && name in m' ensures m'[name] == ValuesOf(done + [p], name) {
      ValuesOfSnoc(done, p, name);
      if name !in m { NoValues(done, name); }
    }
  }

  lemma {:induction false} NoValues(attrs: seq<Printed>, name: string)
    requires name !in NamesOf(attrs)
    ensures ValuesOf(attrs, name) == []
  {
    if attrs != [] {
      assert Lower(attrs[0].name) in NamesOf(attrs);
      forall n | n in NamesOf(attrs[1..]) ensures n in NamesOf(attrs) {
        var i :| 0 <= i < |attrs[1..]| && n == Lower(attrs[1..][i].name);
        assert n == Lower(attrs[i + 1].name);
      }
      NoValues(attrs[1..], name);
    }
  }

  /** The state between entries. */
  function Between(entries: seq<Entry>): State {
    State(entries, None, None)
  }

  /** One document, read between entries, adds exactly the entry it says. */
  lemma DocumentReadsBack(codec: Codec, entries: seq<Entry>, d: Document)
    requires Faithful(codec) && WellPrinted(codec, d)
    ensures Feed(codec, Between(entries), EntryLines(d)) == Between(entries + [EntryOf(d)])
  {
    var st := Between(entries);
    assert Lower("dn") == "dn" && ValidName("dn");
    FoldedLineOpens(codec, st, d.dn);
    PayloadDecodes(codec, "dn", d.dn.value, d.dn.b64);
    var st1 := Feed(codec, st, d.dn.folded);
    assert CloseAttribute(codec, st1) == State(entries, Some(map[DN_KEY := [d.dn.value]]), None);
    AttributesCollect(codec, st1, entries, d.dn.value, d.attrs);
    var st2 := Feed(codec, st1, AttributeLines(d.attrs));
    CollectedIsEntry(CloseAttribute(codec, st2).attrs.value, d);
    FoldConcat(Reader(codec), st, d.dn.folded, AttributeLines(d.attrs));
    FoldConcat(Reader(codec), st, d.dn.folded + AttributeLines(d.attrs), [""]);
    assert Feed(codec, st2, [""]) == Line(codec, st2, "");
  }

  lemma CollectedIsEntry(m: map<string, seq<string>>, d: Document)
    requires Collected(m, d.dn.value, d.attrs) && forall i :: 0 <= i < |d.attrs| ==> ValidName(d.attrs[i].name)
    ensures Entry(m[DN_KEY][0], m - {DN_KEY}) == EntryOf(d)
  {
    assert DN_KEY !in NamesOf(d.attrs);
    assert (m - {DN_KEY}).Keys == EntryOf(d).attrs.Keys;
  }

  lemma NextDocumentReadsBack(codec: Codec, docs: seq<Document>, i: nat)
    requires Faithful(codec) && AllPrinted(codec, docs) && i < |docs|
    ensures Fold(Reader(codec), Between(EntriesOf(docs[..i])), EntryLines(docs[i])) == Between(EntriesOf(docs[..i + 1]))
  {
    DocumentReadsBack(codec, EntriesOf(docs[..i]), docs[i]);
    assert EntriesOf(docs[..i]) + [EntryOf(docs[i])] == EntriesOf(docs[..i + 1]);
  }

  lemma DocumentsReadBack(codec: Codec, docs: seq<Document>)
    requires Faithful(codec) && AllPrinted(codec, docs)
    ensures Feed(codec, START, DocumentLines(docs)) == Between(EntriesOf(docs))
  {
    var chunks := seq(|docs|, i requires 0 <= i < |docs| => EntryLines(docs[i]));
    var states := seq(|docs| + 1, i requires 0 <= i <= |docs| => Between(EntriesOf(docs[..i])));
    forall i | 0 <= i < |chunks| ensures Fold(Reader(codec), states[i], chunks[i]) == states[i + 1] {
      NextDocumentReadsBack(codec, docs, i);
    }
    FoldChunks(Reader(codec), states, chunks);
    assert docs[..|docs|] == docs && EntriesOf(docs[..0]) == [];
  }

  // No physical line holds a newline, so the text splits into them again.

  lemma ValueAvoidsNewline(codec: Codec, p: Printed)
    requires Faithful(codec) && ValidName(p.name) && IsFoldingOf(codec, p)
    ensures forall i :: 0 <= i < |p.folded| ==> '\n' !in p.folded[i]
  {
    var line := PrintedLine(codec, p.name, p.value, p.b64);
    assert '\n' !in Payload(codec, p.value, p.b64);
    assert forall i :: 0 <= i < |p.name| ==> NameChar(p.name[i]) && p.name[i] != '\n';
    assert '\n' !in line;
    assert '\n' !in Continued(p.folded[1..]);
    ContinuedAvoids(p.folded[1..]);
    forall i | 0 <= i < |p.folded| ensures '\n' !in p.folded[i] {
      if i > 0 { assert p.folded[i] == p.folded[1..][i - 1]; }
    }
  }

  lemma {:induction false} ContinuedAvoids(lines: seq<string>)
    requires '\n' !in Continued(lines) && forall i :: 0 <= i < |lines| ==> StartsWith(lines[i], ' ')
    ensures forall i :: 0 <= i < |lines| ==> '\n' !in lines[i]
  {
    if lines != [] {
      ContinuedAvoids(lines[1..]);
      assert lines[0] == [' '] + lines[0][1..];
      forall i | 0 <= i < |lines| ensures '\n' !in lines[i] {
        if i > 0 { assert lines[i] == lines[1..][i - 1]; }
      }
    }
  }

  lemma {:induction false} AttributeLinesAvoid(codec: Codec, attrs: seq<Printed>)
    requires Faithful(codec) && forall i :: 0 <= i < |attrs| ==> ValidName(attrs[i].name) && IsFoldingOf(codec, attrs[i])
    ensures forall l :: l in AttributeLines(attrs) ==> '\n' !in l
  {
    if attrs != [] {
      ValueAvoidsNewline(codec, attrs[0]);
      AttributeLinesAvoid(codec, attrs[1..]);
    }
  }

  lemma EntryLinesAvoid(codec: Codec, d: Document)
    requires Faithful(codec) && WellPrinted(codec, d)
    ensures forall l :: l in EntryLines(d) ==> '\n' !in l
  {
    assert Lower("dn") == "dn" && ValidName("dn");
    ValueAvoidsNewline(codec, d.dn);
    AttributeLinesAvoid(codec, d.attrs);
  }

  lemma {:induction false} FlattenMembers(chunks: seq<seq<string>>, l: string)
    requires l in Flatten(chunks)
    ensures exists i :: 0 <= i < |chunks| && l in chunks[i]
  {
    if l !in chunks[0] {
      FlattenMembers(chunks[1..], l);
      var i :| 0 <= i < |chunks[1..]| && l in chunks[1..][i];
      assert l in chunks[i + 1];
    }
  }

  lemma DocumentLinesAvoid(codec: Codec, docs: seq<Document>)
    requires Faithful(codec) && AllPrinted(codec, docs)
    ensures forall l :: l in DocumentLines(docs) ==> '\n' !in l
  {
    var chunks := seq(|docs|, i requires 0 <= i < |docs| => EntryLines(docs[i]));
    forall l | l in DocumentLines(docs) ensures '\n' !in l {
      FlattenMembers(chunks, l);
      var i :| 0 <= i < |chunks| && l in chunks[i];
      EntryLinesAvoid(codec, docs[i]);
    }
  }

  /** The round trip: for every list of entries, all string values, every choice of
      which values to encode, and every way of folding the printed lines after their
      headers, parsing the text returns the same DNs and the same value lists, in
      order. */
  lemma LdifRoundTrip(codec: Codec, docs: seq<Document>)
    requires Faithful(codec) && AllPrinted(codec, docs)
    ensures Parsed(codec, DocumentText(docs)) == EntriesOf(docs)
  {
    var lines := DocumentLines(docs);
    DocumentLinesAvoid(codec, docs);
    SplitJoin(lines + [""], '\n');
    DocumentsReadBack(codec, docs);
    FoldConcat(Reader(codec), START, lines, [""]);
    var entries := EntriesOf(docs);
    assert Feed(codec, Between(entries), [""]) == Between(entries);
  }

  // ---- Lines that say nothing ------------------------------------------------

  /** A comment, a line without a colon, or a value given by URL. */
  predicate IsSilent(line: string) {
    && !StartsWith(line, ' ') && Trim(line) != ""
    && (StartsWith(line, '#') || ':' !in line || GivenByUrl(line))
  }

  predicate GivenByUrl(line: string) {
    ':' in line && var rest := Cut(line, ':').1; StartsWith(rest, '<') || (StartsWith(rest, ':') && StartsWith(rest[1..], '<'))
  }

  lemma SilentLineCloses(codec: Codec, st: State, line: string)
    requires IsSilent(line)
    ensures Line(codec, st, line) == CloseAttribute(codec, st)
  {
  }

  /** Closing what is open, where no continuation follows, changes nothing. */
  lemma ClosingIsHarmless(codec: Codec, st: State, lines: seq<string>)
    requires lines == [] || !StartsWith(lines[0], ' ')
    ensures CloseEntry(codec, Feed(codec, CloseAttribute(codec, st), lines)) == CloseEntry(codec, Feed(codec, st, lines))
  {
    if lines != [] {
      assert Line(codec, CloseAttribute(codec, st), lines[0]) == Line(codec, st, lines[0]);
    }
  }

  function ParsedLines(codec: Codec, lines: seq<string>): seq<Entry> {
    CloseEntry(codec, Feed(codec, START, lines)).entries
  }

  lemma ParsedIsOfLines(codec: Codec, text: string)
    ensures Parsed(codec, text) == ParsedLines(codec, Split(text, '\n'))
  {
  }

  /** A comment, a colonless line or a URL-valued attribute may stand anywhere it is not
      followed by a continuation line: it is as if it were not there. */
  lemma SilentLinesAreIgnored(codec: Codec, before: seq<string>, line: string, after: seq<string>)
    requires IsSilent(line) && (after == [] || !StartsWith(after[0], ' '))
    ensures ParsedLines(codec, before + [line] + after) == ParsedLines(codec, before + after)
  {
    var st := Feed(codec, START, before);
    FoldConcat(Reader(codec), START, before + [line], after);
    FoldConcat(Reader(codec), START, before, [line]);
    FoldConcat(Reader(codec), START, before, after);
    SilentLineCloses(codec, st, line);
    OneLine(codec, st, line);
    ClosingIsHarmless(codec, st, after);
  }

  /** So a comment between any two lines of a dump, the second no continuation, leaves
      what is read as it was. */
  lemma CommentIsIgnored(codec: Codec, before: seq<string>, comment: string, after: seq<string>)
    requires comment != "" && comment[0] == '#' && (after == [] || after[0] == "" || after[0][0] != ' ')
    requires before + after != [] && forall l :: l in before + [comment] + after ==> '\n' !in l
    ensures Parsed(codec, Join(before + [comment] + after, '\n')) == Parsed(codec, Join(before + after, '\n'))
  {
    assert forall l :: l in before + after ==> l in before + [comment] + after;
    SplitJoin(before + [comment] + after, '\n');
    SplitJoin(before + after, '\n');
    FirstSurvivesTrim(comment);
    SilentLinesAreIgnored(codec, before, comment, after);
  }

  lemma FirstSurvivesTrim(s: string)
    requires s != "" && !IsSpace(s[0])
    ensures Trim(s) != ""
  {
    TrimRightKeepsFirst(s);
  }

  lemma OneLine(codec: Codec, st: State, line: string)
    ensures Feed(codec, st, [line]) == Line(codec, st, line)
  {
    assert [line][1..] == [];
    assert Fold(Reader(codec), Line(codec, st, line), []) == Line(codec, st, line);
  }

  /** A DN line ends the entry before it, blank line or not. */
  lemma BlankBeforeDnIsOptional(codec: Codec, before: seq<string>, line: string, after: seq<string>)
    requires !StartsWith(line, ' ') && !StartsWith(line, '#') && ':' in line && Trim(line) != ""
    requires Lower(Trim(Cut(line, ':').0)) == "dn" && !GivenByUrl(line)
    ensures ParsedLines(codec, before + [""] + ([line] + after)) == ParsedLines(codec, before + ([line] + after))
  {
    var st := Feed(codec, START, before);
    FoldConcat(Reader(codec), START, before + [""], [line] + after);
    FoldConcat(Reader(codec), START, before, [""]);
    FoldConcat(Reader(codec), START, before, [line] + after);
    OneLine(codec, st, "");
    FoldConcat(Reader(codec), st, [line], after);
    FoldConcat(Reader(codec), Line(codec, st, ""), [line], after);
    OneLine(codec, st, line);
    OneLine(codec, Line(codec, st, ""), line);
    DnLineRestarts(codec, st, line);
  }

  lemma DnLineRestarts(codec: Codec, st: State, line: string)
    requires !StartsWith(line, ' ') && !StartsWith(line, '#') && ':' in line && Trim(line) != ""
    requires Lower(Trim(Cut(line, ':').0)) == "dn" && !GivenByUrl(line)
    ensures Line(codec, Line(codec, st, ""), line) == Line(codec, st, line)
  {
    var c := CloseAttribute(codec, st);
    assert Line(codec, st, "") == CloseEntry(codec, c);
    assert CloseAttribute(codec, CloseEntry(codec, c)) == CloseEntry(codec, c);
    assert CloseEntry(codec, CloseEntry(codec, c)) == CloseEntry(codec, c);
  }

  /** The space after the colon may be left out, and space around the name is not part
      of it. */
  lemma SpacingIsFree(codec: Codec, st: State, name: string, pad: string, value: string)
    requires ValidName(name) && AllSpace(pad)
    requires value != "" ==> value[0] != ' ' && value[0] != ':' && value[0] != '<'
    ensures Line(codec, st, name + pad + ":" + value) == Line(codec, st, name + ": " + value)
  {
    var c := CloseAttribute(codec, st);
    assert NameChar(name[0]) && NameChar(name[|name| - 1]);
    PadAvoids(name, pad);
    CutAt(name + pad, ':', value);
    CutAt(name, ':', " " + value);
    assert name + pad + ":" + value == (name + pad) + [':'] + value && name + ": " + value == name + [':'] + (" " + value);
    FreshLineCuts(codec, st, name + pad + ":" + value, name);
    FreshLineCuts(codec, st, name + ": " + value, name);
    TrimPadded(name, pad);
    assert (" " + value)[1..] == value;
  }

  lemma PadAvoids(name: string, pad: string)
    requires ValidName(name) && AllSpace(pad)
    ensures ':' !in name && ':' !in name + pad
  {
    forall i | 0 <= i < |name + pad| ensures (name + pad)[i] != ':' {
      if i < |name| { assert NameChar(name[i]); } else { assert IsSpace(pad[i - |name|]); }
    }
  }

  lemma FreshLineCuts(codec: Codec, st: State, line: string, name: string)
    requires ValidName(name) && name <= line && ':' in line
    ensures Line(codec, st, line) == OpenFrom(codec, CloseAttribute(codec, st), Cut(line, ':').0, Cut(line, ':').1)
  {
    StartsAfresh(codec, st, line, name);
  }

  lemma {:induction false} TrimPadded(name: string, pad: string)
    requires ValidName(name) && AllSpace(pad)
    ensures Trim(name + pad) == name && Trim(name) == name
    decreases |pad|
  {
    assert NameChar(name[0]) && NameChar(name[|name| - 1]);
    if pad == "" {
      assert name + pad == name;
    } else {
      var s := name + pad;
      TrimPadded(name, pad[..|pad| - 1]);
      assert s[..|s| - 1] == name + pad[..|pad| - 1] && IsSpace(s[|s| - 1]);
    }
  }

  /** What has no DN is no entry. */
  lemma AttributeWithoutDnIsDropped(codec: Codec, name: string, value: string)
    requires ValidName(name) && Lower(name) != "dn"
    ensures ParsedLines(codec, [name + ": " + value]) == []
  {
    OneLine(codec, START, name + ": " + value);
    assert name + ": " + value == Header(name, false) + value;
    FirstLineOpens(codec, START, name, false, value);
  }

  // ---- What is written plain -------------------------------------------------

  /** SAFE-CHAR and SAFE-INIT-CHAR of RFC 2849. */
  predicate SafeChar(c: char) {
    1 <= c as int <= 127 && c != '\n' && c != '\r'
  }

  predicate SafeInitChar(c: char) {
    SafeChar(c) && c != ' ' && c != ':' && c != '<'
  }

  /** The printer leaves a value plain exactly when it is a SAFE-STRING of RFC 2849
      without control characters and without a blank at its end. */
  lemma PlainIsSafe(value: string)
    ensures !NeedsBase64(value) <==>
      && (value != "" ==> SafeInitChar(value[0]) && value[|value| - 1] != ' ')
      && forall i :: 0 <= i < |value| ==> SafeChar(value[i]) && value[i] as int >= 32
  {
    if value != "" { assert value[0] in " :<" <==> value[0] == ' ' || value[0] == ':' || value[0] == '<'; }
  }
}
