/** The generated baseline document: written entry by entry, read back as TOML.

    The reader covers the part of TOML v1.0.0 such a document uses: bare keys, basic
    strings, decimal integers and array-of-tables headers, one per line. */
module TomlBaseline {
  import opened Common
  import opened Text
  import opened TomlString
  import opened NoPanicPolicy
  import opened NoPanicRatchet

  // ----- decimal

  function Decimal(n: nat): (s: string)
    ensures s != "" && forall i :: 0 <= i < |s| ==> '0' <= s[i] <= '9'
    ensures s[0] == '0' ==> n == 0 && |s| == 1
  {
    if n < 10 then ['0' + n as char] else Decimal(n / 10) + ['0' + (n % 10) as char]
  }

  predicate IsDigit(c: char) {
    '0' <= c <= '9'
  }

  function DigitsValue(s: string): nat
    requires forall i :: 0 <= i < |s| ==> IsDigit(s[i])
  {
    if s == "" then 0
    else
      assert IsDigit(s[|s| - 1]);
      10 * DigitsValue(s[..|s| - 1]) + (s[|s| - 1] as int - '0' as int)
  }

  lemma {:induction false} DigitsValueOfDecimal(n: nat)
    ensures DigitsValue(Decimal(n)) == n
  {
    var s := Decimal(n);
    if n >= 10 {
      DigitsValueOfDecimal(n / 10);
      assert s[..|s| - 1] == Decimal(n / 10);
    } else {
      assert s[..|s| - 1] == "";
    }
  }

  // ----- one line

  datatype Value = Str(text: string) | Number(number: nat)

  datatype Line = Nothing | Header | Pair(key: string, value: Value)

  predicate IsBareKeyChar(c: char) {
    'a' <= c <= 'z' || 'A' <= c <= 'Z' || IsDigit(c) || c == '_' || c == '-'
  }

  function BareKeyLength(s: string): (n: nat)
    ensures n <= |s|
  {
    if s != "" && IsBareKeyChar(s[0]) then 1 + BareKeyLength(s[1..]) else 0
  }

  function SkipBlanks(s: string): (r: string)
    ensures |r| <= |s|
  {
    if s != "" && (s[0] == ' ' || s[0] == '\t') then SkipBlanks(s[1..]) else s
  }

  /** A whole value: a basic string, or a decimal integer without leading zeros. */
  function ReadValue(s: string): Option<Value> {
    match ParseValue(s)
    case Some((v, rest)) => if SkipBlanks(rest) == "" then Some(Str(v)) else None
    case None =>
      if s != "" && (forall i :: 0 <= i < |s| ==> IsDigit(s[i])) && (s[0] == '0' ==> |s| == 1)
      then Some(Number(DigitsValue(s))) else None
  }

  function ReadLine(s: string): Option<Line> {
    if SkipBlanks(s) == "" then Some(Nothing)
    else if s == "[[baseline]]" then Some(Header)
    else
      var n := BareKeyLength(s);
      var after := SkipBlanks(s[n..]);
      if n == 0 || after == "" || after[0] != '=' then None
      else match ReadValue(SkipBlanks(after[1..]))
        case Some(v) => Some(Pair(s[..n], v))
        case None => None
  }

  // ----- the document

  type Table = map<string, Value>

  datatype Toml = Toml(top: Table, tables: seq<Table>)

  /** A pair goes into the latest table, or into the top level before any header; a key may
      be set once. */
  function AddLine(doc: Toml, line: Line): Option<Toml> {
    match line
    case Nothing => Some(doc)
    case Header => Some(doc.(tables := doc.tables + [map[]]))
    case Pair(key, value) =>
      if doc.tables == [] then
        if key in doc.top then None else Some(doc.(top := doc.top[key := value]))
      else
        var last := |doc.tables| - 1;
        if key in doc.tables[last] then None
        else Some(doc.(tables := doc.tables[last := doc.tables[last][key := value]]))
  }

  function ReadLines(lines: seq<string>, doc: Toml): Option<Toml> {
    if lines == [] then Some(doc)
    else match ReadLine(lines[0])
      case None => None
      case Some(line) =>
        match AddLine(doc, line)
        case None => None
        case Some(next) => ReadLines(lines[1..], next)
  }

  predicate HasText(t: Table, key: string) {
    key in t && t[key].Str?
  }

  function EntryOf(t: Table): Option<Entry> {
    if HasText(t, "path") && HasText(t, "family") && HasText(t, "selector_kind")
       && HasText(t, "selector_callee") && HasText(t, "snippet") && "count" in t && t["count"].Number?
    then Some(Entry(Identity(t["path"].text, t["family"].text, t["selector_kind"].text,
                             t["selector_callee"].text, t["snippet"].text), t["count"].number))
    else None
  }

  function EntriesOfTables(tables: seq<Table>): Option<seq<Entry>> {
    if tables == [] then Some([])
    else match (EntryOf(tables[0]), EntriesOfTables(tables[1..]))
      case (Some(e), Some(rest)) => Some([e] + rest)
      case _ => None
  }

  function BaselineOf(doc: Toml): Option<Baseline> {
    if !HasText(doc.top, "schema_version") then None
    else match EntriesOfTables(doc.tables)
      case Some(entries) => Some(Baseline(doc.top["schema_version"].text, entries))
      case None => None
  }

  /** `read_no_panic_baseline`, less the file system. */
  function ReadBaseline(text: string): Option<Baseline> {
    match ReadLines(Lines(text, '\n', '\r'), Toml(map[], []))
    case Some(doc) => BaselineOf(doc)
    case None => None
  }

  // ----- writing

  const GENERATED_COMMAND := "cargo run -p xtask -- "
  const GENERATED_POLICY := "policy check-no-panic-family "
  const GENERATED_FLAG := "--write-baseline"
  const GENERATED_BY := GENERATED_COMMAND + GENERATED_POLICY + GENERATED_FLAG

  function TextLine(key: string, value: string): string {
    key + " = " + Quoted(value)
  }

  function NumberLine(key: string, n: nat): string {
    key + " = " + Decimal(n)
  }

  const HEADER_LINES: seq<string> := [
    "schema_version = \"" + SCHEMA_VERSION + "\"",
    "generated_by = \"" + GENERATED_BY + "\""
  ]

  function EntryLines(f: Finding): seq<string> {
    ["", "[[baseline]]",
     TextLine("path", f.identity.path),
     TextLine("family", f.identity.family),
     TextLine("selector_kind", f.identity.selectorKind),
     TextLine("selector_callee", f.identity.selectorCallee),
     TextLine("snippet", f.identity.snippet),
     NumberLine("count", f.count)]
  }

  function DocumentLines(debt: seq<Finding>): seq<string> {
    if debt == [] then HEADER_LINES
    else DocumentLines(debt[..|debt| - 1]) + EntryLines(debt[|debt| - 1])
  }

  // ----- reading back, line by line

  predicate IsBareKey(key: string) {
    key != "" && forall i :: 0 <= i < |key| ==> IsBareKeyChar(key[i])
  }

  lemma {:induction false} BareKeyEnds(key: string, rest: string)
    requires forall i :: 0 <= i < |key| ==> IsBareKeyChar(key[i])
    requires rest != "" && !IsBareKeyChar(rest[0])
    ensures BareKeyLength(key + rest) == |key|
  {
    if key == "" {
      assert key + rest == rest;
    } else {
      assert (key + rest)[1..] == key[1..] + rest;
      BareKeyEnds(key[1..], rest);
    }
  }

  lemma PairReads(key: string, written: string, v: Value)
    requires IsBareKey(key)
    requires written != "" && written[0] != ' ' && written[0] != '\t'
    requires ReadValue(written) == Some(v)
    ensures ReadLine(key + " = " + written) == Some(Pair(key, v))
  {
    hide ReadValue;
    var s := key + " = " + written;
    var rest := " = " + written;
    assert s == key + rest;
    BareKeyEnds(key, rest);
    assert s[0] == key[0] && IsBareKeyChar(key[0]);
    assert s[|key|..] == rest;
    assert rest[1..] == "= " + written;
    assert SkipBlanks(rest) == "= " + written;
    assert ("= " + written)[1..] == " " + written;
    assert (" " + written)[1..] == written;
    assert SkipBlanks(" " + written) == written;
    assert s[..|key|] == key;
  }

  lemma TextLineReads(key: string, value: string)
    requires IsBareKey(key)
    ensures ReadLine(TextLine(key, value)) == Some(Pair(key, Str(value)))
  {
    hide ParseValue;
    var q := Quoted(value);
    assert q + "" == q;
    QuotedReadsBack(value, "");
    assert ReadValue(q) == Some(Str(value));
    PairReads(key, q, Str(value));
  }

  lemma NumberLineReads(key: string, n: nat)
    requires IsBareKey(key)
    ensures ReadLine(NumberLine(key, n)) == Some(Pair(key, Number(n)))
  {
    var d := Decimal(n);
    DigitsValueOfDecimal(n);
    assert d[0] != '\"';
    assert ReadValue(d) == Some(Number(n));
    PairReads(key, d, Number(n));
  }

  lemma ReadOneMore(line: string, rest: seq<string>, doc: Toml, parsed: Line)
    requires ReadLine(line) == Some(parsed) && AddLine(doc, parsed).Some?
    ensures ReadLines([line] + rest, doc) == ReadLines(rest, AddLine(doc, parsed).value)
  {
  }

  /** The document with one more table under construction. */
  function Open(doc: Toml, t: Table): Toml {
    doc.(tables := doc.tables + [t])
  }

  lemma PairStep(doc: Toml, t: Table, key: string, v: Value, rest: seq<string>)
    requires IsBareKey(key) && key !in t
    ensures var line := if v.Str? then TextLine(key, v.text) else NumberLine(key, v.number);
            ReadLines([line] + rest, Open(doc, t)) == ReadLines(rest, Open(doc, t[key := v]))
  {
    hide ReadLines, ReadLine, TextLine, NumberLine;
    var line;
    if v.Str? {
      line := TextLine(key, v.text);
      TextLineReads(key, v.text);
    } else {
      line := NumberLine(key, v.number);
      NumberLineReads(key, v.number);
    }
    var tables := doc.tables + [t];
    assert tables[|doc.tables| := t[key := v]] == doc.tables + [t[key := v]];
    ReadOneMore(line, rest, Open(doc, t), Pair(key, v));
  }

  lemma KeysAreBare()
    ensures IsBareKey("path") && IsBareKey("family") && IsBareKey("selector_kind")
    ensures IsBareKey("selector_callee") && IsBareKey("snippet") && IsBareKey("count")
    ensures IsBareKey("schema_version") && IsBareKey("generated_by")
  {
  }

  function TableFor(f: Finding): Table {
    map[]["path" := Str(f.identity.path)]["family" := Str(f.identity.family)]
         ["selector_kind" := Str(f.identity.selectorKind)]["selector_callee" := Str(f.identity.selectorCallee)]
         ["snippet" := Str(f.identity.snippet)]["count" := Number(f.count)]
  }

  lemma EntryOfTable(f: Finding)
    ensures EntryOf(TableFor(f)) == Some(Entry(f.identity, f.count))
  {
  }

  lemma HeaderReads(rest: seq<string>, doc: Toml)
    ensures ReadLines(["", "[[baseline]]"] + rest, doc) == ReadLines(rest, Open(doc, map[]))
  {
  }

  lemma EntryReads(f: Finding, rest: seq<string>, doc: Toml)
    ensures ReadLines(EntryLines(f) + rest, doc) == ReadLines(rest, Open(doc, TableFor(f)))
  {
    hide ReadLines, TextLine, NumberLine, IsBareKey, Open;
    KeysAreBare();
    var id := f.identity;
    var l0, l1, l2 := TextLine("path", id.path), TextLine("family", id.family), TextLine("selector_kind", id.selectorKind);
    var l3, l4, l5 := TextLine("selector_callee", id.selectorCallee), TextLine("snippet", id.snippet), NumberLine("count", f.count);
    var t0: Table := map[];
    var t1 := t0["path" := Str(id.path)];
    var t2 := t1["family" := Str(id.family)];
    var t3 := t2["selector_kind" := Str(id.selectorKind)];
    var t4 := t3["selector_callee" := Str(id.selectorCallee)];
    var t5 := t4["snippet" := Str(id.snippet)];
    var r5 := [l5] + rest;
    var r4 := [l4] + r5;
    var r3 := [l3] + r4;
    var r2 := [l2] + r3;
    var r1 := [l1] + r2;
    assert EntryLines(f) + rest == ["", "[[baseline]]"] + ([l0] + r1);
    HeaderReads([l0] + r1, doc);
    PairStep(doc, t0, "path", Str(id.path), r1);
    PairStep(doc, t1, "family", Str(id.family), r2);
    PairStep(doc, t2, "selector_kind", Str(id.selectorKind), r3);
    PairStep(doc, t3, "selector_callee", Str(id.selectorCallee), r4);
    PairStep(doc, t4, "snippet", Str(id.snippet), r5);
    PairStep(doc, t5, "count", Number(f.count), rest);
  }

  // ----- the whole document

  predicate Printable(s: string) {
    forall i :: 0 <= i < |s| ==> ' ' <= s[i] <= '~'
  }

  predicate NeedsNoEscape(s: string) {
    forall i :: 0 <= i < |s| ==> ' ' <= s[i] <= '~' && s[i] != '\"' && s[i] != '\\'
  }

  lemma {:induction false} PlainTextIsVerbatim(s: string)
    requires NeedsNoEscape(s)
    ensures Escape(s) == s
  {
    hide EscapeChar;
    if s != "" {
      PlainTextIsVerbatim(s[..|s| - 1]);
      PlainCharIsVerbatim(s[|s| - 1]);
      assert s == s[..|s| - 1] + [s[|s| - 1]];
    }
  }

  lemma PlainCharIsVerbatim(c: char)
    requires ' ' <= c <= '~' && c != '\"' && c != '\\'
    ensures EscapeChar(c) == [c]
  {
  }

  lemma CommandNeedsNoEscape()
    ensures NeedsNoEscape(SCHEMA_VERSION) && NeedsNoEscape(GENERATED_COMMAND)
  {
  }

  lemma ArgumentsNeedNoEscape()
    ensures NeedsNoEscape(GENERATED_POLICY) && NeedsNoEscape(GENERATED_FLAG)
  {
  }

  lemma HeaderConstants()
    ensures NeedsNoEscape(SCHEMA_VERSION) && NeedsNoEscape(GENERATED_BY)
  {
    hide SCHEMA_VERSION, GENERATED_COMMAND, GENERATED_POLICY, GENERATED_FLAG;
    CommandNeedsNoEscape();
    ArgumentsNeedNoEscape();
  }

  lemma HeaderLinesAreText()
    ensures HEADER_LINES == [TextLine("schema_version", SCHEMA_VERSION), TextLine("generated_by", GENERATED_BY)]
  {
    HeaderConstants();
    hide NeedsNoEscape, Escape, GENERATED_BY;
    PlainTextIsVerbatim(SCHEMA_VERSION);
    PlainTextIsVerbatim(GENERATED_BY);
    assert "schema_version = \"" == "schema_version" + " = " + ['\"'];
    assert "generated_by = \"" == "generated_by" + " = " + ['\"'];
    assert "\"" == ['\"'];
    LineParts("schema_version", SCHEMA_VERSION);
    LineParts("generated_by", GENERATED_BY);
  }

  lemma LineParts(key: string, value: string)
    requires Escape(value) == value
    ensures key + " = " + ['\"'] + value + ['\"'] == TextLine(key, value)
  {
  }

  const TOP: Table := map["schema_version" := Str(SCHEMA_VERSION), "generated_by" := Str(GENERATED_BY)]

  lemma TopStep(top: Table, key: string, value: string, rest: seq<string>)
    requires IsBareKey(key) && key !in top
    ensures ReadLines([TextLine(key, value)] + rest, Toml(top, [])) == ReadLines(rest, Toml(top[key := Str(value)], []))
  {
    hide ReadLines, ReadLine, TextLine;
    TextLineReads(key, value);
    ReadOneMore(TextLine(key, value), rest, Toml(top, []), Pair(key, Str(value)));
  }

  lemma HeaderLinesRead(rest: seq<string>)
    ensures ReadLines(HEADER_LINES + rest, Toml(map[], [])) == ReadLines(rest, Toml(TOP, []))
  {
    hide ReadLines, TextLine, GENERATED_BY, HEADER_LINES, IsBareKey;
    KeysAreBare();
    HeaderLinesAreText();
    var l0, l1 := TextLine("schema_version", SCHEMA_VERSION), TextLine("generated_by", GENERATED_BY);
    assert HEADER_LINES + rest == [l0] + ([l1] + rest);
    TopStep(map[], "schema_version", SCHEMA_VERSION, [l1] + rest);
    TopStep(map[]["schema_version" := Str(SCHEMA_VERSION)], "generated_by", GENERATED_BY, rest);
    assert map[]["schema_version" := Str(SCHEMA_VERSION)]["generated_by" := Str(GENERATED_BY)] == TOP;
  }

  function Tables(debt: seq<Finding>): seq<Table> {
    seq(|debt|, i requires 0 <= i < |debt| => TableFor(debt[i]))
  }

  lemma {:induction false} DocumentLinesRead(debt: seq<Finding>, rest: seq<string>)
    ensures ReadLines(DocumentLines(debt) + rest, Toml(map[], [])) == ReadLines(rest, Toml(TOP, Tables(debt)))
  {
    hide ReadLines, EntryLines, TableFor, HEADER_LINES, TOP;
    if debt == [] {
      HeaderLinesRead(rest);
      assert Tables(debt) == [];
    } else {
      var n := |debt| - 1;
      assert DocumentLines(debt) + rest == DocumentLines(debt[..n]) + (EntryLines(debt[n]) + rest);
      DocumentLinesRead(debt[..n], EntryLines(debt[n]) + rest);
      EntryReads(debt[n], rest, Toml(TOP, Tables(debt[..n])));
      assert Tables(debt) == Tables(debt[..n]) + [TableFor(debt[n])];
    }
  }

  lemma {:induction false} TablesAreEntries(debt: seq<Finding>)
    ensures EntriesOfTables(Tables(debt)) == Some(EntriesFor(debt))
  {
    hide TableFor, EntryOf;
    if debt == [] {
      assert Tables(debt) == [];
      assert EntriesFor(debt) == [];
    } else {
      EntryOfTable(debt[0]);
      TablesAreEntries(debt[1..]);
      assert Tables(debt)[1..] == Tables(debt[1..]);
      assert EntriesFor(debt) == [Entry(debt[0].identity, debt[0].count)] + EntriesFor(debt[1..]);
    }
  }

  lemma TextLineIsPlain(key: string, value: string)
    requires Printable(key)
    ensures Printable(TextLine(key, value))
  {
    hide Quoted;
    QuotedIsPrintable(value);
  }

  lemma EntryLinesArePlain(f: Finding)
    ensures forall i :: 0 <= i < |EntryLines(f)| ==> Printable(EntryLines(f)[i])
  {
    hide TextLine, Decimal, Quoted;
    TextLineIsPlain("path", f.identity.path);
    TextLineIsPlain("family", f.identity.family);
    TextLineIsPlain("selector_kind", f.identity.selectorKind);
    TextLineIsPlain("selector_callee", f.identity.selectorCallee);
    TextLineIsPlain("snippet", f.identity.snippet);
  }

  lemma {:induction false} DocumentLinesArePlain(debt: seq<Finding>)
    ensures forall i :: 0 <= i < |DocumentLines(debt)| ==> Printable(DocumentLines(debt)[i])
  {
    hide EntryLines, Printable, TextLine;
    if debt == [] {
      HeaderLinesAreText();
      KeysPrintable();
      TextLineIsPlain("schema_version", SCHEMA_VERSION);
      TextLineIsPlain("generated_by", GENERATED_BY);
    } else {
      DocumentLinesArePlain(debt[..|debt| - 1]);
      EntryLinesArePlain(debt[|debt| - 1]);
    }
  }

  lemma KeysPrintable()
    ensures Printable("schema_version") && Printable("generated_by")
  {
  }

  /** The document written for any findings reads back as the same identities and counts, in
      order. */
  lemma DocumentReadsBack(debt: seq<Finding>)
    ensures ReadBaseline(Unlines(DocumentLines(debt))) == Some(Baseline(SCHEMA_VERSION, EntriesFor(debt)))
  {
    hide DocumentLines, Tables, ReadLine, EntriesOfTables, Lines, Unlines;
    var lines := DocumentLines(debt);
    DocumentLinesArePlain(debt);
    forall i | 0 <= i < |lines|
      ensures PlainLine(lines[i])
    {
      assert Printable(lines[i]);
    }
    LinesOfUnlines(lines);
    assert lines + [] == lines;
    DocumentLinesRead(debt, []);
    TablesAreEntries(debt);
  }

  /** Pushes one line and its line feed. */
  method PushLine(output: string, ghost lines: seq<string>, line: string) returns (r: string, ghost next: seq<string>)
    requires output == Unlines(lines)
    ensures next == lines + [line] && r == Unlines(next)
  {
    UnlinesSnoc(lines, line);
    r := output + line;
    r := r + ['\n'];
    next := lines + [line];
  }

  method PushText(output: string, ghost lines: seq<string>, key: string, value: string)
    returns (r: string, ghost next: seq<string>)
    requires output == Unlines(lines)
    ensures next == lines + [TextLine(key, value)] && r == Unlines(next)
  {
    var quoted := TomlBasicString(value);
    r, next := PushLine(output, lines, key + " = " + quoted);
  }

  lemma UnallowedStep(f: Finding, rest: seq<Finding>, allowlist: Allowlist)
    ensures Unallowed([f] + rest, allowlist)
            == (if IsAllowed(f.identity, allowlist) then [] else [f]) + Unallowed(rest, allowlist)
    ensures Unallowed([], allowlist) == []
  {
  }

  lemma {:induction false} UnallowedSnoc(findings: seq<Finding>, f: Finding, allowlist: Allowlist)
    ensures Unallowed(findings + [f], allowlist)
            == Unallowed(findings, allowlist) + (if IsAllowed(f.identity, allowlist) then [] else [f])
  {
    hide *;
    if findings == [] {
      UnallowedStep(f, [], allowlist);
      assert findings + [f] == [f] == [f] + [];
    } else {
      UnallowedSnoc(findings[1..], f, allowlist);
      UnallowedStep(findings[0], findings[1..], allowlist);
      UnallowedStep(findings[0], findings[1..] + [f], allowlist);
      assert findings == [findings[0]] + findings[1..];
      assert findings + [f] == [findings[0]] + (findings[1..] + [f]);
    }
  }

  lemma EightMore<T>(s: seq<T>, a: T, b: T, c: T, d: T, e: T, f: T, g: T, h: T)
    ensures s + [a] + [b] + [c] + [d] + [e] + [f] + [g] + [h] == s + [a, b, c, d, e, f, g, h]
  {
  }

  function LinesUpTo(findings: seq<Finding>, k: nat, allowlist: Allowlist): seq<string>
    requires k <= |findings|
  {
    DocumentLines(Unallowed(findings[..k], allowlist))
  }

  lemma LinesGrow(findings: seq<Finding>, k: nat, allowlist: Allowlist)
    requires k < |findings|
    ensures IsAllowed(findings[k].identity, allowlist)
            ==> LinesUpTo(findings, k + 1, allowlist) == LinesUpTo(findings, k, allowlist)
    ensures !IsAllowed(findings[k].identity, allowlist)
            ==> LinesUpTo(findings, k + 1, allowlist) == LinesUpTo(findings, k, allowlist) + EntryLines(findings[k])
  {
    hide EntryLines, HEADER_LINES, IsAllowed, Unallowed;
    var debt := Unallowed(findings[..k], allowlist);
    assert findings[..k + 1] == findings[..k] + [findings[k]];
    UnallowedSnoc(findings[..k], findings[k], allowlist);
    assert debt + [] == debt;
    assert (debt + [findings[k]])[..|debt|] == debt;
  }

  /** The loop body of `write_no_panic_baseline`. */
  method PushEntry(text: string, ghost before: seq<string>, f: Finding) returns (output: string, ghost lines: seq<string>)
    requires text == Unlines(before)
    ensures lines == before + EntryLines(f)
    ensures output == Unlines(before + EntryLines(f))
  {
    hide Unlines, TextLine, Decimal;
    output, lines := PushLine(text, before, "");
    output, lines := PushLine(output, lines, "[[baseline]]");
    output, lines := PushText(output, lines, "path", f.identity.path);
    output, lines := PushText(output, lines, "family", f.identity.family);
    output, lines := PushText(output, lines, "selector_kind", f.identity.selectorKind);
    output, lines := PushText(output, lines, "selector_callee", f.identity.selectorCallee);
    output, lines := PushText(output, lines, "snippet", f.identity.snippet);
    output, lines := PushLine(output, lines, "count = " + Decimal(f.count));
    assert "count = " == "count" + " = ";
    EightMore(before, "", "[[baseline]]", TextLine("path", f.identity.path), TextLine("family", f.identity.family),
              TextLine("selector_kind", f.identity.selectorKind), TextLine("selector_callee", f.identity.selectorCallee),
              TextLine("snippet", f.identity.snippet), NumberLine("count", f.count));
  }

  method PushHeader() returns (output: string, ghost lines: seq<string>)
    ensures lines == HEADER_LINES && output == Unlines(lines)
  {
    hide GENERATED_BY;
    output, lines := PushLine("", [], "schema_version = \"" + SCHEMA_VERSION + "\"");
    output, lines := PushLine(output, lines, "generated_by = \"" + GENERATED_BY + "\"");
  }

  /** `write_no_panic_baseline`, up to the file it writes to. */
  method WriteNoPanicBaseline(findings: seq<Finding>, allowlist: Allowlist) returns (output: string)
    ensures output == Unlines(DocumentLines(Unallowed(findings, allowlist)))
    ensures ReadBaseline(output) == Some(Fresh(findings, allowlist))
  {
    ghost var lines;
    output, lines := PushHeader();
    assert LinesUpTo(findings, 0, allowlist) == HEADER_LINES;
    hide *;
    for k := 0 to |findings|
      invariant lines == LinesUpTo(findings, k, allowlist)
      invariant output == Unlines(lines)
    {
      LinesGrow(findings, k, allowlist);
      if IsAllowed(findings[k].identity, allowlist) {
        continue;
      }
      output, lines := PushEntry(output, lines, findings[k]);
    }
    AllLines(findings, allowlist);
  }

  lemma AllLines(findings: seq<Finding>, allowlist: Allowlist)
    ensures LinesUpTo(findings, |findings|, allowlist) == DocumentLines(Unallowed(findings, allowlist))
    ensures ReadBaseline(Unlines(DocumentLines(Unallowed(findings, allowlist)))) == Some(Fresh(findings, allowlist))
  {
    assert findings[..|findings|] == findings;
    DocumentReadsBack(Unallowed(findings, allowlist));
  }
}
