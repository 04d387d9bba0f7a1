/** The hand-written TOML basic string writer against TOML v1.0.0, section "String". */
module TomlString {
  import opened Common

  // ----- hexadecimal

  function HexDigit(d: nat): (c: char)
    requires d < 16
    ensures HexValue(c) == Some(d)
    ensures '0' <= c <= '9' || 'A' <= c <= 'F'
  {
    if d < 10 then '0' + d as char else 'A' + (d - 10) as char
  }

  function HexValue(c: char): Option<nat> {
    if '0' <= c <= '9' then Some(c as int - '0' as int)
    else if 'A' <= c <= 'F' then Some(c as int - 'A' as int + 10)
    else if 'a' <= c <= 'f' then Some(c as int - 'a' as int + 10)
    else None
  }

  /** The `width` lowest hexadecimal digits of `code`, upper case, zero padded. */
  function Hex(code: nat, width: nat): (s: string)
    ensures |s| == width
    ensures forall i :: 0 <= i < |s| ==> '0' <= s[i] <= '9' || 'A' <= s[i] <= 'F'
  {
    if width == 0 then ""
    else Hex(code / 16, width - 1) + [HexDigit(code % 16)]
  }

  function ParseHex(s: string): Option<nat> {
    if s == "" then Some(0)
    else
      var n := |s| - 1;
      match (ParseHex(s[..n]), HexValue(s[n]))
      case (Some(high), Some(low)) => Some(16 * high + low)
      case _ => None
  }

  function Pow16(n: nat): (p: nat)
    ensures p > 0
  {
    if n == 0 then 1 else 16 * Pow16(n - 1)
  }

  lemma ParseHexSnoc(s: string, d: nat)
    requires d < 16 && ParseHex(s).Some?
    ensures ParseHex(s + [HexDigit(d)]) == Some(16 * ParseHex(s).value + d)
  {
    hide HexValue, HexDigit;
    assert (s + [HexDigit(d)])[..|s|] == s;
  }

  lemma {:induction false} ParseHexOfHex(code: nat, width: nat)
    requires code < Pow16(width)
    ensures ParseHex(Hex(code, width)) == Some(code)
  {
    hide ParseHex;
    if width == 0 {
      ParseHexNothing();
    } else {
      ParseHexOfHex(code / 16, width - 1);
      ParseHexSnoc(Hex(code / 16, width - 1), code % 16);
    }
  }

  lemma ParseHexNothing()
    ensures ParseHex("") == Some(0)
  {
  }

  // ----- writing

  predicate IsAsciiGraphic(c: char) {
    '!' <= c <= '~'
  }

  function EscapeChar(c: char): string {
    if c == '\"' then "\\\""
    else if c == '\\' then "\\\\"
    else if c == '\n' then "\\n"
    else if c == '\r' then "\\r"
    else if c == '\t' then "\\t"
    else if IsAsciiGraphic(c) || c == ' ' then [c]
    else if c as int <= 0xFFFF then "\\u" + Hex(c as int, 4)
    else "\\U" + Hex(c as int, 8)
  }

  function Escape(value: string): string {
    if value == "" then "" else Escape(value[..|value| - 1]) + EscapeChar(value[|value| - 1])
  }

  lemma EscapeNothing()
    ensures Escape("") == ""
  {
  }

  lemma EscapeOneMore(value: string, i: nat)
    requires i < |value|
    ensures Escape(value[..i + 1]) == Escape(value[..i]) + EscapeChar(value[i])
  {
    hide EscapeChar;
    assert value[..i + 1][..i] == value[..i];
  }

  function Quoted(value: string): string {
    ['\"'] + Escape(value) + ['\"']
  }

  method TomlBasicString(value: string) returns (out: string)
    ensures out == Quoted(value)
    ensures ParseValue(out) == Some((value, ""))
    ensures forall i :: 0 <= i < |out| ==> ' ' <= out[i] <= '~'
  {
    hide Hex, ParseValue, Escape;
    EscapeNothing();
    out := ['\"'];
    for i := 0 to |value|
      invariant out == ['\"'] + Escape(value[..i])
    {
      var ch := value[i];
      ghost var before := out;
      EscapeOneMore(value, i);
      if ch == '\"' {
        out := out + "\\\"";
      } else if ch == '\\' {
        out := out + "\\\\";
      } else if ch == '\n' {
        out := out + "\\n";
      } else if ch == '\r' {
        out := out + "\\r";
      } else if ch == '\t' {
        out := out + "\\t";
      } else if IsAsciiGraphic(ch) || ch == ' ' {
        out := out + [ch];
      } else {
        var code := ch as int;
        if code <= 0xFFFF {
          out := out + ("\\u" + Hex(code, 4));
        } else {
          out := out + ("\\U" + Hex(code, 8));
        }
      }
      assert out == before + EscapeChar(ch);
    }
    assert value[..|value|] == value;
    out := out + ['\"'];
    QuotedReadsBack(value, "");
    assert out + "" == out;
    QuotedIsPrintable(value);
  }

  // ----- reading, as TOML v1.0.0 prescribes

  predicate IsScalar(n: nat) {
    n < 0xD800 || 0xE000 <= n < 0x11_0000
  }

  /** A character that may stand unescaped in a basic string. */
  predicate IsPlain(c: char) {
    c == '\t' || (' ' <= c && c != '\"' && c != '\\' && c != '\U{7F}')
  }

  /** The escape sequence after a backslash: what it denotes and how long it is. */
  function ReadEscape(s: string): (r: Option<(char, nat)>)
    ensures r.Some? ==> 0 < r.value.1 <= |s|
  {
    if s == "" then None
    else match s[0]
      case 'b' => Some(('\U{8}', 1))
      case 't' => Some(('\t', 1))
      case 'n' => Some(('\n', 1))
      case 'f' => Some(('\U{C}', 1))
      case 'r' => Some(('\r', 1))
      case '\"' => Some(('\"', 1))
      case '\\' => Some(('\\', 1))
      case 'u' => ReadCode(s, 4)
      case 'U' => ReadCode(s, 8)
      case _ => None
  }

  function ReadCode(s: string, width: nat): (r: Option<(char, nat)>)
    requires s != ""
    ensures r.Some? ==> r.value.1 == width + 1 <= |s|
  {
    if |s| < width + 1 then None
    else match ParseHex(s[1..width + 1])
      case Some(n) => if IsScalar(n) then Some((n as char, width + 1)) else None
      case None => None
  }

  /** The characters up to the closing quote, and what follows it. */
  function ReadBody(s: string): Option<(string, string)>
    decreases |s|
  {
    if s == "" then None
    else if s[0] == '\"' then Some(("", s[1..]))
    else if s[0] == '\\' then
      match ReadEscape(s[1..])
      case Some((c, n)) => Prepend(c, ReadBody(s[1 + n..]))
      case None => None
    else if IsPlain(s[0]) then Prepend(s[0], ReadBody(s[1..]))
    else None
  }

  function Prepend(c: char, r: Option<(string, string)>): Option<(string, string)> {
    match r
    case Some((v, rest)) => Some(([c] + v, rest))
    case None => None
  }

  function ParseValue(s: string): Option<(string, string)> {
    if s != "" && s[0] == '\"' then ReadBody(s[1..]) else None
  }

  // ----- reading undoes writing

  lemma HexCode(c: char, width: nat, rest: string)
    requires c as int < Pow16(width)
    ensures forall u :: ReadCode([u] + Hex(c as int, width) + rest, width) == Some((c, width + 1))
  {
    ParseHexOfHex(c as int, width);
    forall u: char
      ensures ReadCode([u] + Hex(c as int, width) + rest, width) == Some((c, width + 1))
    {
      var s := [u] + Hex(c as int, width) + rest;
      assert s[1..width + 1] == Hex(c as int, width);
    }
  }

  lemma PlainReadsBack(c: char, rest: string)
    requires IsPlain(c)
    ensures ReadBody([c] + rest) == Prepend(c, ReadBody(rest))
  {
  }

  lemma EscapeReadsBack(e: string, c: char, rest: string)
    requires ReadEscape(e + rest) == Some((c, |e|))
    ensures ReadBody(['\\'] + e + rest) == Prepend(c, ReadBody(rest))
  {
    hide ReadEscape;
    var s := ['\\'] + e + rest;
    assert s[1..] == e + rest;
    assert s[1 + |e|..] == rest;
  }

  lemma CodeEscapeReads(c: char, rest: string)
    ensures c as int <= 0xFFFF ==> ReadEscape("u" + Hex(c as int, 4) + rest) == Some((c, 5))
    ensures c as int > 0xFFFF ==> ReadEscape("U" + Hex(c as int, 8) + rest) == Some((c, 9))
  {
    hide Hex, ReadCode, Pow16;
    PowersOf16();
    if c as int <= 0xFFFF {
      HexCode(c, 4, rest);
      assert "u" == ['u'];
    } else {
      HexCode(c, 8, rest);
      assert "U" == ['U'];
    }
  }

  lemma PowersOf16()
    ensures Pow16(4) == 0x1_0000 && Pow16(8) == 0x1_0000_0000
  {
  }

  /** A written character reads back as itself. */
  lemma EscapedCharReadsBack(c: char, rest: string)
    ensures ReadBody(EscapeChar(c) + rest) == Prepend(c, ReadBody(rest))
  {
    hide ReadBody, ReadCode, Hex, Prepend;
    var e := EscapeChar(c);
    if |e| == 1 {
      PlainReadsBack(c, rest);
    } else if |e| == 2 {
      assert e == ['\\'] + [e[1]];
      EscapeReadsBack([e[1]], c, rest);
    } else if c as int <= 0xFFFF {
      CodeEscapeReads(c, rest);
      assert e == ['\\'] + ("u" + Hex(c as int, 4));
      EscapeReadsBack("u" + Hex(c as int, 4), c, rest);
    } else {
      CodeEscapeReads(c, rest);
      assert e == ['\\'] + ("U" + Hex(c as int, 8));
      EscapeReadsBack("U" + Hex(c as int, 8), c, rest);
    }
  }

  lemma {:induction false} EscapedReadsBack(value: string, rest: string)
    ensures ReadBody(Escape(value) + ['\"'] + rest) == Some((value, rest))
  {
    EscapedReadsBackTo(value, ['\"'] + rest);
    assert Escape(value) + ['\"'] + rest == Escape(value) + (['\"'] + rest);
    assert value + "" == value;
  }

  function PrependAll(v: string, r: Option<(string, string)>): Option<(string, string)> {
    match r
    case Some((w, rest)) => Some((v + w, rest))
    case None => None
  }

  lemma {:induction false} EscapedReadsBackTo(value: string, rest: string)
    ensures ReadBody(Escape(value) + rest) == PrependAll(value, ReadBody(rest))
  {
    hide ReadBody, EscapeChar;
    if value == "" {
      assert Escape(value) + rest == rest;
      if ReadBody(rest).Some? {
        assert "" + ReadBody(rest).value.0 == ReadBody(rest).value.0;
      }
    } else {
      var n := |value| - 1;
      var tail := EscapeChar(value[n]) + rest;
      assert Escape(value) + rest == Escape(value[..n]) + tail;
      EscapedReadsBackTo(value[..n], tail);
      EscapedCharReadsBack(value[n], rest);
      if ReadBody(rest).Some? {
        var w := ReadBody(rest).value.0;
        assert value[..n] + ([value[n]] + w) == value + w;
      }
    }
  }

  /** Decoding a written string gives the string, for every sequence of scalar values. */
  lemma QuotedReadsBack(value: string, rest: string)
    ensures ParseValue(Quoted(value) + rest) == Some((value, rest))
  {
    hide ReadBody;
    EscapedReadsBack(value, rest);
    assert (Quoted(value) + rest)[1..] == Escape(value) + ['\"'] + rest;
  }

  lemma {:induction false} EscapeIsPrintable(value: string)
    ensures forall i :: 0 <= i < |Escape(value)| ==> ' ' <= Escape(value)[i] <= '~'
  {
    if value != "" {
      EscapeIsPrintable(value[..|value| - 1]);
      var e := EscapeChar(value[|value| - 1]);
      forall i | 0 <= i < |e|
        ensures ' ' <= e[i] <= '~'
      {
      }
    }
  }

  /** A written string is one line of printable ASCII. */
  lemma QuotedIsPrintable(value: string)
    ensures forall i :: 0 <= i < |Quoted(value)| ==> ' ' <= Quoted(value)[i] <= '~'
  {
    EscapeIsPrintable(value);
  }
}
