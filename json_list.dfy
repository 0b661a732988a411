/** The stored form of a list of tool ids: `JSON.stringify` of an array of
    strings, and `JSON.parse` of a text that should hold such an array.
    Strings are escaped as section 25.5.2.3 of ECMA-262 (QuoteJSONString)
    says: the quote, the backslash and the control characters U+0000 to
    U+001F; the parser follows the JSON grammar of RFC 8259 for arrays of
    strings, whitespace between tokens included. */
module JsonList {
  import opened Wrappers
  import opened JsNumber

  // ---------------------------------------------------------------------
  // Writing

  /** A character JSON forbids raw inside a string. */
  predicate IsControl(c: char) { c as int < 0x20 }

  /** The whitespace JSON allows between tokens. */
  predicate IsJsonSpace(c: char) { c == ' ' || c == '\t' || c == '\n' || c == '\r' }

  /** The letter of the two-character escape `JSON.stringify` writes for
      `c`, if it has one. */
  function ShortEscape(c: char): (e: Option<char>)
    ensures e.Some? ==> e.value != 'u'
  {
    if c == '"' then Some('"')
    else if c == '\\' then Some('\\')
    else if c as int == 8 then Some('b')
    else if c == '\t' then Some('t')
    else if c == '\n' then Some('n')
    else if c as int == 12 then Some('f')
    else if c == '\r' then Some('r')
    else None
  }

  /** `\u00XX`, lower-case hex, for a control character without a short
      escape. */
  function UnicodeEscape(c: char): (r: string)
    requires IsControl(c)
    ensures |r| == 6 && r[0] == '\\' && r[1] == 'u'
  {
    "\\u00" + [DigitChar(c as int / 16), DigitChar(c as int % 16)]
  }

  function EscapeChar(c: char): (r: string)
    ensures |r| >= 1
    ensures forall i :: 0 <= i < |r| ==> !IsControl(r[i])
    ensures r == [c] <==> ShortEscape(c).None? && !IsControl(c)
  {
    match ShortEscape(c)
    case Some(e) => ['\\', e]
    case None => if IsControl(c) then UnicodeEscape(c) else [c]
  }

  /** The body of a JSON string literal for `s`. */
  function Escape(s: string): (r: string)
    ensures |r| >= |s|
    ensures forall i :: 0 <= i < |r| ==> !IsControl(r[i])
  {
    if s == [] then [] else EscapeChar(s[0]) + Escape(s[1..])
  }

  function Quote(s: string): (r: string)
    ensures |r| >= 2 && r[0] == '"' && r[|r| - 1] == '"'
    ensures forall i :: 0 <= i < |r| ==> !IsControl(r[i])
  {
    "\"" + Escape(s) + "\""
  }

  /** The quoted elements separated by commas. */
  function Items(xs: seq<string>): (r: string)
    ensures xs != [] ==> r != [] && r[0] == '"'
    ensures forall i :: 0 <= i < |r| ==> !IsControl(r[i])
  {
    if xs == [] then ""
    else if |xs| == 1 then Quote(xs[0])
    else Quote(xs[0]) + "," + Items(xs[1..])
  }

  /** `JSON.stringify(xs)` for an array of strings. */
  function Serialize(xs: seq<string>): (r: string)
    ensures |r| >= 2 && r[0] == '[' && r[|r| - 1] == ']'
    ensures forall i :: 0 <= i < |r| ==> !IsControl(r[i])
  {
    "[" + Items(xs) + "]"
  }

  // ---------------------------------------------------------------------
  // Reading

  /** Whitespace between tokens skipped. */
  function SkipSpace(s: string): (r: string)
    ensures |r| <= |s|
    ensures r == [] || !IsJsonSpace(r[0])
    ensures s != [] && !IsJsonSpace(s[0]) ==> r == s
  {
    if s != [] && IsJsonSpace(s[0]) then SkipSpace(s[1..]) else s
  }

  /** The character a one-letter escape (other than `\u`) stands for. */
  function Unescape(e: char): Option<char>
  {
    if e == '"' || e == '\\' || e == '/' then Some(e)
    else if e == 'b' then Some(8 as char)
    else if e == 'f' then Some(12 as char)
    else if e == 'n' then Some('\n')
    else if e == 'r' then Some('\r')
    else if e == 't' then Some('\t')
    else None
  }

  /** Four hex digits, either case, as a UTF-16 code unit. */
  function HexQuad(s: string): (r: Option<nat>)
    requires |s| == 4
    ensures r.Some? <==> AllDigits(s, 16)
    ensures r.Some? ==> r.value < 0x10000
  {
    if AllDigits(s, 16) then
      assert IsRadixDigit(s[0], 16) && IsRadixDigit(s[1], 16);
      assert IsRadixDigit(s[2], 16) && IsRadixDigit(s[3], 16);
      Some(4096 * DigitValue(s[0]) + 256 * DigitValue(s[1]) + 16 * DigitValue(s[2]) + DigitValue(s[3]))
    else None
  }

  /** The escape sequence at the start of `s`: the character it stands for
      and how many characters it takes. A surrogate pair written as two
      `\u` escapes is one character; a lone surrogate is not a character of
      this model and fails. */
  function EscapeAt(s: string): (r: Option<(char, nat)>)
    requires s != [] && s[0] == '\\'
    ensures r.Some? ==> 2 <= r.value.1 <= |s|
  {
    if |s| < 2 then None
    else if s[1] != 'u' then
      match Unescape(s[1])
      case Some(c) => Some((c, 2))
      case None => None
    else if |s| < 6 then None
    else
      match HexQuad(s[2..6])
      case None => None
      case Some(v) =>
        if v < 0xD800 || 0xDFFF < v then Some((v as char, 6))
        else if v <= 0xDBFF && |s| >= 12 && s[6] == '\\' && s[7] == 'u' then
          match HexQuad(s[8..12])
          case Some(w) =>
            if 0xDC00 <= w <= 0xDFFF
            then Some(((0x10000 + (v - 0xD800) * 0x400 + (w - 0xDC00)) as char, 12))
            else None
          case None => None
        else None
  }

  function Prepend(c: char, r: Option<(string, string)>): Option<(string, string)>
  {
    match r
    case None => None
    case Some((body, rest)) => Some(([c] + body, rest))
  }

  /** Reads the body of a string literal whose opening quote is already
      consumed: the decoded text and what follows the closing quote. A raw
      control character, an unknown escape or a missing closing quote is a
      syntax error. */
  function ParseString(s: string): (r: Option<(string, string)>)
    ensures r.Some? ==> |r.value.1| < |s|
    ensures s != [] && IsControl(s[0]) ==> r.None?
    decreases |s|
  {
    if s == [] then None
    else if s[0] == '"' then Some(("", s[1..]))
    else if IsControl(s[0]) then None
    else if s[0] != '\\' then Prepend(s[0], ParseString(s[1..]))
    else
      match EscapeAt(s)
      case None => None
      case Some((c, n)) => Prepend(c, ParseString(s[n..]))
  }

  /** Reads `"…", "…" ]` and then nothing but whitespace to the end; `s`
      starts at an element. Each element takes at least three characters:
      its two quotes and the `,` or `]` after it. */
  function ParseElements(s: string): (r: Option<seq<string>>)
    ensures r.Some? ==> r.value != [] && 3 * |r.value| <= |s|
    decreases |s|
  {
    if s == [] || s[0] != '"' then None
    else
      match ParseString(s[1..])
      case None => None
      case Some((x, rest)) =>
        var after := SkipSpace(rest);
        if after != [] && after[0] == ']' && SkipSpace(after[1..]) == [] then Some([x])
        else if after != [] && after[0] == ',' then
          match ParseElements(SkipSpace(after[1..]))
          case None => None
          case Some(xs) => Some([x] + xs)
        else None
  }

  /** `JSON.parse(s)` where an array of strings is expected; `None` is the
      exception `JSON.parse` throws. */
  function Parse(s: string): (r: Option<seq<string>>)
    ensures r.Some? ==> |s| >= 2 && 3 * |r.value| < |s|
  {
    var t := SkipSpace(s);
    if t == [] || t[0] != '[' then None
    else
      var body := SkipSpace(t[1..]);
      if body != [] && body[0] == ']' then
        if SkipSpace(body[1..]) == [] then Some([]) else None
      else ParseElements(body)
  }

  // ---------------------------------------------------------------------
  // Round trip

  /** One written character reads back as itself. */
  lemma EscapedChar(c: char, t: string)
    ensures ParseString(EscapeChar(c) + t) == Prepend(c, ParseString(t))
  {
    var s := EscapeChar(c) + t;
    match ShortEscape(c)
    case Some(e) =>
      assert s == ['\\', e] + t && s[2..] == t;
      ShortUnescape(c);
      assert EscapeAt(s) == Some((c, 2));
    case None =>
      if IsControl(c) {
        ControlEscape(c, t);
      } else {
        assert s == [c] + t && s[1..] == t;
      }
  }

  lemma ShortUnescape(c: char)
    requires ShortEscape(c).Some?
    ensures Unescape(ShortEscape(c).value) == Some(c)
  {
  }

  /** `\u00XX` reads back as the control character it encodes. */
  lemma ControlEscape(c: char, t: string)
    requires IsControl(c) && ShortEscape(c).None?
    ensures ParseString(UnicodeEscape(c) + t) == Prepend(c, ParseString(t))
  {
    var q, r := c as int / 16, c as int % 16;
    var hi, lo := DigitChar(q), DigitChar(r);
    var s := UnicodeEscape(c) + t;
    assert s == ['\\', 'u', '0', '0', hi, lo] + t;
    assert s[2..6] == ['0', '0', hi, lo];
    assert s[6..] == t;
    assert HexQuad(['0', '0', hi, lo]) == Some(16 * q + r) by {
      assert DigitValue('0') == 0;
      var w := ['0', '0', hi, lo];
      assert forall i :: 0 <= i < 4 ==> IsRadixDigit(w[i], 16);
    }
    assert 16 * q + r == c as int;
    assert EscapeAt(s) == Some((c, 6));
  }

  lemma {:induction false} ParseEscaped(x: string, rest: string)
    ensures ParseString(Escape(x) + "\"" + rest) == Some((x, rest))
  {
    if x == [] {
      assert Escape(x) + "\"" + rest == "\"" + rest;
    } else {
      ParseEscaped(x[1..], rest);
      var tail := Escape(x[1..]) + "\"" + rest;
      assert Escape(x) + "\"" + rest == EscapeChar(x[0]) + tail;
      EscapedChar(x[0], tail);
      assert [x[0]] + x[1..] == x;
    }
  }

  lemma {:induction false} ParseItems(xs: seq<string>)
    requires xs != []
    ensures ParseElements(Items(xs) + "]") == Some(xs)
  {
    if |xs| == 1 {
      LastElement(xs[0]);
      assert xs == [xs[0]];
    } else {
      var q, i := Quote(xs[0]), Items(xs[1..]);
      var more := i + "]";
      assert Items(xs) == q + "," + i;
      Regroup(q, ",", i, "]");
      ParseItems(xs[1..]);
      NextElement(xs[0], more, xs[1..]);
      assert [xs[0]] + xs[1..] == xs;
    }
  }

  /** The last element, then the closing bracket. */
  lemma LastElement(x: string)
    ensures ParseElements(Quote(x) + "]") == Some([x])
  {
    QuotedPrefix(x, "]");
    ParseEscaped(x, "]");
    assert "]"[1..] == [];
  }

  /** An element, a comma, and the elements after it. */
  lemma NextElement(x: string, more: string, xs: seq<string>)
    requires more != [] && more[0] == '"' && ParseElements(more) == Some(xs)
    ensures ParseElements(Quote(x) + "," + more) == Some([x] + xs)
  {
    var rest := "," + more;
    QuotedPrefix(x, rest);
    ParseEscaped(x, rest);
    CommaStep(Quote(x) + rest, x, more, xs);
    assert Quote(x) + "," + more == Quote(x) + rest;
  }

  lemma CommaStep(s: string, x: string, more: string, xs: seq<string>)
    requires s != [] && s[0] == '"' && ParseString(s[1..]) == Some((x, "," + more))
    requires more != [] && more[0] == '"' && ParseElements(more) == Some(xs)
    ensures ParseElements(s) == Some([x] + xs)
  {
    var rest := "," + more;
    assert SkipSpace(rest) == rest;
    assert rest[1..] == more;
    assert SkipSpace(more) == more;
  }

  /** A quoted string followed by more text: the opening quote, then the
      escaped body, the closing quote and the rest. */
  lemma QuotedPrefix(x: string, tail: string)
    ensures var s := Quote(x) + tail; s != [] && s[0] == '"' && s[1..] == Escape(x) + "\"" + tail
  {
    var e := Escape(x);
    assert Quote(x) + tail == ['"'] + (e + "\"" + tail);
  }

  lemma Regroup(a: string, b: string, c: string, d: string)
    ensures a + b + c + d == a + b + (c + d)
  {
  }

  /** What is stored can be read back. */
  lemma {:induction false} ParseSerialize(xs: seq<string>)
    ensures Parse(Serialize(xs)) == Some(xs)
  {
    var body := Items(xs) + "]";
    assert Serialize(xs) == "[" + body;
    if xs == [] {
      assert body == "]" && body[1..] == [];
      OpenBracket(body);
    } else {
      assert body[0] == '"';
      OpenBracket(body);
      ParseItems(xs);
    }
  }

  /** An opening bracket directly followed by an element or the closing
      bracket. */
  lemma OpenBracket(body: string)
    requires body != [] && (body[0] == '"' || body[0] == ']')
    ensures Parse("[" + body) ==
              if body[0] == ']' then (if SkipSpace(body[1..]) == [] then Some([]) else None)
              else ParseElements(body)
  {
    var s := "[" + body;
    assert SkipSpace(s) == s;
    assert s[1..] == body;
    assert SkipSpace(body) == body;
  }

  // ---------------------------------------------------------------------
  // Rejected text

  /** A raw control character inside a string literal makes the literal
      unreadable, whatever plain text precedes it. */
  lemma {:induction false} ControlRejected(x: string, c: char, rest: string)
    requires forall i :: 0 <= i < |x| ==> x[i] != '"' && x[i] != '\\' && !IsControl(x[i])
    requires IsControl(c)
    ensures ParseString(x + [c] + rest) == None
  {
    var s := x + [c] + rest;
    if x == [] {
      assert s == [c] + rest;
    } else {
      assert s[0] == x[0] && s[1..] == x[1..] + [c] + rest;
      ControlRejected(x[1..], c, rest);
    }
  }

  /** So a stored record holding a raw line feed inside an id, such as
      `["a` line feed `"]`, is a syntax error and reads as no record. */
  lemma RawLineFeedRecord(x: string)
    requires forall i :: 0 <= i < |x| ==> x[i] != '"' && x[i] != '\\' && !IsControl(x[i])
    ensures Parse("[\"" + x + "\n\"]") == None
  {
    var s := "[\"" + x + "\n\"]";
    assert s[0] == '[' && s[1] == '"';
    assert s[1..][1..] == x + ['\n'] + "\"]";
    ControlRejected(x, '\n', "\"]");
  }
}
