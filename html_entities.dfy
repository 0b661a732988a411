/** The HTML-entities tool's encoder: a chain of global replacements that
    turns the five characters HTML treats specially, and `&` itself, into
    character references. */
module HtmlEntities {

  datatype Mode = Encode | Decode

  /** `s.replace(/c/g, e)` for a one-character pattern. */
  function ReplaceAll(s: string, c: char, e: string): (r: string)
    ensures c !in s ==> r == s
    ensures c !in e ==> c !in r
    ensures forall x :: x in r ==> x in s || x in e
    ensures |e| >= 1 ==> |r| >= |s|
  {
    if s == [] then ""
    else if s[0] == c then e + ReplaceAll(s[1..], c, e)
    else [s[0]] + ReplaceAll(s[1..], c, e)
  }

  /** A global replacement works piece by piece. */
  lemma {:induction false} ReplaceConcat(a: string, b: string, c: char, e: string)
    ensures ReplaceAll(a + b, c, e) == ReplaceAll(a, c, e) + ReplaceAll(b, c, e)
  {
    if a != [] {
      assert (a + b)[0] == a[0] && (a + b)[1..] == a[1..] + b;
      ReplaceConcat(a[1..], b, c, e);
      var h := if a[0] == c then e else [a[0]];
      assert ReplaceAll(a + b, c, e) == h + ReplaceAll(a[1..] + b, c, e);
      assert ReplaceAll(a, c, e) == h + ReplaceAll(a[1..], c, e);
    } else {
      assert a + b == b;
    }
  }

  /** `encodeEntities(str)`: `&` first, then `<`, `>`, `"`, `'` and the
      backtick. */
  function EncodeEntities(s: string): (r: string)
    ensures |r| >= |s|
    ensures (forall i :: 0 <= i < |s| ==> !Special(s[i])) ==> r == s
  {
    var amp := ReplaceAll(s, '&', "&amp;");
    var lt := ReplaceAll(amp, '<', "&lt;");
    var gt := ReplaceAll(lt, '>', "&gt;");
    var quot := ReplaceAll(gt, '"', "&quot;");
    var apos := ReplaceAll(quot, '\'', "&#39;");
    ReplaceAll(apos, '`', "&#96;")
  }

  /** The characters the encoder rewrites. */
  predicate Special(c: char)
  {
    c == '&' || c == '<' || c == '>' || c == '"' || c == '\'' || c == '`'
  }

  /** The characters that never survive encoding. */
  predicate Raw(c: char)
  {
    c == '<' || c == '>' || c == '"' || c == '\'' || c == '`'
  }

  /** The reference each special character stands for. */
  function EncodeChar(c: char): (r: string)
    ensures |r| >= 1
    ensures |r| == 1 <==> !Special(c)
    ensures !Special(c) ==> r == [c]
    ensures forall i :: 0 <= i < |r| ==> !Raw(r[i])
  {
    match c
    case '&' => "&amp;"
    case '<' => "&lt;"
    case '>' => "&gt;"
    case '"' => "&quot;"
    case '\'' => "&#39;"
    case '`' => "&#96;"
    case _ => [c]
  }

  /** The reference encoder: every character replaced by its reference,
      in order. */
  function EncodeEach(s: string): (r: string)
    ensures |r| >= |s|
    ensures |r| == |s| <==> forall i :: 0 <= i < |s| ==> !Special(s[i])
    ensures (forall i :: 0 <= i < |s| ==> !Special(s[i])) ==> r == s
    ensures forall i :: 0 <= i < |r| ==> !Raw(r[i])
  {
    if s == [] then ""
    else
      var rest := EncodeEach(s[1..]);
      assert forall i :: 1 <= i < |s| ==> s[i] == s[1..][i - 1];
      assert s == [s[0]] + s[1..];
      EncodeChar(s[0]) + rest
  }

  /** The reference encoder works piece by piece. */
  lemma {:induction false} EachConcat(a: string, b: string)
    ensures EncodeEach(a + b) == EncodeEach(a) + EncodeEach(b)
  {
    if a != [] {
      assert (a + b)[0] == a[0] && (a + b)[1..] == a[1..] + b;
      EachConcat(a[1..], b);
      assert EncodeEach(a + b) == EncodeChar(a[0]) + EncodeEach(a[1..] + b);
      assert EncodeEach(a) == EncodeChar(a[0]) + EncodeEach(a[1..]);
      Regroup(EncodeChar(a[0]), EncodeEach(a[1..]), EncodeEach(b));
    } else {
      assert a + b == b;
    }
  }

  lemma Regroup(x: string, y: string, z: string)
    ensures x + (y + z) == (x + y) + z
  {
  }

  /** The replacement chain works piece by piece. */
  lemma ChainConcat(a: string, b: string)
    ensures EncodeEntities(a + b) == EncodeEntities(a) + EncodeEntities(b)
  {
    var a1, b1 := ReplaceAll(a, '&', "&amp;"), ReplaceAll(b, '&', "&amp;");
    ReplaceConcat(a, b, '&', "&amp;");
    var a2, b2 := ReplaceAll(a1, '<', "&lt;"), ReplaceAll(b1, '<', "&lt;");
    ReplaceConcat(a1, b1, '<', "&lt;");
    var a3, b3 := ReplaceAll(a2, '>', "&gt;"), ReplaceAll(b2, '>', "&gt;");
    ReplaceConcat(a2, b2, '>', "&gt;");
    var a4, b4 := ReplaceAll(a3, '"', "&quot;"), ReplaceAll(b3, '"', "&quot;");
    ReplaceConcat(a3, b3, '"', "&quot;");
    var a5, b5 := ReplaceAll(a4, '\'', "&#39;"), ReplaceAll(b4, '\'', "&#39;");
    ReplaceConcat(a4, b4, '\'', "&#39;");
    ReplaceConcat(a5, b5, '`', "&#96;");
  }

  /** A reference produced by one step of the chain is left alone by the
      steps after it, so one character comes out as its reference. */
  lemma ChainChar(c: char)
    ensures EncodeEntities([c]) == EncodeChar(c)
  {
    var amp := ReplaceAll([c], '&', "&amp;");
    assert amp == if c == '&' then EncodeChar(c) else [c] by {
      if c == '&' { assert [c][1..] == []; }
    }
    var lt := ReplaceAll(amp, '<', "&lt;");
    Step(c, amp, '<', "&lt;");
    var gt := ReplaceAll(lt, '>', "&gt;");
    Step(c, lt, '>', "&gt;");
    var quot := ReplaceAll(gt, '"', "&quot;");
    Step(c, gt, '"', "&quot;");
    var apos := ReplaceAll(quot, '\'', "&#39;");
    Step(c, quot, '\'', "&#39;");
    Step(c, apos, '`', "&#96;");
  }

  /** A step of the chain after the first, on the text built so far from
      one character: the character itself or its finished reference, which
      holds no raw character. */
  lemma Step(c: char, cur: string, x: char, e: string)
    requires Raw(x) && (x == c ==> e == EncodeChar(c))
    requires cur == [c] || cur == EncodeChar(c)
    ensures ReplaceAll(cur, x, e) == if cur == [c] && c == x then EncodeChar(c) else cur
  {
    if cur == [c] && c == x {
      assert cur[1..] == [];
    } else {
      assert x !in cur by {
        if cur != [c] {
          forall i | 0 <= i < |cur| ensures cur[i] != x { assert !Raw(cur[i]); }
        }
      }
    }
  }

  /** The replacement chain equals the per-character reference encoder. */
  lemma {:induction false} EncodeIsEach(s: string)
    ensures EncodeEntities(s) == EncodeEach(s)
  {
    if s != [] {
      assert s == [s[0]] + s[1..];
      ChainConcat([s[0]], s[1..]);
      ChainChar(s[0]);
      EncodeIsEach(s[1..]);
    }
  }

  /** The encoded text holds no raw `<`, `>`, `"`, `'` or backtick. */
  lemma NoRawLeft(s: string)
    ensures forall i :: 0 <= i < |EncodeEntities(s)| ==> !Raw(EncodeEntities(s)[i])
  {
    EncodeIsEach(s);
  }

  /** Encoding never shortens the text, and keeps its length exactly when
      none of the six characters occurs, in which case the text is
      unchanged. */
  lemma EncodeLength(s: string)
    ensures |EncodeEntities(s)| >= |s|
    ensures |EncodeEntities(s)| == |s| <==> forall i :: 0 <= i < |s| ==> !Special(s[i])
    ensures EncodeEntities(s) == s <==> forall i :: 0 <= i < |s| ==> !Special(s[i])
  {
    EncodeIsEach(s);
  }

  /** Characters other than the six are copied as they are, and the
      encoding of a text is the encodings of its parts in order. */
  lemma EncodeInOrder(a: string, c: char, b: string)
    requires !Special(c)
    ensures EncodeEntities(a + [c] + b) == EncodeEntities(a) + [c] + EncodeEntities(b)
  {
    ChainConcat(a + [c], b);
    ChainConcat(a, [c]);
    ChainChar(c);
  }

  /** An existing reference is encoded again: `&amp;` becomes `&amp;amp;`. */
  lemma ReencodesEntities()
    ensures EncodeEntities("&") == "&amp;"
    ensures EncodeEntities("&amp;") == "&amp;amp;"
  {
    ChainChar('&');
    var t := "amp;";
    AmpPrefix(t);
    EncodeIsEach(t);
    PlainTail();
    AmpLiterals();
  }

  lemma AmpLiterals()
    ensures "&amp;" == ['&'] + "amp;" && "&amp;amp;" == "&amp;" + "amp;"
  {
  }

  lemma AmpPrefix(t: string)
    ensures EncodeEntities(['&'] + t) == "&amp;" + EncodeEntities(t)
  {
    ChainConcat(['&'], t);
    ChainChar('&');
  }

  lemma PlainTail()
    ensures EncodeEach("amp;") == "amp;"
  {
    var t := "amp;";
    assert forall i :: 0 <= i < |t| ==> !Special(t[i]);
  }

  /** Encoding twice differs from encoding once exactly when the text has a
      character to encode. */
  lemma NotIdempotent(s: string)
    ensures (EncodeEntities(EncodeEntities(s)) == EncodeEntities(s))
              <==> (forall i :: 0 <= i < |s| ==> !Special(s[i]))
  {
    var e := EncodeEntities(s);
    EncodeLength(s);
    EncodeLength(e);
    if exists i :: 0 <= i < |s| && Special(s[i]) {
      assert |e| > |s|;
      var k :| 0 <= k < |s| && Special(s[k]);
      AmpersandIn(s, k);
    }
  }

  /** A text with a character to encode encodes to one holding `&`. */
  lemma AmpersandIn(s: string, k: nat)
    requires k < |s| && Special(s[k])
    ensures exists i :: 0 <= i < |EncodeEntities(s)| && EncodeEntities(s)[i] == '&'
  {
    assert s == s[..k] + [s[k]] + s[k + 1..];
    ChainConcat(s[..k] + [s[k]], s[k + 1..]);
    ChainConcat(s[..k], [s[k]]);
    ChainChar(s[k]);
    var e := EncodeEntities(s);
    assert e[|EncodeEntities(s[..k])|] == '&';
  }

  /** The output panel: empty for empty input, otherwise the input encoded
      or decoded; decoding belongs to the browser and is passed in. */
  function Output(mode: Mode, input: string, decode: string -> string): (out: string)
    ensures input == "" ==> out == ""
    ensures input != "" && mode == Encode ==> out == EncodeEntities(input)
  {
    if input == "" then ""
    else
      match mode
      case Encode => EncodeEntities(input)
      case Decode => decode(input)
  }
}
