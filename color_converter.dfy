/** The colour converter's integer half: the hex-colour parser and printer,
    the channel clamp behind the RGB inputs, and the fallback colour shown
    while the hex field holds something that is not a colour. */
module ColorConverter {
  import opened Wrappers
  import opened TextUtil
  import opened JsNumber

  datatype Rgb = Rgb(r: int, g: int, b: int)

  datatype Channel = Red | Green | Blue

  /** Every channel in `0..255`. */
  predicate InRange(c: Rgb)
  {
    0 <= c.r <= 255 && 0 <= c.g <= 255 && 0 <= c.b <= 255
  }

  /** `s.replace(ch, '')` with a string pattern: only the first occurrence
      goes. */
  function RemoveFirst(s: string, ch: char): (r: string)
    ensures ch !in s ==> r == s
    ensures ch in s ==> |r| == |s| - 1
    ensures multiset(r) == multiset(s) - multiset{ch}
  {
    if s == [] then ""
    else if s[0] == ch then
      assert s == [s[0]] + s[1..];
      s[1..]
    else
      assert s == [s[0]] + s[1..];
      [s[0]] + RemoveFirst(s[1..], ch)
  }

  /** The occurrence removed is the first one: what precedes it is kept, and
      so is everything after it, later copies of `ch` included. */
  lemma {:induction false} RemoveFirstSplit(p: string, ch: char, q: string)
    requires ch !in p
    ensures RemoveFirst(p + [ch] + q, ch) == p + q
  {
    var s := p + [ch] + q;
    if p == [] {
      assert s == [ch] + q && s[1..] == q;
    } else {
      assert s[0] == p[0] != ch;
      assert s[1..] == p[1..] + [ch] + q;
      RemoveFirstSplit(p[1..], ch, q);
      assert RemoveFirst(s, ch) == [p[0]] + (p[1..] + q);
      ConsAppend(p, q);
    }
  }

  lemma ConsAppend(p: string, q: string)
    requires p != []
    ensures p + q == [p[0]] + (p[1..] + q)
  {
  }

  /** Three digits stand for six, each doubled; any other length is kept. */
  function Expand(clean: string): (full: string)
    ensures |clean| == 3 ==> |full| == 6 && forall i :: 0 <= i < 6 ==> full[i] == clean[i / 2]
    ensures |clean| != 3 ==> full == clean
  {
    if |clean| == 3 then [clean[0], clean[0], clean[1], clean[1], clean[2], clean[2]] else clean
  }

  /** The text the parser tests against `^[0-9a-f]{6}$` (case-insensitive). */
  function Full(hex: string): string
  {
    Expand(RemoveFirst(hex, '#'))
  }

  /** A two-digit hexadecimal channel, as `parseInt(pair, 16)` reads it. */
  function Channel2(pair: string): (v: nat)
    requires |pair| == 2 && AllDigits(pair, 16)
    ensures ParseInt(pair, 16) == Some(v)
    ensures v <= 255
    ensures v == DigitValue(pair[0]) * 16 + DigitValue(pair[1])
  {
    ParseDigits(pair, 16);
    PairValue(pair);
    assert IsRadixDigit(pair[0], 16) && IsRadixDigit(pair[1], 16);
    Value(pair, 16)
  }

  lemma PairValue(pair: string)
    requires |pair| == 2
    ensures Value(pair, 16) == DigitValue(pair[0]) * 16 + DigitValue(pair[1])
  {
    var hi := pair[..1];
    assert hi[..0] == "";
    assert Value(hi, 16) == DigitValue(pair[0]);
  }

  /** `hexToRgb`: `None` unless the text is exactly six hex digits once the
      first `#` is gone and three digits are doubled. */
  function HexToRgb(hex: string): (c: Option<Rgb>)
    ensures c.Some? <==> |Full(hex)| == 6 && AllDigits(Full(hex), 16)
    ensures c.Some? ==> InRange(c.value)
    ensures c.Some? ==>
              && Some(c.value.r) == ParseInt(Full(hex)[0..2], 16)
              && Some(c.value.g) == ParseInt(Full(hex)[2..4], 16)
              && Some(c.value.b) == ParseInt(Full(hex)[4..6], 16)
  {
    var full := Full(hex);
    if |full| == 6 && AllDigits(full, 16) then
      DigitsSlice(full, 0);
      DigitsSlice(full, 2);
      DigitsSlice(full, 4);
      var r := Channel2(full[0..2]);
      var g := Channel2(full[2..4]);
      var b := Channel2(full[4..6]);
      Some(Rgb(r, g, b))
    else None
  }

  lemma DigitsSlice(s: string, i: nat)
    requires i + 2 <= |s| && AllDigits(s, 16)
    ensures |s[i..i + 2]| == 2 && AllDigits(s[i..i + 2], 16)
  {
    assert s[i..i + 2][0] == s[i] && s[i..i + 2][1] == s[i + 1];
  }

  /** `v.toString(16).padStart(2, '0')`: at least two characters; for a
      value that is not negative, lower-case hex digits that read back as
      the value. */
  function Hex2(v: int): (r: string)
    ensures |r| >= 2
    ensures v >= 0 ==> AllDigits(r, 16) && Value(r, 16) == v
    ensures v >= 0 ==> forall i :: 0 <= i < |r| ==> !IsUpper(r[i])
  {
    if v >= 0 then PadDigits(v, 16, 2); PadStart(IntToRadix(v, 16), 2, '0')
    else PadStart(IntToRadix(v, 16), 2, '0')
  }

  /** `rgbToHex`: a `#` and the three padded channels, seven characters or
      more. */
  function RgbToHex(c: Rgb): (r: string)
    ensures |r| >= 7 && r[0] == '#'
  {
    "#" + Hex2(c.r) + Hex2(c.g) + Hex2(c.b)
  }

  /** A channel in range prints as exactly two lower-case hex digits that
      read back as the channel. */
  lemma Hex2Channel(v: int)
    requires 0 <= v <= 255
    ensures |Hex2(v)| == 2 && AllDigits(Hex2(v), 16)
    ensures forall i :: 0 <= i < 2 ==> !IsUpper(Hex2(v)[i])
    ensures Value(Hex2(v), 16) == v
  {
    assert Hex2(v) == PadStart(ToRadix(v, 16), 2, '0');
    if v >= 16 {
      DivMod(v, 16);
      assert |ToRadix(v / 16, 16)| == 1;
    }
    PadDigits(v, 16, 2);
  }

  /** What `rgbToHex` prints for an in-range colour: `#` and six lower-case
      hex digits. */
  lemma HexFormat(c: Rgb)
    requires InRange(c)
    ensures |RgbToHex(c)| == 7 && RgbToHex(c)[0] == '#'
    ensures AllDigits(RgbToHex(c)[1..], 16)
    ensures forall i :: 1 <= i < 7 ==> !IsUpper(RgbToHex(c)[i])
  {
    Hex2Channel(c.r);
    Hex2Channel(c.g);
    Hex2Channel(c.b);
    HashSix("#", Hex2(c.r), Hex2(c.g), Hex2(c.b));
  }

  lemma HashSix(hash: string, x: string, y: string, z: string)
    requires hash == "#" && |x| == 2 && |y| == 2 && |z| == 2
    requires AllDigits(x, 16) && AllDigits(y, 16) && AllDigits(z, 16)
    requires forall i :: 0 <= i < 2 ==> !IsUpper(x[i]) && !IsUpper(y[i]) && !IsUpper(z[i])
    ensures var h := hash + x + y + z;
      && |h| == 7 && h[0] == '#' && AllDigits(h[1..], 16)
      && forall i :: 1 <= i < 7 ==> !IsUpper(h[i])
  {
    var h := hash + x + y + z;
    forall i | 1 <= i < 7
      ensures IsRadixDigit(h[i], 16) && !IsUpper(h[i]) && h[1..][i - 1] == h[i]
    {
      if i < 3 { assert h[i] == x[i - 1]; }
      else if i < 5 { assert h[i] == y[i - 3]; }
      else { assert h[i] == z[i - 5]; }
    }
  }

  /** Round trip: an in-range colour printed and parsed again is the same
      colour. */
  lemma HexRoundTrip(c: Rgb)
    requires InRange(c)
    ensures HexToRgb(RgbToHex(c)) == Some(c)
  {
    var x, y, z := Hex2(c.r), Hex2(c.g), Hex2(c.b);
    HexParts(c);
    assert HexToRgb("#" + (x + y + z)) == Some(c) by {
      Hex2Channel(c.r);
      Hex2Channel(c.g);
      Hex2Channel(c.b);
      HexOfPairs(x, y, z);
    }
  }

  lemma HexParts(c: Rgb)
    ensures RgbToHex(c) == "#" + (Hex2(c.r) + Hex2(c.g) + Hex2(c.b))
  {
    Assoc4("#", Hex2(c.r), Hex2(c.g), Hex2(c.b));
  }

  lemma Assoc4(w: string, x: string, y: string, z: string)
    ensures w + x + y + z == w + (x + y + z)
  {
  }

  /** Six hex digits after a `#` are read two by two. */
  lemma HexOfPairs(x: string, y: string, z: string)
    requires |x| == 2 && |y| == 2 && |z| == 2
    requires AllDigits(x, 16) && AllDigits(y, 16) && AllDigits(z, 16)
    ensures HexToRgb("#" + (x + y + z)) == Some(Rgb(Value(x, 16), Value(y, 16), Value(z, 16)))
  {
    var body := x + y + z;
    FullHash(body);
    assert Full("#" + body) == body;
    DigitsConcat3(x, y, z);
    Pairs(x, y, z);
    ParseDigits(x, 16);
    ParseDigits(y, 16);
    ParseDigits(z, 16);
    var h := HexToRgb("#" + body);
    assert h.Some?;
    assert h.value.r == Value(x, 16) && h.value.g == Value(y, 16) && h.value.b == Value(z, 16);
  }

  lemma DigitsConcat3(x: string, y: string, z: string)
    requires |x| == 2 && |y| == 2 && |z| == 2
    requires AllDigits(x, 16) && AllDigits(y, 16) && AllDigits(z, 16)
    ensures AllDigits(x + y + z, 16)
  {
    var body := x + y + z;
    forall i | 0 <= i < 6 ensures IsRadixDigit(body[i], 16) {
      if i < 2 { assert body[i] == x[i]; }
      else if i < 4 { assert body[i] == y[i - 2]; }
      else { assert body[i] == z[i - 4]; }
    }
  }

  lemma Pairs(x: string, y: string, z: string)
    requires |x| == 2 && |y| == 2 && |z| == 2
    ensures (x + y + z)[0..2] == x && (x + y + z)[2..4] == y && (x + y + z)[4..6] == z
  {
  }

  /** A printed channel reads back as itself. */
  lemma ParseHex2(v: int)
    requires 0 <= v <= 255
    ensures ParseInt(Hex2(v), 16) == Some(v)
  {
    Hex2Channel(v);
    ParseDigits(Hex2(v), 16);
  }

  /** A leading `#` is the one the parser removes. */
  lemma FullHash(body: string)
    ensures Full("#" + body) == Expand(body)
  {
    var s := "#" + body;
    assert s[0] == '#' && s[1..] == body;
    assert RemoveFirst(s, '#') == body;
  }

  /** Shorthand: `#xyz` parses exactly as `#xxyyzz`, valid or not. */
  lemma Shorthand(x: char, y: char, z: char)
    ensures HexToRgb("#" + [x, y, z]) == HexToRgb("#" + [x, x, y, y, z, z])
  {
    FullHash([x, y, z]);
    FullHash([x, x, y, y, z, z]);
  }

  /** Text without a `#` is a colour just as well: `3b82f6` parses. */
  lemma NoHashNeeded(body: string)
    requires '#' !in body
    ensures HexToRgb(body) == HexToRgb("#" + body)
  {
    FullHash(body);
  }

  /** `clamp(n, lo, hi)`. */
  function Clamp(n: int, lo: int, hi: int): (r: int)
    requires lo <= hi
    ensures lo <= r <= hi
    ensures lo <= n <= hi ==> r == n
    ensures n < lo ==> r == lo
    ensures n > hi ==> r == hi
  {
    if hi < (if lo < n then n else lo) then hi else if lo < n then n else lo
  }

  /** The colour the inputs show: the parsed hex, or `rgb(59, 130, 246)`
      while the hex field does not hold a colour. */
  function Current(hex: string): (c: Rgb)
    ensures InRange(c)
    ensures HexToRgb(hex).Some? ==> c == HexToRgb(hex).value
    ensures HexToRgb(hex).None? ==> c == Rgb(59, 130, 246)
  {
    HexToRgb(hex).GetOr(Rgb(59, 130, 246))
  }

  /** The colour with one channel replaced: the named channel becomes `v`,
      the other two are kept. */
  function With(c: Rgb, field: Channel, v: int): (e: Rgb)
    ensures e.r == (if field == Red then v else c.r)
    ensures e.g == (if field == Green then v else c.g)
    ensures e.b == (if field == Blue then v else c.b)
    ensures InRange(c) && 0 <= v <= 255 ==> InRange(e)
  {
    match field
    case Red => c.(r := v)
    case Green => c.(g := v)
    case Blue => c.(b := v)
  }

  // ---------------------------------------------------------------------
  // Editing a channel

  /** The hex digits of a fraction in `[0, 1)`, at most `n` of them,
      stopping where the expansion ends. */
  function FracHex(f: real, n: nat): (s: string)
    requires 0.0 <= f < 1.0
    ensures |s| <= n
    ensures n > 0 && f != 0.0 ==> s != []
    decreases n
  {
    if n == 0 || f == 0.0 then ""
    else
      var d := (f * 16.0).Floor;
      [DigitChar(d)] + FracHex(f * 16.0 - d as real, n - 1)
  }

  /** `x.toString(16)` for a number `x >= 0`: the digits of its integer
      part and, when there is a fraction, a point and the fraction's
      digits. */
  function RealToHex(x: real): (s: string)
    requires x >= 0.0
    ensures x == x.Floor as real ==> s == ToRadix(x.Floor, 16)
    ensures x != x.Floor as real ==> '.' in s
  {
    var n := x.Floor;
    if x == n as real then ToRadix(n, 16)
    else
      var s := ToRadix(n, 16) + "." + FracHex(x - n as real, 13);
      assert s[|ToRadix(n, 16)|] == '.';
      s
  }

  /** `v.toString(16).padStart(2, '0')` for any number in range. */
  function Hex2Real(v: real): (r: string)
    requires v >= 0.0
    ensures |r| >= 2
  {
    PadStart(RealToHex(v), 2, '0')
  }

  /** `clamp` on the number the input holds. `Clamp` is the same function
      on integers: the corrected edit rounds first and clamps an integer,
      while the edit as written clamps whatever `Number()` gives. */
  function ClampReal(n: real, lo: real, hi: real): (r: real)
    requires lo <= hi
    ensures lo <= r <= hi
    ensures lo <= n <= hi ==> r == n
    ensures n < lo ==> r == lo
    ensures n > hi ==> r == hi
  {
    if hi < (if lo < n then n else lo) then hi else if lo < n then n else lo
  }

  /** `fromRgb(field, val)` as the component writes it: `Number()` of the
      input may hold a fraction, the clamp keeps it, and `toString(16)`
      prints it with a point. */
  function FromRgbAsWritten(hex: string, field: Channel, val: real): (r: string)
    ensures |r| >= 7 && r[0] == '#'
  {
    var c := Current(hex);
    var v := ClampReal(val, 0.0, 255.0);
    var r := if field == Red then v else c.r as real;
    var g := if field == Green then v else c.g as real;
    var b := if field == Blue then v else c.b as real;
    RgbToHexReal(r, g, b)
  }

  /** `rgbToHex` on channels that are any numbers in range. */
  function RgbToHexReal(r: real, g: real, b: real): (s: string)
    requires r >= 0.0 && g >= 0.0 && b >= 0.0
    ensures |s| >= 7 && s[0] == '#'
  {
    "#" + Hex2Real(r) + Hex2Real(g) + Hex2Real(b)
  }

  /** On whole channels it prints what `RgbToHex` prints. */
  lemma WholeRgb(c: Rgb)
    requires InRange(c)
    ensures RgbToHexReal(c.r as real, c.g as real, c.b as real) == RgbToHex(c)
  {
    WholeHex2(c.r);
    WholeHex2(c.g);
    WholeHex2(c.b);
  }

  /** A whole channel prints the same way as an integer. */
  lemma WholeHex2(v: int)
    requires 0 <= v <= 255
    ensures Hex2Real(v as real) == Hex2(v)
    ensures |Hex2(v)| == 2
  {
    assert (v as real).Floor == v;
    Hex2Channel(v);
  }

  /** Typing 12.5 into the red field prints `c.8` for red, and the text is
      no colour any more, whatever the current colour is: the edit is lost
      and the swatch falls back. */
  lemma FractionalRedRejected(hex: string)
    ensures Hex2Real(12.5) == "c.8"
    ensures HexToRgb(FromRgbAsWritten(hex, Red, 12.5)) == None
  {
    var c := Current(hex);
    assert FromRgbAsWritten(hex, Red, 12.5) == RgbToHexReal(12.5, c.g as real, c.b as real);
    RedText();
    WholeHex2(c.g);
    WholeHex2(c.b);
    var x, y, z := Hex2Real(12.5), Hex2(c.g), Hex2(c.b);
    Assoc4("#", x, y, z);
    SevenDigits(x + y + z);
  }

  lemma RedText()
    ensures Hex2Real(12.5) == "c.8"
  {
    assert (12.5).Floor == 12;
    assert (0.5 * 16.0).Floor == 8;
    assert FracHex(0.0, 12) == "";
    assert FracHex(0.5, 13) == "8";
    assert ToRadix(12, 16) == "c";
  }

  /** Seven characters after the `#` are neither three nor six digits. */
  lemma SevenDigits(body: string)
    requires |body| == 7
    ensures HexToRgb("#" + body) == None
  {
    FullHash(body);
  }

  /** `Math.round`. */
  function Round(x: real): (n: int)
    ensures x - 0.5 < n as real <= x + 0.5
  {
    (x + 0.5).Floor
  }

  /** `fromRgb(field, val)` with the typed number rounded to a whole channel
      value before the clamp: the new hex text after editing one channel. */
  function FromRgb(hex: string, field: Channel, val: real): (r: string)
    ensures |r| == 7 && r[0] == '#' && AllDigits(r[1..], 16)
  {
    HexFormat(With(Current(hex), field, Clamp(Round(val), 0, 255)));
    RgbToHex(With(Current(hex), field, Clamp(Round(val), 0, 255)))
  }

  /** Whatever number is typed into a channel, the hex text it produces is
      a colour whose edited channel is the rounded, clamped value and whose
      other channels are the current ones. */
  lemma FromRgbParses(hex: string, field: Channel, val: real)
    ensures HexToRgb(FromRgb(hex, field, val))
              == Some(With(Current(hex), field, Clamp(Round(val), 0, 255)))
  {
    HexRoundTrip(With(Current(hex), field, Clamp(Round(val), 0, 255)));
  }

  /** For a whole number the rounding changes nothing: the two versions
      print the same text. */
  lemma FromRgbWhole(hex: string, field: Channel, val: int)
    ensures FromRgb(hex, field, val as real) == FromRgbAsWritten(hex, field, val as real)
  {
    var v := Clamp(val, 0, 255);
    assert Round(val as real) == val;
    ClampWhole(val);
    EditWhole(Current(hex), field, v);
  }

  lemma ClampWhole(val: int)
    ensures ClampReal(val as real, 0.0, 255.0) == Clamp(val, 0, 255) as real
  {
  }

  /** Editing one channel with a whole value prints as the integer edit does. */
  lemma EditWhole(c: Rgb, field: Channel, v: int)
    requires InRange(c) && 0 <= v <= 255
    ensures RgbToHexReal(if field == Red then v as real else c.r as real,
                         if field == Green then v as real else c.g as real,
                         if field == Blue then v as real else c.b as real)
            == RgbToHex(With(c, field, v))
  {
    WholeRgb(With(c, field, v));
  }



  /** The swatch colour: the typed text when it is a colour, else the
      fallback printed as hex. */
  function Preview(hex: string): (p: string)
    ensures HexToRgb(p).Some?
    ensures HexToRgb(hex).Some? ==> p == hex
  {
    if HexToRgb(hex).Some? then hex
    else
      HexRoundTrip(Current(hex));
      RgbToHex(Current(hex))
  }

  /** While the hex field is not a colour the swatch is `#3b82f6`. */
  lemma FallbackPreview(hex: string)
    requires HexToRgb(hex).None?
    ensures Preview(hex) == "#3b82f6"
  {
    assert Preview(hex) == RgbToHex(Rgb(59, 130, 246));
    FallbackHex();
  }

  lemma FallbackHex()
    ensures RgbToHex(Rgb(59, 130, 246)) == "#3b82f6"
  {
    FallbackDigits();
    assert RgbToHex(Rgb(59, 130, 246)) == "#" + "3b" + "82" + "f6";
  }

  lemma FallbackDigits()
    ensures Hex2(59) == "3b" && Hex2(130) == "82" && Hex2(246) == "f6"
  {
    DivMod(59, 16);
    DivMod(130, 16);
    DivMod(246, 16);
    assert ToRadix(59, 16) == ToRadix(3, 16) + [DigitChar(11)];
    assert ToRadix(130, 16) == ToRadix(8, 16) + [DigitChar(2)];
    assert ToRadix(246, 16) == ToRadix(15, 16) + [DigitChar(6)];
  }
}
