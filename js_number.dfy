/** The JavaScript number functions the tools rely on, on unbounded integers:
    `parseInt(string, radix)`, `Number.prototype.toString(radix)` and
    `String.prototype.padStart`. */
module JsNumber {
  import opened Wrappers
  import opened TextUtil

  /** The value of a character as a digit in radix 36 (`0`-`9`, then the
      letters in either case); 36 for a character that is a digit in no
      radix. */
  function DigitValue(c: char): (v: nat)
    ensures v <= 36
    ensures IsDigit(c) ==> v == c as int - '0' as int
    ensures IsLower(c) ==> v == c as int - 'a' as int + 10
    ensures IsUpper(c) ==> v == c as int - 'A' as int + 10
    ensures !IsDigit(c) && !IsLower(c) && !IsUpper(c) ==> v == 36
  {
    if IsDigit(c) then c as int - '0' as int
    else if IsLower(c) then c as int - 'a' as int + 10
    else if IsUpper(c) then c as int - 'A' as int + 10
    else 36
  }

  /** Whether `c` is a digit of radix `radix`. */
  predicate IsRadixDigit(c: char, radix: nat)
  {
    DigitValue(c) < radix
  }

  predicate AllDigits(s: string, radix: nat)
  {
    forall i :: 0 <= i < |s| ==> IsRadixDigit(s[i], radix)
  }

  /** The lower-case digit character for `d`. */
  function DigitChar(d: nat): (c: char)
    requires d < 36
    ensures DigitValue(c) == d
    ensures !IsUpper(c)
  {
    if d < 10 then ('0' as int + d) as char else ('a' as int + d - 10) as char
  }

  /** The value of a digit string, most significant digit first. */
  function Value(s: string, radix: nat): nat
  {
    if s == [] then 0 else Value(s[..|s| - 1], radix) * radix + DigitValue(s[|s| - 1])
  }

  /** `n.toString(radix)` for a natural `n`: lower-case digits, no leading
      zero. */
  function ToRadix(n: nat, radix: nat): (s: string)
    requires 2 <= radix <= 36
    ensures |s| >= 1
    ensures AllDigits(s, radix)
    ensures forall i :: 0 <= i < |s| ==> !IsUpper(s[i])
    ensures s[0] == '0' ==> n == 0 && s == "0"
    decreases n
  {
    if n < radix then [DigitChar(n)]
    else
      DivMod(n, radix);
      var s := ToRadix(n / radix, radix) + [DigitChar(n % radix)];
      assert forall i :: 0 <= i < |s| - 1 ==> s[i] == ToRadix(n / radix, radix)[i];
      s
  }

  lemma DivMod(n: nat, d: nat)
    requires 2 <= d <= n
    ensures n == (n / d) * d + n % d
    ensures 0 <= n % d < d
    ensures 1 <= n / d < n
  {
  }

  /** The digits of `n.toString(radix)` have value `n`. */
  lemma {:induction false} ToRadixValue(n: nat, radix: nat)
    requires 2 <= radix <= 36
    ensures Value(ToRadix(n, radix), radix) == n
    decreases n
  {
    if n >= radix {
      var q := n / radix;
      var m := n % radix;
      DivMod(n, radix);
      var s := ToRadix(n, radix);
      assert s == ToRadix(q, radix) + [DigitChar(m)];
      assert s[..|s| - 1] == ToRadix(q, radix);
      ToRadixValue(q, radix);
      assert n == q * radix + m;
    }
  }

  /** `Number.prototype.toString(radix)` for any integer: a minus sign in
      front of the digits of the magnitude. */
  function IntToRadix(n: int, radix: nat): (s: string)
    requires 2 <= radix <= 36
    ensures n >= 0 ==> s == ToRadix(n, radix)
    ensures n < 0 ==> s == "-" + ToRadix(-n, radix)
  {
    if n < 0 then "-" + ToRadix(-n, radix) else ToRadix(n, radix)
  }

  /** The longest prefix of `s` made of radix digits. */
  function DigitPrefix(s: string, radix: nat): (p: string)
    ensures |p| <= |s| && p == s[..|p|]
    ensures AllDigits(p, radix)
    ensures |p| < |s| ==> !IsRadixDigit(s[|p|], radix)
  {
    if s == [] || !IsRadixDigit(s[0], radix) then ""
    else [s[0]] + DigitPrefix(s[1..], radix)
  }

  /** `parseInt(s, radix)`; `None` is `NaN`. Leading whitespace is skipped,
      one sign is read, radix 0 means 10, a radix outside 2..36 gives `NaN`,
      and with radix 16 (or 0) a `0x`/`0X` prefix is skipped and selects
      radix 16. Then the longest run of digits is read; no digit at all is
      `NaN`. A negative zero is the integer zero here. */
  function ParseInt(s: string, radix: int): (r: Option<int>)
    ensures radix != 0 && (radix < 2 || radix > 36) ==> r.None?
  {
    var t := TrimStart(s);
    var negative := t != [] && t[0] == '-';
    var u := if t != [] && (t[0] == '-' || t[0] == '+') then t[1..] else t;
    if radix != 0 && (radix < 2 || radix > 36) then None
    else
      var hex := (radix == 0 || radix == 16) && HasHexPrefix(u);
      var r: nat := if hex then 16 else if radix == 0 then 10 else radix;
      var digits := DigitPrefix(if hex then u[2..] else u, r);
      var v: int := Value(digits, r);
      if digits == [] then None
      else if negative then Some(-v)
      else Some(v)
  }

  /** The string starts with `0x` or `0X`. */
  predicate HasHexPrefix(u: string)
  {
    |u| >= 2 && u[0] == '0' && (u[1] == 'x' || u[1] == 'X')
  }

  /** A non-empty string of radix digits parses to its value. */
  lemma ParseDigits(s: string, radix: nat)
    requires 2 <= radix <= 36 && s != [] && AllDigits(s, radix)
    ensures ParseInt(s, radix) == Some(Value(s, radix))
  {
    assert IsRadixDigit(s[0], radix);
    assert !IsSpace(s[0]) && s[0] != '-' && s[0] != '+';
    assert TrimStart(s) == s;
    assert radix == 16 ==> !HasHexPrefix(s) by {
      if |s| >= 2 { assert IsRadixDigit(s[1], radix); }
    }
    AllDigitsPrefix(s, radix);
    assert DigitPrefix(s, radix) == s;
  }

  lemma {:induction false} AllDigitsPrefix(s: string, radix: nat)
    requires AllDigits(s, radix)
    ensures DigitPrefix(s, radix) == s
  {
    if s != [] {
      AllDigitsPrefix(s[1..], radix);
    }
  }

  /** `n.toString(radix)` parses back to `n`. */
  lemma ParseToRadix(n: nat, radix: nat)
    requires 2 <= radix <= 36
    ensures ParseInt(ToRadix(n, radix), radix) == Some(n)
  {
    ParseDigits(ToRadix(n, radix), radix);
    ToRadixValue(n, radix);
  }

  /** Upper-casing a digit keeps its value. */
  lemma UpperDigit(c: char)
    ensures DigitValue(UpperChar(c)) == DigitValue(c)
  {
  }

  /** Upper-casing a digit string keeps its digits and its value. */
  lemma {:induction false} UpperValue(s: string, radix: nat)
    ensures Value(Upper(s), radix) == Value(s, radix)
    ensures AllDigits(s, radix) ==> AllDigits(Upper(s), radix)
  {
    var u := Upper(s);
    if s != [] {
      var n := |s| - 1;
      assert u[..n] == Upper(s[..n]);
      UpperValue(s[..n], radix);
      UpperDigit(s[n]);
    }
    forall i | 0 <= i < |s|
      ensures DigitValue(u[i]) == DigitValue(s[i])
    {
      UpperDigit(s[i]);
    }
  }

  /** `n.toString(radix).toUpperCase()` parses back to `n`. */
  lemma ParseUpperToRadix(n: nat, radix: nat)
    requires 2 <= radix <= 36
    ensures ParseInt(Upper(ToRadix(n, radix)), radix) == Some(n)
  {
    UpperValue(ToRadix(n, radix), radix);
    ParseDigits(Upper(ToRadix(n, radix)), radix);
    ToRadixValue(n, radix);
  }

  function Repeat(c: char, n: nat): (s: string)
    ensures |s| == n
    ensures forall i :: 0 <= i < n ==> s[i] == c
  {
    if n == 0 then "" else [c] + Repeat(c, n - 1)
  }

  /** `s.padStart(width, c)`. */
  function PadStart(s: string, width: nat, c: char): (r: string)
    ensures |s| >= width ==> r == s
    ensures |s| < width ==> |r| == width
    ensures r == Repeat(c, |r| - |s|) + s
  {
    if |s| >= width then
      assert Repeat(c, 0) + s == s;
      s
    else Repeat(c, width - |s|) + s
  }

  /** `n.toString(radix).padStart(width, '0')` is made of lower-case radix
      digits that read back as `n`, and is `width` long when the digits fit. */
  lemma PadDigits(n: nat, radix: nat, width: nat)
    requires 2 <= radix <= 36
    ensures var p := PadStart(ToRadix(n, radix), width, '0');
      && |p| >= width && AllDigits(p, radix) && Value(p, radix) == n
      && (forall i :: 0 <= i < |p| ==> !IsUpper(p[i]))
      && (|ToRadix(n, radix)| <= width ==> |p| == width)
  {
    var t := ToRadix(n, radix);
    var p := PadStart(t, width, '0');
    var k := |p| - |t|;
    assert p == Repeat('0', k) + t;
    forall i | 0 <= i < |p| ensures IsRadixDigit(p[i], radix) && !IsUpper(p[i]) {
      if i >= k { assert p[i] == t[i - k]; }
    }
    ToRadixValue(n, radix);
    ZerosValue(k, t, radix);
  }

  /** Leading zeros do not change a value. */
  lemma {:induction false} ZerosValue(k: nat, s: string, radix: nat)
    ensures Value(Repeat('0', k) + s, radix) == Value(s, radix)
    decreases |s|
  {
    var z := Repeat('0', k);
    if s == [] {
      assert z + s == z;
      ZerosOnly(k, radix);
    } else {
      var n := |s| - 1;
      assert (z + s)[..|z + s| - 1] == z + s[..n];
      ZerosValue(k, s[..n], radix);
    }
  }

  lemma {:induction false} ZerosOnly(k: nat, radix: nat)
    ensures Value(Repeat('0', k), radix) == 0
  {
    if k > 0 {
      var z := Repeat('0', k);
      assert z[..k - 1] == Repeat('0', k - 1);
      ZerosOnly(k - 1, radix);
    }
  }
}
