/** The number base converter: four text fields (decimal, binary, octal,
    hexadecimal) kept in step, the lenient parser behind them, and the 8-bit
    view of the decimal value. */
module NumberBase {
  import opened Wrappers
  import opened TextUtil
  import opened JsNumber

  /** The radix of each field, in display order. */
  const Bases: seq<nat> := [10, 2, 8, 16]

  /** One `0b`, `0o` or `0x` prefix (either case) removed, whatever the
      radix. */
  function StripPrefix(s: string): (r: string)
    ensures r == s || (|s| >= 2 && s[0] == '0' && r == s[2..])
  {
    if |s| >= 2 && s[0] == '0' && s[1] in "bBoOxX" then s[2..] else s
  }

  /** The text `parseAny` hands to `parseInt`: no whitespace is left in it. */
  function Clean(val: string): (r: string)
    ensures forall i :: 0 <= i < |r| ==> !IsSpace(r[i])
  {
    RemoveSpaces(StripPrefix(Trim(val)))
  }

  /** `parseAny(val, radix)`: the value typed in a field, or `None` when
      nothing is left after cleaning, when `parseInt` finds no digit or when
      the value is negative. */
  function ParseAny(val: string, radix: int): (r: Option<int>)
    ensures Clean(val) == [] ==> r.None?
    ensures r.Some? ==> r.value >= 0
  {
    var clean := Clean(val);
    if clean == [] then None
    else
      match ParseInt(clean, radix)
      case None => None
      case Some(n) => if n < 0 then None else Some(n)
  }

  /** What every other field shows for the value `n`: upper-case digits of
      the radix, with value `n`. */
  function Shown(n: nat, radix: nat): (r: string)
    requires 2 <= radix <= 36
    ensures r != [] && AllDigits(r, radix) && Value(r, radix) == n
    ensures forall i :: 0 <= i < |r| ==> !IsLower(r[i])
  {
    UpperValue(ToRadix(n, radix), radix);
    ToRadixValue(n, radix);
    Upper(ToRadix(n, radix))
  }

  /** Round trip: what a field shows for `n` reads back as `n` in that
      field's radix. */
  lemma ParseShown(n: nat, radix: nat)
    requires radix in Bases
    ensures ParseAny(Shown(n, radix), radix) == Some(n)
  {
    var s := Shown(n, radix);
    var t := ToRadix(n, radix);
    forall i | 0 <= i < |s| ensures !IsSpace(s[i]) && DigitValue(s[i]) < radix {
      UpperDigit(t[i]);
    }
    TrimNoEdges(s);
    assert StripPrefix(s) == s;
    assert Clean(s) == s;
    ParseUpperToRadix(n, radix);
  }

  /** A field holding only whitespace around a bare prefix has no value. */
  lemma BarePrefix(radix: int)
    ensures ParseAny(" 0x ", radix).None?
  {
    CleanBarePrefix();
  }

  lemma CleanBarePrefix()
    ensures Clean(" 0x ") == ""
  {
    BareTrimmed();
    BarePrefixStripped();
    CleanSteps(" 0x ", "0x", "");
  }

  lemma BarePrefixStripped()
    ensures StripPrefix("0x") == ""
  {
  }

  /** `Clean` from the trimmed text and the text without its prefix. */
  lemma CleanSteps(val: string, trimmed: string, stripped: string)
    requires Trim(val) == trimmed && StripPrefix(trimmed) == stripped
    ensures Clean(val) == RemoveSpaces(stripped)
  {
  }

  lemma BareTrimmed()
    ensures Trim(" 0x ") == "0x"
  {
    BareLiterals();
    TrimPadded("0x");
  }

  lemma BareLiterals()
    ensures " 0x " == [' '] + "0x" + [' '] && "0x"[0] == '0' && "0x"[1] == 'x'
  {
  }

  /** A minus sign makes a value invalid, except for zero. */
  lemma NegativeRejected()
    ensures ParseAny("-5", 10).None?
    ensures ParseAny("-0", 10) == Some(0)
  {
    NegativeDigit('5');
    NegativeDigit('0');
  }

  /** A minus sign before one decimal digit: `-0` reads as 0, any other
      digit gives a negative value, which is rejected. */
  lemma NegativeDigit(c: char)
    requires IsDigit(c)
    ensures ParseAny(['-', c], 10) == if c == '0' then Some(0) else None
  {
    NegativeClean(c);
    NegativeParse(c);
  }

  lemma NegativeClean(c: char)
    requires IsDigit(c)
    ensures Clean(['-', c]) == ['-', c]
  {
    var s := ['-', c];
    assert !IsSpace(s[0]) && !IsSpace(s[1]);
    TrimNoEdges(s);
    assert StripPrefix(s) == s;
  }

  lemma NegativeParse(c: char)
    requires IsDigit(c)
    ensures ParseInt(['-', c], 10) == Some(-(DigitValue(c) as int))
  {
    var s := ['-', c];
    TrimStartStop(s);
    assert s[1..] == [c];
    SingleDigit(c, 10);
  }

  /** One digit of the radix is read as its value. */
  lemma SingleDigit(c: char, radix: nat)
    requires 2 <= radix <= 36 && IsRadixDigit(c, radix)
    ensures DigitPrefix([c], radix) == [c] && Value([c], radix) == DigitValue(c)
    ensures ParseInt([c], radix) == Some(DigitValue(c))
  {
    assert [c][..0] == [];
    ParseDigits([c], radix);
  }

  /** The prefix is stripped in every field: in the hexadecimal field
      `0B1` is read as `1`, not as the hexadecimal `0B1`. */
  lemma PrefixAnyRadix()
    ensures ParseAny("0B1", 16) == Some(1)
  {
    PrefixedDigit('B', '1', 16);
  }

  /** A prefix letter after `0` is dropped before one digit of the radix. */
  lemma PrefixedDigit(p: char, c: char, radix: nat)
    requires radix in Bases && p in "bBoOxX" && IsRadixDigit(c, radix)
    ensures ParseAny(['0', p, c], radix) == Some(DigitValue(c))
  {
    var s := ['0', p, c];
    assert !IsSpace(s[0]) && !IsSpace(s[2]);
    TrimNoEdges(s);
    assert StripPrefix(s) == [c];
    assert Clean(s) == [c];
    SingleDigit(c, radix);
  }

  /** `isInvalid`: a non-empty field whose text has no value. A field of
      nothing but whitespace is flagged; an empty one is not. */
  predicate IsInvalid(val: string, radix: int)
    ensures val != "" && Clean(val) == [] ==> IsInvalid(val, radix)
    ensures val == "" ==> !IsInvalid(val, radix)
  {
    val != "" && ParseAny(val, radix).None?
  }

  /** The record a valid edit produces: the typed text in the edited field,
      the value re-rendered in every other field. */
  method Rebuild(radix: int, raw: string, n: nat) returns (next: map<int, string>)
    ensures next.Keys == {10, 2, 8, 16}
    ensures radix in Bases ==> next[radix] == raw
    ensures forall b :: b in Bases && b != radix ==> next[b] == Shown(n, b)
  {
    next := map[];
    for k := 0 to |Bases|
      invariant next.Keys == set j | 0 <= j < k :: Bases[j]
      invariant forall j :: 0 <= j < k ==>
                  next[Bases[j]] == if radix == Bases[j] then raw else Shown(n, Bases[j])
    {
      var b := Bases[k];
      next := next[b := if radix == b then raw else Shown(n, b)];
    }
    RebuiltFields(radix, raw, n, next);
  }

  /** The facts a loop over all of `Bases` leaves behind, stated per radix. */
  lemma RebuiltFields(radix: int, raw: string, n: nat, next: map<int, string>)
    requires next.Keys == set j | 0 <= j < |Bases| :: Bases[j]
    requires forall j :: 0 <= j < |Bases| ==>
               next[Bases[j]] == if radix == Bases[j] then raw else Shown(n, Bases[j])
    ensures next.Keys == {10, 2, 8, 16}
    ensures radix in Bases ==> next[radix] == raw
    ensures forall b :: b in Bases && b != radix ==> next[b] == Shown(n, b)
  {
    BasesKeys();
    forall b | b in Bases
      ensures next[b] == if radix == b then raw else Shown(n, b)
    {
      assert b == Bases[0] || b == Bases[1] || b == Bases[2] || b == Bases[3];
    }
  }

  lemma BasesKeys()
    ensures (set j | 0 <= j < |Bases| :: Bases[j]) == {10, 2, 8, 16}
  {
    assert Bases[0] == 10 && Bases[1] == 2 && Bases[2] == 8 && Bases[3] == 16;
  }

  /** The record of field texts, keyed by radix. */
  class Converter {
    var values: map<int, string>

    constructor ()
      ensures values == map[10 := "255", 2 := "", 8 := "", 16 := ""]
    {
      values := map[10 := "255", 2 := "", 8 := "", 16 := ""];
    }

    /** `handleChange(radix, raw)`: an invalid text only replaces the edited
        field; a valid one rebuilds every field, keeping the typed text in
        the edited field. */
    method HandleChange(radix: int, raw: string)
      modifies this
      ensures ParseAny(raw, radix).None? ==> values == old(values)[radix := raw]
      ensures ParseAny(raw, radix).Some? ==>
                values.Keys == {10, 2, 8, 16}
                && (radix in Bases ==> values[radix] == raw)
                && forall b :: b in Bases && b != radix ==>
                     values[b] == Shown(ParseAny(raw, radix).value, b)
    {
      var n := ParseAny(raw, radix);
      if n.None? {
        values := values[radix := raw];
        return;
      }
      var next := Rebuild(radix, raw, n.value);
      values := next;
    }
  }

  /** After a valid edit every other field reads back as the same value. */
  lemma FieldsAgree(radix: int, raw: string, n: nat, values: map<int, string>, b: nat)
    requires ParseAny(raw, radix) == Some(n)
    requires b in {10, 2, 8, 16} && b != radix
    requires b in values && values[b] == Shown(n, b)
    ensures ParseAny(values[b], b) == ParseAny(raw, radix)
  {
    assert b in Bases;
    ParseShown(n, b);
  }

  // ---------------------------------------------------------------------
  // The 8-bit view

  /** `d >> k` on a non-negative value. */
  function Shr(d: nat, k: nat): nat
  {
    if k == 0 then d else Shr(d / 2, k - 1)
  }

  function Pow2(k: nat): (p: nat)
    ensures p >= 1
  {
    if k == 0 then 1 else 2 * Pow2(k - 1)
  }

  /** The bits `(d >> (k - 1 - i)) & 1` for `i` in `0..k`, most significant
      first. */
  function BitsOf(d: nat, k: nat): (bits: seq<nat>)
    ensures |bits| == k
    ensures forall i :: 0 <= i < k ==> bits[i] == Shr(d, k - 1 - i) % 2
  {
    seq(k, i requires 0 <= i < k => Shr(d, k - 1 - i) % 2)
  }

  /** The eight bits the view shows. */
  function BitView(d: nat): (bits: seq<nat>)
    ensures |bits| == 8
    ensures forall i :: 0 <= i < 8 ==> bits[i] <= 1
  {
    BitsOf(d, 8)
  }

  /** The sum of `bits[i] * 2^(|bits| - 1 - i)`. */
  function PlaceSum(bits: seq<nat>): nat
  {
    if bits == [] then 0 else 2 * PlaceSum(bits[..|bits| - 1]) + bits[|bits| - 1]
  }

  /** The bits read as a number, plus the part shifted out, give `d` back. */
  lemma {:induction false} BitsOfSum(d: nat, k: nat)
    ensures PlaceSum(BitsOf(d, k)) + Pow2(k) * Shr(d, k) == d
  {
    if k > 0 {
      BitsOfSum(d / 2, k - 1);
      var bits := BitsOf(d, k);
      assert bits[..k - 1] == BitsOf(d / 2, k - 1) by {
        forall i | 0 <= i < k - 1 ensures bits[i] == BitsOf(d / 2, k - 1)[i] {
          assert Shr(d, k - 1 - i) == Shr(d / 2, k - 2 - i);
        }
      }
      assert bits[k - 1] == d % 2;
      var ps, m := PlaceSum(BitsOf(d / 2, k - 1)), Pow2(k - 1) * Shr(d / 2, k - 1);
      assert ps + m == d / 2;
      assert PlaceSum(bits) == 2 * ps + d % 2;
      ShrSplit(d, k);
      Twice(Pow2(k - 1), Shr(d / 2, k - 1));
      assert Pow2(k) * Shr(d, k) == 2 * m;
    }
  }

  lemma Twice(a: nat, b: nat)
    ensures (2 * a) * b == 2 * (a * b)
  {
  }

  lemma ShrSplit(d: nat, k: nat)
    requires k > 0
    ensures Shr(d, k) == Shr(d / 2, k - 1)
  {
  }

  /** A value below `2^k` has nothing left after shifting by `k`. */
  lemma {:induction false} ShrSmall(d: nat, k: nat)
    requires d < Pow2(k)
    ensures Shr(d, k) == 0
  {
    if k > 0 {
      ShrSmall(d / 2, k - 1);
    }
  }

  /** The view's bits, read with their place values, give the decimal value. */
  lemma BitViewSum(d: nat)
    requires d <= 255
    ensures PlaceSum(BitView(d)) == d
  {
    assert Pow2(8) == 256;
    ShrSmall(d, 8);
    BitsOfSum(d, 8);
  }

  /** The decimal field's value, which drives the view: never negative, and
      none without a decimal field. */
  function Decimal(values: map<int, string>): (r: Option<int>)
    ensures r.Some? ==> r.value >= 0
    ensures 10 !in values ==> r.None?
  {
    ParseAny(if 10 in values then values[10] else "", 10)
  }

  /** The view for a decimal value: shown only for a value in `0..255`. */
  function BitPanel(decimal: Option<int>): (panel: Option<seq<nat>>)
    ensures panel.Some? <==> decimal.Some? && 0 <= decimal.value <= 255
    ensures panel.Some? ==> PlaceSum(panel.value) == decimal.value
  {
    if decimal.Some? && 0 <= decimal.value <= 255 then
      BitViewSum(decimal.value);
      Some(BitView(decimal.value))
    else None
  }
}
