/** The password generator: the character pool built from the enabled sets,
    the mapping from random numbers to pool characters, the strength meter,
    and the component state whose handlers regenerate the password. */
module PasswordGenerator {
  import opened TextUtil

  const UpperSet := "ABCDEFGHIJKLMNOPQRSTUVWXYZ"
  const LowerSet := "abcdefghijklmnopqrstuvwxyz"
  const DigitSet := "0123456789"
  const SymbolSet := "!@#$%^&*()-_=+[]{}|;:,.<>?"

  datatype CharSet = Upper | Lower | Digits | Symbols

  /** Which sets are enabled, in the order the options object lists them. */
  datatype Options = Options(upper: bool, lower: bool, digits: bool, symbols: bool)

  const Default := Options(true, true, true, false)

  predicate AnyEnabled(o: Options)
  {
    o.upper || o.lower || o.digits || o.symbols
  }

  /** The enabled sets joined in option order. */
  function Pool(o: Options): (pool: string)
    ensures pool == "" <==> !AnyEnabled(o)
    ensures forall c :: c in pool <==>
              (o.upper && c in UpperSet) || (o.lower && c in LowerSet) ||
              (o.digits && c in DigitSet) || (o.symbols && c in SymbolSet)
  {
    (if o.upper then UpperSet else "") + (if o.lower then LowerSet else "") +
    (if o.digits then DigitSet else "") + (if o.symbols then SymbolSet else "")
  }

  /** `generate(length, opts)`, with the random array given as `rand`:
      each random number picks the pool character at its remainder. */
  function Generate(length: nat, o: Options, rand: nat -> nat): (pw: string)
    ensures !AnyEnabled(o) ==> pw == ""
    ensures AnyEnabled(o) ==> |pw| == length
    ensures forall i :: 0 <= i < |pw| ==> pw[i] in Pool(o)
  {
    var pool := Pool(o);
    if pool == "" then ""
    else seq(length, i requires 0 <= i < length => pool[rand(i) % |pool|])
  }

  /** Where `c` first occurs in `s`. */
  function IndexOf(s: string, c: char): (k: nat)
    requires c in s
    ensures k < |s| && s[k] == c
  {
    if s[0] == c then 0 else IndexOf(s[1..], c) + 1
  }

  /** Every password of the right length over the pool can come out: the
      generator's outputs are exactly those passwords. */
  lemma GenerateReaches(o: Options, p: string)
    requires AnyEnabled(o)
    requires forall i :: 0 <= i < |p| ==> p[i] in Pool(o)
    ensures exists rand: nat -> nat :: Generate(|p|, o, rand) == p
  {
    var pool := Pool(o);
    var rand := (i: nat) => if i < |p| then IndexOf(pool, p[i]) else 0;
    var pw := Generate(|p|, o, rand);
    forall i | 0 <= i < |p| ensures pw[i] == p[i] {
      var k := IndexOf(pool, p[i]);
      GenerateAt(|p|, o, rand, i);
      assert rand(i) == k;
      ModSmall(k, |pool|);
    }
    assert pw == p;
  }

  lemma ModSmall(k: nat, n: nat)
    requires k < n
    ensures k % n == k
  {
  }

  /** The character at `i` is the pool character the `i`-th number picks. */
  lemma GenerateAt(length: nat, o: Options, rand: nat -> nat, i: nat)
    requires AnyEnabled(o) && i < length
    ensures Generate(length, o, rand)[i] == Pool(o)[rand(i) % |Pool(o)|]
  {
  }

  // ---------------------------------------------------------------------
  // Strength

  predicate HasUpper(pw: string) { exists i :: 0 <= i < |pw| && IsUpper(pw[i]) }
  predicate HasLower(pw: string) { exists i :: 0 <= i < |pw| && IsLower(pw[i]) }
  predicate HasDigit(pw: string) { exists i :: 0 <= i < |pw| && IsDigit(pw[i]) }

  /** `/[^A-Za-z0-9]/`. */
  predicate HasOther(pw: string)
  {
    exists i :: 0 <= i < |pw| && !IsUpper(pw[i]) && !IsLower(pw[i]) && !IsDigit(pw[i])
  }

  function Point(b: bool): nat { if b then 1 else 0 }

  /** The number of the six criteria a password meets. */
  function Score(pw: string): (n: nat)
    ensures n <= 6
  {
    Point(|pw| >= 12) + Point(|pw| >= 16) + Point(HasUpper(pw)) + Point(HasLower(pw)) +
    Point(HasDigit(pw)) + Point(HasOther(pw))
  }

  datatype Meter = Meter(name: string, color: string, width: string)

  const EmptyMeter := Meter("", "bg-gray-200 dark:bg-slate-700", "w-0")
  const WeakMeter := Meter("Weak", "bg-red-400", "w-1/4")
  const FairMeter := Meter("Fair", "bg-yellow-400", "w-2/4")
  const StrongMeter := Meter("Strong", "bg-blue-400", "w-3/4")
  const VeryStrongMeter := Meter("Very strong", "bg-green-400", "w-full")

  /** `strengthLabel(pw)`: the score counted up criterion by criterion. */
  method StrengthLabel(pw: string) returns (m: Meter)
    ensures pw == "" ==> m == EmptyMeter
    ensures pw != "" && Score(pw) <= 2 ==> m == WeakMeter
    ensures pw != "" && 3 <= Score(pw) <= 4 ==> m == FairMeter
    ensures pw != "" && Score(pw) == 5 ==> m == StrongMeter
    ensures pw != "" && Score(pw) == 6 ==> m == VeryStrongMeter
  {
    if pw == "" {
      return EmptyMeter;
    }
    var score := 0;
    if |pw| >= 12 { score := score + 1; }
    if |pw| >= 16 { score := score + 1; }
    if HasUpper(pw) { score := score + 1; }
    if HasLower(pw) { score := score + 1; }
    if HasDigit(pw) { score := score + 1; }
    if HasOther(pw) { score := score + 1; }
    assert score == Score(pw);
    if score <= 2 {
      m := WeakMeter;
    } else if score <= 4 {
      m := FairMeter;
    } else if score <= 5 {
      m := StrongMeter;
    } else {
      m := VeryStrongMeter;
    }
  }

  /** Full marks need at least 16 characters and all four kinds. */
  lemma TopScore(pw: string)
    ensures Score(pw) == 6 <==>
              |pw| >= 16 && HasUpper(pw) && HasLower(pw) && HasDigit(pw) && HasOther(pw)
  {
  }

  /** "Strong" or better needs at least 12 characters. */
  lemma StrongNeedsLength(pw: string)
    requires Score(pw) >= 5
    ensures |pw| >= 12
  {
  }

  /** Appending characters never lowers the score. */
  lemma ScoreGrows(p: string, q: string)
    ensures Score(p) <= Score(p + q)
  {
    var pq := p + q;
    if HasUpper(p) {
      var i :| 0 <= i < |p| && IsUpper(p[i]);
      assert pq[i] == p[i];
    }
    if HasLower(p) {
      var i :| 0 <= i < |p| && IsLower(p[i]);
      assert pq[i] == p[i];
    }
    if HasDigit(p) {
      var i :| 0 <= i < |p| && IsDigit(p[i]);
      assert pq[i] == p[i];
    }
    if HasOther(p) {
      var i :| 0 <= i < |p| && !IsUpper(p[i]) && !IsLower(p[i]) && !IsDigit(p[i]);
      assert pq[i] == p[i];
    }
  }

  /** A password drawn from the digits alone scores at most 3: "Fair" at
      best, whatever its length. */
  lemma DigitsOnly(length: nat, rand: nat -> nat)
    ensures Score(Generate(length, Options(false, false, true, false), rand)) <= 3
  {
    var pw := Generate(length, Options(false, false, true, false), rand);
    forall i | 0 <= i < |pw| ensures IsDigit(pw[i]) {
      assert pw[i] in DigitSet;
    }
  }

  // ---------------------------------------------------------------------
  // Component state

  /** `Math.min(64, Math.max(4, val))`. */
  function ClampLength(val: int): (l: nat)
    ensures 4 <= l <= 64
    ensures 4 <= val <= 64 ==> l == val
    ensures val < 4 ==> l == 4
    ensures val > 64 ==> l == 64
  {
    var lo := if 4 < val then val else 4;
    if 64 < lo then 64 else lo
  }

  function Enabled(o: Options, key: CharSet): bool
  {
    match key
    case Upper => o.upper
    case Lower => o.lower
    case Digits => o.digits
    case Symbols => o.symbols
  }

  /** The option set with one set switched and the others kept. */
  function Flip(o: Options, key: CharSet): (next: Options)
    ensures Enabled(next, key) == !Enabled(o, key)
    ensures forall k :: k != key ==> Enabled(next, k) == Enabled(o, k)
  {
    match key
    case Upper => o.(upper := !o.upper)
    case Lower => o.(lower := !o.lower)
    case Digits => o.(digits := !o.digits)
    case Symbols => o.(symbols := !o.symbols)
  }

  /** A switch is refused exactly when it would turn off the only enabled
      set. */
  lemma LastSetGuard(o: Options, key: CharSet)
    requires AnyEnabled(o)
    ensures !AnyEnabled(Flip(o, key)) <==>
              Enabled(o, key) && forall k :: k != key ==> !Enabled(o, k)
  {
    var next := Flip(o, key);
    assert AnyEnabled(next) <==> exists k :: Enabled(next, k) by {
      assert Enabled(next, Upper) == next.upper && Enabled(next, Lower) == next.lower;
      assert Enabled(next, Digits) == next.digits && Enabled(next, Symbols) == next.symbols;
    }
    assert AnyEnabled(o) <==> exists k :: Enabled(o, k) by {
      assert Enabled(o, Upper) == o.upper && Enabled(o, Lower) == o.lower;
      assert Enabled(o, Digits) == o.digits && Enabled(o, Symbols) == o.symbols;
    }
  }

  /** The component's state: the length slider, the enabled sets and the
      password shown. Every handler takes the random numbers it draws. */
  class Generator {
    var length: nat
    var opts: Options
    var password: string

    /** The length is in range, some set is enabled and the password is
        drawn from the current pool at the current length. */
    predicate Valid()
      reads this
    {
      4 <= length <= 64 && AnyEnabled(opts) && |password| == length &&
      forall i :: 0 <= i < |password| ==> password[i] in Pool(opts)
    }

    constructor (rand: nat -> nat)
      ensures Valid()
      ensures length == 16 && opts == Default && password == Generate(16, Default, rand)
    {
      length := 16;
      opts := Default;
      password := Generate(16, Default, rand);
    }

    /** `regen`. */
    method Regen(rand: nat -> nat)
      requires Valid()
      modifies this
      ensures Valid()
      ensures length == old(length) && opts == old(opts)
      ensures password == Generate(length, opts, rand)
    {
      password := Generate(length, opts, rand);
    }

    /** `toggle(key)`: ignored when it would disable every set. */
    method Toggle(key: CharSet, rand: nat -> nat)
      requires Valid()
      modifies this
      ensures Valid()
      ensures length == old(length)
      ensures AnyEnabled(Flip(old(opts), key)) ==>
                opts == Flip(old(opts), key) && password == Generate(length, opts, rand)
      ensures !AnyEnabled(Flip(old(opts), key)) ==>
                opts == old(opts) && password == old(password)
    {
      var next := Flip(opts, key);
      if !AnyEnabled(next) {
        return;
      }
      opts := next;
      password := Generate(length, next, rand);
    }

    /** `handleLengthChange(val)`. */
    method HandleLengthChange(val: int, rand: nat -> nat)
      requires Valid()
      modifies this
      ensures Valid()
      ensures length == ClampLength(val) && opts == old(opts)
      ensures password == Generate(length, opts, rand)
    {
      var l := ClampLength(val);
      length := l;
      password := Generate(l, opts, rand);
    }
  }
}
