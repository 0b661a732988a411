/** The Pomodoro timer: the clock face text and the component state that
    the countdown, completion, mode switch, reset, start/pause and duration
    handlers update. */
module PomodoroTimer {
  import opened JsNumber

  datatype Mode = Focus | Break

  function Other(m: Mode): (n: Mode)
    ensures n != m
  {
    if m == Focus then Break else Focus
  }

  /** `String(v).padStart(2, '0')`: at least two decimal digits that read
      back as the number; below 100 exactly two. */
  function Pad2(v: nat): (r: string)
    ensures |r| >= 2 && AllDigits(r, 10)
    ensures Value(r, 10) == v
    ensures v < 100 ==> |r| == 2
  {
    PaddedDecimal(v);
    PadStart(ToRadix(v, 10), 2, '0')
  }

  /** `fmt(seconds)`: the clock face, at least two digits of minutes, a
      colon and exactly two digits of seconds, which read back as the time. */
  function Fmt(seconds: nat): (f: string)
    ensures ClockShape(f, seconds / 60, seconds % 60)
  {
    var q, r := seconds / 60, seconds % 60;
    assert r < 100;
    ColonParts(Pad2(q), Pad2(r), q, r);
    Pad2(q) + ":" + Pad2(r)
  }

  /** A clock face showing `q` minutes and `r` seconds: at least two digits
      of minutes, a colon and exactly two digits of seconds. */
  predicate ClockShape(f: string, q: nat, r: nat)
  {
    && |f| >= 5 && f[|f| - 3] == ':'
    && AllDigits(f[..|f| - 3], 10) && Value(f[..|f| - 3], 10) == q
    && AllDigits(f[|f| - 2..], 10) && Value(f[|f| - 2..], 10) == r
  }

  lemma PaddedDecimal(v: nat)
    ensures var r := PadStart(ToRadix(v, 10), 2, '0');
      && |r| >= 2 && AllDigits(r, 10) && Value(r, 10) == v
      && (v < 100 ==> |r| == 2)
  {
    PadDigits(v, 10, 2);
    if v >= 10 && v < 100 {
      DivMod(v, 10);
      assert |ToRadix(v / 10, 10)| == 1;
    }
  }

  lemma ColonParts(m: string, t: string, q: nat, r: nat)
    requires |m| >= 2 && AllDigits(m, 10) && Value(m, 10) == q
    requires |t| == 2 && AllDigits(t, 10) && Value(t, 10) == r
    ensures ClockShape(m + ":" + t, q, r)
  {
    var f := m + ":" + t;
    assert f[..|f| - 3] == m;
    assert f[|f| - 2..] == t;
  }

  /** Reads a clock face back as seconds: the inverse of `Fmt`. */
  function ParseClock(f: string): nat
    requires |f| >= 3
  {
    60 * Value(f[..|f| - 3], 10) + Value(f[|f| - 2..], 10)
  }

  /** Reading the clock face gives back the time it shows. */
  lemma FmtRoundTrip(seconds: nat)
    ensures |Fmt(seconds)| >= 5 && ParseClock(Fmt(seconds)) == seconds
  {
    ClockValue(Fmt(seconds), seconds / 60, seconds % 60);
    SixtyParts(seconds);
  }

  lemma SixtyParts(seconds: nat)
    ensures seconds == 60 * (seconds / 60) + seconds % 60
  {
  }

  lemma ClockValue(f: string, q: nat, r: nat)
    requires ClockShape(f, q, r)
    ensures |f| >= 5 && ParseClock(f) == 60 * q + r
  {
  }

  /** Different times never show the same text. */
  lemma FmtInjective(a: nat, b: nat)
    requires Fmt(a) == Fmt(b)
    ensures a == b
  {
    FmtRoundTrip(a);
    FmtRoundTrip(b);
  }

  /** `Math.max(1, Math.min(max, v))`. */
  function ClampMins(v: int, max: nat): (r: nat)
    requires max >= 1
    ensures 1 <= r <= max
    ensures 1 <= v <= max ==> r == v
    ensures v < 1 ==> r == 1
    ensures v > max ==> r == max
  {
    var lo := if max < v then max else v;
    if 1 < lo then lo else 1
  }

  // ---------------------------------------------------------------------
  // Fractional minutes

  /** The minutes input exactly as the component computes it:
      `Math.max(1, Math.min(max, Number(value)))`, which keeps a fraction. */
  function ClampMinsAsWritten(v: real, max: nat): (r: real)
    requires max >= 1
    ensures 1.0 <= r <= max as real
    ensures 1.0 <= v <= max as real ==> r == v
  {
    var lo := if max as real < v then max as real else v;
    if 1.0 < lo then lo else 1.0
  }

  /** `k` ticks of the countdown effect on a running clock holding the
      number `t`: one second off per tick while the clock is above zero. */
  function Countdown(t: real, k: nat): real
  {
    if k == 0 || t <= 0.0 then t else Countdown(t - 1.0, k - 1)
  }

  predicate IsWhole(t: real) { t == t.Floor as real }

  /** While the clock stays above zero each tick takes one second off. */
  lemma {:induction false} CountdownSteps(t: real, k: nat)
    requires t > k as real - 1.0
    ensures Countdown(t, k) == t - k as real
  {
    if k > 0 {
      CountdownSteps(t - 1.0, k - 1);
    }
  }

  /** Once at or below zero the clock stays where it is. */
  lemma {:induction false} CountdownStops(t: real, k: nat)
    requires t <= 0.0
    ensures Countdown(t, k) == t
  {
  }

  lemma {:induction false} CountdownSplit(t: real, a: nat, b: nat)
    ensures Countdown(t, a + b) == Countdown(Countdown(t, a), b)
  {
    if a > 0 && t > 0.0 {
      CountdownSplit(t - 1.0, a - 1, b);
    } else if a > 0 {
      CountdownStops(t, a + b);
      CountdownStops(t, a);
      CountdownStops(t, b);
    }
  }

  lemma WholeShift(t: real)
    ensures IsWhole(t - 1.0) <==> IsWhole(t)
  {
    var f := t.Floor;
    assert f as real <= t < f as real + 1.0;
    assert (f - 1) as real <= t - 1.0 < (f - 1) as real + 1.0;
    assert (t - 1.0).Floor == f - 1;
  }

  /** A clock holding a fraction of a second never shows exactly zero, so
      the completion effect, which waits for `timeLeft === 0`, never
      fires. */
  lemma {:induction false} FractionNeverZero(t: real, k: nat)
    requires !IsWhole(t)
    ensures !IsWhole(Countdown(t, k))
    ensures Countdown(t, k) != 0.0
  {
    if k > 0 && t > 0.0 {
      WholeShift(t);
      FractionNeverZero(t - 1.0, k - 1);
    } else {
      assert Countdown(t, k) == t;
      assert 0.0 == (0.0).Floor as real;
    }
  }

  /** Typing 1.01 into the focus field: the clock starts at 60.6 s, falls
      to -0.4 s after 61 ticks and stays there, and never reads zero. */
  lemma FractionalFocusStalls()
    ensures ClampMinsAsWritten(1.01, 120) * 60.0 == 60.6
    ensures Countdown(60.6, 61) == -0.4
    ensures forall k :: k >= 61 ==> Countdown(60.6, k) == -0.4
    ensures forall k :: Countdown(60.6, k) != 0.0
  {
    CountdownSteps(60.6, 61);
    assert (60.6).Floor == 60;
    forall k: nat | k >= 61 ensures Countdown(60.6, k) == -0.4 {
      CountdownSplit(60.6, 61, k - 61);
      CountdownStops(-0.4, k - 61);
    }
    forall k: nat ensures Countdown(60.6, k) != 0.0 {
      FractionNeverZero(60.6, k);
    }
  }

  /** Whole minutes give whole seconds, and the clock reaches exactly zero
      after that many ticks, so the session completes. */
  lemma WholeMinutesComplete(mins: nat)
    ensures IsWhole((mins * 60) as real)
    ensures Countdown((mins * 60) as real, mins * 60) == 0.0
  {
    CountdownSteps((mins * 60) as real, mins * 60);
  }

  /** The component's state. The countdown and completion effects are the
      methods `Tick` and `Complete`; React runs them whenever their guards
      may have changed. */
  class Timer {
    var focusMins: nat
    var breakMins: nat
    var mode: Mode
    var timeLeft: nat
    var isRunning: bool
    var sessions: nat

    /** The durations stay in the ranges the inputs allow. */
    predicate Valid()
      reads this
    {
      1 <= focusMins <= 120 && 1 <= breakMins <= 60
    }

    /** The length of a period in `m`, in seconds. */
    function Duration(m: Mode): (d: nat)
      reads this
      requires Valid()
      ensures 60 <= d <= 120 * 60
    {
      if m == Focus then focusMins * 60 else breakMins * 60
    }

    constructor ()
      ensures Valid()
      ensures focusMins == 25 && breakMins == 5 && mode == Focus
      ensures timeLeft == 25 * 60 && !isRunning && sessions == 0
    {
      focusMins := 25;
      breakMins := 5;
      mode := Focus;
      timeLeft := 25 * 60;
      isRunning := false;
      sessions := 0;
    }

    /** The countdown effect: one second off while running and not yet at
        zero, nothing otherwise. */
    method Tick()
      requires Valid()
      modifies this
      ensures Valid()
      ensures old(isRunning) && old(timeLeft) > 0 ==> timeLeft == old(timeLeft) - 1
      ensures !(old(isRunning) && old(timeLeft) > 0) ==> timeLeft == old(timeLeft)
      ensures focusMins == old(focusMins) && breakMins == old(breakMins)
      ensures mode == old(mode) && isRunning == old(isRunning) && sessions == old(sessions)
    {
      if !isRunning || timeLeft <= 0 {
        return;
      }
      timeLeft := timeLeft - 1;
    }

    /** The completion effect: at zero while running, stop, count a
        finished focus period, and load the other mode's full period. */
    method Complete()
      requires Valid()
      modifies this
      ensures Valid()
      ensures focusMins == old(focusMins) && breakMins == old(breakMins)
      ensures old(timeLeft) == 0 && old(isRunning) ==>
                && !isRunning
                && mode == Other(old(mode))
                && timeLeft == Duration(mode)
                && sessions == old(sessions) + (if old(mode) == Focus then 1 else 0)
      ensures !(old(timeLeft) == 0 && old(isRunning)) ==>
                mode == old(mode) && timeLeft == old(timeLeft) &&
                isRunning == old(isRunning) && sessions == old(sessions)
    {
      if timeLeft != 0 || !isRunning {
        return;
      }
      isRunning := false;
      var next := if mode == Focus then Break else Focus;
      var nextDuration := if next == Focus then focusMins * 60 else breakMins * 60;
      if mode == Focus {
        sessions := sessions + 1;
      }
      mode := next;
      timeLeft := nextDuration;
    }

    /** `switchMode(m)`: stop and load a full period of `m`. */
    method SwitchMode(m: Mode)
      requires Valid()
      modifies this
      ensures Valid()
      ensures !isRunning && mode == m && timeLeft == Duration(m)
      ensures focusMins == old(focusMins) && breakMins == old(breakMins)
      ensures sessions == old(sessions)
    {
      isRunning := false;
      mode := m;
      timeLeft := if m == Focus then focusMins * 60 else breakMins * 60;
    }

    /** `reset`: stop and reload the current mode's full period. */
    method Reset()
      requires Valid()
      modifies this
      ensures Valid()
      ensures !isRunning && mode == old(mode) && timeLeft == Duration(mode)
      ensures focusMins == old(focusMins) && breakMins == old(breakMins)
      ensures sessions == old(sessions)
    {
      isRunning := false;
      timeLeft := if mode == Focus then focusMins * 60 else breakMins * 60;
    }

    /** The start/pause button. */
    method ToggleRunning()
      requires Valid()
      modifies this
      ensures Valid()
      ensures isRunning == !old(isRunning)
      ensures mode == old(mode) && timeLeft == old(timeLeft) && sessions == old(sessions)
      ensures focusMins == old(focusMins) && breakMins == old(breakMins)
    {
      isRunning := !isRunning;
    }

    /** The focus-minutes input, with the number typed rounded down to whole
        minutes (the fraction the component keeps stalls the clock; see
        `FractionalFocusStalls`), then clamped to `1..120`; the clock follows
        only while stopped in focus mode. */
    method SetFocusMins(v: real)
      requires Valid()
      modifies this
      ensures Valid()
      ensures focusMins == ClampMins(v.Floor, 120) && breakMins == old(breakMins)
      ensures !old(isRunning) && old(mode) == Focus ==> timeLeft == focusMins * 60
      ensures !(!old(isRunning) && old(mode) == Focus) ==> timeLeft == old(timeLeft)
      ensures mode == old(mode) && isRunning == old(isRunning) && sessions == old(sessions)
    {
      var mins := ClampMins(v.Floor, 120);
      focusMins := mins;
      if !isRunning && mode == Focus {
        timeLeft := mins * 60;
      }
    }

    /** The break-minutes input, rounded down to whole minutes like the focus
        input, then clamped to `1..60`; the clock follows only while stopped
        in break mode. */
    method SetBreakMins(v: real)
      requires Valid()
      modifies this
      ensures Valid()
      ensures breakMins == ClampMins(v.Floor, 60) && focusMins == old(focusMins)
      ensures !old(isRunning) && old(mode) == Break ==> timeLeft == breakMins * 60
      ensures !(!old(isRunning) && old(mode) == Break) ==> timeLeft == old(timeLeft)
      ensures mode == old(mode) && isRunning == old(isRunning) && sessions == old(sessions)
    {
      var mins := ClampMins(v.Floor, 60);
      breakMins := mins;
      if !isRunning && mode == Break {
        timeLeft := mins * 60;
      }
    }
  }
}
