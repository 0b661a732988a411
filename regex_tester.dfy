/** The regex tester around the regular-expression engine: the match list,
    the highlighted segments built from it, the fallbacks for an empty or
    invalid pattern, and the flag toggles. The engine itself is an input:
    the matches successive `exec` calls return, or the error it throws. */
module RegexTester {
  import opened Wrappers
  import opened TextUtil

  // ---------------------------------------------------------------------
  // Matches and segments

  /** One match: where it starts, how long it is and the text it matched. */
  datatype Match = Match(index: nat, length: nat, value: string)

  /** A piece of the highlighted text and whether it is a match. */
  datatype Segment = Segment(text: string, isMatch: bool)

  function End(m: Match): nat
  {
    m.index + m.length
  }

  /** `s.slice(a, b)` for non-negative bounds: both clamped to the length,
      empty when they cross. */
  function Slice(s: string, a: nat, b: nat): (r: string)
    ensures a <= b <= |s| ==> r == s[a..b]
    ensures |r| <= |s|
  {
    var lo := if a < |s| then a else |s|;
    var hi := if b < |s| then b else |s|;
    if lo >= hi then "" else s[lo..hi]
  }

  /** Matches as an engine reports them over `text`: each inside the text
      and equal to the slice it covers, in order, without overlap. */
  predicate WellFormed(text: string, found: seq<Match>)
  {
    && (forall k :: 0 <= k < |found| ==>
          End(found[k]) <= |text| && found[k].value == text[found[k].index..End(found[k])])
    && (forall k :: 0 < k < |found| ==> End(found[k - 1]) <= found[k].index)
  }

  /** The segments' texts joined. */
  function Concat(segs: seq<Segment>): string
  {
    if segs == [] then "" else Concat(segs[..|segs| - 1]) + segs[|segs| - 1].text
  }

  /** The texts of the matched segments, in order. */
  function MatchedTexts(segs: seq<Segment>): seq<string>
  {
    if segs == [] then []
    else
      var last := segs[|segs| - 1];
      MatchedTexts(segs[..|segs| - 1]) + (if last.isMatch then [last.text] else [])
  }

  /** The values of the matches, in order. */
  function Values(found: seq<Match>): (vs: seq<string>)
    ensures |vs| == |found|
    ensures forall k :: 0 <= k < |found| ==> vs[k] == found[k].value
  {
    if found == [] then [] else Values(found[..|found| - 1]) + [found[|found| - 1].value]
  }

  /** Where each matched segment starts in the joined text, in order. */
  function MatchStarts(segs: seq<Segment>): seq<nat>
  {
    if segs == [] then []
    else
      var init := segs[..|segs| - 1];
      MatchStarts(init) + (if segs[|segs| - 1].isMatch then [|Concat(init)|] else [])
  }

  /** The start positions of the matches, in order. */
  function Indices(found: seq<Match>): (ix: seq<nat>)
    ensures |ix| == |found|
    ensures forall k :: 0 <= k < |found| ==> ix[k] == found[k].index
  {
    if found == [] then [] else Indices(found[..|found| - 1]) + [found[|found| - 1].index]
  }

  /** No two unmatched segments are neighbours: a gap always runs from one
      match (or the start) to the next match (or the end). */
  predicate NoAdjacentGaps(segs: seq<Segment>)
  {
    forall j :: 0 < j < |segs| ==> segs[j - 1].isMatch || segs[j].isMatch
  }

  /** Every unmatched segment has some text. */
  predicate GapsNonEmpty(segs: seq<Segment>)
  {
    forall k :: 0 <= k < |segs| && !segs[k].isMatch ==> segs[k].text != ""
  }

  lemma AppendSegment(segs: seq<Segment>, x: Segment)
    ensures Concat(segs + [x]) == Concat(segs) + x.text
    ensures MatchedTexts(segs + [x]) == MatchedTexts(segs) + (if x.isMatch then [x.text] else [])
    ensures MatchStarts(segs + [x]) == MatchStarts(segs) + (if x.isMatch then [|Concat(segs)|] else [])
  {
    assert (segs + [x])[..|segs|] == segs;
  }

  /** One step of the builder keeps its invariant. */
  lemma Advance(text: string, found: seq<Match>, k: nat, cursor: nat,
                before: seq<Segment>, after: seq<Segment>)
    requires k < |found|
    requires MatchedTexts(before) == Values(found[..k])
    requires k == 0 ==> cursor == 0
    requires k > 0 ==> cursor == End(found[k - 1])
    requires WellFormed(text, found) ==>
               cursor <= |text| && Concat(before) == text[..cursor] && GapsNonEmpty(before)
    requires after == (if found[k].index > cursor
                       then before + [Segment(Slice(text, cursor, found[k].index), false)]
                       else before) + [Segment(found[k].value, true)]
    ensures MatchedTexts(after) == Values(found[..k + 1])
    ensures WellFormed(text, found) ==>
              End(found[k]) <= |text| && Concat(after) == text[..End(found[k])] && GapsNonEmpty(after)
  {
    var m := found[k];
    var gap := Segment(Slice(text, cursor, m.index), false);
    var mid := if m.index > cursor then before + [gap] else before;
    AdvanceMatched(found, k, before, gap, m.index > cursor, after);
    if WellFormed(text, found) {
      assert End(m) <= |text| && m.value == text[m.index..End(m)];
      assert cursor <= m.index by {
        if k > 0 { assert End(found[k - 1]) <= found[k].index; }
      }
      AdvanceText(text, cursor, m, before, mid, after);
    }
  }

  /** For well-formed matches, the step puts the match segment where the
      match starts. */
  lemma AdvancePosition(text: string, found: seq<Match>, k: nat, cursor: nat,
                        before: seq<Segment>, after: seq<Segment>)
    requires k < |found| && WellFormed(text, found)
    requires k == 0 ==> cursor == 0
    requires k > 0 ==> cursor == End(found[k - 1])
    requires cursor <= |text| && Concat(before) == text[..cursor] && GapsNonEmpty(before)
    requires MatchStarts(before) == Indices(found[..k])
    requires after == (if found[k].index > cursor
                       then before + [Segment(Slice(text, cursor, found[k].index), false)]
                       else before) + [Segment(found[k].value, true)]
    ensures MatchStarts(after) == Indices(found[..k + 1])
  {
    var m := found[k];
    var gap := Segment(Slice(text, cursor, m.index), false);
    var mid := if m.index > cursor then before + [gap] else before;
    assert End(m) <= |text| && m.value == text[m.index..End(m)];
    assert cursor <= m.index by {
      if k > 0 { assert End(found[k - 1]) <= found[k].index; }
    }
    AdvanceText(text, cursor, m, before, mid, after);
    AdvanceStarts(found, k, before, gap, mid, after);
  }

  /** The match segment starts where the match does. */
  lemma AdvanceStarts(found: seq<Match>, k: nat, before: seq<Segment>, gap: Segment,
                      mid: seq<Segment>, after: seq<Segment>)
    requires k < |found| && !gap.isMatch
    requires MatchStarts(before) == Indices(found[..k])
    requires mid == before || mid == before + [gap]
    requires |Concat(mid)| == found[k].index
    requires after == mid + [Segment(found[k].value, true)]
    ensures MatchStarts(after) == Indices(found[..k + 1])
  {
    AppendSegment(before, gap);
    assert MatchStarts(mid) == MatchStarts(before);
    AppendSegment(mid, Segment(found[k].value, true));
    assert MatchStarts(after) == Indices(found[..k]) + [found[k].index];
    assert found[..k + 1][..k] == found[..k];
  }

  /** A gap is only ever added after a match or at the start, and a match
      always follows it. */
  lemma AdvanceGaps(before: seq<Segment>, gap: Segment, withGap: bool, m: Segment,
                    after: seq<Segment>)
    requires m.isMatch
    requires NoAdjacentGaps(before) && (before == [] || before[|before| - 1].isMatch)
    requires after == (if withGap then before + [gap] else before) + [m]
    ensures NoAdjacentGaps(after) && after != [] && after[|after| - 1].isMatch
  {
    var mid := if withGap then before + [gap] else before;
    assert NoAdjacentGaps(mid) by {
      forall j | 0 < j < |mid| ensures mid[j - 1].isMatch || mid[j].isMatch {
        if j < |before| { assert mid[j - 1] == before[j - 1] && mid[j] == before[j]; }
        else { assert mid[j - 1] == before[|before| - 1]; }
      }
    }
    forall j | 0 < j < |after| ensures after[j - 1].isMatch || after[j].isMatch {
      if j < |mid| { assert after[j - 1] == mid[j - 1] && after[j] == mid[j]; }
      else { assert after[j] == m; }
    }
  }

  lemma AdvanceMatched(found: seq<Match>, k: nat, before: seq<Segment>, gap: Segment,
                       withGap: bool, after: seq<Segment>)
    requires k < |found| && !gap.isMatch
    requires MatchedTexts(before) == Values(found[..k])
    requires after == (if withGap then before + [gap] else before) + [Segment(found[k].value, true)]
    ensures MatchedTexts(after) == Values(found[..k + 1])
  {
    var mid := if withGap then before + [gap] else before;
    AppendSegment(before, gap);
    assert MatchedTexts(mid) == MatchedTexts(before);
    AppendSegment(mid, Segment(found[k].value, true));
    assert MatchedTexts(after) == Values(found[..k]) + [found[k].value];
    assert found[..k + 1][..k] == found[..k];
  }

  lemma AdvanceText(text: string, cursor: nat, m: Match, before: seq<Segment>,
                    mid: seq<Segment>, after: seq<Segment>)
    requires cursor <= m.index && End(m) <= |text| && m.value == text[m.index..End(m)]
    requires Concat(before) == text[..cursor] && GapsNonEmpty(before)
    requires mid == if m.index > cursor
                    then before + [Segment(Slice(text, cursor, m.index), false)]
                    else before
    requires after == mid + [Segment(m.value, true)]
    ensures Concat(after) == text[..End(m)] && GapsNonEmpty(after)
    ensures |Concat(mid)| == m.index
  {
    GapText(text, cursor, m, before, mid);
    AppendSegment(mid, Segment(m.value, true));
    assert text[..End(m)] == text[..m.index] + text[m.index..End(m)];
    forall j | 0 <= j < |after| && !after[j].isMatch ensures after[j].text != "" {
      assert j < |mid| && after[j] == mid[j];
    }
  }

  /** The text up to a match: the segments so far and the gap before it. */
  lemma GapText(text: string, cursor: nat, m: Match, before: seq<Segment>, mid: seq<Segment>)
    requires cursor <= m.index && End(m) <= |text|
    requires Concat(before) == text[..cursor] && GapsNonEmpty(before)
    requires mid == if m.index > cursor
                    then before + [Segment(Slice(text, cursor, m.index), false)]
                    else before
    ensures Concat(mid) == text[..m.index] && GapsNonEmpty(mid)
  {
    var gap := Segment(Slice(text, cursor, m.index), false);
    AppendSegment(before, gap);
    if m.index > cursor {
      assert text[..m.index] == text[..cursor] + text[cursor..m.index];
      forall j | 0 <= j < |mid| && !mid[j].isMatch ensures mid[j].text != "" {
        if j < |before| { assert mid[j] == before[j]; }
      }
    }
  }

  /** The segment builder: the gap before each match, the match itself,
      and whatever follows the last match. */
  method BuildSegments(text: string, found: seq<Match>) returns (segs: seq<Segment>)
    ensures MatchedTexts(segs) == Values(found)
    ensures WellFormed(text, found) ==> Concat(segs) == text && GapsNonEmpty(segs)
    ensures WellFormed(text, found) ==> MatchStarts(segs) == Indices(found)
    ensures NoAdjacentGaps(segs)
  {
    segs := [];
    var cursor: nat := 0;
    for k := 0 to |found|
      invariant MatchedTexts(segs) == Values(found[..k])
      invariant k == 0 ==> cursor == 0
      invariant k > 0 ==> cursor == End(found[k - 1])
      invariant WellFormed(text, found) ==>
                  cursor <= |text| && Concat(segs) == text[..cursor] && GapsNonEmpty(segs)
      invariant WellFormed(text, found) ==> MatchStarts(segs) == Indices(found[..k])
      invariant NoAdjacentGaps(segs) && (segs == [] || segs[|segs| - 1].isMatch)
    {
      var m := found[k];
      var before := segs;
      if m.index > cursor {
        segs := segs + [Segment(Slice(text, cursor, m.index), false)];
      }
      segs := segs + [Segment(m.value, true)];
      Advance(text, found, k, cursor, before, segs);
      AdvanceGaps(before, Segment(Slice(text, cursor, m.index), false), m.index > cursor,
                  Segment(m.value, true), segs);
      if WellFormed(text, found) {
        AdvancePosition(text, found, k, cursor, before, segs);
      }
      cursor := End(m);
    }
    assert found[..|found|] == found;
    var before := segs;
    if cursor < |text| {
      segs := segs + [Segment(Slice(text, cursor, |text|), false)];
    }
    Finish(text, found, cursor, before, segs);
  }

  /** The text after the last match closes the segments. */
  lemma Finish(text: string, found: seq<Match>, cursor: nat, before: seq<Segment>,
               after: seq<Segment>)
    requires WellFormed(text, found) ==>
               cursor <= |text| && Concat(before) == text[..cursor] && GapsNonEmpty(before)
    requires after == if cursor < |text|
                      then before + [Segment(Slice(text, cursor, |text|), false)]
                      else before
    requires NoAdjacentGaps(before) && (before == [] || before[|before| - 1].isMatch)
    ensures MatchedTexts(after) == MatchedTexts(before)
    ensures MatchStarts(after) == MatchStarts(before)
    ensures NoAdjacentGaps(after)
    ensures WellFormed(text, found) ==> Concat(after) == text && GapsNonEmpty(after)
  {
    var tail := Segment(Slice(text, cursor, |text|), false);
    AppendSegment(before, tail);
    forall j | 0 < j < |after| ensures after[j - 1].isMatch || after[j].isMatch {
      if j < |before| { assert after[j - 1] == before[j - 1] && after[j] == before[j]; }
      else { assert after[j - 1] == before[|before| - 1]; }
    }
    if WellFormed(text, found) {
      assert text[..|text|] == text;
      if cursor < |text| {
        assert text == text[..cursor] + text[cursor..];
        forall j | 0 <= j < |after| && !after[j].isMatch ensures after[j].text != "" {
          if j < |before| { assert after[j] == before[j]; }
        }
      }
    }
  }

  // ---------------------------------------------------------------------
  // The tester's result

  /** What the engine does with the pattern: the matches successive `exec`
      calls return, or an error, with its message when it is an `Error`. */
  datatype Outcome = Matches(execs: seq<Match>) | Invalid(message: Option<string>)

  datatype Analysis = Analysis(matches: seq<Match>, error: string, highlighted: seq<Segment>)

  /** With `g` every match is collected; without it, only the first. */
  function Found(global: bool, execs: seq<Match>): (found: seq<Match>)
    ensures !global ==> |found| <= 1
    ensures found <= execs
    ensures global ==> found == execs
  {
    if global || |execs| <= 1 then execs else execs[..1]
  }

  /** The memoised computation: matches, error text and highlighted
      segments for the pattern, flags and text. */
  method Analyze(pattern: string, global: bool, text: string, outcome: Outcome)
    returns (r: Analysis)
    ensures |r.highlighted| >= 1
    ensures pattern == "" ==> r == Analysis([], "", [Segment(text, false)])
    ensures pattern != "" && outcome.Invalid? ==>
              r == Analysis([], outcome.message.GetOr("Invalid regex"), [Segment(text, false)])
    ensures pattern != "" && outcome.Matches? ==>
              r.matches == Found(global, outcome.execs) && r.error == ""
    ensures !global ==> |r.matches| <= 1
    ensures MatchedTexts(r.highlighted) == Values(r.matches)
    ensures WellFormed(text, r.matches) ==> Concat(r.highlighted) == text
    ensures WellFormed(text, r.matches) && text != "" ==> GapsNonEmpty(r.highlighted)
    ensures WellFormed(text, r.matches) ==> MatchStarts(r.highlighted) == Indices(r.matches)
    ensures NoAdjacentGaps(r.highlighted)
  {
    FallbackWhole(text);
    if pattern == "" {
      return Analysis([], "", [Segment(text, false)]);
    }
    match outcome
    case Invalid(message) =>
      r := Analysis([], message.GetOr("Invalid regex"), [Segment(text, false)]);
    case Matches(execs) =>
      var found := Found(global, execs);
      var segs := BuildSegments(text, found);
      if segs == [] {
        segs := [Segment(text, false)];
      }
      r := Analysis(found, "", segs);
  }

  /** The fallback segment holds the whole text; it is a gap, so it is
      non-empty only for non-empty text. */
  lemma FallbackWhole(text: string)
    ensures Concat([Segment(text, false)]) == text
    ensures MatchedTexts([Segment(text, false)]) == []
    ensures MatchStarts([Segment(text, false)]) == []
  {
    AppendSegment([], Segment(text, false));
    assert [] + [Segment(text, false)] == [Segment(text, false)];
  }

  // ---------------------------------------------------------------------
  // Flags

  datatype Flag = G | I | M | S

  function FlagChar(f: Flag): char
  {
    match f
    case G => 'g'
    case I => 'i'
    case M => 'm'
    case S => 's'
  }

  /** `[...flags].join('')`: the set iterates in insertion order. */
  function FlagStr(flags: seq<Flag>): (r: string)
    ensures |r| == |flags|
    ensures forall k :: 0 <= k < |flags| ==> r[k] == FlagChar(flags[k])
  {
    seq(|flags|, k requires 0 <= k < |flags| => FlagChar(flags[k]))
  }

  /** The flag set after `toggleFlag(f)`: a present flag is deleted, an
      absent one is added last. */
  function Toggled(flags: seq<Flag>, f: Flag): (r: seq<Flag>)
    ensures f in r <==> f !in flags
    ensures forall x :: x != f ==> (x in r <==> x in flags)
  {
    RemoveMembers(flags, f);
    if f in flags then Remove(flags, f) else flags + [f]
  }

  lemma RemoveMembers(flags: seq<Flag>, f: Flag)
    ensures forall x :: x in Remove(flags, f) <==> x in flags && x != f
  {
    RemoveMultiset(flags, f);
    forall x ensures x in Remove(flags, f) <==> x in flags && x != f {
      assert x in Remove(flags, f) <==> x in multiset(Remove(flags, f));
      assert x in flags <==> x in multiset(flags);
    }
  }

  /** Toggling flips whether `f` is set and leaves every other flag as it
      was, and keeps the flags free of duplicates. */
  lemma ToggleFlips(flags: seq<Flag>, f: Flag)
    requires Distinct(flags)
    ensures Distinct(Toggled(flags, f))
    ensures f in Toggled(flags, f) <==> f !in flags
    ensures forall x :: x != f ==> (x in Toggled(flags, f) <==> x in flags)
  {
    if f in flags {
      RemovePreservesDistinct(flags, f);
    }
  }

  /** Toggling twice restores the set of flags. */
  lemma ToggleTwice(flags: seq<Flag>, f: Flag)
    requires Distinct(flags)
    ensures forall x :: x in Toggled(Toggled(flags, f), f) <==> x in flags
  {
    ToggleFlips(flags, f);
    ToggleFlips(Toggled(flags, f), f);
  }

  /** ...but not always their order: toggling `g` off and on again in
      `gi` leaves `ig`. */
  lemma ToggleTwiceReorders()
    ensures Toggled(Toggled([G, I], G), G) == [I, G]
    ensures FlagStr(Toggled(Toggled([G, I], G), G)) == "ig"
  {
    assert Remove([G, I], G) == [I] by {
      assert [G, I][1..] == [I];
      assert Remove([I], G) == [I] + Remove([], G);
    }
  }

  /** The tester's inputs: pattern, flags and text. */
  class Tester {
    var pattern: string
    var flags: seq<Flag>
    var text: string

    predicate Valid()
      reads this
    {
      Distinct(flags)
    }

    constructor ()
      ensures Valid()
      ensures pattern == "" && flags == [G]
      ensures text == "The quick brown fox jumps over the lazy dog.\nPack my box with five dozen liquor jugs."
    {
      pattern := "";
      flags := [G];
      text := "The quick brown fox jumps over the lazy dog.\nPack my box with five dozen liquor jugs.";
    }

    /** `toggleFlag(f)`. */
    method ToggleFlag(f: Flag)
      requires Valid()
      modifies this
      ensures Valid()
      ensures flags == Toggled(old(flags), f)
      ensures pattern == old(pattern) && text == old(text)
    {
      ToggleFlips(flags, f);
      if f in flags {
        flags := Remove(flags, f);
      } else {
        flags := flags + [f];
      }
    }

    /** The current analysis, given what the engine makes of the pattern
        with the current flags. */
    method Result(outcome: Outcome) returns (r: Analysis)
      ensures |r.highlighted| >= 1
      ensures pattern == "" ==> r == Analysis([], "", [Segment(text, false)])
      ensures pattern != "" && outcome.Invalid? ==>
                r == Analysis([], outcome.message.GetOr("Invalid regex"), [Segment(text, false)])
      ensures pattern != "" && outcome.Matches? ==>
                r.matches == Found(G in flags, outcome.execs) && r.error == ""
      ensures G !in flags ==> |r.matches| <= 1
      ensures MatchedTexts(r.highlighted) == Values(r.matches)
      ensures WellFormed(text, r.matches) ==> Concat(r.highlighted) == text
      ensures WellFormed(text, r.matches) && text != "" ==> GapsNonEmpty(r.highlighted)
      ensures WellFormed(text, r.matches) ==> MatchStarts(r.highlighted) == Indices(r.matches)
      ensures NoAdjacentGaps(r.highlighted)
    {
      r := Analyze(pattern, G in flags, text, outcome);
    }
  }
}
