/** The word counter's statistics: words, characters with and without
    whitespace, sentences, paragraphs and the reading time. */
module WordCounter {
  import opened Wrappers
  import opened TextUtil
  import opened RunSplit

  datatype Stats = Stats(words: nat, chars: nat, charsNoSpace: nat,
                         sentences: nat, paragraphs: nat, readingTime: nat)

  // ---------------------------------------------------------------------
  // `text.split(/\n\s*\n/)`

  /** The end of the whitespace run starting at `k`. */
  function SpaceRunEnd(s: string, k: nat): (e: nat)
    requires k <= |s|
    ensures k <= e <= |s|
    ensures forall i :: k <= i < e ==> IsSpace(s[i])
    ensures e == |s| || !IsSpace(s[e])
    decreases |s| - k
  {
    if k == |s| || !IsSpace(s[k]) then k else SpaceRunEnd(s, k + 1)
  }

  /** The last line feed in `s[lo..hi]`, if any. */
  function LastLineFeed(s: string, lo: nat, hi: nat): (j: Option<nat>)
    requires lo <= hi <= |s|
    ensures j.Some? ==> lo <= j.value < hi && s[j.value] == '\n'
    ensures j.Some? ==> forall i :: j.value < i < hi ==> s[i] != '\n'
    ensures j.None? ==> forall i :: lo <= i < hi ==> s[i] != '\n'
    decreases hi - lo
  {
    if lo == hi then None
    else if s[hi - 1] == '\n' then Some(hi - 1)
    else LastLineFeed(s, lo, hi - 1)
  }

  /** Where a match of `\n\s*\n` starting at `i` ends (inclusive): `s[i]`
      is a line feed, the greedy `\s*` takes the whitespace run after it and
      gives back characters until a line feed follows, so the match ends at
      the run's last line feed. */
  function BreakAt(s: string, i: nat): (j: Option<nat>)
    requires i < |s|
    ensures j.Some? ==> i < j.value < |s| && s[i] == '\n' && s[j.value] == '\n'
    ensures j.Some? ==> forall m :: i <= m <= j.value ==> IsSpace(s[m])
  {
    if s[i] != '\n' then None else LastLineFeed(s, i + 1, SpaceRunEnd(s, i + 1))
  }

  /** The leftmost match at or after `i`, as its first and last index. */
  function FirstBreak(s: string, i: nat): (b: Option<(nat, nat)>)
    requires i <= |s|
    ensures b.Some? ==> i <= b.value.0 < b.value.1 < |s|
    ensures b.Some? ==> forall m :: b.value.0 <= m <= b.value.1 ==> IsSpace(s[m])
    ensures b.Some? ==> BreakAt(s, b.value.0) == Some(b.value.1)
    ensures b.None? ==> forall m :: i <= m < |s| ==> BreakAt(s, m).None?
    decreases |s| - i
  {
    if i == |s| then None
    else
      match BreakAt(s, i)
      case Some(j) => Some((i, j))
      case None => FirstBreak(s, i + 1)
  }

  /** `s.split(/\n\s*\n/)`: the pieces between paragraph breaks; the search
      resumes after each break. */
  function BreakSplit(s: string): (r: seq<string>)
    ensures |r| >= 1
    decreases |s|
  {
    match FirstBreak(s, 0)
    case None => [s]
    case Some((i, j)) => [s[..i]] + BreakSplit(s[j + 1..])
  }

  /** `filter((p) => p.trim())`: a piece is kept unless trimming empties
      it, that is unless it is all whitespace (`TrimEmptyIffBlank`). */
  function NonBlank(parts: seq<string>): (r: seq<string>)
    ensures |r| <= |parts|
    ensures forall k :: 0 <= k < |r| ==> !AllSpace(r[k])
  {
    if parts == [] then []
    else if AllSpace(parts[0]) then NonBlank(parts[1..])
    else [parts[0]] + NonBlank(parts[1..])
  }

  // ---------------------------------------------------------------------
  // The statistics

  /** `Math.max(1, Math.ceil(words / 200))`. */
  function ReadingTime(words: nat): (t: nat)
    ensures t >= 1 && 200 * t >= words
    ensures t == 1 || 200 * (t - 1) < words
  {
    var c := (words + 199) / 200;
    if c < 1 then 1 else c
  }

  /** Words: the whitespace-separated pieces of the trimmed text; none
      exactly when the text is blank. */
  function WordTotal(text: string): (n: nat)
    ensures n == 0 <==> IsBlank(text)
  {
    var trimmed := Trim(text);
    if trimmed == "" then 0 else |SplitRuns(trimmed, Whitespace)|
  }

  /** Sentences: the non-empty pieces of the trimmed text between runs of
      terminators. Blank text has none; text that does not start with a
      terminator has at least one. */
  function SentenceTotal(text: string): (n: nat)
    ensures IsBlank(text) ==> n == 0
    ensures !IsBlank(text) && !InClass(Trim(text)[0], Terminator) ==> n >= 1
  {
    var trimmed := Trim(text);
    if trimmed == "" then 0 else |NonEmpty(SplitRuns(trimmed, Terminator))|
  }

  /** Paragraphs: the non-blank pieces of the text between blank lines;
      none exactly when the text is blank. */
  function ParagraphTotal(text: string): (n: nat)
    ensures n == 0 <==> IsBlank(text)
  {
    if Trim(text) == "" then 0
    else
      TrimEmptyIffBlank(text);
      ParagraphExists(text);
      |NonBlank(BreakSplit(text))|
  }

  /** `countStats(text)`. */
  function CountStats(text: string): (st: Stats)
    ensures st.chars == Utf16Length(text)
    ensures st.charsNoSpace == Utf16Length(RemoveSpaces(text))
    ensures st.charsNoSpace + SpaceCount(text) == st.chars
    ensures IsBlank(text) ==>
              st.words == 0 && st.sentences == 0 && st.paragraphs == 0 && st.readingTime == 1
    ensures !IsBlank(text) ==> st.words >= 1
  {
    var words := WordTotal(text);
    RemoveSpacesLength(text);
    Stats(words, Utf16Length(text), Utf16Length(RemoveSpaces(text)), SentenceTotal(text), ParagraphTotal(text),
          ReadingTime(words))
  }

  /** The word count is the number of maximal non-whitespace runs: the
      number of words `Words` finds. */
  lemma WordCount(text: string)
    ensures CountStats(text).words == |Words(text)|
  {
    var t := Trim(text);
    WordsTrim(text);
    if t == "" {
      WordsEmpty();
    } else {
      RunsTrimmed(t, Whitespace);
    }
  }

  /** Sentences end at runs of `.`, `!` and `?`: a run ends one sentence
      just as a single terminator does. */
  lemma SentenceCount(text: string)
    ensures CountStats(text).sentences ==
              if IsBlank(text) then 0 else |NonEmpty(SplitEach(Trim(text), Terminator))|
  {
    RunsEach(Trim(text), Terminator);
  }

  /** Non-blank text without a terminator is one sentence. */
  lemma OneSentence(text: string)
    requires !IsBlank(text) && NoneIn(text, Terminator)
    ensures CountStats(text).sentences == 1
  {
    TrimmedNoneIn(text, Terminator);
    RunsNone(Trim(text), Terminator);
  }

  /** Trimming keeps a text free of a class of characters. */
  lemma TrimmedNoneIn(text: string, k: CharClass)
    requires NoneIn(text, k)
    ensures NoneIn(Trim(text), k)
  {
    var t0 := TrimStart(text);
    var d := |text| - |t0|;
    SliceNoneIn(text, d, |text|, k);
    SliceNoneIn(t0, 0, |Trim(text)|, k);
  }

  lemma SliceNoneIn(s: string, a: nat, b: nat, k: CharClass)
    requires NoneIn(s, k) && a <= b <= |s|
    ensures NoneIn(s[a..b], k)
  {
    forall i | 0 <= i < b - a ensures !InClass(s[a..b][i], k) {
      assert s[a..b][i] == s[a + i];
    }
  }

  /** A text that is not all whitespace has a non-blank paragraph. */
  lemma {:induction false} ParagraphExists(s: string)
    requires !AllSpace(s)
    ensures NonBlank(BreakSplit(s)) != []
    decreases |s|
  {
    var k :| 0 <= k < |s| && !IsSpace(s[k]);
    match FirstBreak(s, 0)
    case None =>
      NonBlankHead(s, []);
      assert [s] + [] == [s];
    case Some((i, j)) =>
      var rest := BreakSplit(s[j + 1..]);
      assert BreakSplit(s) == [s[..i]] + rest;
      if k < i {
        assert s[..i][k] == s[k];
        NonBlankHead(s[..i], rest);
      } else {
        assert k > j;
        assert s[j + 1..][k - j - 1] == s[k];
        ParagraphExists(s[j + 1..]);
        NonBlankTail(s[..i], rest);
      }
  }

  lemma NonBlankHead(p: string, rest: seq<string>)
    requires !AllSpace(p)
    ensures NonBlank([p] + rest) != []
  {
    assert ([p] + rest)[0] == p;
  }

  lemma NonBlankTail(p: string, rest: seq<string>)
    requires NonBlank(rest) != []
    ensures NonBlank([p] + rest) != []
  {
    assert ([p] + rest)[1..] == rest;
  }


  /** Non-blank text without a line feed is one paragraph. */
  lemma OneParagraph(text: string)
    requires !IsBlank(text) && '\n' !in text
    ensures CountStats(text).paragraphs == 1
  {
    assert FirstBreak(text, 0).None?;
  }

  /** A blank line between two non-blank lines makes two paragraphs. */
  lemma TwoParagraphs(a: string, b: string)
    requires !IsBlank(a) && !IsBlank(b) && '\n' !in a && '\n' !in b
    ensures CountStats(a + "\n\n" + b).paragraphs == 2
  {
    var s := a + "\n\n" + b;
    NotBlankPrefix(a, b);
    calc {
      CountStats(s).paragraphs;
      ParagraphTotal(s);
      |NonBlank(BreakSplit(s))|;
      { BreakPair(a, b); }
      |NonBlank([a, b])|;
      { KeepBoth(a, b); }
      2;
    }
  }

  lemma KeepBoth(a: string, b: string)
    requires !IsBlank(a) && !IsBlank(b)
    ensures NonBlank([a, b]) == [a, b]
  {
    TrimEmptyIffBlank(a);
    TrimEmptyIffBlank(b);
    KeepTwo(a, b);
  }

  lemma KeepTwo(a: string, b: string)
    requires !AllSpace(a) && !AllSpace(b)
    ensures NonBlank([a, b]) == [a, b]
  {
    assert [a, b][1..] == [b];
  }

  /** A text that starts with a non-blank line is not blank. */
  lemma NotBlankPrefix(a: string, b: string)
    requires !IsBlank(a)
    ensures Trim(a + "\n\n" + b) != ""
  {
    TrimEmptyIffBlank(a);
    NotAllSpaceAppend(a, "\n\n");
    NotAllSpaceAppend(a + "\n\n", b);
    TrimEmptyIffBlank(a + "\n\n" + b);
  }

  lemma NotAllSpaceAppend(a: string, t: string)
    requires !AllSpace(a)
    ensures !AllSpace(a + t)
  {
    var k :| 0 <= k < |a| && !IsSpace(a[k]);
    assert (a + t)[k] == a[k];
  }

  /** `a` and `b` around one blank line split into exactly those two. */
  lemma BreakPair(a: string, b: string)
    requires '\n' !in a && '\n' !in b
    ensures BreakSplit(a + "\n\n" + b) == [a, b]
  {
    var s := a + "\n\n" + b;
    PairLineFeeds(a, b);
    FirstBreakPair(s, |a|);
    assert FirstBreak(b, 0).None?;
  }

  /** Where the line feeds of `a + "\n\n" + b` are, and its two sides. */
  lemma PairLineFeeds(a: string, b: string)
    requires '\n' !in a && '\n' !in b
    ensures var s := a + "\n\n" + b; var n := |a|;
      && n + 1 < |s| && s[n] == '\n' && s[n + 1] == '\n'
      && (forall m :: 0 <= m < |s| && m != n && m != n + 1 ==> s[m] != '\n')
      && s[..n] == a && s[n + 2..] == b
  {
    var s := a + "\n\n" + b;
    var n := |a|;
    forall m | 0 <= m < |s| && m != n && m != n + 1 ensures s[m] != '\n' {
      if m < n { assert s[m] == a[m]; } else { assert s[m] == b[m - n - 2]; }
    }
    assert s[..n] == a && s[n + 2..] == b;
  }

  /** A text whose only line feeds are a pair at `n` breaks there first. */
  lemma FirstBreakPair(s: string, n: nat)
    requires n + 1 < |s| && s[n] == '\n' && s[n + 1] == '\n'
    requires forall m :: 0 <= m < |s| && m != n && m != n + 1 ==> s[m] != '\n'
    ensures FirstBreak(s, 0) == Some((n, n + 1))
  {
    BreakAtPair(s, n);
    var fb := FirstBreak(s, 0);
    assert fb.Some?;
    var p, q := fb.value.0, fb.value.1;
    assert s[p] == '\n' && s[q] == '\n' && p < q;
  }

  /** Two line feeds in a row, with no line feed later in the whitespace
      run, form the break. */
  lemma BreakAtPair(s: string, n: nat)
    requires n + 1 < |s| && s[n] == '\n' && s[n + 1] == '\n'
    requires forall m :: n + 2 <= m < |s| ==> s[m] != '\n'
    ensures BreakAt(s, n) == Some(n + 1)
  {
    var e := SpaceRunEnd(s, n + 1);
    assert e > n + 1;
    var j := LastLineFeed(s, n + 1, e);
    assert n + 1 < e && s[n + 1] == '\n';
    assert j.Some?;
  }
}
