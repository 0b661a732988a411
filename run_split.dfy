/** `String.prototype.split` and `replace` with a one-class regular
    expression: splitting at single characters of a class (`/[.!?]/`), at
    maximal runs of them (`/[.!?]+/`, `/\s+/`), and replacing the runs
    (`replace(/[-_]+/g, ' ')`). */
module RunSplit {
  import opened TextUtil

  /** The character classes the tools split on: `\s`, `[.!?]` and `[-_]`. */
  datatype CharClass = Whitespace | Terminator | Dash

  predicate InClass(c: char, k: CharClass)
  {
    match k
    case Whitespace => IsSpace(c)
    case Terminator => c == '.' || c == '!' || c == '?'
    case Dash => c == '-' || c == '_'
  }

  predicate NoneIn(s: string, k: CharClass)
  {
    forall i :: 0 <= i < |s| ==> !InClass(s[i], k)
  }

  /** `s.split(/[K]/)`: the pieces between single class characters. */
  function SplitEach(s: string, k: CharClass): (r: seq<string>)
    ensures |r| >= 1
    ensures forall j :: 0 <= j < |r| ==> NoneIn(r[j], k)
  {
    if s == [] then [""]
    else
      var rest := SplitEach(s[1..], k);
      if InClass(s[0], k) then [""] + rest
      else
        var first := [s[0]] + rest[0];
        assert NoneIn(first, k) by {
          forall i | 0 <= i < |first| ensures !InClass(first[i], k) {
            if i > 0 { assert first[i] == rest[0][i - 1]; }
          }
        }
        [first] + rest[1..]
  }

  /** `s.split(/[K]+/)`: the pieces between maximal runs of class
      characters; a run at either end leaves an empty piece there. */
  function SplitRuns(s: string, k: CharClass): (r: seq<string>)
    ensures |r| >= 1
    ensures forall j :: 0 <= j < |r| ==> NoneIn(r[j], k)
    ensures forall j, i :: 0 <= j < |r| && 0 <= i < |r[j]| ==> r[j][i] in s
    ensures s != [] && !InClass(s[0], k) ==> r[0] != [] && r[0][0] == s[0]
    ensures s != [] && InClass(s[0], k) ==> r[0] == []
  {
    if s == [] then [""]
    else
      var rest := SplitRuns(s[1..], k);
      assert forall j, i :: 0 <= j < |rest| && 0 <= i < |rest[j]| ==> rest[j][i] in s by {
        forall j, i | 0 <= j < |rest| && 0 <= i < |rest[j]| ensures rest[j][i] in s {
          assert rest[j][i] in s[1..];
        }
      }
      if InClass(s[0], k) then
        if |s| > 1 && InClass(s[1], k) then rest else [""] + rest
      else
        var first := [s[0]] + rest[0];
        assert NoneIn(first, k) by {
          forall i | 0 <= i < |first| ensures !InClass(first[i], k) {
            if i > 0 { assert first[i] == rest[0][i - 1]; }
          }
        }
        assert forall i :: 0 <= i < |first| ==> first[i] in s by {
          forall i | 0 <= i < |first| ensures first[i] in s {
            if i > 0 { assert first[i] == rest[0][i - 1]; }
          }
        }
        [first] + rest[1..]
  }

  /** `s.replace(/[K]+/g, with)`: every maximal run replaced by `with`; a
      text without a run is returned as it is. */
  function ReplaceRuns(s: string, k: CharClass, with: string): string
  {
    Join(SplitRuns(s, k), with)
  }

  /** A text without the class has no run to replace. */
  lemma ReplaceRunsAbsent(s: string, k: CharClass, with: string)
    requires NoneIn(s, k)
    ensures ReplaceRuns(s, k, with) == s
  {
    RunsNone(s, k);
  }

  /** `s.split(/\s+/).filter(Boolean)`: the words of `s`. */
  function Words(s: string): (ws: seq<string>)
    ensures forall j :: 0 <= j < |ws| ==> ws[j] != [] && NoneIn(ws[j], Whitespace)
  {
    NonEmpty(SplitRuns(s, Whitespace))
  }

  lemma {:induction false} NonEmptyAppend(a: seq<string>, b: seq<string>)
    ensures NonEmpty(a + b) == NonEmpty(a) + NonEmpty(b)
  {
    if a == [] {
      assert a + b == b;
    } else {
      assert (a + b)[0] == a[0];
      assert (a + b)[1..] == a[1..] + b;
      NonEmptyAppend(a[1..], b);
    }
  }

  lemma {:induction false} NonEmptyAll(parts: seq<string>)
    requires forall j :: 0 <= j < |parts| ==> parts[j] != []
    ensures NonEmpty(parts) == parts
  {
    if parts != [] {
      NonEmptyAll(parts[1..]);
    }
  }

  /** Splitting at runs and at single characters differ only in empty
      pieces: the first pieces agree and so do the non-empty later ones. */
  lemma {:induction false} RunsEachParts(s: string, k: CharClass)
    ensures SplitRuns(s, k)[0] == SplitEach(s, k)[0]
    ensures NonEmpty(SplitRuns(s, k)[1..]) == NonEmpty(SplitEach(s, k)[1..])
  {
    if s != [] {
      RunsEachParts(s[1..], k);
      var runs, each := SplitRuns(s[1..], k), SplitEach(s[1..], k);
      if InClass(s[0], k) {
        if |s| > 1 && InClass(s[1], k) {
          assert SplitEach(s, k)[1..] == each;
          assert each == [each[0]] + each[1..];
          NonEmptyAppend([each[0]], each[1..]);
          assert each[0] == [];
        } else {
          assert SplitRuns(s, k)[1..] == runs;
          assert SplitEach(s, k)[1..] == each;
          assert runs == [runs[0]] + runs[1..];
          assert each == [each[0]] + each[1..];
          NonEmptyAppend([runs[0]], runs[1..]);
          NonEmptyAppend([each[0]], each[1..]);
        }
      } else {
        assert SplitRuns(s, k)[1..] == runs[1..];
        assert SplitEach(s, k)[1..] == each[1..];
      }
    }
  }

  /** Once the empty pieces are dropped, splitting at runs of a class and
      splitting at each of its characters give the same pieces. */
  lemma RunsEach(s: string, k: CharClass)
    ensures NonEmpty(SplitRuns(s, k)) == NonEmpty(SplitEach(s, k))
  {
    RunsEachParts(s, k);
    var runs, each := SplitRuns(s, k), SplitEach(s, k);
    assert runs == [runs[0]] + runs[1..];
    assert each == [each[0]] + each[1..];
    NonEmptyAppend([runs[0]], runs[1..]);
    NonEmptyAppend([each[0]], each[1..]);
  }

  /** A class character splits the text into the pieces before it and the
      pieces after it. */
  lemma {:induction false} EachConcat(a: string, c: char, b: string, k: CharClass)
    requires InClass(c, k)
    ensures SplitEach(a + [c] + b, k) == SplitEach(a, k) + SplitEach(b, k)
  {
    var s := a + [c] + b;
    if a == [] {
      assert s == [c] + b && s[1..] == b;
    } else {
      var t := a[1..] + [c] + b;
      assert s == [a[0]] + t;
      assert a == [a[0]] + a[1..];
      EachConcat(a[1..], c, b, k);
      EachCons(a[0], t, k);
      EachCons(a[0], a[1..], k);
      GlueAppend(a[0], SplitEach(a[1..], k), SplitEach(b, k), k);
    }
  }

  /** How one more character in front changes the pieces: a class
      character opens a new empty piece, any other joins the first. */
  function Glue(x: char, r: seq<string>, k: CharClass): seq<string>
    requires |r| >= 1
  {
    if InClass(x, k) then [""] + r else [[x] + r[0]] + r[1..]
  }

  lemma EachCons(x: char, t: string, k: CharClass)
    ensures SplitEach([x] + t, k) == Glue(x, SplitEach(t, k), k)
  {
    assert ([x] + t)[0] == x && ([x] + t)[1..] == t;
  }

  lemma GlueAppend(x: char, ra: seq<string>, rb: seq<string>, k: CharClass)
    requires |ra| >= 1
    ensures Glue(x, ra + rb, k) == Glue(x, ra, k) + rb
  {
    if !InClass(x, k) {
      assert (ra + rb)[0] == ra[0];
      assert (ra + rb)[1..] == ra[1..] + rb;
    }
  }


  lemma {:induction false} EachNone(s: string, k: CharClass)
    requires NoneIn(s, k)
    ensures SplitEach(s, k) == [s]
  {
    if s != [] {
      EachNone(s[1..], k);
      assert s == [s[0]] + s[1..];
    }
  }

  lemma {:induction false} RunsNone(s: string, k: CharClass)
    requires NoneIn(s, k)
    ensures SplitRuns(s, k) == [s]
  {
    if s != [] {
      RunsNone(s[1..], k);
      assert s == [s[0]] + s[1..];
    }
  }

  /** The words on either side of a whitespace character, in order. */
  lemma WordsSplit(a: string, c: char, b: string)
    requires IsSpace(c)
    ensures Words(a + [c] + b) == Words(a) + Words(b)
  {
    RunsEach(a + [c] + b, Whitespace);
    RunsEach(a, Whitespace);
    RunsEach(b, Whitespace);
    EachConcat(a, c, b, Whitespace);
    NonEmptyAppend(SplitEach(a, Whitespace), SplitEach(b, Whitespace));
  }

  /** A non-empty text without whitespace is one word. */
  lemma WordsSingle(w: string)
    requires w != [] && NoneIn(w, Whitespace)
    ensures Words(w) == [w]
  {
    RunsEach(w, Whitespace);
    EachNone(w, Whitespace);
  }

  /** Words joined by single spaces split back into the same words. */
  lemma {:induction false} WordsJoin(ws: seq<string>)
    requires forall j :: 0 <= j < |ws| ==> ws[j] != [] && NoneIn(ws[j], Whitespace)
    ensures Words(Join(ws, " ")) == ws
  {
    if ws == [] {
    } else if |ws| == 1 {
      WordsSingle(ws[0]);
    } else {
      WordsJoin(ws[1..]);
      WordsSingle(ws[0]);
      assert Join(ws, " ") == ws[0] + [' '] + Join(ws[1..], " ");
      WordsSplit(ws[0], ' ', Join(ws[1..], " "));
    }
  }

  /** Whitespace in front of a text adds no word. */
  lemma {:induction false} WordsLeading(sp: string, t: string)
    requires AllSpace(sp)
    ensures Words(sp + t) == Words(t)
  {
    if sp == [] {
      assert sp + t == t;
    } else {
      WordsEmpty();
      assert AllSpace(sp[1..]) by {
        forall i | 0 <= i < |sp[1..]| ensures IsSpace(sp[1..][i]) { assert sp[1..][i] == sp[i + 1]; }
      }
      WordsLeading(sp[1..], t);
      SplitFront(sp, t);
      WordsSplit([], sp[0], sp[1..] + t);
    }
  }

  lemma SplitFront(sp: string, t: string)
    requires sp != []
    ensures sp + t == [] + [sp[0]] + (sp[1..] + t)
  {
    assert sp == [sp[0]] + sp[1..];
  }

  /** Whitespace after a text adds no word. */
  lemma {:induction false} WordsTrailing(t: string, sp: string)
    requires AllSpace(sp)
    ensures Words(t + sp) == Words(t)
  {
    if sp == [] {
      assert t + sp == t;
    } else {
      WordsEmpty();
      var n := |sp| - 1;
      WordsTrailing(t, sp[..n]);
      assert t + sp == (t + sp[..n]) + [sp[n]] + [];
      WordsSplit(t + sp[..n], sp[n], []);
    }
  }

  lemma WordsEmpty()
    ensures Words("") == []
  {
    assert SplitRuns("", Whitespace) == [""];
  }

  /** Trimming keeps the words. */
  lemma WordsTrim(s: string)
    ensures Words(Trim(s)) == Words(s)
  {
    var t := TrimStart(s);
    WordsTrimStart(s);
    WordsTrimEnd(t);
  }

  lemma WordsTrimStart(s: string)
    ensures Words(TrimStart(s)) == Words(s)
  {
    var t := TrimStart(s);
    var sp := s[..|s| - |t|];
    assert s == sp + t;
    assert AllSpace(sp);
    WordsLeading(sp, t);
  }

  lemma WordsTrimEnd(t: string)
    ensures Words(TrimEnd(t)) == Words(t)
  {
    var u := TrimEnd(t);
    var sp := t[|u|..];
    assert t == u + sp;
    assert AllSpace(sp);
    WordsTrailing(u, sp);
  }

  /** A text with no class character at either end has no empty piece. */
  lemma {:induction false} RunsInner(s: string, k: CharClass)
    requires s != [] && !InClass(s[|s| - 1], k)
    ensures forall j :: 1 <= j < |SplitRuns(s, k)| ==> SplitRuns(s, k)[j] != []
  {
    if |s| > 1 {
      RunsInner(s[1..], k);
    }
  }

  /** A text that neither starts nor ends with a class character splits
      into non-empty pieces only. */
  lemma RunsTrimmed(s: string, k: CharClass)
    requires s != [] && !InClass(s[0], k) && !InClass(s[|s| - 1], k)
    ensures NonEmpty(SplitRuns(s, k)) == SplitRuns(s, k)
  {
    RunsInner(s, k);
    NonEmptyAll(SplitRuns(s, k));
  }

  /** Splitting `w + c + t` at runs, where `w` holds no class character and
      `t` does not start with one. */
  lemma {:induction false} RunsConcat(w: string, c: char, t: string, k: CharClass)
    requires NoneIn(w, k) && InClass(c, k)
    requires t == [] || !InClass(t[0], k)
    ensures SplitRuns(w + [c] + t, k) == [w] + SplitRuns(t, k)
  {
    var s := w + [c] + t;
    if w == [] {
      assert s == [c] + t && s[1..] == t;
    } else {
      assert s[0] == w[0];
      assert s[1..] == w[1..] + [c] + t;
      RunsConcat(w[1..], c, t, k);
      var rest := SplitRuns(s[1..], k);
      assert rest[0] == w[1..];
      assert rest[1..] == SplitRuns(t, k);
      assert [w[0]] + w[1..] == w;
    }
  }

  /** Non-empty pieces joined by one class character split back into the
      same pieces. */
  lemma {:induction false} RunsJoin(ws: seq<string>, c: char, k: CharClass)
    requires InClass(c, k) && |ws| >= 1
    requires forall j :: 0 <= j < |ws| ==> ws[j] != [] && NoneIn(ws[j], k)
    ensures SplitRuns(Join(ws, [c]), k) == ws
  {
    if |ws| == 1 {
      EachNone(ws[0], k);
      RunsEach(ws[0], k);
      RunsTrimmed(ws[0], k);
      NonEmptyAll(SplitEach(ws[0], k));
    } else {
      RunsJoin(ws[1..], c, k);
      var t := Join(ws[1..], [c]);
      assert t == [] || t[0] == ws[1][0] by {
        if |ws| > 2 { assert t == ws[1] + [c] + Join(ws[2..], [c]); }
      }
      RunsConcat(ws[0], c, t, k);
    }
  }
}
