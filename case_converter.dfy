/** The case converter: splitting a text into words at case boundaries,
    dashes, underscores and whitespace, and the nine output styles. */
module CaseConverter {
  import opened TextUtil
  import opened RunSplit

  datatype CaseType = UpperCase | LowerCase | Title | Sentence | Camel | Pascal | Snake | Kebab | Constant

  predicate NoUpper(s: string)
  {
    forall i :: 0 <= i < |s| ==> !IsUpper(s[i])
  }

  /** `replace(/([a-z])([A-Z])/g, '$1 $2')`: a space between a lower-case
      letter and the upper-case letter after it; the search resumes after
      the pair. */
  function SplitCamel(s: string): (r: string)
    ensures |s| <= |r| <= |s| + |s| / 2
    ensures s != [] ==> r != [] && r[0] == s[0]
  {
    if |s| < 2 then s
    else if IsLower(s[0]) && IsUpper(s[1]) then [s[0], ' ', s[1]] + SplitCamel(s[2..])
    else [s[0]] + SplitCamel(s[1..])
  }

  /** The length of the upper-case run `s` starts with. */
  function UpperRun(s: string): (n: nat)
    ensures n <= |s|
    ensures forall i :: 0 <= i < n ==> IsUpper(s[i])
    ensures n == |s| || !IsUpper(s[n])
  {
    if s == [] || !IsUpper(s[0]) then 0 else 1 + UpperRun(s[1..])
  }

  /** `replace(/([A-Z]+)([A-Z][a-z])/g, '$1 $2')`: the greedy run backs off
      by one letter, so a run of two or more upper-case letters followed by
      a lower-case one gets a space before its last letter; where no match
      starts, the search moves on by one character. */
  function SplitAcronym(s: string): (r: string)
    ensures |s| <= |r|
    ensures s != [] ==> r != [] && r[0] == s[0]
    decreases |s|
  {
    if s == [] then s
    else
      var n := UpperRun(s);
      if n >= 2 && n < |s| && IsLower(s[n]) then
        s[..n - 1] + " " + s[n - 1..n + 1] + SplitAcronym(s[n + 1..])
      else [s[0]] + SplitAcronym(s[1..])
  }

  /** `toWords`. */
  function ToWords(str: string): (ws: seq<string>)
    ensures forall j :: 0 <= j < |ws| ==>
              ws[j] != [] && NoneIn(ws[j], Whitespace) && NoneIn(ws[j], Dash)
  {
    var spaced := ReplaceRuns(SplitAcronym(SplitCamel(str)), Dash, " ");
    ReplacedNoDash(SplitAcronym(SplitCamel(str)));
    var ws := Words(spaced);
    assert forall j, i :: 0 <= j < |ws| && 0 <= i < |ws[j]| ==> ws[j][i] in spaced by {
      forall j, i | 0 <= j < |ws| && 0 <= i < |ws[j]| ensures ws[j][i] in spaced {
        var parts := SplitRuns(spaced, Whitespace);
        assert ws[j] in parts;
        var m :| 0 <= m < |parts| && parts[m] == ws[j];
        assert parts[m][i] in spaced;
      }
    }
    ws
  }

  /** Pieces and a separator free of a class join into a text free of it. */
  lemma {:induction false} JoinNone(parts: seq<string>, sep: string, k: CharClass)
    requires forall j :: 0 <= j < |parts| ==> NoneIn(parts[j], k)
    requires NoneIn(sep, k)
    ensures NoneIn(Join(parts, sep), k)
  {
    if |parts| > 1 {
      JoinNone(parts[1..], sep, k);
      var rest := Join(parts[1..], sep);
      var all := parts[0] + sep + rest;
      forall i | 0 <= i < |all| ensures !InClass(all[i], k) {
        if i < |parts[0]| {
          assert all[i] == parts[0][i];
        } else if i < |parts[0]| + |sep| {
          assert all[i] == sep[i - |parts[0]|];
        } else {
          assert all[i] == rest[i - |parts[0]| - |sep|];
        }
      }
    }
  }

  /** After the dash runs become spaces no dash is left. */
  lemma ReplacedNoDash(s: string)
    ensures NoneIn(ReplaceRuns(s, Dash, " "), Dash)
  {
    JoinNone(SplitRuns(s, Dash), " ", Dash);
  }

  /** `w[0].toUpperCase() + w.slice(1).toLowerCase()`. */
  function Capitalize(w: string): (r: string)
    requires w != []
    ensures |r| == |w| && !IsLower(r[0]) && NoUpper(r[1..])
  {
    [UpperChar(w[0])] + Lower(w[1..])
  }

  function LowerAll(ws: seq<string>): (r: seq<string>)
    ensures |r| == |ws|
    ensures forall j :: 0 <= j < |ws| ==> r[j] == Lower(ws[j])
  {
    seq(|ws|, j requires 0 <= j < |ws| => Lower(ws[j]))
  }

  function UpperAll(ws: seq<string>): (r: seq<string>)
    ensures |r| == |ws|
    ensures forall j :: 0 <= j < |ws| ==> r[j] == Upper(ws[j])
  {
    seq(|ws|, j requires 0 <= j < |ws| => Upper(ws[j]))
  }

  function CapitalizeAll(ws: seq<string>): (r: seq<string>)
    requires forall j :: 0 <= j < |ws| ==> ws[j] != []
    ensures |r| == |ws|
    ensures forall j :: 0 <= j < |ws| ==> r[j] == Capitalize(ws[j])
  {
    seq(|ws|, j requires 0 <= j < |ws| => Capitalize(ws[j]))
  }

  /** The camel words: the first lower-cased, the others capitalised. */
  function CamelWords(ws: seq<string>): (r: seq<string>)
    requires forall j :: 0 <= j < |ws| ==> ws[j] != []
    ensures |r| == |ws|
    ensures |ws| > 0 ==> r[0] == Lower(ws[0])
    ensures forall j :: 0 < j < |ws| ==> r[j] == Capitalize(ws[j])
  {
    seq(|ws|, j requires 0 <= j < |ws| => if j == 0 then Lower(ws[j]) else Capitalize(ws[j]))
  }

  /** `convert(text, type)`. */
  function Convert(text: string, kind: CaseType): (r: string)
    ensures kind == UpperCase || kind == LowerCase || kind == Sentence ==> |r| == |text|
    ensures ToWords(text) == [] ==> (kind == UpperCase || kind == LowerCase || kind == Sentence || r == "")
  {
    var words := ToWords(text);
    match kind
    case UpperCase => Upper(text)
    case LowerCase => Lower(text)
    case Title => Join(CapitalizeAll(words), " ")
    case Sentence =>
      var lower := Lower(text);
      if lower == [] then "" else [UpperChar(lower[0])] + lower[1..]
    case Camel => Join(CamelWords(words), "")
    case Pascal => Join(CapitalizeAll(words), "")
    case Snake => Join(LowerAll(words), "_")
    case Kebab => Join(LowerAll(words), "-")
    case Constant => Join(UpperAll(words), "_")
  }

  predicate AllLower(s: string)
  {
    forall i :: 0 <= i < |s| ==> IsLower(s[i])
  }

  predicate AllUpper(s: string)
  {
    forall i :: 0 <= i < |s| ==> IsUpper(s[i])
  }

  /** A text with no lower-case letter directly before an upper-case one is
      left alone by the first replace. */
  lemma {:induction false} CamelNone(s: string)
    requires forall i :: 0 <= i < |s| - 1 ==> !(IsLower(s[i]) && IsUpper(s[i + 1]))
    ensures SplitCamel(s) == s
  {
    if |s| >= 2 {
      CamelNone(s[1..]);
      assert s == [s[0]] + s[1..];
    }
  }

  /** The second replace passes over a prefix without capitals. */
  lemma {:induction false} AcronymSkip(p: string, t: string)
    requires NoUpper(p)
    ensures SplitAcronym(p + t) == p + SplitAcronym(t)
  {
    if p == [] {
      assert p + t == t;
    } else {
      var s := p + t;
      calc {
        SplitAcronym(s);
        == { AcronymStep(s); }
        [s[0]] + SplitAcronym(s[1..]);
        == { assert s[1..] == p[1..] + t; }
        [p[0]] + SplitAcronym(p[1..] + t);
        == { AcronymSkip(p[1..], t); }
        [p[0]] + (p[1..] + SplitAcronym(t));
        == { assert p == [p[0]] + p[1..]; }
        p + SplitAcronym(t);
      }
    }
  }

  lemma AcronymStep(s: string)
    requires s != [] && !IsUpper(s[0])
    ensures SplitAcronym(s) == [s[0]] + SplitAcronym(s[1..])
  {
    assert UpperRun(s) == 0;
  }

  /** A text without dashes or underscores keeps its words through the
      dash replace. */
  lemma NoDashWords(s: string)
    requires NoneIn(s, Dash)
    ensures Words(ReplaceRuns(s, Dash, " ")) == Words(s)
  {
    ReplaceRunsAbsent(s, Dash, " ");
  }

  /** A lower-case word followed by a capitalised one splits between them:
      `helloWorld` gives `hello` and `World`. */
  lemma LowerThenCapital(a: string, b: string)
    requires a != [] && AllLower(a)
    requires b != [] && IsUpper(b[0]) && AllLower(b[1..])
    ensures ToWords(a + b) == [a, b]
  {
    LowerCapitalSpaced(a, b);
    WordsOfSpaced(a + b, a + " " + b);
    LettersOnly(a);
    LettersOnly(b);
    PairWords(a, b);
  }

  lemma LowerCapitalSpaced(a: string, b: string)
    requires a != [] && AllLower(a)
    requires b != [] && IsUpper(b[0]) && AllLower(b[1..])
    ensures SplitAcronym(SplitCamel(a + b)) == a + " " + b
  {
    CamelBoundary(a, b);
    var spaced := a + " " + b;
    assert spaced == (a + " ") + b;
    AcronymSkip(a + " ", b);
    CapitalWord(b);
  }

  /** A capitalised word passes the second replace unchanged. */
  lemma CapitalWord(b: string)
    requires b != [] && IsUpper(b[0]) && AllLower(b[1..])
    ensures SplitAcronym(b) == b
  {
    assert UpperRun(b) == 1 by {
      if |b| > 1 { assert !IsUpper(b[1..][0]); }
    }
    AcronymSkip(b[1..], []);
    assert b[1..] + [] == b[1..];
    assert b == [b[0]] + b[1..];
  }

  /** Two words around one space, with no dash, are read back as the two
      words. */
  lemma PairWords(a: string, b: string)
    requires a != [] && NoneIn(a, Whitespace) && NoneIn(a, Dash)
    requires b != [] && NoneIn(b, Whitespace) && NoneIn(b, Dash)
    ensures Words(ReplaceRuns(a + " " + b, Dash, " ")) == [a, b]
  {
    var spaced := a + " " + b;
    assert NoneIn(spaced, Dash) by {
      forall i | 0 <= i < |spaced| ensures !InClass(spaced[i], Dash) {
        if i < |a| { assert spaced[i] == a[i]; }
        else if i > |a| { assert spaced[i] == b[i - |a| - 1]; }
      }
    }
    NoDashWords(spaced);
    assert spaced == a + [' '] + b;
    WordsSplit(a, ' ', b);
    WordsSingle(a);
    WordsSingle(b);
  }

  lemma {:induction false} CamelBoundary(a: string, b: string)
    requires a != [] && AllLower(a)
    requires b != [] && IsUpper(b[0]) && AllLower(b[1..])
    ensures SplitCamel(a + b) == a + " " + b
  {
    var s := a + b;
    if |a| == 1 {
      assert s[0] == a[0] && s[1] == b[0];
      assert s[2..] == b[1..];
      CamelNone(b[1..]);
      assert SplitCamel(s) == [a[0], ' ', b[0]] + b[1..];
      SpacedSingle(a, b);
    } else {
      assert s[0] == a[0] && s[1] == a[1];
      assert s[1..] == a[1..] + b;
      CamelBoundary(a[1..], b);
      assert SplitCamel(s) == [a[0]] + (a[1..] + " " + b);
      SpacedCons(a, b);
    }
  }

  lemma SpacedSingle(a: string, b: string)
    requires |a| == 1 && b != []
    ensures a + " " + b == [a[0], ' ', b[0]] + b[1..]
  {
    assert b == [b[0]] + b[1..];
  }

  lemma SpacedCons(a: string, b: string)
    requires a != []
    ensures a + " " + b == [a[0]] + (a[1..] + " " + b)
  {
    assert a == [a[0]] + a[1..];
  }

  lemma HelloWorld()
    ensures ToWords("helloWorld") == ["hello", "World"]
  {
    assert "helloWorld" == "hello" + "World";
    LowerThenCapital("hello", "World");
  }

  /** An upper-case run before a capitalised word is split off, the last
      capital starting the next word: `XMLHttp` gives `XML` and `Http`. */
  lemma AcronymThenCapital(acr: string, b: string)
    requires acr != [] && AllUpper(acr)
    requires |b| >= 2 && IsUpper(b[0]) && AllLower(b[1..])
    ensures ToWords(acr + b) == [acr, b]
  {
    AcronymSpaced(acr, b);
    WordsOfSpaced(acr + b, acr + " " + b);
    LettersOnly(acr);
    LettersOnly(b);
    PairWords(acr, b);
  }

  /** A word of letters holds no whitespace, dash or underscore. */
  lemma LettersOnly(w: string)
    requires forall i :: 0 <= i < |w| ==> IsUpper(w[i]) || IsLower(w[i])
    ensures NoneIn(w, Whitespace) && NoneIn(w, Dash)
  {
  }

  /** `toWords` reads the words of the text the two replaces produce. */
  lemma WordsOfSpaced(str: string, spaced: string)
    requires SplitAcronym(SplitCamel(str)) == spaced
    ensures ToWords(str) == Words(ReplaceRuns(spaced, Dash, " "))
  {
  }

  lemma AcronymSpaced(acr: string, b: string)
    requires acr != [] && AllUpper(acr)
    requires |b| >= 2 && IsUpper(b[0]) && AllLower(b[1..])
    ensures SplitAcronym(SplitCamel(acr + b)) == acr + " " + b
  {
    CamelAcronym(acr, b);
    AcronymSplitsOff(acr, b);
  }

  lemma CamelAcronym(acr: string, b: string)
    requires acr != [] && AllUpper(acr)
    requires |b| >= 2 && IsUpper(b[0]) && AllLower(b[1..])
    ensures SplitCamel(acr + b) == acr + b
  {
    var s := acr + b;
    forall i | 0 <= i < |s| - 1 ensures !(IsLower(s[i]) && IsUpper(s[i + 1])) {
      if i < |acr| {
        assert IsUpper(s[i]);
      } else {
        assert s[i + 1] == b[1..][i - |acr|];
      }
    }
    CamelNone(s);
  }

  lemma AcronymSplitsOff(acr: string, b: string)
    requires acr != [] && AllUpper(acr)
    requires |b| >= 2 && IsUpper(b[0]) && AllLower(b[1..])
    ensures SplitAcronym(acr + b) == acr + " " + b
  {
    var s := acr + b;
    var n := |acr| + 1;
    UpperRunPrefix(acr, b);
    AcronymUnfold(s);
    SliceAround(acr, b);
    NoCapitals(b[2..]);
    SpaceBefore(acr, b[..2], b[2..]);
    assert b[..2] + b[2..] == b;
  }

  /** One step of the second replace where a match starts. */
  lemma AcronymUnfold(s: string)
    requires 2 <= UpperRun(s) < |s| && IsLower(s[UpperRun(s)])
    ensures SplitAcronym(s) == s[..UpperRun(s) - 1] + " " + s[UpperRun(s) - 1..UpperRun(s) + 1]
                               + SplitAcronym(s[UpperRun(s) + 1..])
  {
  }

  /** Text without capitals passes the second replace unchanged. */
  lemma NoCapitals(t: string)
    requires NoUpper(t)
    ensures SplitAcronym(t) == t
  {
    AcronymSkip(t, []);
    assert t + [] == t;
  }

  lemma SliceAround<T>(a: seq<T>, b: seq<T>)
    requires |b| >= 2
    ensures (a + b)[..|a|] == a
    ensures (a + b)[|a|..|a| + 2] == b[..2]
    ensures (a + b)[|a| + 2..] == b[2..]
  {
  }

  lemma SpaceBefore(a: string, x: string, y: string)
    ensures a + " " + x + y == a + " " + (x + y)
  {
  }

  lemma UpperRunPrefix(acr: string, b: string)
    requires acr != [] && AllUpper(acr)
    requires |b| >= 2 && IsUpper(b[0]) && AllLower(b[1..])
    ensures UpperRun(acr + b) == |acr| + 1 && IsLower((acr + b)[|acr| + 1])
  {
    var s := acr + b;
    var n := |acr| + 1;
    assert s[n] == b[1..][0];
    assert forall i :: 0 <= i < n ==> IsUpper(s[i]);
  }

  lemma XmlHttp()
    ensures ToWords("XMLHttp") == ["XML", "Http"]
  {
    assert "XMLHttp" == "XML" + "Http";
    AcronymThenCapital("XML", "Http");
  }

  /** Lower-cased words keep every property of words and lose their capitals. */
  lemma LoweredWords(ws: seq<string>)
    requires forall j :: 0 <= j < |ws| ==> ws[j] != [] && NoneIn(ws[j], Whitespace) && NoneIn(ws[j], Dash)
    ensures forall j :: 0 <= j < |ws| ==>
              LowerAll(ws)[j] != [] && NoneIn(LowerAll(ws)[j], Whitespace)
              && NoneIn(LowerAll(ws)[j], Dash) && NoUpper(LowerAll(ws)[j])
  {
  }

  lemma {:induction false} JoinNoUpper(parts: seq<string>, sep: string)
    requires forall j :: 0 <= j < |parts| ==> NoUpper(parts[j])
    requires NoUpper(sep)
    ensures NoUpper(Join(parts, sep))
  {
    if |parts| > 1 {
      JoinNoUpper(parts[1..], sep);
      var rest := Join(parts[1..], sep);
      var all := parts[0] + sep + rest;
      forall i | 0 <= i < |all| ensures !IsUpper(all[i]) {
        if i < |parts[0]| {
          assert all[i] == parts[0][i];
        } else if i < |parts[0]| + |sep| {
          assert all[i] == sep[i - |parts[0]|];
        } else {
          assert all[i] == rest[i - |parts[0]| - |sep|];
        }
      }
    }
  }

  /** Lower-case words joined by `_` or `-` split into the same words. */
  lemma {:induction false} SeparatedWords(ls: seq<string>, c: char)
    requires c == '_' || c == '-'
    requires forall j :: 0 <= j < |ls| ==>
               ls[j] != [] && NoneIn(ls[j], Whitespace) && NoneIn(ls[j], Dash) && NoUpper(ls[j])
    ensures ToWords(Join(ls, [c])) == ls
  {
    var s := Join(ls, [c]);
    JoinNoUpper(ls, [c]);
    CamelNone(s);
    AcronymSkip(s, []);
    assert s + [] == s;
    if ls == [] {
      WordsEmpty();
      assert SplitRuns("", Dash) == [""];
    } else {
      RunsJoin(ls, c, Dash);
      WordsJoin(ls);
    }
  }

  lemma LowerAllIdempotent(ls: seq<string>)
    requires forall j :: 0 <= j < |ls| ==> NoUpper(ls[j])
    ensures LowerAll(ls) == ls
  {
    forall j | 0 <= j < |ls| ensures Lower(ls[j]) == ls[j] {
      assert forall i :: 0 <= i < |ls[j]| ==> LowerChar(ls[j][i]) == ls[j][i];
    }
  }

  /** Converting snake case to snake case changes nothing. */
  lemma SnakeIdempotent(text: string)
    ensures Convert(Convert(text, Snake), Snake) == Convert(text, Snake)
  {
    var ls := LowerAll(ToWords(text));
    LoweredWords(ToWords(text));
    SeparatedWords(ls, '_');
    LowerAllIdempotent(ls);
  }

  /** Converting kebab case to kebab case changes nothing. */
  lemma KebabIdempotent(text: string)
    ensures Convert(Convert(text, Kebab), Kebab) == Convert(text, Kebab)
  {
    var ls := LowerAll(ToWords(text));
    LoweredWords(ToWords(text));
    SeparatedWords(ls, '-');
    LowerAllIdempotent(ls);
  }

  /** The snake, kebab and constant styles are the lower- or upper-cased
      words with one separator between each two: splitting on it gives the
      words back. */
  lemma SnakeRecover(text: string)
    requires ToWords(text) != []
    ensures SplitOn(Convert(text, Snake), '_') == LowerAll(ToWords(text))
  {
    var ws := ToWords(text);
    LoweredWords(ws);
    SplitJoin(LowerAll(ws), '_');
  }

  lemma KebabRecover(text: string)
    requires ToWords(text) != []
    ensures SplitOn(Convert(text, Kebab), '-') == LowerAll(ToWords(text))
  {
    var ws := ToWords(text);
    LoweredWords(ws);
    SplitJoin(LowerAll(ws), '-');
  }

  lemma ConstantRecover(text: string)
    requires ToWords(text) != []
    ensures SplitOn(Convert(text, Constant), '_') == UpperAll(ToWords(text))
  {
    var ws := ToWords(text);
    forall j | 0 <= j < |ws| ensures '_' !in Upper(ws[j]) {
      assert NoneIn(ws[j], Dash);
    }
    SplitJoin(UpperAll(ws), '_');
  }

  /** The camel and Pascal styles insert no separator: the result holds no
      whitespace, dash or underscore. */
  lemma NoSeparators(text: string)
    ensures NoneIn(Convert(text, Camel), Whitespace) && NoneIn(Convert(text, Camel), Dash)
    ensures NoneIn(Convert(text, Pascal), Whitespace) && NoneIn(Convert(text, Pascal), Dash)
  {
    var ws := ToWords(text);
    StylesNoSep(ws, Whitespace);
    StylesNoSep(ws, Dash);
  }

  /** Camel and Pascal joins of words free of a class are free of it. */
  lemma StylesNoSep(ws: seq<string>, k: CharClass)
    requires k != Terminator
    requires forall j :: 0 <= j < |ws| ==>
               ws[j] != [] && NoneIn(ws[j], Whitespace) && NoneIn(ws[j], Dash)
    ensures NoneIn(Join(CamelWords(ws), ""), k)
    ensures NoneIn(Join(CapitalizeAll(ws), ""), k)
  {
    var camel, pascal := CamelWords(ws), CapitalizeAll(ws);
    forall j | 0 <= j < |ws| ensures NoneIn(camel[j], k) && NoneIn(pascal[j], k) {
      WordKeepsClass(ws[j], k);
    }
    JoinNone(camel, "", k);
    JoinNone(pascal, "", k);
  }

  /** Changing case keeps a word free of whitespace, dashes and underscores. */
  lemma WordKeepsClass(w: string, k: CharClass)
    requires k != Terminator
    requires w != [] && NoneIn(w, k)
    ensures NoneIn(Lower(w), k) && NoneIn(Capitalize(w), k)
  {
    var lw, cw := Lower(w), Capitalize(w);
    forall i | 0 <= i < |w| ensures !InClass(lw[i], k) && !InClass(cw[i], k) {
      CaseKeepsClass(w[i], k);
      if i > 0 {
        assert cw[i] == Lower(w[1..])[i - 1] == LowerChar(w[i]);
      }
    }
  }

  lemma CaseKeepsClass(c: char, k: CharClass)
    requires k != Terminator && !InClass(c, k)
    ensures !InClass(LowerChar(c), k) && !InClass(UpperChar(c), k)
  {
  }

  /** Upper and lower case act on the whole text, not on the words: every
      character is kept, only its case changes. */
  lemma WholeText(text: string)
    ensures |Convert(text, UpperCase)| == |text|
    ensures forall i :: 0 <= i < |text| ==> Convert(text, UpperCase)[i] == UpperChar(text[i])
    ensures |Convert(text, LowerCase)| == |text|
    ensures forall i :: 0 <= i < |text| ==> Convert(text, LowerCase)[i] == LowerChar(text[i])
  {
  }

  /** Sentence case: the lower-cased text with its first character
      upper-cased. */
  lemma SentenceCase(text: string)
    ensures |Convert(text, Sentence)| == |text|
    ensures text != [] ==> Convert(text, Sentence)[0] == UpperChar(LowerChar(text[0]))
    ensures forall i :: 1 <= i < |text| ==> Convert(text, Sentence)[i] == LowerChar(text[i])
  {
  }
}
