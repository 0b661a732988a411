/** The CSV to JSON converter: splitting one line into fields with quote
    handling, turning the lines into header-keyed rows, and the outcome the
    tool shows for its input. */
module CsvToJson {
  import opened Wrappers
  import opened TextUtil

  /** What one character of a line contributes, given whether it is read
      inside quotes: a character of the current field, or the end of it.
      Quote characters that only open or close a quoted section contribute
      nothing. */
  datatype Tok = Lit(c: char) | Sep

  /** The tokens of `s` read from the quoting state `inQuotes`. A doubled
      quote inside quotes is one literal quote; any other quote flips the
      state; the delimiter outside quotes ends a field. The delimiter is a
      string and only a one-character delimiter ever matches. */
  function Lex(s: string, delimiter: string, inQuotes: bool): seq<Tok>
    decreases |s|
  {
    if s == [] then []
    else if s[0] == '"' then
      if inQuotes && |s| >= 2 && s[1] == '"' then [Lit('"')] + Lex(s[2..], delimiter, inQuotes)
      else Lex(s[1..], delimiter, !inQuotes)
    else if [s[0]] == delimiter && !inQuotes then [Sep] + Lex(s[1..], delimiter, inQuotes)
    else [Lit(s[0])] + Lex(s[1..], delimiter, inQuotes)
  }

  /** The untrimmed field texts between the separators. */
  function Pieces(toks: seq<Tok>): (r: seq<string>)
    ensures |r| >= 1
  {
    if toks == [] then [""]
    else
      var rest := Pieces(toks[1..]);
      match toks[0]
      case Sep => [""] + rest
      case Lit(c) => [[c] + rest[0]] + rest[1..]
  }

  /** `parts.map((p) => p.trim())`. */
  function TrimAll(parts: seq<string>): (r: seq<string>)
    ensures |r| == |parts|
    ensures forall k :: 0 <= k < |parts| ==> r[k] == Trim(parts[k])
  {
    MapEach(Trim, parts)
  }

  /** `parts.map(f)`. */
  function MapEach(f: string -> string, parts: seq<string>): (r: seq<string>)
    ensures |r| == |parts|
    ensures forall k :: 0 <= k < |parts| ==> r[k] == f(parts[k])
  {
    seq(|parts|, k requires 0 <= k < |parts| => f(parts[k]))
  }

  /** The fields `splitLine` returns for `line`. */
  function Fields(line: string, delimiter: string): seq<string>
  {
    TrimAll(Pieces(Lex(line, delimiter, false)))
  }

  /** The first piece with `current` in front of it: the pieces still to
      come when `current` has already been read into the open field. */
  function Prepend(current: string, pieces: seq<string>): seq<string>
    requires |pieces| >= 1
  {
    [current + pieces[0]] + pieces[1..]
  }

  /** The untrimmed fields still to be pushed when `s` is the rest of the
      line, `current` the open field and `inQuotes` the quoting state. */
  function Scan(s: string, delimiter: string, inQuotes: bool, current: string): seq<string>
    decreases |s|
  {
    if s == [] then [current]
    else if s[0] == '"' then
      if inQuotes && |s| >= 2 && s[1] == '"' then Scan(s[2..], delimiter, inQuotes, current + "\"")
      else Scan(s[1..], delimiter, !inQuotes, current)
    else if [s[0]] == delimiter && !inQuotes then [current] + Scan(s[1..], delimiter, inQuotes, "")
    else Scan(s[1..], delimiter, inQuotes, current + [s[0]])
  }

  /** `splitLine`: one pass over the line, with the index skip for a
      doubled quote. `done` holds the untrimmed fields already pushed. */
  method SplitLine(line: string, delimiter: string) returns (result: seq<string>)
    ensures result == Fields(line, delimiter)
  {
    result := [];
    var current := "";
    var inQuotes := false;
    var i := 0;
    ghost var done: seq<string> := [];
    while i < |line|
      invariant 0 <= i <= |line|
      invariant result == TrimAll(done)
      invariant done + Scan(line[i..], delimiter, inQuotes, current) == Scan(line, delimiter, false, "")
    {
      var ch := line[i];
      assert line[i..][1..] == line[i + 1..];
      if ch == '"' {
        if inQuotes && i + 1 < |line| && line[i + 1] == '"' {
          assert line[i..][2..] == line[i + 2..];
          current := current + "\"";
          i := i + 1;
        } else {
          inQuotes := !inQuotes;
        }
      } else if [ch] == delimiter && !inQuotes {
        ghost var later := Scan(line[i + 1..], delimiter, inQuotes, "");
        assert done + ([current] + later) == (done + [current]) + later;
        TrimAllSnoc(done, current);
        result := result + [Trim(current)];
        done := done + [current];
        current := "";
      } else {
        current := current + [ch];
      }
      i := i + 1;
    }
    assert line[i..] == [];
    TrimAllSnoc(done, current);
    result := result + [Trim(current)];
    ScanPieces(line, delimiter, false, "");
    PrependEmpty(Pieces(Lex(line, delimiter, false)));
  }

  lemma TrimAllSnoc(parts: seq<string>, x: string)
    ensures TrimAll(parts + [x]) == TrimAll(parts) + [Trim(x)]
  {
    MapSnoc(Trim, parts, x);
  }

  lemma MapSnoc(f: string -> string, parts: seq<string>, x: string)
    ensures MapEach(f, parts + [x]) == MapEach(f, parts) + [f(x)]
  {
    var l, r := MapEach(f, parts + [x]), MapEach(f, parts) + [f(x)];
    forall i | 0 <= i < |l| ensures l[i] == r[i] {
      if i < |parts| { assert (parts + [x])[i] == parts[i]; }
    }
  }

  lemma PrependEmpty(pieces: seq<string>)
    requires |pieces| >= 1
    ensures Prepend("", pieces) == pieces
  {
    assert "" + pieces[0] == pieces[0];
  }

  /** The loop's view of the rest of the line agrees with the token view. */
  lemma {:induction false} ScanPieces(s: string, delimiter: string, inQuotes: bool, current: string)
    ensures Scan(s, delimiter, inQuotes, current) == Prepend(current, Pieces(Lex(s, delimiter, inQuotes)))
    decreases |s|
  {
    if s == [] {
      assert current + "" == current;
    } else if s[0] == '"' {
      if inQuotes && |s| >= 2 && s[1] == '"' {
        ScanPieces(s[2..], delimiter, inQuotes, current + "\"");
        LitStep('"', Lex(s[2..], delimiter, inQuotes), current);
      } else {
        ScanPieces(s[1..], delimiter, !inQuotes, current);
      }
    } else if [s[0]] == delimiter && !inQuotes {
      ScanPieces(s[1..], delimiter, inQuotes, "");
      var toks := Lex(s[1..], delimiter, inQuotes);
      assert ([Sep] + toks)[1..] == toks;
      var p := Pieces(toks);
      assert Pieces([Sep] + toks) == [""] + p;
      assert ([""] + p)[0] == "" && ([""] + p)[1..] == p && current + "" == current;
      PrependEmpty(p);
    } else {
      ScanPieces(s[1..], delimiter, inQuotes, current + [s[0]]);
      LitStep(s[0], Lex(s[1..], delimiter, inQuotes), current);
    }
  }

  lemma LitStep(c: char, toks: seq<Tok>, current: string)
    ensures Prepend(current, Pieces([Lit(c)] + toks)) == Prepend(current + [c], Pieces(toks))
  {
    assert ([Lit(c)] + toks)[1..] == toks;
    var p := Pieces(toks);
    assert Pieces([Lit(c)] + toks) == [[c] + p[0]] + p[1..];
    assert current + ([c] + p[0]) == (current + [c]) + p[0];
  }

  /** One field per separator, plus one. */
  lemma {:induction false} PiecesCount(toks: seq<Tok>)
    ensures |Pieces(toks)| == 1 + Count(toks, Sep)
  {
    if toks != [] {
      PiecesCount(toks[1..]);
    }
  }

  /** `splitLine` returns one more field than there are delimiters read
      outside quotes. */
  lemma FieldCount(line: string, delimiter: string)
    ensures |Fields(line, delimiter)| == 1 + Count(Lex(line, delimiter, false), Sep)
  {
    PiecesCount(Lex(line, delimiter, false));
  }

  /** Every field comes out trimmed. */
  lemma FieldsTrimmed(line: string, delimiter: string, k: nat)
    requires k < |Fields(line, delimiter)|
    ensures Trim(Fields(line, delimiter)[k]) == Fields(line, delimiter)[k]
  {
    var f := Fields(line, delimiter)[k];
    assert f == Trim(Pieces(Lex(line, delimiter, false))[k]);
    TrimNoEdges(f);
  }

  /** The literal tokens of a text. */
  function Lits(s: string): (r: seq<Tok>)
    ensures |r| == |s|
    ensures Sep !in r
  {
    if s == [] then [] else [Lit(s[0])] + Lits(s[1..])
  }

  /** Inside quotes, text without quote characters is all field content:
      the delimiter included. */
  lemma {:induction false} QuotedLiteral(s: string, delimiter: string)
    requires '"' !in s
    ensures Lex(s, delimiter, true) == Lits(s)
  {
    if s != [] {
      QuotedLiteral(s[1..], delimiter);
    }
  }

  /** Inside quotes, a doubled quote is one literal quote character. */
  lemma DoubledQuote(s: string, delimiter: string)
    ensures Lex("\"\"" + s, delimiter, true) == [Lit('"')] + Lex(s, delimiter, true)
  {
    assert ("\"\"" + s)[2..] == s;
  }

  /** The pieces of a run of literals are the text itself. */
  lemma {:induction false} PiecesLits(s: string, more: seq<Tok>)
    ensures Pieces(Lits(s) + more) == Prepend(s, Pieces(more))
  {
    if s != [] {
      PiecesLits(s[1..], more);
      var t := Lits(s) + more;
      assert t[0] == Lit(s[0]) && t[1..] == Lits(s[1..]) + more;
      var p := Pieces(more);
      assert Pieces(t) == [[s[0]] + (s[1..] + p[0])] + p[1..];
      assert [s[0]] + (s[1..] + p[0]) == s + p[0];
    } else {
      assert Lits(s) + more == more;
      var p := Pieces(more);
      assert s + p[0] == p[0];
      assert [p[0]] + p[1..] == p;
    }
  }

  /** A field written `"…"` around quote-free text holds that text, whatever
      delimiters it contains. */
  lemma QuotedField(x: string, delimiter: string)
    requires '"' !in x
    ensures Fields("\"" + x + "\"", delimiter) == [Trim(x)]
  {
    var line := "\"" + x + "\"";
    assert line[0] == '"' && line[1..] == x + "\"";
    QuotedTail(x, delimiter);
    assert Lex(line, delimiter, false) == Lits(x);
    PiecesLits(x, []);
    assert Lits(x) + [] == Lits(x);
    assert x + "" == x;
    assert Pieces(Lits(x)) == [x];
  }

  lemma {:induction false} QuotedTail(x: string, delimiter: string)
    requires '"' !in x
    ensures Lex(x + "\"", delimiter, true) == Lits(x)
  {
    if x == [] {
      assert (x + "\"")[1..] == [];
    } else {
      QuotedTail(x[1..], delimiter);
      assert (x + "\"")[1..] == x[1..] + "\"";
    }
  }

  /** A line with no quote characters is split at every delimiter, and each
      piece is trimmed. */
  lemma UnquotedLine(line: string, sep: char)
    requires '"' !in line && sep != '"'
    ensures Fields(line, [sep]) == TrimAll(SplitOn(line, sep))
  {
    UnquotedPieces(line, sep);
  }

  lemma {:induction false} UnquotedPieces(line: string, sep: char)
    requires '"' !in line && sep != '"'
    ensures Pieces(Lex(line, [sep], false)) == SplitOn(line, sep)
  {
    if line != [] {
      UnquotedPieces(line[1..], sep);
    }
  }

  // ---------------------------------------------------------------------
  // Lines and rows

  /** `raw.trim().split('\n').filter(Boolean)`. */
  function Lines(raw: string): (r: seq<string>)
    ensures forall k :: 0 <= k < |r| ==> r[k] != []
  {
    NonEmpty(SplitOn(Trim(raw), '\n'))
  }

  /** `values[i] ?? ''`. */
  function ValueAt(values: seq<string>, i: nat): (v: string)
    ensures i < |values| ==> v == values[i]
    ensures i >= |values| ==> v == ""
  {
    if i < |values| then values[i] else ""
  }

  /** `Object.fromEntries(headers.map((h, i) => [h, values[i] ?? '']))`:
      entries are written in header order, so of two equal headers the later
      one's value stays. */
  function Row(headers: seq<string>, values: seq<string>): (row: map<string, string>)
    ensures row.Keys == set h | h in headers
    decreases |headers|
  {
    if headers == [] then map[]
    else
      var n := |headers| - 1;
      Row(headers[..n], values)[headers[n] := ValueAt(values, n)]
  }

  /** Each header is keyed to the value at the position of its last
      occurrence; a missing value is the empty string and values beyond the
      headers are dropped. */
  lemma {:induction false} RowValue(headers: seq<string>, values: seq<string>, i: nat)
    requires i < |headers|
    requires forall j :: i < j < |headers| ==> headers[j] != headers[i]
    ensures Row(headers, values)[headers[i]] == ValueAt(values, i)
    decreases |headers|
  {
    var n := |headers| - 1;
    if i < n {
      RowValue(headers[..n], values, i);
    }
  }

  /** With distinct headers, every header maps to its own column. */
  lemma RowDistinct(headers: seq<string>, values: seq<string>, i: nat)
    requires Distinct(headers) && i < |headers|
    ensures Row(headers, values)[headers[i]] == ValueAt(values, i)
  {
    RowValue(headers, values, i);
  }

  datatype Table = Table(headers: seq<string>, rows: seq<map<string, string>>)

  /** `lines.map((line) => …)`: one row per line, keyed by the headers. */
  function Rows(headers: seq<string>, lines: seq<string>, delimiter: string)
    : (rows: seq<map<string, string>>)
    ensures |rows| == |lines|
    ensures forall k :: 0 <= k < |lines| ==> rows[k] == Row(headers, Fields(lines[k], delimiter))
  {
    if lines == [] then []
    else [Row(headers, Fields(lines[0], delimiter))] + Rows(headers, lines[1..], delimiter)
  }

  /** `parseCsv`: `None` when no non-empty line is left; otherwise the first
      line's fields are the headers and each later line is a row. */
  function ParseCsv(raw: string, delimiter: string): (t: Option<Table>)
    ensures t.None? <==> Lines(raw) == []
    ensures t.Some? ==> t.value.headers == Fields(Lines(raw)[0], delimiter)
    ensures t.Some? ==> |t.value.rows| == |Lines(raw)| - 1
    ensures t.Some? ==> forall k :: 0 <= k < |t.value.rows| ==>
              t.value.rows[k] == Row(t.value.headers, Fields(Lines(raw)[k + 1], delimiter))
  {
    var lines := Lines(raw);
    if |lines| < 1 then None
    else
      var headers := Fields(lines[0], delimiter);
      Some(Table(headers, Rows(headers, lines[1..], delimiter)))
  }

  /** A non-blank input has at least one non-empty line. */
  lemma NonBlankHasLines(raw: string)
    requires !IsBlank(raw)
    ensures Lines(raw) != []
  {
    var t := Trim(raw);
    assert t[0] != '\n';
    assert SplitOn(t, '\n')[0] != [];
  }

  /** What the tool shows: the rows, or an error text. */
  datatype Outcome = Outcome(result: Option<seq<map<string, string>>>, error: string)

  /** `delimiter || ','`: the delimiter the converter hands to the parser. */
  function Separator(delimiter: string): (d: string)
    ensures d != ""
    ensures delimiter != "" ==> d == delimiter
  {
    if delimiter == "" then "," else delimiter
  }

  /** The converter's memo: blank input shows nothing and no error; any
      other input shows the rows `parseCsv` reads with the separator. */
  function Convert(csv: string, delimiter: string): (o: Outcome)
    ensures IsBlank(csv) ==> o == Outcome(None, "")
    ensures !IsBlank(csv) ==> o.result.Some? || o.error == "Could not parse CSV"
    ensures !IsBlank(csv) ==> ParseCsv(csv, Separator(delimiter)).Some?
                              && o == Outcome(Some(ParseCsv(csv, Separator(delimiter)).value.rows), "")
  {
    if IsBlank(csv) then Outcome(None, "")
    else
      NonBlankHasLines(csv);
      match ParseCsv(csv, Separator(delimiter))
      case None => Outcome(None, "Could not parse CSV")
      case Some(t) => Outcome(Some(t.rows), "")
  }

  /** "Could not parse CSV" is never shown: any non-blank input converts,
      and no error text is ever produced. */
  lemma ConvertNeverFails(csv: string, delimiter: string)
    ensures Convert(csv, delimiter).error == ""
    ensures Convert(csv, delimiter).result.Some? <==> !IsBlank(csv)
  {
    if !IsBlank(csv) {
      NonBlankHasLines(csv);
    }
  }

  /** The empty delimiter behaves as the comma. */
  lemma EmptyDelimiter(csv: string)
    ensures Convert(csv, "") == Convert(csv, ",")
  {
  }
}
