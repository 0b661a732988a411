/** Character classes and string operations of the JavaScript string API that
    the tools use: whitespace (the `\s` class and `String.prototype.trim`),
    ASCII case mapping, substring search, splitting on one character, joining
    and removing every occurrence of a value from a list. */
module TextUtil {

  /** JavaScript's `\s` class and `trim()` use the same set: WhiteSpace and
      LineTerminator code points. Whitespace is never a letter, and is one
      UTF-16 code unit. */
  predicate IsSpace(c: char)
    ensures IsSpace(c) ==> !IsUpper(c) && !IsLower(c) && c as int < 0x10000
  {
    c == ' ' || c == '\t' || c == '\n' || c == '\r' || c == '\U{0B}' || c == '\U{0C}'
    || c == '\U{A0}' || c == '\U{1680}' || ('\U{2000}' <= c <= '\U{200A}')
    || c == '\U{2028}' || c == '\U{2029}' || c == '\U{202F}' || c == '\U{205F}'
    || c == '\U{3000}' || c == '\U{FEFF}'
  }

  predicate IsUpper(c: char) { 'A' <= c <= 'Z' }
  predicate IsLower(c: char) { 'a' <= c <= 'z' }
  predicate IsDigit(c: char) { '0' <= c <= '9' }

  function LowerChar(c: char): (r: char)
    ensures !IsUpper(r)
    ensures IsUpper(c) ==> IsLower(r)
    ensures !IsUpper(c) ==> r == c
  {
    if IsUpper(c) then (c as int + 32) as char else c
  }

  function UpperChar(c: char): (r: char)
    ensures !IsLower(r)
    ensures IsLower(c) ==> IsUpper(r)
    ensures !IsLower(c) ==> r == c
  {
    if IsLower(c) then (c as int - 32) as char else c
  }

  /** `toLowerCase()`, restricted to the ASCII letters. */
  function Lower(s: string): (r: string)
    ensures |r| == |s|
    ensures forall i :: 0 <= i < |s| ==> r[i] == LowerChar(s[i])
  {
    if s == [] then [] else [LowerChar(s[0])] + Lower(s[1..])
  }

  /** `toUpperCase()`, restricted to the ASCII letters. */
  function Upper(s: string): (r: string)
    ensures |r| == |s|
    ensures forall i :: 0 <= i < |s| ==> r[i] == UpperChar(s[i])
  {
    if s == [] then [] else [UpperChar(s[0])] + Upper(s[1..])
  }

  lemma LowerAppend(a: string, b: string)
    ensures Lower(a + b) == Lower(a) + Lower(b)
  {
  }

  lemma LowerIdempotent(s: string)
    ensures Lower(Lower(s)) == Lower(s)
  {
  }

  /** Drops the leading whitespace. */
  function TrimStart(s: string): (r: string)
    ensures |r| <= |s| && r == s[|s| - |r|..]
    ensures r == [] || !IsSpace(r[0])
    ensures forall i :: 0 <= i < |s| - |r| ==> IsSpace(s[i])
  {
    if s == [] || !IsSpace(s[0]) then s else TrimStart(s[1..])
  }

  /** Drops the trailing whitespace. */
  function TrimEnd(s: string): (r: string)
    ensures |r| <= |s| && r == s[..|r|]
    ensures r == [] || !IsSpace(r[|r| - 1])
    ensures forall i :: |r| <= i < |s| ==> IsSpace(s[i])
  {
    if s == [] || !IsSpace(s[|s| - 1]) then s else TrimEnd(s[..|s| - 1])
  }

  /** `trim()`: the input with the whitespace at both ends cut off. */
  function Trim(s: string): (r: string)
    ensures r == [] || (!IsSpace(r[0]) && !IsSpace(r[|r| - 1]))
    ensures exists k :: TrimsTo(s, r, k)
  {
    TrimWindow(s);
    TrimEnd(TrimStart(s))
  }

  /** `r` is the part of `s` from `k` on, with only whitespace before and
      after it. */
  predicate TrimsTo(s: string, r: string, k: int)
  {
    0 <= k <= k + |r| <= |s| && r == s[k..k + |r|]
    && (forall i :: 0 <= i < k ==> IsSpace(s[i]))
    && (forall i :: k + |r| <= i < |s| ==> IsSpace(s[i]))
  }

  lemma TrimWindow(s: string)
    ensures TrimsTo(s, TrimEnd(TrimStart(s)), |s| - |TrimStart(s)|)
  {
    var t := TrimStart(s);
    var r := TrimEnd(t);
    var k := |s| - |t|;
    assert t == s[k..];
    forall i | k + |r| <= i < |s| ensures IsSpace(s[i]) {
      assert s[i] == t[i - k];
    }
  }

  /** `!s.trim()`. */
  predicate IsBlank(s: string)
  {
    Trim(s) == ""
  }

  predicate AllSpace(s: string)
  {
    forall i :: 0 <= i < |s| ==> IsSpace(s[i])
  }

  /** `!s.trim()`: a blank string is empty or whitespace only. */
  lemma {:induction false} TrimEmptyIffBlank(s: string)
    ensures Trim(s) == [] <==> AllSpace(s)
  {
    TrimStartEmptyIffBlank(s);
    var t := TrimStart(s);
    if t != [] {
      assert !IsSpace(t[0]);
      assert TrimEnd(t) != [];
    }
  }

  lemma {:induction false} TrimStartEmptyIffBlank(s: string)
    ensures TrimStart(s) == [] <==> AllSpace(s)
  {
    if s != [] {
      TrimStartEmptyIffBlank(s[1..]);
      if IsSpace(s[0]) {
        assert AllSpace(s) <==> AllSpace(s[1..]) by {
          if AllSpace(s[1..]) {
            forall i | 0 <= i < |s| ensures IsSpace(s[i]) {
              if i > 0 { assert s[i] == s[1..][i - 1]; }
            }
          }
        }
      }
    }
  }

  lemma TrimStartSkip(s: string)
    requires s != [] && IsSpace(s[0])
    ensures TrimStart(s) == TrimStart(s[1..])
  {
  }

  lemma TrimStartStop(s: string)
    requires s != [] && !IsSpace(s[0])
    ensures TrimStart(s) == s
  {
  }

  lemma TrimEndSkip(s: string)
    requires s != [] && IsSpace(s[|s| - 1])
    ensures TrimEnd(s) == TrimEnd(s[..|s| - 1])
  {
  }

  lemma TrimEndStop(s: string)
    requires s != [] && !IsSpace(s[|s| - 1])
    ensures TrimEnd(s) == s
  {
  }

  /** One space on each side of a trimmed word is trimmed away. */
  lemma TrimPadded(w: string)
    requires w != [] && !IsSpace(w[0]) && !IsSpace(w[|w| - 1])
    ensures Trim([' '] + w + [' ']) == w
  {
    var s := [' '] + w + [' '];
    assert s[1..] == w + [' '];
    TrimStartSkip(s);
    TrimStartStop(w + [' ']);
    assert (w + [' '])[..|w|] == w;
    TrimEndSkip(w + [' ']);
    TrimEndStop(w);
  }

  /** A string with no whitespace at either end is its own trim. */
  lemma TrimNoEdges(s: string)
    requires s == [] || (!IsSpace(s[0]) && !IsSpace(s[|s| - 1]))
    ensures Trim(s) == s
  {
  }

  /** `replace(/\s/g, '')`. */
  function RemoveSpaces(s: string): (r: string)
    ensures |r| <= |s|
    ensures forall i :: 0 <= i < |r| ==> !IsSpace(r[i])
    ensures (forall i :: 0 <= i < |s| ==> !IsSpace(s[i])) ==> r == s
    ensures |s| == 1 ==> r == if IsSpace(s[0]) then [] else s
  {
    if s == [] then ""
    else if IsSpace(s[0]) then RemoveSpaces(s[1..])
    else [s[0]] + RemoveSpaces(s[1..])
  }

  /** Removing whitespace works piece by piece: together with the
      one-character case this fixes the result, which keeps every other
      character in order. */
  lemma {:induction false} RemoveSpacesConcat(a: string, b: string)
    ensures RemoveSpaces(a + b) == RemoveSpaces(a) + RemoveSpaces(b)
  {
    if a == [] {
      assert a + b == b;
    } else {
      RemoveSpacesConcat(a[1..], b);
      HeadSplit(a, b);
    }
  }

  lemma HeadSplit<T>(a: seq<T>, b: seq<T>)
    requires a != []
    ensures a + b == [a[0]] + (a[1..] + b) && (a + b)[0] == a[0] && (a + b)[1..] == a[1..] + b
  {
  }

  /** How many whitespace characters `s` holds. */
  function SpaceCount(s: string): (n: nat)
    ensures n <= |s|
  {
    if s == [] then 0 else (if IsSpace(s[0]) then 1 else 0) + SpaceCount(s[1..])
  }

  /** JavaScript's `length`: UTF-16 code units, two for a character beyond
      U+FFFF. */
  function Utf16Length(s: string): (n: nat)
    ensures |s| <= n <= 2 * |s|
    ensures (forall i :: 0 <= i < |s| ==> s[i] as int <= 0xFFFF) ==> n == |s|
  {
    if s == [] then 0 else (if s[0] as int > 0xFFFF then 2 else 1) + Utf16Length(s[1..])
  }

  /** Every whitespace character is one code unit, so removing them
      shortens the text by exactly their number. */
  lemma {:induction false} RemoveSpacesLength(s: string)
    ensures Utf16Length(RemoveSpaces(s)) + SpaceCount(s) == Utf16Length(s)
  {
    if s != [] {
      RemoveSpacesLength(s[1..]);
      if !IsSpace(s[0]) {
        assert ([s[0]] + RemoveSpaces(s[1..]))[1..] == RemoveSpaces(s[1..]);
      }
    }
  }

  /** The non-empty strings, in order. */
  function NonEmpty(parts: seq<string>): (r: seq<string>)
    ensures |r| <= |parts|
    ensures forall k :: 0 <= k < |r| ==> r[k] != [] && r[k] in parts
    ensures parts != [] && parts[0] != [] ==> r != [] && r[0] == parts[0]
  {
    if parts == [] then []
    else if parts[0] == [] then NonEmpty(parts[1..])
    else [parts[0]] + NonEmpty(parts[1..])
  }

  /** `haystack.includes(needle)`. */
  predicate Contains(haystack: string, needle: string)
  {
    exists i :: 0 <= i <= |haystack| - |needle| && OccursAt(haystack, needle, i)
  }

  predicate OccursAt(haystack: string, needle: string, i: int)
    requires 0 <= i <= |haystack| - |needle|
  {
    haystack[i..i + |needle|] == needle
  }

  /** `s.split(sep)` for a one-character separator: the pieces between the
      separator occurrences, empty pieces included. */
  function SplitOn(s: string, sep: char): (r: seq<string>)
    ensures |r| >= 1
    ensures forall k :: 0 <= k < |r| ==> sep !in r[k]
  {
    if s == [] then [""]
    else
      var rest := SplitOn(s[1..], sep);
      if s[0] == sep then [""] + rest else [[s[0]] + rest[0]] + rest[1..]
  }

  function Count<T(==)>(s: seq<T>, x: T): (n: nat)
    ensures n <= |s|
    ensures n == 0 <==> x !in s
  {
    if s == [] then 0 else (if s[0] == x then 1 else 0) + Count(s[1..], x)
  }

  /** `a.join(sep)`: the first part starts the result and every part fits
      in it. */
  function Join(parts: seq<string>, sep: string): (r: string)
    ensures parts != [] ==> |parts[0]| <= |r| && r[..|parts[0]|] == parts[0]
    ensures forall j :: 0 <= j < |parts| ==> |parts[j]| <= |r|
  {
    if parts == [] then ""
    else if |parts| == 1 then parts[0]
    else parts[0] + sep + Join(parts[1..], sep)
  }

  /** Splitting joined pieces on the separator gives the pieces back. */
  lemma {:induction false} SplitJoin(parts: seq<string>, sep: char)
    requires |parts| >= 1
    requires forall k :: 0 <= k < |parts| ==> sep !in parts[k]
    ensures SplitOn(Join(parts, [sep]), sep) == parts
  {
    if |parts| == 1 {
      SplitNoSep(parts[0], sep);
    } else {
      SplitJoin(parts[1..], sep);
      SplitConcat(parts[0], Join(parts[1..], [sep]), sep);
    }
  }

  lemma {:induction false} SplitNoSep(s: string, sep: char)
    requires sep !in s
    ensures SplitOn(s, sep) == [s]
  {
    if s != [] {
      SplitNoSep(s[1..], sep);
      assert s == [s[0]] + s[1..];
    }
  }

  /** There is one piece more than there are separators. */
  lemma {:induction false} SplitCount(s: string, sep: char)
    ensures |SplitOn(s, sep)| == Count(s, sep) + 1
  {
    if s != [] {
      SplitCount(s[1..], sep);
    }
  }

  /** Splitting `a + sep + b`, where `a` holds no separator. */
  lemma {:induction false} SplitConcat(a: string, b: string, sep: char)
    requires sep !in a
    ensures SplitOn(a + [sep] + b, sep) == [a] + SplitOn(b, sep)
  {
    if a == [] {
      assert ([sep] + b)[1..] == b;
    } else {
      SplitConcat(a[1..], b, sep);
      assert (a + [sep] + b)[1..] == a[1..] + [sep] + b;
      assert a == [a[0]] + a[1..];
    }
  }

  /** `list.filter((x) => x !== v)`: every occurrence of `v` removed, the
      rest kept in order. */
  function Remove<T(==)>(s: seq<T>, v: T): (r: seq<T>)
    ensures v !in r
    ensures |r| == |s| - Count(s, v)
  {
    if s == [] then []
    else if s[0] == v then Remove(s[1..], v) else [s[0]] + Remove(s[1..], v)
  }

  /** Removal drops exactly the occurrences of `v`. */
  lemma {:induction false} RemoveMultiset<T>(s: seq<T>, v: T)
    ensures multiset(Remove(s, v)) == multiset(s)[v := 0]
  {
    if s != [] {
      RemoveMultiset(s[1..], v);
      assert s == [s[0]] + s[1..];
      DropHead(s[0], s[1..], v, Remove(s[1..], v));
    }
  }

  lemma DropHead<T>(x: T, t: seq<T>, v: T, r: seq<T>)
    requires multiset(r) == multiset(t)[v := 0]
    ensures x == v ==> multiset(r) == multiset([x] + t)[v := 0]
    ensures x != v ==> multiset([x] + r) == multiset([x] + t)[v := 0]
  {
    assert multiset([x] + t) == multiset{x} + multiset(t);
    assert multiset([x] + r) == multiset{x} + multiset(r);
  }

  lemma RemoveAbsent<T>(s: seq<T>, v: T)
    requires v !in s
    ensures Remove(s, v) == s
  {
  }

  lemma {:induction false} RemoveAppend<T>(a: seq<T>, b: seq<T>, v: T)
    ensures Remove(a + b, v) == Remove(a, v) + Remove(b, v)
  {
    if a == [] {
      assert a + b == b;
    } else {
      var c := a + b;
      assert c[0] == a[0] && c[1..] == a[1..] + b;
      RemoveAppend(a[1..], b, v);
      if a[0] == v {
        assert Remove(c, v) == Remove(c[1..], v);
      } else {
        assert Remove(c, v) == [a[0]] + Remove(c[1..], v);
        assert Remove(a, v) == [a[0]] + Remove(a[1..], v);
      }
    }
  }

  /** A list free of duplicates. */
  predicate Distinct<T(==)>(s: seq<T>)
  {
    forall i, j :: 0 <= i < j < |s| ==> s[i] != s[j]
  }

  /** For a list free of duplicates, removing `v` is cutting out its one
      position. */
  lemma {:induction false} RemoveDistinct<T>(s: seq<T>, v: T, i: nat)
    requires Distinct(s) && i < |s| && s[i] == v
    ensures Remove(s, v) == s[..i] + s[i + 1..]
  {
    if i == 0 {
      RemoveAbsent(s[1..], v);
    } else {
      RemoveDistinct(s[1..], v, i - 1);
      assert s[..i] == [s[0]] + s[1..][..i - 1];
    }
  }

  lemma RemovePreservesDistinct<T>(s: seq<T>, v: T)
    requires Distinct(s)
    ensures Distinct(Remove(s, v))
  {
    if s != [] {
      var tail := s[1..];
      assert Distinct(tail) by {
        forall i, j | 0 <= i < j < |tail| ensures tail[i] != tail[j] {
          assert tail[i] == s[i + 1] && tail[j] == s[j + 1];
        }
      }
      RemovePreservesDistinct(tail, v);
      assert s[0] !in tail by {
        forall j | 0 <= j < |tail| ensures tail[j] != s[0] {
          assert tail[j] == s[j + 1];
        }
      }
      RemoveMultiset(tail, v);
      assert s[0] !in multiset(Remove(tail, v));
    }
  }
}
