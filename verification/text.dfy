/**
  Strings as the word counter sees them: the character classes it tests,
  `String.trim`, ASCII lower-casing, and `String.split` on a single
  separator character (how both variants cut the text into lines).
 */
module Text {

  /** `String.trim` removes every char whose code is at most that of the space. */
  predicate IsBlank(c: char) {
    c <= ' '
  }

  predicate IsAsciiLetter(c: char) {
    ('a' <= c <= 'z') || ('A' <= c <= 'Z')
  }

  predicate IsAsciiDigit(c: char) {
    '0' <= c <= '9'
  }

  predicate IsAsciiUpper(c: char) {
    'A' <= c <= 'Z'
  }

  /** The regex class `\w`, i.e. `[A-Za-z0-9_]`; `\W` is its complement. */
  predicate IsWordChar(c: char) {
    IsAsciiLetter(c) || IsAsciiDigit(c) || c == '_'
  }

  predicate AllWordChars(s: string) {
    forall i | 0 <= i < |s| :: IsWordChar(s[i])
  }

  predicate AllBlank(s: string) {
    forall i | 0 <= i < |s| :: IsBlank(s[i])
  }

  predicate NoUpper(s: string) {
    forall i | 0 <= i < |s| :: !IsAsciiUpper(s[i])
  }

  /* ---------------------------------------------------------------- trim */

  /** The first loop of `trim`: the index of the first non-blank char at or after `i`. */
  function SkipBlanks(s: string, i: nat): (j: nat)
    requires i <= |s|
    ensures i <= j <= |s|
    ensures forall k | i <= k < j :: IsBlank(s[k])
    ensures j < |s| ==> !IsBlank(s[j])
    decreases |s| - i
  {
    if i < |s| && IsBlank(s[i]) then SkipBlanks(s, i + 1) else i
  }

  /** The second loop of `trim`: moves `len` back over blanks, never below `st`. */
  function BackOverBlanks(s: string, st: nat, len: nat): (r: nat)
    requires st <= len <= |s|
    ensures st <= r <= len
    ensures forall k | r <= k < len :: IsBlank(s[k])
    ensures st < r ==> !IsBlank(s[r - 1])
    decreases len
  {
    if st < len && IsBlank(s[len - 1]) then BackOverBlanks(s, st, len - 1) else len
  }

  /** Java's `String.trim`. */
  function Trim(s: string): (r: string)
    ensures r == [] || (!IsBlank(r[0]) && !IsBlank(r[|r| - 1]))
    ensures r == [] <==> AllBlank(s)
  {
    var st := SkipBlanks(s, 0);
    var len := BackOverBlanks(s, st, |s|);
    s[st..len]
  }

  /** `trim` only cuts blanks: the result is a slice with nothing but blanks on either side. */
  lemma TrimIsInner(s: string)
    ensures exists i, j | 0 <= i <= j <= |s| ::
              && Trim(s) == s[i..j]
              && AllBlank(s[..i])
              && AllBlank(s[j..])
  {
    var st := SkipBlanks(s, 0);
    var len := BackOverBlanks(s, st, |s|);
    assert AllBlank(s[..st]) && AllBlank(s[len..]);
  }

  /** A segment is a valid line when its trimmed form is non-empty. */
  predicate NonBlank(s: string) {
    Trim(s) != []
  }

  /** Keeps, in order, the segments whose trimmed form is non-empty. */
  function KeepNonBlank(parts: seq<string>): (r: seq<string>)
    ensures |r| <= |parts|
    ensures forall i | 0 <= i < |r| :: NonBlank(r[i])
  {
    if parts == [] then []
    else if NonBlank(parts[0]) then [parts[0]] + KeepNonBlank(parts[1..])
    else KeepNonBlank(parts[1..])
  }

  /** The filter only keeps segments it was given. */
  lemma {:induction false} KeepNonBlankMembers(parts: seq<string>)
    ensures forall i | 0 <= i < |KeepNonBlank(parts)| :: KeepNonBlank(parts)[i] in parts
    decreases |parts|
  {
    if parts != [] {
      KeepNonBlankMembers(parts[1..]);
    }
  }

  lemma {:induction false} KeepNonBlankAppend(a: seq<string>, b: seq<string>)
    ensures KeepNonBlank(a + b) == KeepNonBlank(a) + KeepNonBlank(b)
    decreases |a|
  {
    if a == [] {
      assert a + b == b;
    } else {
      assert (a + b)[1..] == a[1..] + b;
      KeepNonBlankAppend(a[1..], b);
    }
  }

  /** Filtering one more segment keeps it exactly when it is not blank. */
  lemma KeepNonBlankStep(parts: seq<string>, i: nat)
    requires i < |parts|
    ensures KeepNonBlank(parts[..i + 1]) == KeepNonBlank(parts[..i]) + (if NonBlank(parts[i]) then [parts[i]] else [])
  {
    assert parts[..i + 1] == parts[..i] + [parts[i]];
    KeepNonBlankAppend(parts[..i], [parts[i]]);
  }

  /** Blank segments, and in particular empty ones, never survive the filter. */
  lemma {:induction false} KeepNonBlankOfBlanks(parts: seq<string>)
    requires forall i | 0 <= i < |parts| :: parts[i] == []
    ensures KeepNonBlank(parts) == []
    decreases |parts|
  {
    if parts != [] {
      KeepNonBlankOfBlanks(parts[1..]);
    }
  }

  /** Applies `trim` to every segment. */
  function TrimAll(parts: seq<string>): (r: seq<string>)
    ensures |r| == |parts|
    ensures forall i | 0 <= i < |r| :: r[i] == Trim(parts[i])
  {
    seq(|parts|, i requires 0 <= i < |parts| => Trim(parts[i]))
  }

  /* ------------------------------------------------------------ lengths */

  /** A char outside the Basic Multilingual Plane takes two UTF-16 code units. */
  predicate IsSupplementary(c: char) {
    c as int >= 0x1_0000
  }

  /** `String.length()`: the number of UTF-16 code units. */
  function JavaLength(s: string): (n: nat)
    ensures n >= |s|
    ensures n == |s| <==> forall i | 0 <= i < |s| :: !IsSupplementary(s[i])
  {
    if s == [] then 0
    else
      var n := (if IsSupplementary(s[0]) then 2 else 1) + JavaLength(s[1..]);
      assert forall i | 1 <= i < |s| :: s[i] == s[1..][i - 1];
      n
  }

  /** The number of bytes a char takes in UTF-8 (section 3 of RFC 3629). */
  function Utf8Width(c: char): (n: nat)
    ensures 1 <= n <= 4
    ensures n == 1 <==> c as int < 0x80
    ensures IsSupplementary(c) <==> n == 4
  {
    if c as int < 0x80 then 1
    else if c as int < 0x800 then 2
    else if c as int < 0x1_0000 then 3
    else 4
  }

  /** The length of the UTF-8 encoding of `s`. */
  function Utf8Length(s: string): (n: nat)
    ensures n >= JavaLength(s)
    ensures n == JavaLength(s) <==> forall i | 0 <= i < |s| :: s[i] as int < 0x80
  {
    if s == [] then 0
    else
      var n := Utf8Width(s[0]) + Utf8Length(s[1..]);
      assert forall i | 1 <= i < |s| :: s[i] == s[1..][i - 1];
      n
  }

  /* ------------------------------------------------------- lower-casing */

  /** `toLowerCase` restricted to ASCII: A-Z become a-z, every other char is kept. */
  function LowerChar(c: char): (d: char)
    ensures IsAsciiUpper(c) ==> d as int == c as int + 32
    ensures !IsAsciiUpper(c) ==> d == c
    ensures !IsAsciiUpper(d)
    ensures IsWordChar(d) <==> IsWordChar(c)
    ensures IsAsciiLetter(d) <==> IsAsciiLetter(c)
    ensures IsAsciiDigit(d) <==> IsAsciiDigit(c)
  {
    if 'A' <= c <= 'Z' then (c as int + ('a' as int - 'A' as int)) as char else c
  }

  /** `toLowerCase`, restricted to ASCII capitals. */
  function Lower(s: string): (r: string)
    ensures |r| == |s|
    ensures forall i | 0 <= i < |s| :: r[i] == LowerChar(s[i])
    ensures NoUpper(r)
  {
    seq(|s|, i requires 0 <= i < |s| => LowerChar(s[i]))
  }

  /* ------------------------------------------- splitting on one separator */

  function IndexOf(s: string, c: char): (i: nat)
    requires c in s
    ensures i < |s| && s[i] == c
    ensures c !in s[..i]
  {
    if s[0] == c then 0
    else
      var i := 1 + IndexOf(s[1..], c);
      assert s[..i] == [s[0]] + s[1..][..i - 1];
      i
  }

  /** Joins the parts with one separator between neighbours. */
  function Join(parts: seq<string>, sep: char): string
  {
    if |parts| == 0 then []
    else if |parts| == 1 then parts[0]
    else parts[0] + [sep] + Join(parts[1..], sep)
  }

  /** Appending one more part adds one separator and the part. */
  lemma {:induction false} JoinSnoc(parts: seq<string>, x: string, sep: char)
    requires |parts| >= 1
    ensures Join(parts + [x], sep) == Join(parts, sep) + [sep] + x
    decreases |parts|
  {
    if |parts| == 1 {
      assert parts + [x] == [parts[0], x];
    } else {
      assert (parts + [x])[1..] == parts[1..] + [x];
      JoinSnoc(parts[1..], x, sep);
    }
  }

  /** Every char of a part occurs in the join. */
  lemma {:induction false} CharOfPartInJoin(parts: seq<string>, sep: char, k: nat, c: char)
    requires k < |parts| && c in parts[k]
    ensures c in Join(parts, sep)
    decreases |parts|
  {
    if |parts| > 1 {
      if k == 0 {
        assert Join(parts, sep) == parts[0] + ([sep] + Join(parts[1..], sep));
      } else {
        CharOfPartInJoin(parts[1..], sep, k - 1, c);
      }
    }
  }

  /** Every field between separators, empty ones included, in order. */
  function Fields(s: string, sep: char): (r: seq<string>)
    ensures |r| >= 1
    ensures sep !in s ==> r == [s]
    decreases |s|
  {
    if sep !in s then [s]
    else
      var i := IndexOf(s, sep);
      [s[..i]] + Fields(s[i + 1..], sep)
  }

  /** Round trip: the fields hold no separator, and joining them gives back the string. */
  lemma {:induction false} FieldsJoin(s: string, sep: char)
    ensures forall k | 0 <= k < |Fields(s, sep)| :: sep !in Fields(s, sep)[k]
    ensures Join(Fields(s, sep), sep) == s
    decreases |s|
  {
    if sep in s {
      var i := IndexOf(s, sep);
      assert s == s[..i] + [sep] + s[i + 1..] by {
        assert s[i] == sep;
      }
      var rest := Fields(s[i + 1..], sep);
      var r := [s[..i]] + rest;
      assert Fields(s, sep) == r;
      FieldsJoin(s[i + 1..], sep);
      assert r[1..] == rest;
      assert Join(r, sep) == s[..i] + [sep] + Join(rest, sep);
      forall k | 0 <= k < |r|
        ensures sep !in r[k]
      {
        if k > 0 {
          assert r[k] == rest[k - 1];
        }
      }
    }
  }

  /** Splitting a join gives back the parts, when no part holds the separator. */
  lemma {:induction false} FieldsOfJoin(parts: seq<string>, sep: char)
    requires |parts| >= 1
    requires forall k | 0 <= k < |parts| :: sep !in parts[k]
    ensures Fields(Join(parts, sep), sep) == parts
    decreases |parts|
  {
    if |parts| > 1 {
      var s := Join(parts, sep);
      var tail := Join(parts[1..], sep);
      assert Fields(s, sep) == [parts[0]] + Fields(tail, sep) by {
        assert s == parts[0] + [sep] + tail;
        IndexOfAfterPrefix(parts[0], sep, tail);
        var i := |parts[0]|;
        assert s[..i] == parts[0];
        assert s[i + 1..] == tail;
      }
      FieldsOfJoin(parts[1..], sep);
      assert parts == [parts[0]] + parts[1..];
    }
  }

  lemma {:induction false} IndexOfAfterPrefix(p: string, sep: char, t: string)
    requires sep !in p
    ensures sep in p + [sep] + t
    ensures IndexOf(p + [sep] + t, sep) == |p|
    decreases |p|
  {
    var s := p + [sep] + t;
    assert s[|p|] == sep;
    if p != [] {
      assert s[1..] == p[1..] + [sep] + t;
      IndexOfAfterPrefix(p[1..], sep, t);
    }
  }

  /** Java's `split` with limit 0 removes the trailing empty strings. */
  function DropTrailingEmpty(parts: seq<string>): (r: seq<string>)
    ensures |r| <= |parts| && r == parts[..|r|]
    ensures r == [] || r[|r| - 1] != []
    ensures forall k | |r| <= k < |parts| :: parts[k] == []
  {
    if |parts| > 0 && parts[|parts| - 1] == [] then DropTrailingEmpty(parts[..|parts| - 1])
    else parts
  }

  /**
    Java's `s.split(String.valueOf(sep))`: a string without the separator
    comes back whole (even the empty string); otherwise the fields with the
    trailing empty ones removed.
   */
  function SplitOn(s: string, sep: char): (r: seq<string>)
    ensures sep !in s ==> r == [s]
    ensures |r| <= |Fields(s, sep)| && r == Fields(s, sep)[..|r|]
    ensures forall k | |r| <= k < |Fields(s, sep)| :: Fields(s, sep)[k] == []
    ensures sep in s ==> r == [] || r[|r| - 1] != []
  {
    var f := Fields(s, sep);
    if |f| == 1 then f else DropTrailingEmpty(f)
  }

  /** `"a\n\nb\n\n".split("\n")` is `["a", "", "b"]`, and `"\n".split("\n")` is empty. */
  lemma SplitOnExamples()
    ensures SplitOn("a\n\nb\n\n", '\n') == ["a", "", "b"]
    ensures SplitOn("\n", '\n') == []
  {
    SplitOnLoneSeparator();
    SplitOnTwoTrailing();
  }

  lemma SplitOnLoneSeparator()
    ensures SplitOn("\n", '\n') == []
  {
    var e: string := [];
    FieldsCons(e, '\n', e);
    assert e + ['\n'] + e == "\n";
    assert DropTrailingEmpty([e, e]) == DropTrailingEmpty([e]);
  }

  lemma SplitOnTwoTrailing()
    ensures SplitOn("a\n\nb\n\n", '\n') == ["a", "", "b"]
  {
    var parts: seq<string> := ["a", "", "b"];
    FieldsOfTwoTrailing();
    assert parts + ["", ""] == ["a", "", "b", "", ""];
    SplitOnOfTwoTrailing("a\n\nb\n\n", '\n', parts);
  }

  /** Fields ending in two empty ones after a non-empty one: `split` drops exactly those two. */
  lemma SplitOnOfTwoTrailing(s: string, sep: char, parts: seq<string>)
    requires parts != [] && parts[|parts| - 1] != []
    requires Fields(s, sep) == parts + ["", ""]
    ensures SplitOn(s, sep) == parts
  {
    DropTwoEmpties(parts);
  }

  lemma FieldsOfTwoTrailing()
    ensures Fields("a\n\nb\n\n", '\n') == ["a", "", "b", "", ""]
  {
    var parts: seq<string> := ["a", "", "b", "", ""];
    var s := "a\n\nb\n\n";
    assert Join(parts, '\n') == s by {
      assert Join(parts[3..], '\n') == "\n";
      assert Join(parts[2..], '\n') == "b\n\n";
    }
    assert forall k | 0 <= k < |parts| :: '\n' !in parts[k];
    FieldsOfJoin(parts, '\n');
  }

  /** Two trailing empty fields go, and a non-empty last field stays. */
  lemma DropTwoEmpties(parts: seq<string>)
    requires parts != [] && parts[|parts| - 1] != []
    ensures DropTrailingEmpty(parts + ["", ""]) == parts
  {
    var p := parts + ["", ""];
    assert p[..|p| - 1] == parts + [""];
    assert (parts + [""])[..|parts|] == parts;
  }

  /** A field without the separator, the separator, then the rest: the field comes first. */
  lemma FieldsCons(p: string, sep: char, t: string)
    requires sep !in p
    ensures Fields(p + [sep] + t, sep) == [p] + Fields(t, sep)
  {
    var s := p + [sep] + t;
    IndexOfAfterPrefix(p, sep, t);
    assert s[..|p|] == p && s[|p| + 1..] == t;
  }

  /** The segments `split` drops are empty, so filtering out blank lines hides the difference. */
  lemma SplitOnKeepsNonBlankFields(s: string, sep: char)
    ensures KeepNonBlank(SplitOn(s, sep)) == KeepNonBlank(Fields(s, sep))
  {
    var f := Fields(s, sep);
    var r := SplitOn(s, sep);
    if |f| != 1 {
      assert f == r + f[|r|..];
      KeepNonBlankAppend(r, f[|r|..]);
      KeepNonBlankOfBlanks(f[|r|..]);
    }
  }
}
