/**
  `line.split("\\W+")`: the line is cut at every maximal run of chars outside
  `[A-Za-z0-9_]`. A line that starts with such a run yields a leading empty
  token; trailing empty tokens are dropped, and a line without any separator
  comes back whole.
 */
module Tokenize {
  import opened Text

  /** Length of the longest prefix made of word chars. */
  function WordRun(s: string): (n: nat)
    ensures n <= |s|
    ensures AllWordChars(s[..n])
    ensures n < |s| ==> !IsWordChar(s[n])
  {
    if |s| > 0 && IsWordChar(s[0]) then
      var n := 1 + WordRun(s[1..]);
      assert s[..n] == [s[0]] + s[1..][..n - 1];
      n
    else 0
  }

  /** Length of the longest prefix made of separator chars (one match of `\W+`). */
  function GapRun(s: string): (n: nat)
    ensures n <= |s|
    ensures forall i | 0 <= i < n :: !IsWordChar(s[i])
    ensures n < |s| ==> IsWordChar(s[n])
  {
    if |s| > 0 && !IsWordChar(s[0]) then 1 + GapRun(s[1..]) else 0
  }

  /**
    The texts between consecutive maximal separator runs, before Java
    removes trailing empty strings: the first and the last piece may be
    empty, every piece in between is not.
   */
  function Pieces(s: string): (r: seq<string>)
    ensures |r| >= 1
    ensures forall k | 0 <= k < |r| :: AllWordChars(r[k])
    ensures forall k | 0 < k < |r| - 1 :: r[k] != []
    ensures |r| == 1 <==> AllWordChars(s)
    ensures |r| == 1 ==> r == [s]
    decreases |s|
  {
    var j := WordRun(s);
    if j == |s| then
      assert s[..j] == s;
      [s]
    else
      var k := j + GapRun(s[j..]);
      assert j < k;
      var rest := Pieces(s[k..]);
      assert k < |s| ==> rest[0] != [] by {
        if k < |s| {
          assert IsWordChar(s[k..][0]);
          assert WordRun(s[k..]) > 0;
        }
      }
      [s[..j]] + rest
  }

  /** Java's `line.split("\\W+")`. */
  function WordSplit(s: string): (r: seq<string>)
    ensures AllWordChars(s) ==> r == [s]
    ensures forall k | 0 <= k < |r| :: AllWordChars(r[k])
    ensures forall k | 0 < k < |r| :: r[k] != []
  {
    var p := Pieces(s);
    if |p| == 1 then p else DropTrailingEmpty(p)
  }

  /**
    Reference layout of a line: the tokens `ts` with a non-empty separator
    run `gs[i]` between `ts[i]` and `ts[i + 1]`.
   */
  function Weave(ts: seq<string>, gs: seq<string>): string
    requires |ts| == |gs| + 1
    decreases |gs|
  {
    if |gs| == 0 then ts[0] else ts[0] + gs[0] + Weave(ts[1..], gs[1..])
  }

  predicate IsGap(g: string) {
    g != [] && forall i | 0 <= i < |g| :: !IsWordChar(g[i])
  }

  /** A token followed by a separator, or by nothing, is one maximal word run. */
  lemma {:induction false} WordRunOfPrefixed(t: string, u: string)
    requires AllWordChars(t)
    requires u == [] || !IsWordChar(u[0])
    ensures WordRun(t + u) == |t|
    decreases |t|
  {
    if t != [] {
      assert (t + u)[1..] == t[1..] + u;
      WordRunOfPrefixed(t[1..], u);
    } else {
      assert t + u == u;
    }
  }

  lemma {:induction false} GapRunOfPrefixed(g: string, u: string)
    requires forall i | 0 <= i < |g| :: !IsWordChar(g[i])
    requires u == [] || IsWordChar(u[0])
    ensures GapRun(g + u) == |g|
    decreases |g|
  {
    if g != [] {
      assert (g + u)[1..] == g[1..] + u;
      GapRunOfPrefixed(g[1..], u);
    } else {
      assert g + u == u;
    }
  }

  /** A woven line whose first token is not the last starts with a word char, or is empty. */
  lemma WeaveStart(ts: seq<string>, gs: seq<string>)
    requires |ts| == |gs| + 1
    requires forall k | 0 <= k < |ts| :: AllWordChars(ts[k])
    requires forall k | 0 <= k < |ts| - 1 :: ts[k] != []
    ensures Weave(ts, gs) == [] || IsWordChar(Weave(ts, gs)[0])
  {
    if |gs| > 0 {
      assert Weave(ts, gs)[0] == ts[0][0];
    }
  }

  /** One step of `Pieces` on a line that starts with a token followed by a gap. */
  lemma PiecesStep(t: string, g: string, rest: string)
    requires AllWordChars(t)
    requires IsGap(g)
    requires rest == [] || IsWordChar(rest[0])
    ensures Pieces(t + g + rest) == [t] + Pieces(rest)
  {
    var s := t + g + rest;
    assert s == t + (g + rest);
    WordRunOfPrefixed(t, g + rest);
    GapRunOfPrefixed(g, rest);
    assert s[..|t|] == t;
    assert s[|t|..] == g + rest;
    assert s[|t| + |g|..] == rest;
  }

  /**
    Round trip: cutting a woven line at its maximal separator runs gives
    back exactly its tokens (only the first and last token may be empty).
   */
  lemma {:induction false} PiecesOfWeave(ts: seq<string>, gs: seq<string>)
    requires |ts| == |gs| + 1
    requires forall k | 0 <= k < |ts| :: AllWordChars(ts[k])
    requires forall k | 0 < k < |ts| - 1 :: ts[k] != []
    requires forall k | 0 <= k < |gs| :: IsGap(gs[k])
    ensures Pieces(Weave(ts, gs)) == ts
    decreases |gs|
  {
    if |gs| == 0 {
    } else {
      var rest := Weave(ts[1..], gs[1..]);
      WeaveStart(ts[1..], gs[1..]);
      PiecesStep(ts[0], gs[0], rest);
      PiecesOfWeave(ts[1..], gs[1..]);
      assert ts == [ts[0]] + ts[1..];
    }
  }

  /** Java's split of a woven line with at least one gap: its tokens minus the trailing empty ones. */
  lemma WordSplitOfWeave(ts: seq<string>, gs: seq<string>)
    requires |ts| == |gs| + 1 && |gs| >= 1
    requires forall k | 0 <= k < |ts| :: AllWordChars(ts[k])
    requires forall k | 0 < k < |ts| - 1 :: ts[k] != []
    requires forall k | 0 <= k < |gs| :: IsGap(gs[k])
    ensures WordSplit(Weave(ts, gs)) == DropTrailingEmpty(ts)
  {
    PiecesOfWeave(ts, gs);
  }
  /** Cutting a line without upper-case letters yields tokens without upper-case letters. */
  lemma {:induction false} PiecesNoUpper(s: string)
    requires NoUpper(s)
    ensures forall k | 0 <= k < |Pieces(s)| :: NoUpper(Pieces(s)[k])
    decreases |s|
  {
    var j := WordRun(s);
    if j < |s| {
      var k := j + GapRun(s[j..]);
      PiecesUnfold(s);
      assert NoUpper(s[..j]);
      assert NoUpper(s[k..]) by {
        forall i | 0 <= i < |s[k..]|
          ensures !IsAsciiUpper(s[k..][i])
        {
          assert s[k..][i] == s[k + i];
        }
      }
      PiecesNoUpper(s[k..]);
    }
  }

  /** Cutting a line that lacks a char yields tokens that lack it. */
  lemma {:induction false} PiecesLack(s: string, c: char)
    requires c !in s
    ensures forall k | 0 <= k < |Pieces(s)| :: c !in Pieces(s)[k]
    decreases |s|
  {
    var j := WordRun(s);
    if j < |s| {
      var k := j + GapRun(s[j..]);
      PiecesUnfold(s);
      PrefixLacks(s, c, j);
      SuffixLacks(s, c, k);
      PiecesLack(s[k..], c);
      ConsLacks(s[..j], Pieces(s[k..]), c, Pieces(s));
    }
  }

  lemma PrefixLacks(s: string, c: char, j: int)
    requires c !in s && 0 <= j <= |s|
    ensures c !in s[..j]
  {
    assert forall i | 0 <= i < j :: s[..j][i] == s[i];
  }

  lemma SuffixLacks(s: string, c: char, k: int)
    requires c !in s && 0 <= k <= |s|
    ensures c !in s[k..]
  {
    assert forall i | 0 <= i < |s| - k :: s[k..][i] == s[k + i];
  }

  /** A part that lacks a char, before parts that all lack it. */
  lemma ConsLacks(x: string, rest: seq<string>, c: char, all: seq<string>)
    requires c !in x
    requires forall m | 0 <= m < |rest| :: c !in rest[m]
    requires all == [x] + rest
    ensures forall m | 0 <= m < |all| :: c !in all[m]
  {
  }

  lemma WordSplitLack(s: string, c: char)
    requires c !in s
    ensures forall k | 0 <= k < |WordSplit(s)| :: c !in WordSplit(s)[k]
  {
    PiecesLack(s, c);
    var p := Pieces(s);
    if |p| != 1 {
      var r := DropTrailingEmpty(p);
      assert forall k | 0 <= k < |r| :: r[k] == p[k];
    }
  }

  lemma WordSplitNoUpper(s: string)
    requires NoUpper(s)
    ensures forall k | 0 <= k < |WordSplit(s)| :: NoUpper(WordSplit(s)[k])
  {
    PiecesNoUpper(s);
    var p := Pieces(s);
    if |p| != 1 {
      var r := DropTrailingEmpty(p);
      assert forall k | 0 <= k < |r| :: r[k] == p[k];
    }
  }

  /* ------------------------------------ separators at either end of a line */

  /** The tokens that are not empty, in order. */
  function NonEmpty(ts: seq<string>): (r: seq<string>)
    ensures |r| <= |ts|
    ensures forall k | 0 <= k < |r| :: r[k] != []
  {
    if ts == [] then []
    else if ts[0] == [] then NonEmpty(ts[1..])
    else [ts[0]] + NonEmpty(ts[1..])
  }

  predicate NoWordChars(g: string) {
    forall i | 0 <= i < |g| :: !IsWordChar(g[i])
  }

  lemma {:induction false} NonEmptyAppend(a: seq<string>, b: seq<string>)
    ensures NonEmpty(a + b) == NonEmpty(a) + NonEmpty(b)
    decreases |a|
  {
    if a == [] {
      assert a + b == b;
    } else {
      assert (a + b)[1..] == a[1..] + b;
      NonEmptyAppend(a[1..], b);
    }
  }

  lemma {:induction false} NonEmptyOfEmpties(ts: seq<string>)
    requires forall k | 0 <= k < |ts| :: ts[k] == []
    ensures NonEmpty(ts) == []
    decreases |ts|
  {
    if ts != [] {
      NonEmptyOfEmpties(ts[1..]);
    }
  }

  /** Dropping trailing empty strings does not change the non-empty tokens. */
  lemma {:induction false} WordSplitNonEmpty(s: string)
    ensures NonEmpty(WordSplit(s)) == NonEmpty(Pieces(s))
  {
    var p := Pieces(s);
    if |p| != 1 {
      var r := DropTrailingEmpty(p);
      assert p == r + p[|r|..];
      NonEmptyAppend(r, p[|r|..]);
      NonEmptyOfEmpties(p[|r|..]);
    }
  }

  /** A word run that stops inside `t` is not lengthened by what follows `t`. */
  lemma {:induction false} WordRunExtend(t: string, u: string)
    requires WordRun(t) < |t|
    ensures WordRun(t + u) == WordRun(t)
    decreases |t|
  {
    if IsWordChar(t[0]) {
      assert (t + u)[1..] == t[1..] + u;
      WordRunExtend(t[1..], u);
    }
  }

  /** A separator run that stops inside `t` is not lengthened by what follows `t`. */
  lemma {:induction false} GapRunExtend(t: string, u: string)
    requires GapRun(t) < |t|
    ensures GapRun(t + u) == GapRun(t)
    decreases |t|
  {
    if !IsWordChar(t[0]) {
      assert (t + u)[1..] == t[1..] + u;
      GapRunExtend(t[1..], u);
    }
  }

  /** Separators in front of `t` join the separator run `t` starts with. */
  lemma {:induction false} GapRunOfGapPrefix(g: string, t: string)
    requires NoWordChars(g)
    ensures GapRun(g + t) == |g| + GapRun(t)
    decreases |g|
  {
    if g == [] {
      assert g + t == t;
    } else {
      assert (g + t)[1..] == g[1..] + t;
      GapRunOfGapPrefix(g[1..], t);
    }
  }

  /** One step of `Pieces` on a line that is not a single word run. */
  lemma {:induction false} PiecesUnfold(s: string)
    requires WordRun(s) < |s|
    ensures var j := WordRun(s);
      Pieces(s) == [s[..j]] + Pieces(s[j + GapRun(s[j..])..])
  {
  }

  /** A line that starts with a separator has an empty first piece. */
  lemma {:induction false} PiecesOfGapStart(s: string)
    requires s != [] && !IsWordChar(s[0])
    ensures Pieces(s) == [[]] + Pieces(s[GapRun(s)..])
  {
    assert WordRun(s) == 0;
    assert s[0..] == s;
    PiecesUnfold(s);
  }

  /** Dropping a leading empty piece leaves the non-empty tokens as they are. */
  lemma NonEmptyOfEmptyFirst(rest: seq<string>)
    ensures NonEmpty([[]] + rest) == NonEmpty(rest)
  {
    NonEmptyAppend([[]], rest);
    assert NonEmpty([[]]) == [];
  }

  /** A line that starts with separators has the tokens of the line after them. */
  lemma {:induction false} PiecesSkipGap(t: string)
    ensures NonEmpty(Pieces(t)) == NonEmpty(Pieces(t[GapRun(t)..]))
  {
    if GapRun(t) > 0 {
      PiecesOfGapStart(t);
      NonEmptyOfEmptyFirst(Pieces(t[GapRun(t)..]));
    } else {
      assert t[0..] == t;
    }
  }

  /** Separators added in front of a line change none of its non-empty tokens. */
  lemma {:induction false} PiecesLeadingGap(g: string, t: string)
    requires NoWordChars(g)
    ensures NonEmpty(Pieces(g + t)) == NonEmpty(Pieces(t))
  {
    if g == [] {
      assert g + t == t;
    } else {
      var s := g + t;
      assert s[0] == g[0];
      PiecesOfGapStart(s);
      GapRunOfGapPrefix(g, t);
      assert s[GapRun(s)..] == t[GapRun(t)..] by {
        assert s[|g|..] == t;
      }
      NonEmptyOfEmptyFirst(Pieces(t[GapRun(t)..]));
      PiecesSkipGap(t);
    }
  }

  /** Separators added after a word run leave only an empty last piece. */
  lemma {:induction false} PiecesWordThenGap(t: string, g: string)
    requires AllWordChars(t) && g != [] && NoWordChars(g)
    ensures Pieces(t + g) == [t, []]
  {
    var s := t + g;
    WordRunOfPrefixed(t, g);
    assert s[|t|..] == g && s[..|t|] == t;
    GapRunOfGapPrefix(g, []);
    assert g + [] == g;
    assert s[|s|..] == [];
    PiecesUnfold(s);
  }

  /** Separators added after a line change none of its non-empty tokens. */
  lemma {:induction false} PiecesTrailingGap(t: string, g: string)
    requires NoWordChars(g)
    ensures NonEmpty(Pieces(t + g)) == NonEmpty(Pieces(t))
    decreases |t|
  {
    var s := t + g;
    var j := WordRun(t);
    if g == [] {
      assert s == t;
    } else if j == |t| {
      assert t[..j] == t;
      PiecesWordThenGap(t, g);
      NonEmptyAppend([t], [[]]);
    } else if j + GapRun(t[j..]) < |t| {
      PiecesTrailingGapStep(t, g);
    } else {
      PiecesTrailingGapLast(t, g);
    }
  }

  /** The inductive step of `PiecesTrailingGap`, when a token follows `t`'s first separator run. */
  lemma {:induction false} PiecesTrailingGapStep(t: string, g: string)
    requires NoWordChars(g) && g != []
    requires WordRun(t) < |t|
    requires WordRun(t) + GapRun(t[WordRun(t)..]) < |t|
    ensures NonEmpty(Pieces(t + g)) == NonEmpty(Pieces(t))
    decreases |t|, 0
  {
    var j := WordRun(t);
    var k := j + GapRun(t[j..]);
    FirstCut(t);
    var a, b, c := t[..j], t[j..k], t[k..];
    PiecesStep(a, b, c);
    AppendToThree(a, b, c, g);
    PiecesStep(a, b, c + g);
    PiecesTrailingGap(c, g);
    NonEmptyAppend([a], Pieces(c + g));
    NonEmptyAppend([a], Pieces(c));
  }

  /** A line with a token after its first separator run: a word run, a gap, then the rest. */
  lemma FirstCut(t: string)
    requires WordRun(t) < |t|
    requires WordRun(t) + GapRun(t[WordRun(t)..]) < |t|
    ensures var j := WordRun(t);
      var k := j + GapRun(t[j..]);
      && AllWordChars(t[..j])
      && IsGap(t[j..k])
      && IsWordChar(t[k..][0])
      && t == t[..j] + t[j..k] + t[k..]
  {
    var j := WordRun(t);
    var k := j + GapRun(t[j..]);
    GapAfterWordRun(t, j, t[j..]);
    WordAfterGap(t, k, t[j..], GapRun(t[j..]));
    SplitThree(t, j, k);
  }

  lemma GapAfterWordRun(t: string, j: nat, tail: string)
    requires j == WordRun(t) < |t| && tail == t[j..]
    ensures IsGap(t[j..j + GapRun(tail)])
  {
    var n := GapRun(tail);
    var gap := t[j..j + n];
    assert !IsWordChar(tail[0]);
    forall i | 0 <= i < n
      ensures !IsWordChar(gap[i])
    {
      assert gap[i] == tail[i];
    }
  }

  lemma WordAfterGap(t: string, k: nat, tail: string, n: nat)
    requires |tail| <= |t| && tail == t[|t| - |tail|..]
    requires n == GapRun(tail) && k == |t| - |tail| + n && k < |t|
    ensures IsWordChar(t[k..][0])
  {
    assert t[k..][0] == tail[n];
  }

  lemma AppendToThree(a: string, b: string, c: string, g: string)
    ensures a + b + c + g == a + b + (c + g)
  {
  }

  lemma SplitThree(t: string, a: int, b: int)
    requires 0 <= a <= b <= |t|
    ensures t == t[..a] + t[a..b] + t[b..]
  {
    assert t[..a] + t[a..b] == t[..b];
    assert t[..b] + t[b..] == t;
  }

  /** When `t` ends in its first separator run, more separators leave the pieces as they are. */
  lemma {:induction false} PiecesTrailingGapLast(t: string, g: string)
    requires NoWordChars(g)
    requires WordRun(t) < |t|
    requires WordRun(t) + GapRun(t[WordRun(t)..]) == |t|
    ensures Pieces(t + g) == Pieces(t)
  {
    var s := t + g;
    var j := WordRun(t);
    WordRunExtend(t, g);
    var tail := t[j..];
    assert s[j..] == tail + g;
    assert s[..j] == t[..j];
    GapRunOfGapPrefix(tail, g);
    GapRunOfGapPrefix(g, []);
    assert g + [] == g;
    assert s[|s|..] == [] && t[|t|..] == [];
    PiecesUnfold(s);
    PiecesUnfold(t);
  }

  /** Cutting separators off both ends of a line keeps exactly its non-empty tokens. */
  lemma {:induction false} WordSplitOfInner(s: string, i: nat, j: nat)
    requires i <= j <= |s|
    requires NoWordChars(s[..i]) && NoWordChars(s[j..])
    ensures NonEmpty(WordSplit(s[i..j])) == NonEmpty(WordSplit(s))
  {
    assert s == s[..i] + (s[i..j] + s[j..]);
    PiecesLeadingGap(s[..i], s[i..j] + s[j..]);
    PiecesTrailingGap(s[i..j], s[j..]);
    WordSplitNonEmpty(s);
    WordSplitNonEmpty(s[i..j]);
  }
}
