/**
  The frequency table and `wordNum`. `wordNum(String, Map)` splits one
  line on `\W+`, keeps the tokens `isValidWord` accepts, bumps their counts
  (inserting 1 for a new word) and returns how many it kept;
  `wordNum(List, Map)` lower-cases each stored line, runs the former on it
  and adds up the results.
 */
module Counting {
  import opened Text
  import opened Tokenize
  import opened Validity

  /** What `wordNum` returns, with the frequency table it leaves behind. */
  datatype Counted = Counted(num: int, words: map<string, nat>)

  /** The count of `k`, zero when the table has no entry for it. */
  function Get(m: map<string, nat>, k: string): nat {
    if k in m then m[k] else 0
  }

  /** One `if (containsKey) put(w, get(w) + 1) else put(w, 1)`. */
  function Increment(m: map<string, nat>, w: string): (r: map<string, nat>)
    ensures r.Keys == m.Keys + {w}
    ensures r[w] == Get(m, w) + 1
    ensures forall k | k in m && k != w :: r[k] == m[k]
  {
    if w in m then m[w := m[w] + 1] else m[w := 1]
  }

  /** Every stored count is at least one. */
  predicate Positive(m: map<string, nat>) {
    forall k | k in m :: m[k] >= 1
  }

  /** Every key is lower-case. */
  predicate LowerKeys(m: map<string, nat>) {
    forall k | k in m :: NoUpper(k)
  }

  /* ------------------------------------------------- sum of all counts */

  /** The sum of all counts in the table. */
  ghost function Total(m: map<string, nat>): nat
    decreases |m|
  {
    if m == map[] then 0
    else
      var k :| k in m;
      assert (m - {k}).Keys == m.Keys - {k};
      m[k] + Total(m - {k})
  }

  /** Any entry can be taken out of the sum first. */
  lemma {:induction false} TotalRemove(m: map<string, nat>, k: string)
    requires k in m
    ensures Total(m) == m[k] + Total(m - {k})
    decreases |m|
  {
    var j :| j in m && Total(m) == m[j] + Total(m - {j});
    if j != k {
      assert (m - {j}).Keys == m.Keys - {j};
      assert (m - {k}).Keys == m.Keys - {k};
      TotalRemove(m - {j}, k);
      TotalRemove(m - {k}, j);
      assert m - {j} - {k} == m - {k} - {j};
    }
  }

  /** One increment adds exactly one to the sum. */
  lemma TotalIncrement(m: map<string, nat>, w: string)
    ensures Total(Increment(m, w)) == Total(m) + 1
  {
    var r := Increment(m, w);
    TotalRemove(r, w);
    assert r - {w} == m - {w};
    if w in m {
      TotalRemove(m, w);
    } else {
      assert m - {w} == m;
    }
  }

  /* ------------------------------------------------- counting tokens */

  /** The tokens `isValidWord` accepts, in order. */
  function Accepted(v: Variant, ts: seq<string>): (r: seq<string>)
    ensures |r| <= |ts|
    ensures forall i | 0 <= i < |r| :: IsValidWord(v, r[i])
  {
    if ts == [] then []
    else if IsValidWord(v, ts[0]) then [ts[0]] + Accepted(v, ts[1..])
    else Accepted(v, ts[1..])
  }

  /** The loop of `wordNum(String, Map)` over a line's tokens, in order. */
  function Tally(v: Variant, ts: seq<string>, m: map<string, nat>): (r: Counted)
    ensures r.num == |Accepted(v, ts)|
    ensures forall k :: Get(r.words, k) == Get(m, k) + multiset(Accepted(v, ts))[k]
    decreases |ts|
  {
    if ts == [] then Counted(0, m)
    else
      var t := ts[0];
      var ok := IsValidWord(v, t);
      var c := Tally(v, ts[1..], if ok then Increment(m, t) else m);
      assert ok ==> Accepted(v, ts) == [t] + Accepted(v, ts[1..]);
      Counted(c.num + (if ok then 1 else 0), c.words)
  }

  /** The table gains exactly the accepted tokens as keys. */
  lemma {:induction false} TallyKeys(v: Variant, ts: seq<string>, m: map<string, nat>)
    ensures forall k :: k in Tally(v, ts, m).words <==> k in m || k in multiset(Accepted(v, ts))
    decreases |ts|
  {
    if ts != [] {
      var t := ts[0];
      if IsValidWord(v, t) {
        TallyKeys(v, ts[1..], Increment(m, t));
        assert Accepted(v, ts) == [t] + Accepted(v, ts[1..]);
      } else {
        TallyKeys(v, ts[1..], m);
      }
    }
  }

  /** Only given tokens are accepted. */
  lemma {:induction false} AcceptedFrom(v: Variant, ts: seq<string>)
    ensures forall t | t in multiset(Accepted(v, ts)) :: t in ts
    decreases |ts|
  {
    if ts != [] {
      AcceptedFrom(v, ts[1..]);
      if IsValidWord(v, ts[0]) {
        assert Accepted(v, ts) == [ts[0]] + Accepted(v, ts[1..]);
      }
    }
  }

  /** Counts are conserved: the table's sum grows by exactly the number of accepted tokens. */
  lemma {:induction false} TallyTotal(v: Variant, ts: seq<string>, m: map<string, nat>)
    ensures Total(Tally(v, ts, m).words) == Total(m) + Tally(v, ts, m).num
    decreases |ts|
  {
    if ts != [] {
      var t := ts[0];
      if IsValidWord(v, t) {
        TotalIncrement(m, t);
        TallyTotal(v, ts[1..], Increment(m, t));
      } else {
        TallyTotal(v, ts[1..], m);
      }
    }
  }

  /** A table whose counts are all positive stays so, and keys that were not accepted keep their counts. */
  lemma TallyKeeps(v: Variant, ts: seq<string>, m: map<string, nat>)
    ensures Positive(m) ==> Positive(Tally(v, ts, m).words)
    ensures forall k | k in m && k !in Accepted(v, ts) :: k in Tally(v, ts, m).words && Tally(v, ts, m).words[k] == m[k]
  {
    var r := Tally(v, ts, m);
    var acc := Accepted(v, ts);
    TallyKeys(v, ts, m);
    if Positive(m) {
      forall k | k in r.words
        ensures r.words[k] >= 1
      {
        assert Get(r.words, k) == Get(m, k) + multiset(acc)[k];
        if k !in m {
          assert k in acc;
        }
      }
    }
  }

  /** Counting two token lists in a row is counting their concatenation. */
  lemma {:induction false} TallyAppend(v: Variant, a: seq<string>, b: seq<string>, m: map<string, nat>)
    ensures Tally(v, a + b, m) ==
              var c1 := Tally(v, a, m);
              var c2 := Tally(v, b, c1.words);
              Counted(c1.num + c2.num, c2.words)
    decreases |a|
  {
    if a != [] {
      assert (a + b)[0] == a[0];
      assert (a + b)[1..] == a[1..] + b;
      var m' := if IsValidWord(v, a[0]) then Increment(m, a[0]) else m;
      TallyAppend(v, a[1..], b, m');
    } else {
      assert a + b == b;
    }
  }

  /** The two copies count the same way on any tokens where they agree on validity. */
  lemma {:induction false} TallyVariantsAgree(ts: seq<string>, m: map<string, nat>)
    requires forall i | 0 <= i < |ts| :: IsValidWord(MainRule, ts[i]) == IsValidWord(WordCountRule, ts[i])
    ensures Tally(MainRule, ts, m) == Tally(WordCountRule, ts, m)
    decreases |ts|
  {
    if ts != [] {
      var m' := if IsValidWord(MainRule, ts[0]) then Increment(m, ts[0]) else m;
      TallyVariantsAgree(ts[1..], m');
    }
  }

  /* ------------------------------------------------------- wordNum */

  /** `wordNum(String line, Map wordMap)` of the Main copy (the WordCount copy only has a stub). */
  function WordNumLine(v: Variant, line: string, m: map<string, nat>): (r: Counted)
    ensures r.num == |Accepted(v, WordSplit(line))|
    ensures Total(r.words) == Total(m) + r.num
    ensures forall k :: Get(r.words, k) == Get(m, k) + multiset(Accepted(v, WordSplit(line)))[k]
    ensures forall k | k in r.words && k !in m :: IsValidWord(v, k) && AllWordChars(k)
  {
    var ts := WordSplit(line);
    var r := Tally(v, ts, m);
    TallyKeys(v, ts, m);
    TallyTotal(v, ts, m);
    AcceptedFrom(v, ts);
    r
  }

  /** Without an underscore in the line the two validity rules agree on every token. */
  lemma VariantsAgreeWithoutUnderscore(line: string, m: map<string, nat>)
    requires '_' !in line
    ensures WordNumLine(MainRule, line, m) == WordNumLine(WordCountRule, line, m)
  {
    var ts := WordSplit(line);
    WordSplitLack(line, '_');
    forall i | 0 <= i < |ts|
      ensures IsValidWord(MainRule, ts[i]) == IsValidWord(WordCountRule, ts[i])
    {
      VariantsDifferOnlyOnUnderscore(ts[i]);
    }
    TallyVariantsAgree(ts, m);
  }

  /** Every token of every stored line, after lower-casing, in order. */
  function LineTokens(lines: seq<string>): seq<string>
  {
    if lines == [] then [] else WordSplit(Lower(lines[0])) + LineTokens(lines[1..])
  }

  /** `wordNum(List lines, Map wordMap)`: lower-case each line, count it, add up. */
  function WordNumLines(v: Variant, lines: seq<string>, m: map<string, nat>): (r: Counted)
    ensures r.num >= 0
    ensures r == Tally(v, LineTokens(lines), m)
    decreases |lines|
  {
    if lines == [] then Counted(0, m)
    else
      var c := WordNumLine(v, Lower(lines[0]), m);
      var rest := WordNumLines(v, lines[1..], c.words);
      TallyAppend(v, WordSplit(Lower(lines[0])), LineTokens(lines[1..]), m);
      Counted(c.num + rest.num, rest.words)
  }

  /**
    What the whole count promises: the reported number is the sum the table
    gained, each word's count grew by its accepted occurrences across all
    lines, and keys stay lower-case with positive counts.
   */
  lemma WordNumLinesCounts(v: Variant, lines: seq<string>, m: map<string, nat>)
    ensures var r := WordNumLines(v, lines, m);
      && Total(r.words) == Total(m) + r.num
      && r.num == |Accepted(v, LineTokens(lines))|
      && (forall k :: Get(r.words, k) == Get(m, k) + multiset(Accepted(v, LineTokens(lines)))[k])
      && (Positive(m) ==> Positive(r.words))
      && (LowerKeys(m) ==> LowerKeys(r.words))
  {
    var ts := LineTokens(lines);
    TallyTotal(v, ts, m);
    TallyKeeps(v, ts, m);
    TallyKeys(v, ts, m);
    AcceptedFrom(v, ts);
    LineTokensNoUpper(lines);
  }

  /** Tokens of lower-cased lines have no upper-case letter. */
  lemma {:induction false} LineTokensNoUpper(lines: seq<string>)
    ensures forall i | 0 <= i < |LineTokens(lines)| :: NoUpper(LineTokens(lines)[i])
    decreases |lines|
  {
    if lines != [] {
      var head := WordSplit(Lower(lines[0]));
      LineTokensNoUpper(lines[1..]);
      WordSplitNoUpper(Lower(lines[0]));
      assert LineTokens(lines) == head + LineTokens(lines[1..]);
    }
  }

  /* ------------------------------------------- trimmed and untrimmed lines */

  /** Empty tokens are never words, so dropping them changes nothing that is counted. */
  lemma {:induction false} AcceptedNonEmpty(v: Variant, ts: seq<string>)
    ensures Accepted(v, NonEmpty(ts)) == Accepted(v, ts)
    decreases |ts|
  {
    if ts != [] {
      AcceptedNonEmpty(v, ts[1..]);
      if ts[0] != [] {
        assert NonEmpty(ts) == [ts[0]] + NonEmpty(ts[1..]);
        assert ([ts[0]] + NonEmpty(ts[1..]))[1..] == NonEmpty(ts[1..]);
      }
    }
  }

  /** The count only depends on the accepted tokens. */
  lemma TallyOfSameAccepted(v: Variant, a: seq<string>, b: seq<string>, m: map<string, nat>)
    requires Accepted(v, a) == Accepted(v, b)
    ensures Tally(v, a, m) == Tally(v, b, m)
  {
    TallyKeys(v, a, m);
    TallyKeys(v, b, m);
    SameTables(Tally(v, a, m).words, Tally(v, b, m).words);
  }

  /** Tables with the same keys and the same counts are the same table. */
  lemma SameTables(a: map<string, nat>, b: map<string, nat>)
    requires forall k :: k in a <==> k in b
    requires forall k :: Get(a, k) == Get(b, k)
    ensures a == b
  {
    forall k | k in a
      ensures a[k] == b[k]
    {
      assert Get(a, k) == Get(b, k);
    }
  }

  /** Trimming a line before counting it, as Main does, changes nothing: blanks are separators. */
  lemma WordNumLineOfTrimmed(v: Variant, line: string, m: map<string, nat>)
    ensures WordNumLine(v, Lower(Trim(line)), m) == WordNumLine(v, Lower(line), m)
  {
    TrimIsInner(line);
    var i, j :| 0 <= i <= j <= |line| && Trim(line) == line[i..j] && AllBlank(line[..i]) && AllBlank(line[j..]);
    WordNumLineOfInner(v, line, m, i, j);
  }

  /** Blanks are separators, before and after lower-casing. */
  lemma LowerBlanksHaveNoWordChars(s: string)
    requires AllBlank(s)
    ensures NoWordChars(Lower(s))
  {
    forall k | 0 <= k < |s|
      ensures !IsWordChar(Lower(s)[k])
    {
      assert IsBlank(s[k]);
    }
  }

  lemma WordNumLineOfInner(v: Variant, line: string, m: map<string, nat>, i: nat, j: nat)
    requires i <= j <= |line|
    requires AllBlank(line[..i]) && AllBlank(line[j..])
    ensures WordNumLine(v, Lower(line[i..j]), m) == WordNumLine(v, Lower(line), m)
  {
    var low := Lower(line);
    assert Lower(line[i..j]) == low[i..j];
    assert NoWordChars(low[..i]) by {
      assert low[..i] == Lower(line[..i]);
      LowerBlanksHaveNoWordChars(line[..i]);
    }
    assert NoWordChars(low[j..]) by {
      assert low[j..] == Lower(line[j..]);
      LowerBlanksHaveNoWordChars(line[j..]);
    }
    var inner := WordSplit(low[i..j]);
    var whole := WordSplit(low);
    assert Accepted(v, inner) == Accepted(v, whole) by {
      WordSplitOfInner(low, i, j);
      AcceptedNonEmpty(v, inner);
      AcceptedNonEmpty(v, whole);
    }
    TallyOfSameAccepted(v, inner, whole, m);
  }

  /** `wordNum(List, Map)` counts the first line, then the rest into the updated table. */
  lemma {:induction false} WordNumLinesUnfold(v: Variant, lines: seq<string>, m: map<string, nat>)
    requires lines != []
    ensures var c := WordNumLine(v, Lower(lines[0]), m);
      var rest := WordNumLines(v, lines[1..], c.words);
      WordNumLines(v, lines, m) == Counted(c.num + rest.num, rest.words)
  {
  }

  /** Counting trimmed lines and counting the same lines untrimmed give the same result. */
  lemma {:induction false} WordNumLinesOfTrimmed(v: Variant, lines: seq<string>, m: map<string, nat>)
    ensures WordNumLines(v, TrimAll(lines), m) == WordNumLines(v, lines, m)
    decreases |lines|
  {
    if lines != [] {
      var t := TrimAll(lines);
      assert t[1..] == TrimAll(lines[1..]);
      assert t[0] == Trim(lines[0]);
      WordNumLineOfTrimmed(v, lines[0], m);
      var c := WordNumLine(v, Lower(lines[0]), m);
      WordNumLinesOfTrimmed(v, lines[1..], c.words);
      WordNumLinesUnfold(v, t, m);
      WordNumLinesUnfold(v, lines, m);
    }
  }

  /** Every token of the stored lines is made of word chars. */
  lemma {:induction false} LineTokensAreWords(lines: seq<string>)
    ensures forall i | 0 <= i < |LineTokens(lines)| :: AllWordChars(LineTokens(lines)[i])
    decreases |lines|
  {
    if lines != [] {
      LineTokensAreWords(lines[1..]);
      assert LineTokens(lines) == WordSplit(Lower(lines[0])) + LineTokens(lines[1..]);
    }
  }

  /** Every key a count adds to the table is made of word chars. */
  lemma WordNumLinesKeysAreWords(v: Variant, lines: seq<string>)
    ensures forall k | k in WordNumLines(v, lines, map[]).words :: AllWordChars(k)
  {
    var ts := LineTokens(lines);
    LineTokensAreWords(lines);
    TallyKeys(v, ts, map[]);
    AcceptedFrom(v, ts);
    assert WordNumLines(v, lines, map[]) == Tally(v, ts, map[]);
  }

  lemma LowerExample()
    ensures Lower("File file FILE") == "file file file"
  {
    var a, b := Lower("File file FILE"), "file file file";
    assert |a| == |b|;
    forall i | 0 <= i < |a|
      ensures a[i] == b[i]
    {
    }
  }

  lemma SplitExample()
    ensures WordSplit("file file file") == ["file", "file", "file"]
  {
    var ts := ["file", "file", "file"];
    assert Weave(ts, [" ", " "]) == "file file file";
    WordSplitOfWeave(ts, [" ", " "]);
  }

  lemma TallyExample(v: Variant)
    ensures Tally(v, ["file", "file", "file"], map[]) == Counted(3, map["file" := 3])
  {
    var ts := ["file", "file", "file"];
    var w := "file";
    assert IsValidWord(v, w) by {
      assert LettersBetween(w, 0, MinWordLength);
    }
    assert Increment(map[], w) == map[w := 1];
    assert Increment(map[w := 1], w) == map[w := 2];
    assert Increment(map[w := 2], w) == map[w := 3];
    assert Tally(v, ts[3..], map[w := 3]) == Counted(0, map[w := 3]);
    assert Tally(v, ts[2..], map[w := 2]) == Counted(1, map[w := 3]);
    assert Tally(v, ts[1..], map[w := 1]) == Counted(2, map[w := 3]);
  }

  /** "File", "file" and "FILE" are one word: the table ends with the single key "file" counted three times. */
  lemma CaseInsensitiveExample(v: Variant)
    ensures WordNumLines(v, ["File file FILE"], map[]) == Counted(3, map["file" := 3])
  {
    var line := "File file FILE";
    LowerExample();
    SplitExample();
    assert LineTokens([line]) == ["file", "file", "file"] by {
      assert LineTokens([line]) == WordSplit(Lower(line)) + LineTokens([]);
    }
    TallyExample(v);
  }
}
