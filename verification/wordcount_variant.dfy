/**
  The WordCount copy of the program: the character count is the input's
  byte length, `getAllLine` keeps the non-blank lines untrimmed, validity
  also checks the chars after the fourth, and `output` joins the report with
  `\n`. Its `wordNum(String, Map)` is an unfinished stub that returns -1;
  the as-written pipeline is modelled next to the one the stub was meant to
  be (Main's tokenizer with this copy's validity rule).
 */
module WordCountVariant {
  import opened Wrappers
  import opened Text
  import opened Tokenize
  import opened Validity
  import opened Ranking
  import opened TopWords
  import opened Counting
  import opened Format
  import M = MainVariant

  /** `getAllLine`: the `\n`-separated segments that are not blank, in order and untrimmed. */
  method GetAllLine(text: string) returns (lines: seq<string>)
    ensures lines == KeepNonBlank(Fields(text, '\n'))
    ensures forall i | 0 <= i < |lines| :: NonBlank(lines[i])
  {
    var split := SplitOn(text, '\n');
    lines := [];
    var i := 0;
    while i < |split|
      invariant 0 <= i <= |split|
      invariant lines == KeepNonBlank(split[..i])
    {
      KeepNonBlankStep(split, i);
      if Trim(split[i]) != [] {
        lines := lines + [split[i]];
      }
      i := i + 1;
    }
    assert split[..i] == split;
    SplitOnKeepsNonBlankFields(text, '\n');
  }

  /** The stub `wordNum(String, Map)`: reports -1 and leaves the table alone. */
  function WordNumLineStub(line: string, m: map<string, nat>): (r: Counted)
    ensures r.num < 0
    ensures r.words == m
  {
    Counted(-1, m)
  }

  /** `wordNum(List, Map)` of this copy as written, on top of the stub. */
  function WordNumLinesAsWritten(lines: seq<string>, m: map<string, nat>): (r: Counted)
    ensures r.num == -|lines|
    ensures r.words == m
    decreases |lines|
  {
    if lines == [] then Counted(0, m)
    else
      var c := WordNumLineStub(Lower(lines[0]), m);
      var rest := WordNumLinesAsWritten(lines[1..], c.words);
      Counted(c.num + rest.num, rest.words)
  }

  /** `main` as written: the words line reports minus the line count and no word is listed. */
  method RunAsWritten(raw: seq<bv8>, text: string) returns (out: string)
    ensures var lines := KeepNonBlank(Fields(text, '\n'));
      out == Join(Header(|raw|, -|lines|, |lines|), '\n')
  {
    var lines := GetAllLine(text);
    out := CountAndOutputAsWritten(|raw|, lines);
  }

  /** The rest of `main` as written, once the lines are stored. */
  method CountAndOutputAsWritten(charNum: int, lines: seq<string>) returns (out: string)
    ensures out == Join(Header(charNum, -|lines|, |lines|), '\n')
  {
    var lineNum := |lines|;
    var c := WordNumLinesAsWritten(lines, map[]);
    var heap := FillTopWords(c.words);
    out := Output(charNum, c.num, lineNum, heap, M.Top);
    EmptyQueueReport(charNum, c.num, lineNum, heap, M.Top);
  }

  /** With nothing in the queue the output is the three count lines. */
  lemma EmptyQueueReport(chars: int, words: int, lines: int, heap: seq<Word>, top: int)
    requires heap == []
    ensures Join(ReportLines(chars, words, lines, PollTop(heap, top)), '\n') == Join(Header(chars, words, lines), '\n')
  {
    assert ReportLines(chars, words, lines, []) == Header(chars, words, lines);
  }

  /**
    `main` with the stub replaced by Main's tokenizer: the counts and the
    top words of the untrimmed stored lines, under this copy's validity
    rule, written as one `\n`-joined string.
   */
  method Run(raw: seq<bv8>, text: string) returns (out: string)
    ensures var lines := KeepNonBlank(Fields(text, '\n'));
      var c := WordNumLines(WordCountRule, lines, map[]);
      out == Join(ReportLines(|raw|, c.num, |lines|, PollTop(Ranked(c.words), M.Top)), '\n')
  {
    var charNum := |raw|;
    var lines := GetAllLine(text);
    var lineNum := |lines|;
    var c := WordNumLines(WordCountRule, lines, map[]);
    var heap := FillTopWords(c.words);
    out := Output(charNum, c.num, lineNum, heap, M.Top);
  }

  /** On a line holding two words the stub reports -1 and counts nothing. */
  lemma StubReportsNegativeWords()
    ensures WordNumLinesAsWritten(["File file"], map[]) == Counted(-1, map[])
  {
  }

  /** On the same line the corrected count is 2, both under the key "file". */
  lemma CorrectedCountsWords()
    ensures WordNumLines(WordCountRule, ["File file"], map[]) == Counted(2, map["file" := 2])
  {
    assert LineTokens(["File file"]) == ["file", "file"] by {
      TwoWordsExample();
      assert LineTokens(["File file"]) == WordSplit(Lower("File file")) + LineTokens([]);
    }
    TallyTwice();
  }

  lemma TallyTwice()
    ensures Tally(WordCountRule, ["file", "file"], map[]) == Counted(2, map["file" := 2])
  {
    var w := "file";
    assert IsValidWord(WordCountRule, w) by {
      assert LettersBetween(w, 0, MinWordLength);
      assert AlnumsBetween(w, MinWordLength, |w|);
    }
    assert Increment(map[], w) == map[w := 1];
    assert Increment(map[w := 1], w) == map[w := 2];
    assert Tally(WordCountRule, [w, w][2..], map[w := 2]) == Counted(0, map[w := 2]);
    assert Tally(WordCountRule, [w, w][1..], map[w := 1]) == Counted(1, map[w := 2]);
  }

  lemma TwoWordsExample()
    ensures WordSplit(Lower("File file")) == ["file", "file"]
  {
    var line := "File file";
    var low := "file file";
    var w := "file";
    assert Lower(line) == low by {
      assert forall i | 0 <= i < |low| :: Lower(line)[i] == low[i];
    }
    assert Weave([w, w], [" "]) == low;
    WordSplitOfWeave([w, w], [" "]);
  }

  /* --------------------------------------------- the two copies side by side */

  /**
    The character counts agree exactly on pure ASCII text: WordCount counts
    the UTF-8 bytes of the text, Main its UTF-16 code units.
   */
  lemma CharCountsAgreeOnAscii(raw: seq<bv8>, text: string)
    requires |raw| == Utf8Length(text)
    ensures |raw| >= M.CharNum(Some(text))
    ensures |raw| == M.CharNum(Some(text)) <==> forall i | 0 <= i < |text| :: text[i] as int < 0x80
  {
  }

  /** Without an underscore in any stored line, both validity rules count the same words. */
  lemma {:induction false} WordNumLinesAgreeWithoutUnderscore(lines: seq<string>, m: map<string, nat>)
    requires forall i | 0 <= i < |lines| :: '_' !in lines[i]
    ensures WordNumLines(MainRule, lines, m) == WordNumLines(WordCountRule, lines, m)
    decreases |lines|
  {
    if lines != [] {
      var low := Lower(lines[0]);
      forall j | 0 <= j < |low|
        ensures low[j] != '_'
      {
      }
      VariantsAgreeWithoutUnderscore(low, m);
      var c := WordNumLine(MainRule, low, m);
      WordNumLinesAgreeWithoutUnderscore(lines[1..], c.words);
    }
  }

  /** A char the text lacks is in none of its stored lines. */
  lemma StoredLinesLack(text: string, c: char)
    requires c !in text
    ensures forall i | 0 <= i < |KeepNonBlank(Fields(text, '\n'))| :: c !in KeepNonBlank(Fields(text, '\n'))[i]
  {
    var f := Fields(text, '\n');
    var lines := KeepNonBlank(f);
    KeepNonBlankMembers(f);
    FieldsJoin(text, '\n');
    forall i | 0 <= i < |lines|
      ensures c !in lines[i]
    {
      var k :| 0 <= k < |f| && f[k] == lines[i];
      if c in f[k] {
        CharOfPartInJoin(f, '\n', k, c);
      }
    }
  }

  /** On text without an underscore, Main's count of its trimmed lines equals the corrected WordCount count. */
  lemma CountsAgreeWithoutUnderscore(text: string)
    requires '_' !in text
    ensures var lines := KeepNonBlank(Fields(text, '\n'));
      WordNumLines(MainRule, TrimAll(lines), map[]) == WordNumLines(WordCountRule, lines, map[])
  {
    var lines := KeepNonBlank(Fields(text, '\n'));
    StoredLinesLack(text, '_');
    WordNumLinesAgreeWithoutUnderscore(lines, map[]);
    WordNumLinesOfTrimmed(MainRule, lines, map[]);
  }

  /** Every listed word is made of word chars, so none holds a line feed. */
  lemma ListedWordsAreWords(v: Variant, lines: seq<string>, top: int)
    ensures var polled := PollTop(Ranked(WordNumLines(v, lines, map[]).words), top);
      forall i | 0 <= i < |polled| :: AllWordChars(polled[i].value)
  {
    var words := WordNumLines(v, lines, map[]).words;
    WordNumLinesKeysAreWords(v, lines);
    PolledKeys(words, top, set k | k in words && AllWordChars(k));
  }

  /**
    On ASCII text without an underscore whose byte count is its UTF-8
    length, cutting the corrected WordCount output at each `\n` gives
    exactly the lines Main prints for the same text.
   */
  lemma CorrectedOutputMatchesMain(raw: seq<bv8>, text: string)
    requires |raw| == Utf8Length(text)
    requires forall i | 0 <= i < |text| :: text[i] as int < 0x80
    requires '_' !in text
    ensures var lines := KeepNonBlank(Fields(text, '\n'));
      var c := WordNumLines(WordCountRule, lines, map[]);
      var stored := TrimAll(lines);
      var cm := WordNumLines(MainRule, stored, map[]);
      Fields(Join(ReportLines(|raw|, c.num, |lines|, PollTop(Ranked(c.words), M.Top)), '\n'), '\n')
        == ReportLines(JavaLength(text), cm.num, |stored|, PollTop(Ranked(cm.words), M.Top))
  {
    var lines := KeepNonBlank(Fields(text, '\n'));
    var c := WordNumLines(WordCountRule, lines, map[]);
    CountsAgreeWithoutUnderscore(text);
    ListedWordsLackLineFeed(WordCountRule, lines, M.Top);
    OutputSplitsIntoReportLines(|raw|, c.num, |lines|, PollTop(Ranked(c.words), M.Top));
  }

  lemma ListedWordsLackLineFeed(v: Variant, lines: seq<string>, top: int)
    ensures var polled := PollTop(Ranked(WordNumLines(v, lines, map[]).words), top);
      forall i | 0 <= i < |polled| :: '\n' !in polled[i].value
  {
    ListedWordsAreWords(v, lines, top);
    assert !IsWordChar('\n');
  }
}
