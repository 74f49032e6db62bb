/**
  The Main copy of the program: `charNum` is the text's `length()`,
  `lineNum` stores the trimmed non-blank lines, `wordNum` tokenizes them with
  the letters-only validity rule, and `printResult` prints the counts and at
  most ten words.
 */
module MainVariant {
  import opened Wrappers
  import opened Text
  import opened Validity
  import opened Ranking
  import opened TopWords
  import opened Counting
  import opened Format

  /** How many words the report lists at most. */
  const Top: int := 10

  /** `charNum`: zero for a null text, otherwise its length in UTF-16 code units. */
  function CharNum(text: Option<string>): (r: nat)
    ensures text.None? ==> r == 0
    ensures text.Some? ==> r == JavaLength(text.value)
    ensures text.Some? ==> r >= |text.value|
    ensures text.Some? ==> (r == |text.value| <==> forall i | 0 <= i < |text.value| :: !IsSupplementary(text.value[i]))
  {
    match text
    case None => 0
    case Some(t) => JavaLength(t)
  }

  /**
    `lineNum(text, lines)`: splits the text on `\n`, and appends the trimmed
    form of every segment that is not blank to `lines`; returns how many it
    appended. The updated list is returned alongside the count.
   */
  method LineNum(text: Option<string>, lines: seq<string>) returns (num: int, stored: seq<string>)
    ensures text.None? ==> num == 0 && stored == lines
    ensures text.Some? ==> stored == lines + TrimAll(KeepNonBlank(Fields(text.value, '\n')))
    ensures num == |stored| - |lines|
    ensures stored[..|lines|] == lines
    ensures forall i | |lines| <= i < |stored| ::
              stored[i] != [] && !IsBlank(stored[i][0]) && !IsBlank(stored[i][|stored[i]| - 1])
  {
    if text.None? {
      return 0, lines;
    }
    num, stored := StoreTextLines(text.value, lines);
  }

  /** `lineNum` on a present text. */
  method StoreTextLines(text: string, lines: seq<string>) returns (num: int, stored: seq<string>)
    ensures stored == lines + TrimAll(KeepNonBlank(Fields(text, '\n')))
    ensures num == |stored| - |lines|
    ensures stored[..|lines|] == lines
    ensures forall i | |lines| <= i < |stored| ::
              stored[i] != [] && !IsBlank(stored[i][0]) && !IsBlank(stored[i][|stored[i]| - 1])
  {
    num, stored := StoreLines(text, lines);
    StoredOfText(text, lines, stored);
  }

  /** The `lineNum` loop over the `\n`-split segments of a present text. */
  method StoreLines(text: string, lines: seq<string>) returns (num: int, stored: seq<string>)
    ensures stored == lines + TrimAll(KeepNonBlank(SplitOn(text, '\n')))
    ensures num == |stored| - |lines|
  {
    num := 0;
    stored := lines;
    var split := SplitOn(text, '\n');
    var i := 0;
    while i < |split|
      invariant 0 <= i <= |split|
      invariant stored == lines + TrimAll(KeepNonBlank(split[..i]))
      invariant num == |stored| - |lines|
    {
      var l := Trim(split[i]);
      StoredStep(split, i, lines, stored);
      if l != [] {
        num := num + 1;
        stored := stored + [l];
      }
      i := i + 1;
    }
    assert split[..i] == split;
  }

  /** What the `lineNum` loop leaves behind, stated on the text's fields. */
  lemma StoredOfText(text: string, lines: seq<string>, stored: seq<string>)
    requires stored == lines + TrimAll(KeepNonBlank(SplitOn(text, '\n')))
    ensures stored == lines + TrimAll(KeepNonBlank(Fields(text, '\n')))
    ensures stored[..|lines|] == lines
    ensures forall i | |lines| <= i < |stored| ::
              stored[i] != [] && !IsBlank(stored[i][0]) && !IsBlank(stored[i][|stored[i]| - 1])
  {
    SplitOnKeepsNonBlankFields(text, '\n');
    var kept := KeepNonBlank(Fields(text, '\n'));
    StoredHaveNoBlankEnds(kept);
    forall i | |lines| <= i < |stored|
      ensures stored[i] != [] && !IsBlank(stored[i][0]) && !IsBlank(stored[i][|stored[i]| - 1])
    {
      assert stored[i] == TrimAll(kept)[i - |lines|];
    }
  }

  /** One round of the `lineNum` loop: a non-blank segment contributes its trimmed form. */
  lemma StoredStep(split: seq<string>, i: nat, lines: seq<string>, stored: seq<string>)
    requires i < |split|
    requires stored == lines + TrimAll(KeepNonBlank(split[..i]))
    ensures lines + TrimAll(KeepNonBlank(split[..i + 1])) ==
              if Trim(split[i]) != [] then stored + [Trim(split[i])] else stored
  {
    var before := TrimAll(KeepNonBlank(split[..i]));
    assert TrimAll(KeepNonBlank(split[..i + 1])) == before + (if Trim(split[i]) != [] then [Trim(split[i])] else []) by {
      KeepNonBlankStep(split, i);
    }
    if Trim(split[i]) != [] {
      assert lines + (before + [Trim(split[i])]) == lines + before + [Trim(split[i])];
    } else {
      assert before + [] == before;
    }
  }

  /** Trimmed non-blank segments are non-empty and start and end with a non-blank char. */
  lemma StoredHaveNoBlankEnds(kept: seq<string>)
    requires forall i | 0 <= i < |kept| :: NonBlank(kept[i])
    ensures forall i | 0 <= i < |kept| ::
              var t := TrimAll(kept)[i]; t != [] && !IsBlank(t[0]) && !IsBlank(t[|t| - 1])
  {
  }

  /**
    `main` after the text is read: counts the chars, stores and counts the
    lines, counts the words of the stored lines into a fresh table, fills the
    queue and prints the report with `top` = 10.
   */
  method Run(text: string) returns (out: seq<string>)
    ensures var stored := TrimAll(KeepNonBlank(Fields(text, '\n')));
      var c := WordNumLines(MainRule, stored, map[]);
      out == ReportLines(JavaLength(text), c.num, |stored|, PollTop(Ranked(c.words), Top))
  {
    var charNum := CharNum(Some(text));
    var lineNum, lines := LineNum(Some(text), []);
    var c := WordNumLines(MainRule, lines, map[]);
    assert lines == TrimAll(KeepNonBlank(Fields(text, '\n')));
    assert lineNum == |lines|;
    var heap := FillTopWords(c.words);
    assert heap == Ranked(c.words);
    out := PrintResult(charNum, c.num, lineNum, heap, Top);
  }

  /**
    What Main prints: the length, the number of accepted tokens (which is
    also the sum of all counts), the number of non-blank lines, then
    min(10, distinct words) lines, one per word with its count, best ranked
    first.
   */
  lemma RunReport(text: string)
    ensures var stored := TrimAll(KeepNonBlank(Fields(text, '\n')));
      var c := WordNumLines(MainRule, stored, map[]);
      var out := ReportLines(JavaLength(text), c.num, |stored|, PollTop(Ranked(c.words), Top));
      && |out| == 3 + Min(Top, |c.words|)
      && out[0] == "characters: " + IntToString(JavaLength(text))
      && out[1] == "words: " + IntToString(c.num)
      && out[2] == "lines: " + IntToString(|KeepNonBlank(Fields(text, '\n'))|)
      && c.num == Total(c.words)
      && c.num == |Accepted(MainRule, LineTokens(stored))|
      && (forall i | 3 <= i < |out| :: out[i] == WordLine(Ranked(c.words)[i - 3]) && Ranked(c.words)[i - 3].value in c.words)
  {
    var stored := TrimAll(KeepNonBlank(Fields(text, '\n')));
    var c := WordNumLines(MainRule, stored, map[]);
    var q := Ranked(c.words);
    ReportLinesLayout(JavaLength(text), c.num, |stored|, q, Top);
    WordNumLinesCounts(MainRule, stored, map[]);
    assert Total(map[]) == 0;
    forall i | 0 <= i < |q|
      ensures q[i].value in c.words
    {
      assert q[i] in multiset(Entries(c.words));
    }
  }

  /** The listed words come out best first: more occurrences first, ties in alphabetical order. */
  lemma RunRanksWords(text: string)
    ensures var stored := TrimAll(KeepNonBlank(Fields(text, '\n')));
      var c := WordNumLines(MainRule, stored, map[]);
      var listed := PollTop(Ranked(c.words), Top);
      && |listed| == Min(Top, |c.words|)
      && (forall i, j | 0 <= i < j < |listed| :: RanksAhead(listed[i], listed[j]))
      && (forall i, w | 0 <= i < |listed| && w in c.words && Word(w, c.words[w]) !in listed ::
            RanksAhead(listed[i], Word(w, c.words[w])))
  {
    var stored := TrimAll(KeepNonBlank(Fields(text, '\n')));
    var c := WordNumLines(MainRule, stored, map[]);
    TopListing(c.words, Top);
  }
}
