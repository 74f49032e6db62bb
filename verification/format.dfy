/**
  The report both copies produce: three count lines followed by one line
  per polled word. Main prints the lines one by one; WordCount joins them
  with `\n` into one string, with no newline after the last line.
 */
module Format {
  import opened Text
  import opened Ranking
  import opened TopWords

  function DigitChar(d: nat): (c: char)
    requires d < 10
    ensures IsAsciiDigit(c) && c as int - '0' as int == d
  {
    ('0' as int + d) as char
  }

  predicate AllDigits(s: string) {
    forall i | 0 <= i < |s| :: IsAsciiDigit(s[i])
  }

  /** Reference reading of a decimal digit string, most significant digit first. */
  function ParseDigits(s: string): nat
    requires AllDigits(s)
  {
    if s == [] then 0
    else 10 * ParseDigits(s[..|s| - 1]) + (s[|s| - 1] as int - '0' as int)
  }

  /** `String.valueOf` of a non-negative `int`: decimal digits without leading zeros. */
  function NatToString(n: nat): (s: string)
    ensures |s| >= 1 && AllDigits(s)
    ensures ParseDigits(s) == n
    ensures s[0] == '0' ==> s == "0"
    decreases n
  {
    if n < 10 then [DigitChar(n)]
    else
      var s := NatToString(n / 10) + [DigitChar(n % 10)];
      assert s[..|s| - 1] == NatToString(n / 10);
      s
  }

  /** `String.valueOf` of an `int`: a minus sign before the digits of a negative value. */
  function IntToString(i: int): (s: string)
    ensures |s| >= 1
    ensures IsAsciiDigit(s[|s| - 1])
    ensures i < 0 <==> s[0] == '-'
    ensures forall k | (if i < 0 then 1 else 0) <= k < |s| :: IsAsciiDigit(s[k])
  {
    if i < 0 then "-" + NatToString(-i) else NatToString(i)
  }

  /** A printed number never holds a line feed. */
  lemma IntToStringHasNoLineFeed(i: int)
    ensures '\n' !in IntToString(i)
  {
    var s := IntToString(i);
    if i < 0 {
      assert s == "-" + NatToString(-i);
    }
  }

  /** Reading the printed number back gives the number. */
  lemma IntToStringRoundTrip(i: int)
    ensures var s := IntToString(i);
      && (i < 0 <==> s[0] == '-')
      && (i >= 0 ==> AllDigits(s) && ParseDigits(s) == i)
      && (i < 0 ==> AllDigits(s[1..]) && ParseDigits(s[1..]) == -i)
  {
    if i < 0 {
      assert IntToString(i)[1..] == NatToString(-i);
    }
  }

  /** Distinct numbers print differently. */
  lemma IntToStringInjective(a: int, b: int)
    requires IntToString(a) == IntToString(b)
    ensures a == b
  {
    IntToStringRoundTrip(a);
    IntToStringRoundTrip(b);
  }

  /** One word line, `<word>: <count>`. */
  function WordLine(w: Word): string {
    w.value + ": " + IntToString(w.times)
  }

  /** The three count lines. */
  function Header(chars: int, words: int, lines: int): seq<string> {
    ["characters: " + IntToString(chars), "words: " + IntToString(words), "lines: " + IntToString(lines)]
  }

  function WordLines(polled: seq<Word>): (r: seq<string>)
    ensures |r| == |polled|
    ensures forall i | 0 <= i < |r| :: r[i] == WordLine(polled[i])
  {
    seq(|polled|, i requires 0 <= i < |polled| => WordLine(polled[i]))
  }

  /** The three count lines followed by one line per polled word. */
  function ReportLines(chars: int, words: int, lines: int, polled: seq<Word>): (r: seq<string>)
    ensures |r| == 3 + |polled|
  {
    Header(chars, words, lines) + WordLines(polled)
  }

  lemma ReportLinesSnoc(chars: int, words: int, lines: int, polled: seq<Word>, w: Word)
    ensures ReportLines(chars, words, lines, polled + [w]) == ReportLines(chars, words, lines, polled) + [WordLine(w)]
  {
    assert WordLines(polled + [w]) == WordLines(polled) + [WordLine(w)];
  }

  /** Polling one more word adds its line to the report. */
  lemma ReportLinesStep(chars: int, words: int, lines: int, heap: seq<Word>, n: nat)
    requires n < |heap|
    ensures ReportLines(chars, words, lines, heap[..n + 1]) == ReportLines(chars, words, lines, heap[..n]) + [WordLine(heap[n])]
  {
    assert heap[..n + 1] == heap[..n] + [heap[n]];
    ReportLinesSnoc(chars, words, lines, heap[..n], heap[n]);
  }

  /**
    `printResult` of the Main copy: prints the three counts, then polls and
    prints words while the queue is non-empty and `top` has not reached zero.
   */
  method PrintResult(chars: int, words: int, lines: int, heap: seq<Word>, top: int) returns (out: seq<string>)
    ensures out == ReportLines(chars, words, lines, PollTop(heap, top))
  {
    out := Header(chars, words, lines);
    var n := 0;
    var t := top;
    while n < |heap| && t != 0
      invariant 0 <= n <= |heap|
      invariant t == top - n
      invariant top >= 0 ==> n <= top
      invariant out == ReportLines(chars, words, lines, heap[..n])
      decreases |heap| - n
    {
      t := t - 1;
      var w := heap[n];
      ReportLinesStep(chars, words, lines, heap, n);
      out := out + [WordLine(w)];
      n := n + 1;
    }
    PolledAll(heap, top, n);
  }

  /** The output loops stop once the queue is empty or `top` reaches zero, having polled `PollTop`. */
  lemma PolledAll(heap: seq<Word>, top: int, n: nat)
    requires n <= |heap| && (top >= 0 ==> n <= top)
    requires n == |heap| || top - n == 0
    ensures heap[..n] == PollTop(heap, top)
  {
  }

  /** The printed report: the counts first, then the polled words one per line, at most `top` of them. */
  lemma ReportLinesLayout(chars: int, words: int, lines: int, heap: seq<Word>, top: int)
    ensures var out := ReportLines(chars, words, lines, PollTop(heap, top));
      && (top >= 0 ==> |out| == 3 + Min(top, |heap|))
      && (top < 0 ==> |out| == 3 + |heap|)
      && out[0] == "characters: " + IntToString(chars)
      && out[1] == "words: " + IntToString(words)
      && out[2] == "lines: " + IntToString(lines)
      && forall i | 3 <= i < |out| :: out[i] == WordLine(heap[i - 3])
  {
    var p := PollTop(heap, top);
    var h := Header(chars, words, lines);
    var out := h + WordLines(p);
    assert |h| == 3;
    forall i | 3 <= i < |out|
      ensures out[i] == WordLine(heap[i - 3])
    {
      assert out[i] == WordLines(p)[i - 3];
    }
  }

  /** The string builder's first three lines. */
  lemma HeaderJoined(chars: int, words: int, lines: int)
    ensures Join(Header(chars, words, lines), '\n') ==
              "characters: " + IntToString(chars) + "\n" + "words: " + IntToString(words) + "\n"
              + "lines: " + IntToString(lines)
  {
    var a, b, c := IntToString(chars), IntToString(words), IntToString(lines);
    JoinThree(Header(chars, words, lines), '\n');
    AppendTwo("characters: " + a + "\n", "words: ", b);
    AppendTwo("characters: " + a + "\n" + "words: " + b + "\n", "lines: ", c);
  }

  lemma AppendTwo(x: string, p: string, q: string)
    ensures x + (p + q) == x + p + q
  {
  }

  lemma JoinThree(h: seq<string>, sep: char)
    requires |h| == 3
    ensures Join(h, sep) == h[0] + [sep] + h[1] + [sep] + h[2]
  {
    assert Join(h[1..], sep) == h[1] + [sep] + Join(h[2..], sep);
  }

  /** The string builder after the three count appends: the report with no word polled yet. */
  method HeaderText(chars: int, words: int, lines: int) returns (sb: string)
    ensures sb == Join(ReportLines(chars, words, lines, []), '\n')
  {
    sb := "characters: " + IntToString(chars) + "\n" + "words: " + IntToString(words) + "\n"
      + "lines: " + IntToString(lines);
    HeaderJoined(chars, words, lines);
    assert ReportLines(chars, words, lines, []) == Header(chars, words, lines);
  }

  /** One round of the output loop appends `\n<word>: <count>`, i.e. joins one more line. */
  lemma OutputStep(chars: int, words: int, lines: int, heap: seq<Word>, n: nat, sb: string)
    requires n < |heap|
    requires sb == Join(ReportLines(chars, words, lines, heap[..n]), '\n')
    ensures sb + "\n" + heap[n].value + ": " + IntToString(heap[n].times) == Join(ReportLines(chars, words, lines, heap[..n + 1]), '\n')
  {
    ReportLinesStep(chars, words, lines, heap, n);
    JoinSnoc(ReportLines(chars, words, lines, heap[..n]), WordLine(heap[n]), '\n');
  }

  /**
    `output` of the WordCount copy: the three count lines joined by `\n`,
    then `\n<word>: <count>` for each polled word.
   */
  method Output(chars: int, words: int, lines: int, heap: seq<Word>, top: int) returns (out: string)
    ensures out == Join(ReportLines(chars, words, lines, PollTop(heap, top)), '\n')
  {
    var sb := HeaderText(chars, words, lines);
    var n := 0;
    var t := top;
    while n < |heap| && t != 0
      invariant 0 <= n <= |heap|
      invariant t == top - n
      invariant top >= 0 ==> n <= top
      invariant sb == Join(ReportLines(chars, words, lines, heap[..n]), '\n')
      decreases |heap| - n
    {
      ghost var before := sb;
      sb := sb + "\n";
      t := t - 1;
      var w := heap[n];
      sb := sb + w.value + ": " + IntToString(w.times);
      OutputStep(chars, words, lines, heap, n, before);
      n := n + 1;
    }
    PolledAll(heap, top, n);
    out := sb;
  }

  /**
    Splitting WordCount's output on `\n` gives back exactly the lines Main
    prints, when no word holds a line feed (no token of the `\W+` split does).
   */
  lemma OutputSplitsIntoReportLines(chars: int, words: int, lines: int, polled: seq<Word>)
    requires forall i | 0 <= i < |polled| :: '\n' !in polled[i].value
    ensures Fields(Join(ReportLines(chars, words, lines, polled), '\n'), '\n') == ReportLines(chars, words, lines, polled)
  {
    ReportLinesLackLineFeed(chars, words, lines, polled);
    FieldsOfJoin(ReportLines(chars, words, lines, polled), '\n');
  }

  /** No report line holds a line feed when no polled word does. */
  lemma ReportLinesLackLineFeed(chars: int, words: int, lines: int, polled: seq<Word>)
    requires forall i | 0 <= i < |polled| :: '\n' !in polled[i].value
    ensures var r := ReportLines(chars, words, lines, polled);
      forall k | 0 <= k < |r| :: '\n' !in r[k]
  {
    var h := Header(chars, words, lines);
    HeaderLacksLineFeed(chars, words, lines);
    WordLinesLackLineFeed(polled);
    assert forall k | 0 <= k < |h| :: '\n' !in h[k] by {
      forall k | 0 <= k < |h|
        ensures '\n' !in h[k]
      {
        if k == 0 {} else if k == 1 {} else {}
      }
    }
  }

  lemma HeaderLacksLineFeed(chars: int, words: int, lines: int)
    ensures var h := Header(chars, words, lines);
      '\n' !in h[0] && '\n' !in h[1] && '\n' !in h[2]
  {
    NumberLineLacksLineFeed("characters: ", chars);
    NumberLineLacksLineFeed("words: ", words);
    NumberLineLacksLineFeed("lines: ", lines);
  }

  lemma WordLinesLackLineFeed(polled: seq<Word>)
    requires forall i | 0 <= i < |polled| :: '\n' !in polled[i].value
    ensures forall k | 0 <= k < |polled| :: '\n' !in WordLines(polled)[k]
  {
    forall k | 0 <= k < |polled|
      ensures '\n' !in WordLines(polled)[k]
    {
      NumberLineLacksLineFeed(polled[k].value + ": ", polled[k].times);
    }
  }

  /** A label without a line feed followed by a number has none. */
  lemma NumberLineLacksLineFeed(prefix: string, n: int)
    requires '\n' !in prefix
    ensures '\n' !in prefix + IntToString(n)
  {
    IntToStringHasNoLineFeed(n);
  }

  /** The output ends with the last count's final digit, never with a line feed. */
  lemma OutputHasNoTrailingNewline(chars: int, words: int, lines: int, polled: seq<Word>)
    ensures var out := Join(ReportLines(chars, words, lines, polled), '\n');
      |out| > 0 && IsAsciiDigit(out[|out| - 1])
  {
    var r := ReportLines(chars, words, lines, polled);
    LastOfJoin(r, '\n');
    var last := r[|r| - 1];
    var n := if |polled| == 0 then lines else polled[|polled| - 1].times;
    assert last == (if |polled| == 0 then "lines: " else polled[|polled| - 1].value + ": ") + IntToString(n);
    assert last[|last| - 1] == IntToString(n)[|IntToString(n)| - 1];
  }

  /** A join ends with its last part. */
  lemma {:induction false} LastOfJoin(parts: seq<string>, sep: char)
    requires |parts| >= 1
    ensures var j := Join(parts, sep);
      |j| >= |parts[|parts| - 1]| && j[|j| - |parts[|parts| - 1]|..] == parts[|parts| - 1]
    decreases |parts|
  {
    if |parts| > 1 {
      LastOfJoin(parts[1..], sep);
    }
  }
}
