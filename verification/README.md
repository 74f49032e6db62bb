# Word count, modelled in Dafny

A model of the word-statistics program in `src/Main.java` and
`src/WordCount.java`. The program reads a text and reports four things:

- its character count;
- the number of valid-word occurrences;
- the number of non-blank lines;
- the ten most frequent words. More occurrences rank first, and ties go to the alphabetically smaller word.

The two files are near-duplicate copies of one pipeline. Each copy is
modelled as its own code does it. Where the code is the same, the copies
share one definition:

- `Text`: the Java string operations used by the pipeline. These are
  `String.trim` (strip chars up to `' '`), `split` on one char (trailing
  empty fields dropped), ASCII lower-casing, and `length()` in UTF-16 code
  units. The module also has the UTF-8 byte length of section 3 of RFC 3629.
- `Tokenize`: `line.split("\\W+")`, written by hand over the word-char class
  `[A-Za-z0-9_]`. A leading empty token is kept and trailing empty ones are
  dropped.
- `Validity`: `isValidWord` in both forms. The `Variant` datatype says which
  copy's rule applies.
- `Ranking`: the `Word` record, `String.compareTo` and `WordComparator.compare`.
- `TopWords`: the `PriorityQueue<Word>`, modelled as the sequence of its
  elements in poll order. It covers `offer`, the poll loop (`PollTop`) and
  `fillTopWords`.
- `Counting`: the frequency table as `map<string, nat>`, plus both
  `wordNum` overloads.
- `Format`: `String.valueOf` of an `int`, and the report. `printResult`
  produces one line per `println`. `output` builds one `\n`-joined string.
- `MainVariant` and `WordCountVariant`: each copy's `main`, from the text to
  the report. `MainVariant` also holds `charNum` and `lineNum`, and
  `WordCountVariant` holds `getAllLine`.

`WordCount.wordNum(String, Map)` is an unfinished stub that returns -1. The
WordCount pipeline is modelled twice: once as written on top of the stub,
and once with the stub replaced by Main's tokenizer under WordCount's
validity rule (see Findings). Several lemmas compare the two copies. When
both copies are given the same ASCII text without `_`, whose byte count is
its UTF-8 length, the corrected WordCount output cut at each `\n` is exactly
the list of lines Main prints.

Where the code and the written requirements differ, the model follows the code:

- Tokens are split on `\W`, so `_` is a word char. The requirements treat
  every non-alphanumeric char as a separator.
- Main's `isValidWord` never looks past the fourth char. WordCount's also
  rejects a later char that is not a letter or digit.
- Main counts characters with `String.length()`, which gives UTF-16 code
  units. WordCount counts the bytes read.
- WordCount keeps the stored lines untrimmed. `Counting.WordNumLinesOfTrimmed`
  shows this does not change any count.

## Model

| member | source | states |
|---|---|---|
| Validity.IsValidWord | src/WordCount.java:185-206 | Under length 4 the token is rejected. Otherwise it is accepted exactly when its first four chars are ASCII letters and, for the WordCount copy only, every later char is an ASCII letter or digit. |
| Validity.ValidityExamples | src/WordCount.java:186-205 | Both copies accept "abcd", "abcd1" and "file123", and reject "abc", "abc1", "ab1d" and "123file". "file_name" is a word for Main but not for WordCount. |
| Validity.WordCountStricter | src/Main.java:187-200 | Every token WordCount's rule accepts is also accepted by Main's rule. |
| Validity.VariantsDifferOnlyOnUnderscore | src/WordCount.java:198-204 | On a token made of `[A-Za-z0-9_]`, WordCount accepts exactly when Main accepts and no `_` follows the first four chars. |
| Ranking.CompareTo | src/WordCount.java:149 | `String.compareTo` is zero exactly when the two strings are equal. |
| Ranking.CompareToMeansLexBefore | src/WordCount.java:149 | `compareTo` is negative exactly when the first string comes first in lexicographic order on code points. A proper prefix comes first. |
| Ranking.CompareToAntisymmetric | src/Main.java:105 | Swapping the arguments of `compareTo` negates its result. |
| Ranking.Compare | src/WordCount.java:141-151 | The larger `times` makes the result negative whatever the words, the smaller makes it positive. The result is zero only when both count and word are equal. |
| Ranking.CompareMeansRanksAhead | src/WordCount.java:141-151 | `compare(a, b) < 0` exactly when `a` ranks ahead of `b`: more occurrences, or the same count and a lexicographically smaller word. |
| Ranking.CompareAntisymmetric | src/WordCount.java:144-150 | `compare(b, a) == -compare(a, b)`. |
| Ranking.PrecedesTransitive | src/Main.java:97-107 | The comparator's order is transitive, which the priority queue relies on. |
| Ranking.PrecedesTotal | src/Main.java:97-107 | Any two records are ordered one way or the other. |
| Ranking.TieBreakExample | src/WordCount.java:141-151 | With equal counts, windows2000 comes before windows95 and windows95 before windows98. A larger count wins whatever the words. |
| Text.Lower | src/Main.java:158 | `toLowerCase` keeps the length and maps each char on its own. `A`–`Z` go to `a`–`z` and every other char is kept, so no ASCII capital is left. |
| Text.Trim | src/Main.java:123 | `trim` gives the empty string exactly when every char is at most `' '`. Otherwise the result starts and ends with a char above `' '`. |
| Text.TrimIsInner | src/Main.java:123 | `trim` only cuts chars at most `' '` from the two ends. The result is a slice of the input. |
| Text.FieldsJoin | src/Main.java:122 | No field of a `\n` split holds a `\n`, and joining the fields with `\n` gives back the text. |
| Text.FieldsOfJoin | src/WordCount.java:84 | Splitting a `\n`-join of parts that hold no `\n` gives back the parts. |
| Text.SplitOn | src/WordCount.java:84 | `split("\n")` returns the whole text when it holds no `\n`. Otherwise it returns a prefix of the `\n` fields that is empty or ends in a non-empty field, and every field it drops is empty. |
| Text.SplitOnExamples | src/Main.java:122 | `split("\n")` turns "a\n\nb\n\n" into ["a", "", "b"], keeping the inner empty field, and turns "\n" into an empty array. |
| Text.SplitOnKeepsNonBlankFields | src/WordCount.java:84-90 | Dropping trailing empty fields, as Java's `split` does, never changes which non-blank segments are kept. |
| Text.JavaLength | src/Main.java:144 | `length()` is at least the number of code points. It equals that number exactly when no char lies outside the Basic Multilingual Plane. |
| Text.Utf8Length | src/WordCount.java:59-60 | The UTF-8 byte length is at least `length()`. The two are equal exactly when every char is ASCII. |
| Tokenize.WordSplit | src/Main.java:165 | Every token consists of `[A-Za-z0-9_]` chars, and every token after the first is non-empty. A line made only of word chars is a single token. |
| Tokenize.WordSplitOfWeave | src/Main.java:165 | Word-char tokens alternated with non-empty separator runs split back into the tokens, without trailing empty ones. |
| Tokenize.WordSplitOfInner | src/Main.java:165 | Separators added around a line do not change its non-empty tokens. |
| Tokenize.WordSplitLack | src/Main.java:165 | A char the line lacks is in none of its tokens. |
| Counting.Increment | src/Main.java:170-174 | The word's count goes up by one, or becomes 1 when it was absent. Every other key keeps its count. |
| Counting.Tally | src/Main.java:166-178 | The result is the number of accepted tokens. Each key's count grew by the key's number of accepted occurrences. |
| Counting.TallyKeys | src/Main.java:169-176 | The table's keys afterwards are the old keys plus the accepted tokens. |
| Counting.TallyTotal | src/Main.java:169-176 | The sum of all counts grows by exactly the returned number. |
| Counting.TallyKeeps | src/Main.java:169-176 | Keys that were not accepted keep their counts, and positive counts stay positive. |
| Counting.WordNumLine | src/Main.java:164-179 | The returned count is the number of `\W+` tokens of the line that pass the validity rule. The sum of all counts in the table grows by exactly that number. Each key's count grows by its accepted occurrences. Every new key is a valid word made of word chars. |
| Counting.WordNumLines | src/Main.java:154-162 | Counting the lines one by one equals one tally over the tokens of every lower-cased line, in order. |
| Counting.WordNumLinesCounts | src/Main.java:154-179 | The result is the number of accepted tokens over all lines, and the table total grows by it. Counts stay positive, and keys stay lower-case. |
| Counting.CaseInsensitiveExample | src/Main.java:154-161 | The line "File file FILE" counts 3 words, all under the single key "file". |
| Counting.WordNumLinesOfTrimmed | src/Main.java:123-128 | Trimming the lines before counting, as Main does, gives the same count and table as counting the untrimmed lines. |
| Counting.VariantsAgreeWithoutUnderscore | src/Main.java:164-179 | On a line without `_`, the two validity rules give the same count and table. |
| TopWords.Offer | src/WordCount.java:217 | `offer` keeps the queue in poll order and adds exactly the offered element. |
| TopWords.PollTop | src/WordCount.java:100-104 | With a negative `top` the loop drains the queue. Otherwise it polls the first `min(top, size)` elements in order. |
| TopWords.SortedUnique | src/WordCount.java:214-219 | Two queues in poll order holding the same elements are equal, so insertion order does not matter. |
| TopWords.FillTopWords | src/WordCount.java:214-219 | Whatever order the map hands out its entries, the queue holds exactly one `Word(key, count)` per entry. Its length is the number of distinct words, in the unique ranking order. |
| TopWords.PolledAreEntries | src/Main.java:208-213 | Every polled record is a table entry with that entry's count. |
| TopWords.PolledInRankOrder | src/Main.java:74-78 | The polled records come out best first. Every record left in the queue ranks behind every polled one. |
| TopWords.TopListing | src/WordCount.java:100-104 | Polling lists `min(top, distinct words)` records, each ranked ahead of the later ones and of every unlisted word. |
| Format.IntToString | src/WordCount.java:96-98 | Appending an `int` writes a `-` exactly when the value is negative, followed by decimal digits only. |
| Format.NatToString | src/WordCount.java:96-98 | The printed count is decimal digits with no leading zero, and reading them back gives the number. |
| Format.IntToStringRoundTrip | src/Main.java:71-73 | A negative number prints as `-` before its digits. Reading the digits back gives the number. |
| Format.IntToStringInjective | src/Main.java:71-73 | Different numbers print differently. |
| Format.PrintResult | src/Main.java:70-79 | The printed lines are the three count lines followed by one `<word>: <count>` line for each polled word. |
| Format.ReportLinesLayout | src/Main.java:70-79 | The report has 3 + min(top, queue size) lines: "characters: ", "words: " and "lines: " with their counts, then the queue's records in order. |
| Format.HeaderJoined | src/WordCount.java:95-98 | The builder's first appends give the three count lines joined by `\n`. |
| Format.Output | src/WordCount.java:94-107 | The built string is the report lines joined by `\n`: the three count lines, then `\n<word>: <count>` for each polled word. |
| Format.OutputHasNoTrailingNewline | src/WordCount.java:100-105 | The output is non-empty and ends with a digit, never with a line feed. |
| Format.OutputSplitsIntoReportLines | src/WordCount.java:94-105 | When no listed word holds a `\n`, cutting the output at each `\n` gives back exactly the report lines. |
| MainVariant.CharNum | src/Main.java:140-145 | A null text counts 0 chars. Otherwise the count is `length()`, which equals the number of code points exactly when no char lies outside the Basic Multilingual Plane. |
| MainVariant.LineNum | src/Main.java:117-132 | A null text adds nothing and returns 0. Otherwise the trimmed non-blank `\n` segments are appended in order, and the number appended is returned. Earlier entries are kept. Every new entry is non-empty, with no char at most `' '` at either end. |
| MainVariant.Run | src/Main.java:59-67 | Main reports `length()`, the count of its stored lines' words, the number of stored lines, and the top 10 records in ranking order. |
| MainVariant.RunReport | src/Main.java:59-79 | The report has 3 + min(10, distinct words) lines. The words count is both the accepted-token count and the sum of all counts. The lines count is the number of non-blank segments. Each word line shows a table entry. |
| MainVariant.RunRanksWords | src/Main.java:74-78 | At most 10 words are listed, best first, and each ranks ahead of every word left out. |
| WordCountVariant.GetAllLine | src/WordCount.java:83-92 | The result is exactly the non-blank `\n` segments, in order and untrimmed. |
| WordCountVariant.WordNumLineStub | src/WordCount.java:171-176 | The stub `wordNum(String, Map)` reports a negative count and leaves the table as it was. |
| WordCountVariant.WordNumLinesAsWritten | src/WordCount.java:161-176 | On top of the stub, `wordNum(List, Map)` returns minus the number of lines and leaves the table unchanged. |
| WordCountVariant.RunAsWritten | src/WordCount.java:59-80 | As written, the output is only the three count lines. The words line is minus the line count, and no word is listed. |
| WordCountVariant.StubReportsNegativeWords | src/WordCount.java:171-176 | On the line "File file" the stub pipeline reports -1 words and an empty table. |
| WordCountVariant.Run | src/WordCount.java:59-80 | With the stub replaced, the output is the `\n`-joined report: the byte count, the word count of the untrimmed stored lines under WordCount's rule, the line count, and the top 10 records. |
| WordCountVariant.CorrectedCountsWords | src/WordCount.java:161-169 | With the stub replaced, the line "File file" counts 2 words under the key "file". |
| WordCountVariant.CharCountsAgreeOnAscii | src/WordCount.java:60 | When the byte count equals the text's UTF-8 length, it is at least Main's `length()`. The two are equal exactly when the text is ASCII. |
| WordCountVariant.CountsAgreeWithoutUnderscore | src/WordCount.java:65-74 | On text without `_`, Main's count of its trimmed lines equals the corrected WordCount count of the untrimmed ones. |
| WordCountVariant.CorrectedOutputMatchesMain | src/WordCount.java:94-107 | When both copies are given the same ASCII text without `_`, whose byte count is its UTF-8 length, cutting the corrected WordCount output at each `\n` gives exactly the lines Main prints. |

## Left out

- File and console I/O is not modelled: `readAllBytes`, `readAllLines`, `contentToFile`/`FileWriter`, the `System.out` calls and the argument check. The text and the bytes read are parameters. `output` returns the string it would write, and `printResult` returns the lines it would print.
- UTF-8 decoding in `getChars` is a library call. The decoded text and the raw bytes are separate inputs. No member assumes the bytes are the text's encoding. `WordCountVariant.CharCountsAgreeOnAscii` and `WordCountVariant.CorrectedOutputMatchesMain` only assume that the byte count equals the text's UTF-8 length. A `char[]` from `cb.array()` that is longer than the decoded content is not modelled. On non-ASCII input the decoder sizes that array at one char per byte, so the real text ends in `'\0'` padding (src/WordCount.java:47-48, 62). By this reading the padding changes no line or word count. `'\0'` is at most `' '`, so `trim` strips it and a segment of padding alone is blank. It is also a `\W` char, so it only ends the last word.
- How Main rebuilds the text from `readAllLines` is not modelled, since it depends on the library stripping line terminators. `MainVariant.Run` takes the text it would build.
- WordCountVariant.CorrectedOutputMatchesMain: assumes both copies see the same text. The real Main rebuilds its text from `readAllLines` and puts a `\n` after every line, and `readAllLines` also ends a line at a lone `\r`. Main's rebuilt text equals the file's text only when the file is empty or ends in `\n` and holds no `\r`. Otherwise the two programs can disagree. The file "abcd" gives WordCount `characters: 4` and Main `characters: 5`. The file "abcd\rwxyz\n" gives WordCount one line and Main two.
- Text.Lower: covers ASCII `A`–`Z` only and leaves every other char alone, while Java's `toLowerCase` follows Unicode and the default locale. The two differ where Java maps a char into or out of `[A-Za-z]`:
  - KELVIN SIGN U+212A lowers to `k`, so Java counts "\u212Aeep" as the word "keep" and the model counts no word.
  - U+0130 lowers to `i` followed by U+0307.
  - Under a Turkish default locale, `I` lowers to U+0131, which is a `\W` char, so Java counts no word in "FILE" and the model counts one.
- Ranking.CompareTo: orders and subtracts code points, while Java's `compareTo` works on UTF-16 code units. The two disagree on text outside the Basic Multilingual Plane. For example, U+FFFF comes before U+10000 here, but after its surrogate pair U+D800 U+DC00 in Java. Only keys made of `[A-Za-z0-9_]` reach the comparator, so the report itself is the same.
- The Java regex engine is not modelled. `\W+` splitting is written out by hand.
- Counts and lengths are unbounded integers. 32-bit overflow is not modelled. The comparator avoids subtraction in the source too.
- `HashMap` and `PriorityQueue` internals are not modelled. The table is a `map`, and the queue is the sequence in poll order. The map's iteration order in `fillTopWords` is an arbitrary choice, and every choice gives the same queue.
- The `result` map of the three totals is not modelled. The three totals are passed as separate numbers.

## Findings

| source | as written | input that shows it | evidently intended | confidence | as-written member | corrected member |
|---|---|---|---|---|---|---|
| src/WordCount.java:171-176 | `wordNum(String, Map)` is a stub that returns -1 and never tokenizes. The report's words line is minus the number of stored lines, and no word is ever listed. | the text "File file" | Tokenize the line on `\W+` and count the valid tokens into the map, as `src/Main.java:164-179` does. This gives "words: 2" and "file: 2". | not executed | WordCountVariant.StubReportsNegativeWords | WordCountVariant.CorrectedCountsWords |
