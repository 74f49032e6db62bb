/**
  `isValidWord`: a token is a word when it has at least four chars and the
  first four are ASCII letters. The WordCount copy of the program also
  requires every later char to be an ASCII letter or digit; the Main copy
  never looks past the fourth char.
 */
module Validity {
  import opened Text

  /** The two near-duplicate copies of the program, `Main` and `WordCount`. */
  datatype Variant = MainRule | WordCountRule

  /** The shortest token that can be a word. */
  const MinWordLength: nat := 4

  /** The loop `for (i = lo; i < hi; i++)` that gives up at the first non-letter. */
  function LettersBetween(s: string, lo: nat, hi: nat): (b: bool)
    requires lo <= hi <= |s|
    ensures b <==> forall i | lo <= i < hi :: IsAsciiLetter(s[i])
    decreases hi - lo
  {
    lo == hi || (IsAsciiLetter(s[lo]) && LettersBetween(s, lo + 1, hi))
  }

  /** The same loop, accepting letters and digits. */
  function AlnumsBetween(s: string, lo: nat, hi: nat): (b: bool)
    requires lo <= hi <= |s|
    ensures b <==> forall i | lo <= i < hi :: IsAsciiLetter(s[i]) || IsAsciiDigit(s[i])
    decreases hi - lo
  {
    lo == hi || ((IsAsciiLetter(s[lo]) || IsAsciiDigit(s[lo])) && AlnumsBetween(s, lo + 1, hi))
  }

  /** `isValidWord` as each copy writes it. */
  function IsValidWord(v: Variant, s: string): (b: bool)
    ensures |s| < MinWordLength ==> !b
    ensures b <==>
              && |s| >= MinWordLength
              && (forall i | 0 <= i < MinWordLength :: IsAsciiLetter(s[i]))
              && (v == WordCountRule ==>
                    forall i | MinWordLength <= i < |s| :: IsAsciiLetter(s[i]) || IsAsciiDigit(s[i]))
  {
    if |s| < MinWordLength then false
    else if !LettersBetween(s, 0, MinWordLength) then false
    else
      match v
      case MainRule => true
      case WordCountRule => AlnumsBetween(s, MinWordLength, |s|)
  }

  /** Whatever WordCount accepts, Main accepts too. */
  lemma WordCountStricter(s: string)
    ensures IsValidWord(WordCountRule, s) ==> IsValidWord(MainRule, s)
  {
  }

  /**
    On a token made of `[A-Za-z0-9_]` (which is all the `\W+` split can
    produce) the two copies disagree exactly when an underscore follows the
    four leading letters.
   */
  lemma VariantsDifferOnlyOnUnderscore(t: string)
    requires AllWordChars(t)
    ensures IsValidWord(WordCountRule, t) <==> IsValidWord(MainRule, t) && '_' !in t[MinWordLength..]
  {
    if IsValidWord(MainRule, t) && '_' in t[MinWordLength..] {
      var i :| MinWordLength <= i < |t| && t[i] == '_';
      assert !(IsAsciiLetter(t[i]) || IsAsciiDigit(t[i]));
    }
  }

  /** The boundary cases of the word rule. */
  lemma ValidityExamples(v: Variant)
    ensures IsValidWord(v, "abcd") && IsValidWord(v, "abcd1") && IsValidWord(v, "file123")
    ensures !IsValidWord(v, "abc") && !IsValidWord(v, "abc1") && !IsValidWord(v, "ab1d")
    ensures !IsValidWord(v, "123file")
    ensures IsValidWord(MainRule, "file_name") && !IsValidWord(WordCountRule, "file_name")
  {
    assert !IsAsciiLetter("abc1"[3]);
    assert !IsAsciiLetter("ab1d"[2]);
    assert !IsAsciiLetter("123file"[0]);
    assert !IsAsciiDigit("file_name"[4]);
  }
}
