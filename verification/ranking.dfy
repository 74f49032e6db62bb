/**
  `Word` records and `WordComparator`: a larger count ranks first, and equal
  counts fall back to `String.compareTo`, so the alphabetically smaller word
  ranks first. Both copies of the program share this code.
 */
module Ranking {

  /** A distinct word and the number of times it occurred. */
  datatype Word = Word(value: string, times: int)

  /** The loop in `String.compareTo`: the first index where the strings differ, or the shorter length. */
  function FirstDiff(a: string, b: string): (k: nat)
    ensures k <= |a| && k <= |b|
    ensures a[..k] == b[..k]
    ensures k < |a| && k < |b| ==> a[k] != b[k]
  {
    if |a| == 0 || |b| == 0 || a[0] != b[0] then 0
    else
      var k := 1 + FirstDiff(a[1..], b[1..]);
      assert a[..k] == [a[0]] + a[1..][..k - 1];
      assert b[..k] == [b[0]] + b[1..][..k - 1];
      k
  }

  /** `String.compareTo` over code points: the difference of the first differing chars, else of the lengths. */
  function CompareTo(a: string, b: string): (r: int)
    ensures r == 0 <==> a == b
  {
    var k := FirstDiff(a, b);
    if k < |a| && k < |b| then a[k] as int - b[k] as int
    else
      assert |a| == |b| ==> a == a[..k] && b == b[..k];
      |a| - |b|
  }

  /** Reference lexicographic order on code points: a proper prefix comes first. */
  predicate LexBefore(a: string, b: string) {
    |b| > 0 && (|a| == 0 || a[0] < b[0] || (a[0] == b[0] && LexBefore(a[1..], b[1..])))
  }

  /** With equal first chars, `compareTo` is decided by the rest. */
  lemma CompareToTail(a: string, b: string)
    requires |a| > 0 && |b| > 0 && a[0] == b[0]
    ensures CompareTo(a, b) == CompareTo(a[1..], b[1..])
  {
    var k := FirstDiff(a[1..], b[1..]);
    assert FirstDiff(a, b) == k + 1;
  }

  /** `compareTo` is negative exactly when the first string comes first lexicographically. */
  lemma {:induction false} CompareToMeansLexBefore(a: string, b: string)
    ensures CompareTo(a, b) < 0 <==> LexBefore(a, b)
    decreases |a|
  {
    if |a| > 0 && |b| > 0 && a[0] == b[0] {
      CompareToTail(a, b);
      CompareToMeansLexBefore(a[1..], b[1..]);
    }
  }

  /** `compareTo` is exactly antisymmetric: swapping the arguments negates the result. */
  lemma {:induction false} CompareToAntisymmetric(a: string, b: string)
    ensures CompareTo(b, a) == -CompareTo(a, b)
    decreases |a|
  {
    if |a| > 0 && |b| > 0 && a[0] == b[0] {
      CompareToTail(a, b);
      CompareToTail(b, a);
      CompareToAntisymmetric(a[1..], b[1..]);
    }
  }

  lemma {:induction false} LexBeforeTransitive(a: string, b: string, c: string)
    requires LexBefore(a, b) && LexBefore(b, c)
    ensures LexBefore(a, c)
    decreases |a|
  {
    if |a| > 0 && a[0] == b[0] && b[0] == c[0] {
      LexBeforeTransitive(a[1..], b[1..], c[1..]);
    }
  }

  lemma {:induction false} LexBeforeTotal(a: string, b: string)
    ensures a == b || LexBefore(a, b) || LexBefore(b, a)
    ensures !(LexBefore(a, b) && LexBefore(b, a))
    decreases |a|
  {
    if |a| > 0 && |b| > 0 && a[0] == b[0] {
      LexBeforeTotal(a[1..], b[1..]);
      if a[1..] == b[1..] {
        assert a == [a[0]] + a[1..] && b == [b[0]] + b[1..];
      }
    }
  }

  /** `WordComparator.compare`, without the subtraction that could overflow. */
  function Compare(o1: Word, o2: Word): (r: int)
    ensures o1.times > o2.times ==> r < 0
    ensures o1.times < o2.times ==> r > 0
    ensures r == 0 <==> o1 == o2
  {
    if o1.times > o2.times then -1
    else if o1.times < o2.times then 1
    else CompareTo(o1.value, o2.value)
  }

  /** Reference ranking: more occurrences first, then alphabetical order. */
  predicate RanksAhead(a: Word, b: Word) {
    a.times > b.times || (a.times == b.times && LexBefore(a.value, b.value))
  }

  /** The comparator puts `a` before `b` exactly when the reference ranking does. */
  lemma CompareMeansRanksAhead(a: Word, b: Word)
    ensures Compare(a, b) < 0 <==> RanksAhead(a, b)
  {
    CompareToMeansLexBefore(a.value, b.value);
  }

  /** The sign of `compare(a, b)` is the opposite of that of `compare(b, a)`. */
  lemma CompareAntisymmetric(a: Word, b: Word)
    ensures Compare(b, a) == -Compare(a, b)
  {
    CompareToAntisymmetric(a.value, b.value);
  }

  /** `a` may be polled no later than `b`. */
  predicate Precedes(a: Word, b: Word) {
    Compare(a, b) <= 0
  }

  lemma PrecedesTotal(a: Word, b: Word)
    ensures Precedes(a, b) || Precedes(b, a)
  {
    CompareAntisymmetric(a, b);
  }

  lemma PrecedesAntisymmetric(a: Word, b: Word)
    requires Precedes(a, b) && Precedes(b, a)
    ensures a == b
  {
    CompareAntisymmetric(a, b);
  }

  lemma PrecedesTransitive(a: Word, b: Word, c: Word)
    requires Precedes(a, b) && Precedes(b, c)
    ensures Precedes(a, c)
  {
    CompareMeansRanksAhead(a, b);
    CompareMeansRanksAhead(b, c);
    CompareMeansRanksAhead(a, c);
    if a != b && b != c && a.times == b.times && b.times == c.times {
      LexBeforeTransitive(a.value, b.value, c.value);
    }
  }

  /** The tie-break compares strings, not numbers: windows2000 < windows95 < windows98. */
  lemma TieBreakExample(n: int)
    ensures Compare(Word("windows2000", n), Word("windows95", n)) < 0
    ensures Compare(Word("windows95", n), Word("windows98", n)) < 0
    ensures Compare(Word("zzzz", n + 1), Word("aaaa", n)) < 0
  {
    CompareMeansRanksAhead(Word("windows2000", n), Word("windows95", n));
    CompareMeansRanksAhead(Word("windows95", n), Word("windows98", n));
    WindowsLexOrder();
  }

  lemma WindowsLexOrder()
    ensures LexBefore("windows2000", "windows95")
    ensures LexBefore("windows95", "windows98")
  {
    LexBeforeAfterCommonPrefix("windows", "2000", "95");
    LexBeforeAfterCommonPrefix("windows9", "5", "8");
  }

  /** A common prefix does not change the order. */
  lemma {:induction false} LexBeforeAfterCommonPrefix(p: string, a: string, b: string)
    requires LexBefore(a, b)
    ensures LexBefore(p + a, p + b)
    decreases |p|
  {
    if p != [] {
      LexBeforeAfterCommonPrefix(p[1..], a, b);
      assert (p + a)[1..] == p[1..] + a && (p + b)[1..] == p[1..] + b;
    } else {
      assert p + a == a && p + b == b;
    }
  }
}
