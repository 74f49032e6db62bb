/**
  The `PriorityQueue<Word>` ordered by `WordComparator`. Only the order in
  which `poll` hands out elements is observable, so the queue is the
  sequence of its elements in that order. `fillTopWords` offers one `Word`
  per frequency-table entry; the output loops poll at most `top` of them.
 */
module TopWords {
  import opened Ranking

  /** Poll order: every element may be polled no later than the ones behind it. */
  predicate Sorted(q: seq<Word>) {
    forall i, j | 0 <= i < j < |q| :: Precedes(q[i], q[j])
  }

  /** No element occurs twice. */
  predicate Distinct(q: seq<Word>) {
    forall i, j | 0 <= i < j < |q| :: q[i] != q[j]
  }

  /** The head of the queue precedes everything in it: `poll` returns the comparator's least element. */
  lemma HeadPrecedesAll(q: seq<Word>)
    requires Sorted(q) && q != []
    ensures forall x | x in q :: Precedes(q[0], x)
  {
  }

  /** `PriorityQueue.offer`. */
  function Offer(q: seq<Word>, w: Word): (r: seq<Word>)
    requires Sorted(q)
    ensures Sorted(r)
    ensures multiset(r) == multiset(q) + multiset{w}
    ensures |r| == |q| + 1
  {
    if q == [] then [w]
    else if Precedes(w, q[0]) then
      OfferAtFront(q, w);
      [w] + q
    else
      var rest := Offer(q[1..], w);
      OfferBehindHead(q, w, rest);
      DropHead(q);
      [q[0]] + rest
  }

  /** An element that precedes the head may go in front of the whole queue. */
  lemma OfferAtFront(q: seq<Word>, w: Word)
    requires Sorted(q) && q != [] && Precedes(w, q[0])
    ensures Sorted([w] + q)
  {
    forall j | 0 <= j < |q|
      ensures Precedes(w, q[j])
    {
      PrecedesTransitive(w, q[0], q[j]);
    }
  }

  /** Otherwise the head stays in front of the tail with the element offered to it. */
  lemma OfferBehindHead(q: seq<Word>, w: Word, rest: seq<Word>)
    requires Sorted(q) && q != [] && !Precedes(w, q[0])
    requires Sorted(rest) && multiset(rest) == multiset(q[1..]) + multiset{w}
    ensures Sorted([q[0]] + rest)
  {
    PrecedesTotal(w, q[0]);
    forall j | 0 <= j < |rest|
      ensures Precedes(q[0], rest[j])
    {
      assert rest[j] in multiset(rest);
      if rest[j] != w {
        assert rest[j] in q[1..];
      }
    }
  }

  function Min(a: int, b: int): int {
    if a <= b then a else b
  }

  /**
    The loop `while (!queue.isEmpty() && top != 0) { top--; poll(); }`.
    A negative `top` never reaches zero, so the whole queue is drained.
   */
  function PollTop(q: seq<Word>, top: int): (r: seq<Word>)
    ensures top < 0 ==> r == q
    ensures top >= 0 ==> r == q[..Min(top, |q|)]
    decreases |q|
  {
    if q == [] || top == 0 then []
    else
      var rest := PollTop(q[1..], top - 1);
      assert q == [q[0]] + q[1..];
      [q[0]] + rest
  }

  /** Sorted queues with the same elements are equal: poll order does not depend on insertion order. */
  lemma {:induction false} SortedUnique(a: seq<Word>, b: seq<Word>)
    requires Sorted(a) && Sorted(b)
    requires multiset(a) == multiset(b)
    ensures a == b
    decreases |a|
  {
    if a != [] {
      assert b != [] by {
        assert |multiset(a)| == |a| && |multiset(b)| == |b|;
      }
      SameHead(a, b);
      assert multiset(a[1..]) == multiset(b[1..]) by {
        DropHead(a);
        DropHead(b);
      }
      SortedUnique(a[1..], b[1..]);
      assert a == [a[0]] + a[1..] && b == [b[0]] + b[1..];
    }
  }

  /** Sorted queues with the same elements have the same head. */
  lemma SameHead(a: seq<Word>, b: seq<Word>)
    requires Sorted(a) && Sorted(b) && a != [] && b != []
    requires multiset(a) == multiset(b)
    ensures a[0] == b[0]
  {
    assert a[0] in multiset(b) && b[0] in multiset(a);
    HeadPrecedesAll(a);
    HeadPrecedesAll(b);
    PrecedesAntisymmetric(a[0], b[0]);
  }

  lemma DropHead(a: seq<Word>)
    requires a != []
    ensures multiset(a[1..]) == multiset(a) - multiset{a[0]}
  {
    assert a == [a[0]] + a[1..];
  }

  /** The table entries as `Word` records. */
  function Entries(words: map<string, nat>): (e: set<Word>)
    ensures forall x | x in e :: x.value in words && x.times == words[x.value]
    ensures forall k | k in words :: Word(k, words[k]) in e
  {
    EntriesOf(words, words.Keys)
  }

  /** The entries whose key lies in `keys`. */
  function EntriesOf(words: map<string, nat>, keys: set<string>): set<Word>
  {
    set k | k in keys && k in words :: Word(k, words[k])
  }

  /** Adding one key adds exactly one new record. */
  lemma EntriesOfAdd(words: map<string, nat>, keys: set<string>, k: string)
    requires k in words && k !in keys
    ensures EntriesOf(words, keys + {k}) == EntriesOf(words, keys) + {Word(k, words[k])}
    ensures Word(k, words[k]) !in EntriesOf(words, keys)
    ensures multiset(EntriesOf(words, keys + {k})) == multiset(EntriesOf(words, keys)) + multiset{Word(k, words[k])}
  {
  }

  /** There is one record per key. */
  lemma {:induction false} EntriesOfCard(words: map<string, nat>, keys: set<string>)
    requires keys <= words.Keys
    ensures |EntriesOf(words, keys)| == |keys|
    decreases |keys|
  {
    if keys != {} {
      var k :| k in keys;
      EntriesOfCard(words, keys - {k});
      EntriesOfAdd(words, keys - {k}, k);
      assert keys - {k} + {k} == keys;
    }
  }

  /** Reference poll order of a set: its elements sorted by the comparator. */
  ghost function SortSet(s: set<Word>): (r: seq<Word>)
    ensures Sorted(r)
    ensures multiset(r) == multiset(s)
    decreases |s|
  {
    if s == {} then []
    else
      var x :| x in s;
      var r := Offer(SortSet(s - {x}), x);
      assert multiset(s - {x}) + multiset{x} == multiset(s);
      r
  }

  /** The table's entries in the order the queue hands them out. */
  ghost function Ranked(words: map<string, nat>): (r: seq<Word>)
    ensures Sorted(r) && Distinct(r)
    ensures |r| == |words|
    ensures multiset(r) == multiset(Entries(words))
  {
    var r := SortSet(Entries(words));
    assert |r| == |words| by {
      assert |multiset(r)| == |r|;
      assert |multiset(Entries(words))| == |Entries(words)|;
      EntriesOfCard(words, words.Keys);
    }
    DistinctOfSet(r, Entries(words));
    r
  }

  /**
    `fillTopWords`: offers one `Word` per table entry, visiting the entries
    in an unspecified order (the hash map's). Whatever that order, the
    queue ends up holding exactly the entries, in ranking order.
   */
  method FillTopWords(words: map<string, nat>) returns (heap: seq<Word>)
    ensures Sorted(heap)
    ensures multiset(heap) == multiset(Entries(words))
    ensures |heap| == |words|
    ensures heap == Ranked(words)
  {
    heap := [];
    var rest := words.Keys;
    ghost var done: set<string> := {};
    while rest != {}
      invariant rest <= words.Keys
      invariant done !! rest && done + rest == words.Keys
      invariant Sorted(heap)
      invariant multiset(heap) == multiset(EntriesOf(words, done))
      decreases |rest|
    {
      var k :| k in rest;
      EntriesOfAdd(words, done, k);
      heap := Offer(heap, Word(k, words[k]));
      rest := rest - {k};
      done := done + {k};
    }
    assert done == words.Keys;
    SortedUnique(heap, Ranked(words));
  }

  /** Every polled record is a table entry. */
  lemma PolledAreEntries(words: map<string, nat>, top: int)
    ensures var polled := PollTop(Ranked(words), top);
      forall i | 0 <= i < |polled| :: polled[i].value in words && polled[i].times == words[polled[i].value]
  {
    var q := Ranked(words);
    forall i | 0 <= i < |q|
      ensures q[i].value in words && q[i].times == words[q[i].value]
    {
      assert q[i] in multiset(Entries(words));
    }
  }

  /** The polled records carry keys of the table, so they share any property of all its keys. */
  lemma PolledKeys(words: map<string, nat>, top: int, keys: set<string>)
    requires words.Keys <= keys
    ensures forall i | 0 <= i < |PollTop(Ranked(words), top)| :: PollTop(Ranked(words), top)[i].value in keys
  {
    PolledAreEntries(words, top);
  }

  /**
    What the output loops list: `top` (or all, if fewer) records, each
    ranked ahead of the ones after it and of every record left unpolled.
   */
  lemma TopListing(words: map<string, nat>, top: nat)
    ensures var listed := PollTop(Ranked(words), top);
      && |listed| == Min(top, |words|)
      && (forall i, j | 0 <= i < j < |listed| :: RanksAhead(listed[i], listed[j]))
      && (forall i, w | 0 <= i < |listed| && w in words && Word(w, words[w]) !in listed ::
            RanksAhead(listed[i], Word(w, words[w])))
  {
    PolledInRankOrder(Ranked(words), top);
    PolledAheadOfUnpolled(words, top);
  }

  /** Every polled record ranks ahead of the record of every word left unpolled. */
  lemma PolledAheadOfUnpolled(words: map<string, nat>, top: int)
    ensures var listed := PollTop(Ranked(words), top);
      forall i, w | 0 <= i < |listed| && w in words && Word(w, words[w]) !in listed ::
        RanksAhead(listed[i], Word(w, words[w]))
  {
    var q := Ranked(words);
    var listed := PollTop(q, top);
    forall i, w | 0 <= i < |listed| && w in words && Word(w, words[w]) !in listed
      ensures RanksAhead(listed[i], Word(w, words[w]))
    {
      var e := Word(w, words[w]);
      assert e in multiset(q);
      var j :| 0 <= j < |q| && q[j] == e;
      UnpolledIsBehind(q, top, j);
      PolledAhead(q, top, i, j);
    }
  }

  /** An element the loop did not poll sits behind all polled ones. */
  lemma UnpolledIsBehind(q: seq<Word>, top: int, j: nat)
    requires j < |q| && q[j] !in PollTop(q, top)
    ensures j >= |PollTop(q, top)|
  {
    var r := PollTop(q, top);
    assert forall k | 0 <= k < |r| :: r[k] == q[k];
  }

  lemma PolledAhead(q: seq<Word>, top: int, i: nat, j: nat)
    requires Sorted(q) && Distinct(q)
    requires i < |PollTop(q, top)| <= j < |q|
    ensures RanksAhead(PollTop(q, top)[i], q[j])
  {
    PolledInRankOrder(q, top);
  }

  /** A queue filled from a set holds each element once. */
  lemma DistinctOfSet(q: seq<Word>, s: set<Word>)
    requires multiset(q) == multiset(s)
    ensures Distinct(q)
  {
    forall i, j | 0 <= i < j < |q|
      ensures q[i] != q[j]
    {
      assert q == q[..j] + q[j..];
      assert q[i] in q[..j] && q[j] in q[j..];
      assert multiset(q)[q[j]] == multiset(q[..j])[q[j]] + multiset(q[j..])[q[j]];
      assert multiset(q)[q[j]] <= 1;
    }
  }

  /**
    The polled words come out in ranking order: counts never increase, and
    among equal counts the words are in ascending lexicographic order; every
    word left in the queue ranks behind every polled one.
   */
  lemma PolledInRankOrder(q: seq<Word>, top: int)
    requires Sorted(q) && Distinct(q)
    ensures var r := PollTop(q, top);
      && (forall i, j | 0 <= i < j < |r| :: RanksAhead(r[i], r[j]))
      && (forall i, j | 0 <= i < |r| <= j < |q| :: RanksAhead(r[i], q[j]))
  {
    forall i, j | 0 <= i < j < |q|
      ensures RanksAhead(q[i], q[j])
    {
      CompareMeansRanksAhead(q[i], q[j]);
    }
  }
}
