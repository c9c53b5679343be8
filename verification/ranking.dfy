/** Scoring and ranking of the verified lines, the last steps of
    `search_phrase_with_scores` (src/InvertedIndexes.py:283-288): every hit
    is scored against the phrase the user typed, the scored hits are sorted
    by descending score with Python's stable `sorted(..., reverse=True)`,
    and the first five are kept. */
module Ranking {
  import opened SeqFacts
  import opened PhraseCheck
  import opened EditDistance

  /** `(filename, line_number, line, score)`. */
  datatype Match = Match(hit: Hit, score: int)

  /** Scores never increase along the sequence. */
  predicate SortedDesc(ms: seq<Match>) {
    forall i, j :: 0 <= i < j < |ms| ==> ms[i].score >= ms[j].score
  }

  /** The matches with score `v`, in their order: the sort is stable when it
      keeps each of these subsequences as it was. */
  function WithScore(ms: seq<Match>, v: int): seq<Match> {
    if ms == [] then []
    else (if ms[0].score == v then [ms[0]] else []) + WithScore(ms[1..], v)
  }

  // ---------------------------------------------------------------------------
  // Scoring (line 284)
  // ---------------------------------------------------------------------------

  /** Reference: every hit paired with its score against `phrase`. */
  function Scored(phrase: string, hits: seq<Hit>): seq<Match> {
    seq(|hits|, i requires 0 <= i < |hits| => Match(hits[i], Score(phrase, hits[i].text)))
  }

  /** Distinct hits make distinct scored matches. */
  lemma ScoredDistinct(phrase: string, hits: seq<Hit>)
    requires Distinct(hits)
    ensures Distinct(Scored(phrase, hits))
  {
    var ms := Scored(phrase, hits);
    forall a, b | 0 <= a < b < |ms| ensures ms[a] != ms[b] {
      assert ms[a].hit == hits[a] && ms[b].hit == hits[b];
    }
  }

  /** Every hit paired with `calculate_score(phrase, line)`, in order. */
  method ScoreAll(phrase: string, hits: seq<Hit>) returns (ms: seq<Match>)
    ensures |ms| == |hits|
    ensures forall i :: 0 <= i < |hits| ==> ms[i] == Match(hits[i], Score(phrase, hits[i].text))
  {
    ms := [];
    for i := 0 to |hits|
      invariant |ms| == i
      invariant forall k :: 0 <= k < i ==> ms[k] == Match(hits[k], Score(phrase, hits[k].text))
    {
      var score := CalculateScore(phrase, hits[i].text);
      ms := ms + [Match(hits[i], score)];
    }
  }

  // ---------------------------------------------------------------------------
  // Stable descending sort (line 288)
  // ---------------------------------------------------------------------------

  /** Places `m` after every match scoring at least as much, and before the
      first one scoring less. */
  function Insert(ms: seq<Match>, m: Match): seq<Match> {
    if ms == [] || ms[0].score < m.score then [m] + ms
    else [ms[0]] + Insert(ms[1..], m)
  }

  /** Inserting adds exactly `m`. */
  lemma {:induction false} InsertAdds(ms: seq<Match>, m: Match)
    ensures multiset(Insert(ms, m)) == multiset(ms) + multiset{m}
  {
    if ms != [] && ms[0].score >= m.score {
      InsertAdds(ms[1..], m);
      assert ms == [ms[0]] + ms[1..];
    }
  }

  /** Every score of the insertion is bounded by a bound of `m` and of `ms`. */
  lemma InsertBounded(ms: seq<Match>, m: Match, bound: int)
    requires forall x :: x in ms ==> x.score <= bound
    requires m.score <= bound
    ensures forall x :: x in Insert(ms, m) ==> x.score <= bound
  {
    InsertAdds(ms, m);
    forall x | x in Insert(ms, m) ensures x.score <= bound {
      assert x in multiset(Insert(ms, m));
    }
  }

  /** Inserting into a sorted sequence keeps it sorted. */
  lemma {:induction false} InsertSorted(ms: seq<Match>, m: Match)
    requires SortedDesc(ms)
    ensures SortedDesc(Insert(ms, m))
  {
    if ms != [] && ms[0].score >= m.score {
      InsertSorted(ms[1..], m);
      InsertBounded(ms[1..], m, ms[0].score);
      var r := Insert(ms[1..], m);
      assert forall j :: 0 <= j < |r| ==> r[j] in r;
    }
  }

  /** A sorted sequence whose first score is below `v` has none equal to `v`. */
  lemma NoneWithScore(ms: seq<Match>, v: int)
    requires SortedDesc(ms) && ms != [] && ms[0].score < v
    ensures WithScore(ms, v) == []
  {
    var k := 0;
    while k < |ms|
      invariant k <= |ms|
      invariant WithScore(ms[k..], v) == WithScore(ms, v)
      invariant forall l :: 0 <= l < k ==> ms[l].score < v
      decreases |ms| - k
    {
      assert ms[k..][1..] == ms[k + 1..];
      k := k + 1;
    }
    assert ms[k..] == [];
  }

  /** Inserting `m` appends it to the matches of its own score and leaves the
      others alone: the insertion is stable. */
  lemma {:induction false} InsertStable(ms: seq<Match>, m: Match, v: int)
    requires SortedDesc(ms)
    ensures WithScore(Insert(ms, m), v) == WithScore(ms, v) + (if m.score == v then [m] else [])
  {
    if ms == [] {
    } else if ms[0].score < m.score {
      if m.score == v {
        NoneWithScore(ms, v);
      }
      assert ([m] + ms)[1..] == ms;
    } else {
      InsertStable(ms[1..], m, v);
      assert ([ms[0]] + Insert(ms[1..], m))[1..] == Insert(ms[1..], m);
      AppendAssoc(if ms[0].score == v then [ms[0]] else [], WithScore(ms[1..], v), if m.score == v then [m] else []);
    }
  }

  /** Appending at the end appends to the matches of its score. */
  lemma {:induction false} WithScoreSnoc(ms: seq<Match>, m: Match, v: int)
    ensures WithScore(ms + [m], v) == WithScore(ms, v) + (if m.score == v then [m] else [])
  {
    if ms != [] {
      assert (ms + [m])[1..] == ms[1..] + [m];
      WithScoreSnoc(ms[1..], m, v);
      AppendAssoc(if ms[0].score == v then [ms[0]] else [], WithScore(ms[1..], v), if m.score == v then [m] else []);
    } else {
      assert ([] + [m])[1..] == [];
    }
  }

  /** `sorted(ms, key=score, reverse=True)`: a permutation of `ms` with
      non-increasing scores in which matches of equal score keep their
      relative order. */
  method SortByScoreDesc(ms: seq<Match>) returns (sorted: seq<Match>)
    ensures SortedDesc(sorted)
    ensures multiset(sorted) == multiset(ms)
    ensures forall v :: WithScore(sorted, v) == WithScore(ms, v)
  {
    sorted := [];
    for i := 0 to |ms|
      invariant SortedDesc(sorted)
      invariant multiset(sorted) == multiset(ms[..i])
      invariant forall v :: WithScore(sorted, v) == WithScore(ms[..i], v)
    {
      TakeNext(ms, i);
      InsertSorted(sorted, ms[i]);
      InsertAdds(sorted, ms[i]);
      forall v ensures WithScore(Insert(sorted, ms[i]), v) == WithScore(ms[..i + 1], v) {
        InsertStable(sorted, ms[i], v);
        WithScoreSnoc(ms[..i], ms[i], v);
      }
      sorted := Insert(sorted, ms[i]);
    }
    TakeAll(ms);
  }

  // ---------------------------------------------------------------------------
  // The first five
  // ---------------------------------------------------------------------------

  /** How many results are kept: `[:5]`. */
  const TopCount := 5

  /** `sorted[:5]`. */
  function TopMatches(sorted: seq<Match>): (best: seq<Match>)
    ensures |best| <= TopCount && |best| <= |sorted|
  {
    if |sorted| <= TopCount then sorted else sorted[..TopCount]
  }

  /** A match of the sorted list that is not among the first five scores no
      more than the fifth, which is the lowest kept; when fewer than six
      matches exist, nothing is left out. */
  lemma TopMatchesLeaveOutLower(sorted: seq<Match>, m: Match)
    requires SortedDesc(sorted)
    requires m in sorted && m !in TopMatches(sorted)
    ensures |sorted| > TopCount && |TopMatches(sorted)| == TopCount
    ensures m.score <= TopMatches(sorted)[TopCount - 1].score
  {
    var k :| 0 <= k < |sorted| && sorted[k] == m;
  }
}
