/** Fuzzy correction of query words that the index does not know
    (src/InvertedIndexes.py:224-258). A missing word is replaced by the index
    key within edit distance one of it that scores highest against it;
    the heap of `(-score, candidate)` pairs breaks ties by the smaller key in
    Python's string order. Without such a key the word stays. */
module Fuzzy {
  import opened Wrappers
  import opened EditDistance
  import opened InvertedIndex

  // ---------------------------------------------------------------------------
  // Python's string order
  // ---------------------------------------------------------------------------

  /** `a < b` on Python strings: lexicographic by code point, a proper
      prefix first. */
  predicate LexLess(a: string, b: string) {
    b != [] && (a == [] || a[0] < b[0] || (a[0] == b[0] && LexLess(a[1..], b[1..])))
  }

  lemma {:induction false} LexLessIrreflexive(a: string)
    ensures !LexLess(a, a)
  {
    if a != [] {
      LexLessIrreflexive(a[1..]);
    }
  }

  lemma {:induction false} LexLessAsymmetric(a: string, b: string)
    ensures !(LexLess(a, b) && LexLess(b, a))
  {
    if a != [] && b != [] && a[0] == b[0] {
      LexLessAsymmetric(a[1..], b[1..]);
    }
  }

  /** Distinct strings are ordered one way or the other. */
  lemma {:induction false} LexLessTotal(a: string, b: string)
    requires a != b
    ensures LexLess(a, b) || LexLess(b, a)
  {
    if a != [] && b != [] && a[0] == b[0] {
      assert a == [a[0]] + a[1..] && b == [b[0]] + b[1..];
      LexLessTotal(a[1..], b[1..]);
    }
  }

  lemma {:induction false} LexLessTransitive(a: string, b: string, c: string)
    requires LexLess(a, b) && LexLess(b, c)
    ensures LexLess(a, c)
  {
    if a != [] && a[0] == b[0] && b[0] == c[0] {
      LexLessTransitive(a[1..], b[1..], c[1..]);
    }
  }

  // ---------------------------------------------------------------------------
  // Candidates and their order
  // ---------------------------------------------------------------------------

  /** A key survives the length filter of line 237 and the distance filter
      of line 240. */
  predicate Candidate(w: string, k: string) {
    -1 <= |w| - |k| <= 1 && Levenshtein(w, k) <= 1
  }

  /** The length filter only saves work: a key within distance one is within
      one character of the word's length. */
  lemma CandidateByDistance(w: string, k: string)
    ensures Candidate(w, k) <==> Levenshtein(w, k) <= 1
  {
    LevenshteinBounds(w, k);
  }

  /** `(-score(a), a) < (-score(b), b)`: `a` comes off the heap before `b`. */
  predicate Outranks(w: string, a: string, b: string) {
    Score(w, a) > Score(w, b) || (Score(w, a) == Score(w, b) && LexLess(a, b))
  }

  lemma OutranksTransitive(w: string, a: string, b: string, c: string)
    requires Outranks(w, a, b) && Outranks(w, b, c)
    ensures Outranks(w, a, c)
  {
    if Score(w, a) == Score(w, b) == Score(w, c) {
      LexLessTransitive(a, b, c);
    }
  }

  /** `k` is the first of `heapq.nsmallest` over the candidates among `keys`. */
  ghost predicate IsBest(w: string, keys: set<string>, k: string) {
    && k in keys && Candidate(w, k)
    && forall x :: x in keys && Candidate(w, x) && x != k ==> Outranks(w, k, x)
  }

  /** The best candidate is unique. */
  lemma BestUnique(w: string, keys: set<string>, a: string, b: string)
    requires IsBest(w, keys, a) && IsBest(w, keys, b)
    ensures a == b
  {
    if a != b {
      assert Outranks(w, a, b) && Outranks(w, b, a);
      LexLessAsymmetric(a, b);
    }
  }

  /** Taking `k` into account in a running best. */
  lemma BestStep(w: string, seen: set<string>, best: Option<string>, k: string)
    requires k !in seen && Candidate(w, k)
    requires best.None? ==> forall x :: x in seen ==> !Candidate(w, x)
    requires best.Some? ==> IsBest(w, seen, best.value)
    ensures best.None? || Outranks(w, k, best.value) ==> IsBest(w, seen + {k}, k)
    ensures best.Some? && !Outranks(w, k, best.value) ==> IsBest(w, seen + {k}, best.value)
  {
    if best.Some? {
      var b := best.value;
      if Outranks(w, k, b) {
        forall x | x in seen + {k} && Candidate(w, x) && x != k ensures Outranks(w, k, x) {
          if x != b {
            OutranksTransitive(w, k, b, x);
          }
        }
      } else {
        assert k != b;
        LexLessTotal(k, b);
      }
    }
  }

  /** The search over the index keys of lines 234-252 for one missing word,
      keeping the best candidate so far instead of a heap. */
  method BestMatch(w: string, keys: set<string>) returns (r: Option<string>)
    ensures r.None? <==> forall x :: x in keys ==> !Candidate(w, x)
    ensures r.Some? ==> IsBest(w, keys, r.value)
  {
    r := None;
    var bestScore := 0;
    var rest := keys;
    while rest != {}
      invariant rest <= keys
      invariant r.None? ==> forall x :: x in keys - rest ==> !Candidate(w, x)
      invariant r.Some? ==> IsBest(w, keys - rest, r.value) && bestScore == Score(w, r.value)
      decreases |rest|
    {
      var k :| k in rest;
      var seen := keys - rest;
      if -1 <= |w| - |k| <= 1 {
        var d := CalculateLevenshteinDistance(w, k);
        if d <= 1 {
          var score := CalculateScore(w, k);
          BestStep(w, seen, r, k);
          if r.None? || score > bestScore || (score == bestScore && LexLess(k, r.value)) {
            r, bestScore := Some(k), score;
          }
        }
      }
      assert keys - (rest - {k}) == seen + {k};
      rest := rest - {k};
    }
  }

  // ---------------------------------------------------------------------------
  // Correcting the query words
  // ---------------------------------------------------------------------------

  /** What happens to query word `w`: kept when the index has occurrences of
      it, else replaced by the best candidate key, else kept. */
  ghost predicate Corrected(idx: Index, w: string, r: string) {
    if Lookup(idx, w) != [] then r == w
    else if exists x :: x in idx && Candidate(w, x) then IsBest(w, idx.Keys, r)
    else r == w
  }

  /** The correction of a word is determined. */
  lemma CorrectedUnique(idx: Index, w: string, r1: string, r2: string)
    requires Corrected(idx, w, r1) && Corrected(idx, w, r2)
    ensures r1 == r2
  {
    if Lookup(idx, w) == [] && exists x :: x in idx && Candidate(w, x) {
      BestUnique(w, idx.Keys, r1, r2);
    }
  }

  /** The loop of lines 228-252: one output word per query word. */
  method CorrectWords(idx: Index, words: seq<string>) returns (corrected: seq<string>)
    ensures |corrected| == |words|
    ensures forall i :: 0 <= i < |words| ==> Corrected(idx, words[i], corrected[i])
  {
    corrected := [];
    for i := 0 to |words|
      invariant |corrected| == i
      invariant forall k :: 0 <= k < i ==> Corrected(idx, words[k], corrected[k])
    {
      var w := words[i];
      var next := w;
      if Lookup(idx, w) == [] {
        var m := BestMatch(w, idx.Keys);
        if m.Some? {
          next := m.value;
        }
      }
      corrected := corrected + [next];
    }
  }
}
