/** `search_phrase_with_scores` (src/InvertedIndexes.py:209-295) as a
    function of the query, the index and the contents of the corpus files:
    normalise and split the query, correct the words the index does not
    know, intersect their occurrence sets, group the common lines by file,
    keep the lines that contain the phrase, score them against the query as
    typed and return the five best. The result is returned instead of
    printed, and the per-file work runs in sequence. */
module Search {
  import opened SeqFacts
  import opened Text
  import opened InvertedIndex
  import opened PhraseCheck
  import opened Fuzzy
  import opened Ranking
  import opened EditDistance

  /** The corpus as the search reads it: relative path to the file's lines. */
  type Contents = map<string, seq<string>>

  /** What a step that opens corpus files yields: its value, or the path of
      a file that cannot be opened (the `FileNotFoundError` that `open`
      raises at line 127 and `future.result()` re-raises at line 279). */
  datatype Outcome<T> = Done(value: T) | FileNotFound(path: string)

  /** `o` is an occurrence of every one of the words. */
  ghost predicate Common(idx: Index, terms: seq<string>, o: Occurrence) {
    forall w :: w in terms ==> o in Lookup(idx, w)
  }

  /** Some occurrence of all the words lies in a file that cannot be read:
      the search stops with an error. */
  ghost predicate CommonInMissingFile(idx: Index, contents: Contents, terms: seq<string>) {
    exists o :: Common(idx, terms, o) && o.file !in contents
  }

  /** `set(inverted_index.get(word, []))`. */
  function OccurrenceSet(idx: Index, w: string): set<Occurrence> {
    set o | o in Lookup(idx, w)
  }

  // ---------------------------------------------------------------------------
  // Intersection and grouping (lines 260-270)
  // ---------------------------------------------------------------------------

  /** The first set intersected with each of the others in turn. */
  method Intersect(sets: seq<set<Occurrence>>) returns (common: set<Occurrence>)
    requires sets != []
    ensures forall o :: o in common <==> forall i :: 0 <= i < |sets| ==> o in sets[i]
  {
    common := sets[0];
    for i := 1 to |sets|
      invariant forall o :: o in common <==> forall k :: 0 <= k < i ==> o in sets[k]
    {
      common := common * sets[i];
    }
  }

  /** The line numbers of the common occurrences collected per file, with
      the files in the order they are first met (a Python dict keeps
      insertion order). The set is walked in an unspecified order. */
  method GroupByFile(common: set<Occurrence>) returns (files: seq<string>, byFile: map<string, seq<LineNumber>>)
    ensures forall f :: f in byFile <==> f in files
    ensures forall f :: f in byFile ==> byFile[f] != []
    ensures Distinct(files)
    ensures forall f :: f in byFile ==> Distinct(byFile[f])
    ensures forall o :: o in common <==> o.file in byFile && o.line in byFile[o.file]
  {
    files, byFile := [], map[];
    var rest := common;
    while rest != {}
      invariant rest <= common
      invariant forall f :: f in byFile <==> f in files
      invariant forall f :: f in byFile ==> byFile[f] != []
      invariant Distinct(files)
      invariant forall f :: f in byFile ==> Distinct(byFile[f])
      invariant forall o :: o in common - rest <==> o.file in byFile && o.line in byFile[o.file]
      decreases |rest|
    {
      var o :| o in rest;
      if o.file in byFile {
        DistinctSnoc(byFile[o.file], o.line);
        byFile := byFile[o.file := byFile[o.file] + [o.line]];
      } else {
        DistinctSnoc(files, o.file);
        files := files + [o.file];
        byFile := byFile[o.file := [o.line]];
      }
      rest := rest - {o};
    }
  }

  /** The per-file verification of lines 274-281, one file after the other,
      results concatenated in file order. The first file, in that order,
      that cannot be opened ends the search with an error. */
  method ProcessGroups(files: seq<string>, byFile: map<string, seq<LineNumber>>, phrase: string, contents: Contents)
    returns (r: Outcome<seq<Hit>>)
    requires forall f :: f in files ==> f in byFile
    ensures r.FileNotFound? <==> exists f :: f in files && f !in contents
    ensures r.FileNotFound? ==> exists k ::
      && 0 <= k < |files| && files[k] == r.path && r.path !in contents
      && (forall j :: 0 <= j < k ==> files[j] in contents)
    ensures r.Done? ==> forall h :: h in r.value <==>
      && h.file in files && h.file in contents && h.line in byFile[h.file]
      && LineMatches(contents[h.file], h.line, phrase) && h == HitAt(h.file, contents[h.file], h.line)
    ensures r.Done? && Distinct(files) && (forall f :: f in files ==> Distinct(byFile[f])) ==> Distinct(r.value)
  {
    var hits: seq<Hit> := [];
    for i := 0 to |files|
      invariant forall f :: f in files[..i] ==> f in contents
      invariant forall h :: h in hits <==>
        && h.file in files[..i] && h.file in contents && h.line in byFile[h.file]
        && LineMatches(contents[h.file], h.line, phrase) && h == HitAt(h.file, contents[h.file], h.line)
      invariant Distinct(files) && (forall f :: f in files ==> Distinct(byFile[f])) ==> Distinct(hits)
    {
      var f := files[i];
      if f !in contents {
        forall j | 0 <= j < i ensures files[j] in contents {
          assert files[j] in files[..i];
        }
        return FileNotFound(f);
      }
      var found := ProcessFileForPhrase(f, byFile[f], phrase, contents[f]);
      TakeNext(files, i);
      if Distinct(files) && (forall g :: g in files ==> Distinct(byFile[g])) {
        assert f !in files[..i] by {
          forall j | 0 <= j < i ensures files[j] != f {
            assert files[j] == files[..i][j];
          }
        }
        DistinctAppend(hits, found);
      }
      hits := hits + found;
    }
    TakeAll(files);
    r := Done(hits);
  }

  // ---------------------------------------------------------------------------
  // The verified lines
  // ---------------------------------------------------------------------------

  /** A line the search reports for the (corrected) words `terms`: every
      word has an occurrence on it, it exists, its text contains the joined
      words once both are normalised, and the hit carries the stripped
      text. */
  ghost predicate Verified(idx: Index, contents: Contents, terms: seq<string>, h: Hit) {
    && h.file in contents
    && Common(idx, terms, Occurrence(h.file, h.line))
    && LineMatches(contents[h.file], h.line, Join(terms))
    && h == HitAt(h.file, contents[h.file], h.line)
  }

  /** The common occurrences of the words: exactly the occurrences every
      word has. */
  lemma CommonOfTerms(idx: Index, terms: seq<string>, sets: seq<set<Occurrence>>, common: set<Occurrence>)
    requires |sets| == |terms|
    requires forall i :: 0 <= i < |terms| ==> sets[i] == OccurrenceSet(idx, terms[i])
    requires forall o :: o in common <==> forall i :: 0 <= i < |sets| ==> o in sets[i]
    ensures forall o :: o in common <==> Common(idx, terms, o)
  {
    forall o ensures o in common <==> Common(idx, terms, o) {
      if Common(idx, terms, o) {
        forall i | 0 <= i < |sets| ensures o in sets[i] {
          assert terms[i] in terms;
        }
      }
    }
  }

  /** The lines that pass every step up to the scoring: intersection,
      grouping and the per-file check against `checked`, which is the
      words joined by spaces. Only files holding an occurrence of all the
      words are opened, so only those can make it fail. */
  method VerifiedHits(idx: Index, contents: Contents, terms: seq<string>, checked: string)
    returns (r: Outcome<seq<Hit>>)
    requires terms != [] && checked == Join(terms)
    ensures r.FileNotFound? <==> CommonInMissingFile(idx, contents, terms)
    ensures r.FileNotFound? ==> r.path !in contents && exists o :: Common(idx, terms, o) && o.file == r.path
    ensures r.Done? ==> forall h :: h in r.value <==> Verified(idx, contents, terms, h)
    ensures r.Done? ==> Distinct(r.value)
  {
    var sets := seq(|terms|, i requires 0 <= i < |terms| => OccurrenceSet(idx, terms[i]));
    var common := Intersect(sets);
    CommonOfTerms(idx, terms, sets, common);
    var files, byFile := GroupByFile(common);
    r := ProcessGroups(files, byFile, checked, contents);
    if r.FileNotFound? {
      var o := Occurrence(r.path, byFile[r.path][0]);
      assert o in common;
    } else {
      forall o | Common(idx, terms, o) ensures o.file in contents {
        assert o in common;
        assert o.file in files;
      }
    }
  }

  // ---------------------------------------------------------------------------
  // Ranking (lines 283-288)
  // ---------------------------------------------------------------------------

  /** Matches drawn from the scored hits, each carrying its hit's score,
      never repeat a hit when the hits do not repeat. */
  lemma KeptHitsDistinct(phrase: string, hits: seq<Hit>, best: seq<Match>)
    requires Distinct(hits)
    requires multiset(best) <= multiset(Scored(phrase, hits))
    requires forall m :: m in best ==> m.score == Score(phrase, m.hit.text)
    ensures forall a, b :: 0 <= a < b < |best| ==> best[a].hit != best[b].hit
  {
    ScoredDistinct(phrase, hits);
    DistinctSub(best, Scored(phrase, hits));
    forall a, b | 0 <= a < b < |best| ensures best[a].hit != best[b].hit {
      assert best[a] in best && best[b] in best;
    }
  }

  /** The first five of a sorted arrangement of the scored hits are scored
      hits. */
  lemma TopAreScored(phrase: string, hits: seq<Hit>, sorted: seq<Match>)
    requires multiset(sorted) == multiset(Scored(phrase, hits))
    ensures multiset(TopMatches(sorted)) <= multiset(Scored(phrase, hits))
    ensures forall m :: m in TopMatches(sorted) ==> m.hit in hits && m.score == Score(phrase, m.hit.text)
  {
    var best := TopMatches(sorted);
    PrefixSub(sorted, |best|);
    assert best == sorted[..|best|];
    forall m | m in best ensures m.hit in hits && m.score == Score(phrase, m.hit.text) {
      assert m in multiset(sorted);
      var ms := Scored(phrase, hits);
      var i :| 0 <= i < |ms| && ms[i] == m;
    }
  }

  /** A scored hit missing from the first five of a sorted arrangement
      scores no more than the fifth. */
  lemma TopLeaveOutLower(phrase: string, hits: seq<Hit>, sorted: seq<Match>)
    requires SortedDesc(sorted)
    requires multiset(sorted) == multiset(Scored(phrase, hits))
    ensures forall h :: h in hits && Match(h, Score(phrase, h.text)) !in TopMatches(sorted) ==>
      |TopMatches(sorted)| == TopCount && Score(phrase, h.text) <= TopMatches(sorted)[TopCount - 1].score
  {
    forall h | h in hits && Match(h, Score(phrase, h.text)) !in TopMatches(sorted)
      ensures |TopMatches(sorted)| == TopCount && Score(phrase, h.text) <= TopMatches(sorted)[TopCount - 1].score
    {
      var i :| 0 <= i < |hits| && hits[i] == h;
      var m := Scored(phrase, hits)[i];
      assert m in multiset(sorted);
      TopMatchesLeaveOutLower(sorted, m);
    }
  }

  /** Scores the hits against `phrase`, sorts them and keeps the first five:
      they are a part of the scored hits, the best scored, and any hit left
      out scores no more than the last one kept. */
  method Rank(phrase: string, hits: seq<Hit>) returns (best: seq<Match>)
    ensures |best| <= TopCount && SortedDesc(best)
    ensures multiset(best) <= multiset(Scored(phrase, hits))
    ensures forall m :: m in best ==> m.hit in hits && m.score == Score(phrase, m.hit.text)
    ensures forall h :: h in hits && Match(h, Score(phrase, h.text)) !in best ==>
      |best| == TopCount && Score(phrase, h.text) <= best[TopCount - 1].score
    ensures Distinct(hits) ==> forall a, b :: 0 <= a < b < |best| ==> best[a].hit != best[b].hit
  {
    var scored := ScoreAll(phrase, hits);
    assert scored == Scored(phrase, hits);
    var sorted := SortByScoreDesc(scored);
    best := TopMatches(sorted);
    assert SortedDesc(best) by {
      assert best == sorted || best == sorted[..TopCount];
    }
    TopAreScored(phrase, hits, sorted);
    TopLeaveOutLower(phrase, hits, sorted);
    if Distinct(hits) {
      KeptHitsDistinct(phrase, hits, best);
    }
  }

  // ---------------------------------------------------------------------------
  // search_phrase_with_scores
  // ---------------------------------------------------------------------------

  /** Some query word has no occurrence (`not all(word_occurrences)`). */
  predicate SomeMissing(idx: Index, words: seq<string>) {
    exists i :: 0 <= i < |words| && Lookup(idx, words[i]) == []
  }

  /** A word that has occurrences is its own correction. */
  lemma NothingToCorrect(idx: Index, words: seq<string>)
    requires !SomeMissing(idx, words)
    ensures forall i :: 0 <= i < |words| ==> Corrected(idx, words[i], words[i])
  {
  }

  /** The search. `terms` are the words searched for after correction; the
      result is the top matches, best first, or the file that could not be
      opened. */
  method SearchPhraseWithScores(phrase: string, idx: Index, contents: Contents)
    returns (terms: seq<string>, result: Outcome<seq<Match>>)
    ensures var words := Split(NormalizeText(phrase));
      && |terms| == |words|
      && (forall i :: 0 <= i < |words| ==> Corrected(idx, words[i], terms[i]))
      && (words == [] ==> result == Done([]))
    ensures terms != [] ==> (result.FileNotFound? <==> CommonInMissingFile(idx, contents, terms))
    ensures result.FileNotFound? ==> result.path !in contents && exists o :: Common(idx, terms, o) && o.file == result.path
    ensures result.Done? ==> |result.value| <= TopCount && SortedDesc(result.value)
    ensures result.Done? ==> forall m :: m in result.value ==>
      Verified(idx, contents, terms, m.hit) && m.score == Score(phrase, m.hit.text)
    ensures result.Done? ==> forall a, b :: 0 <= a < b < |result.value| ==> result.value[a].hit != result.value[b].hit
    ensures result.Done? ==> forall h :: terms != [] && Verified(idx, contents, terms, h) && Match(h, Score(phrase, h.text)) !in result.value ==>
      |result.value| == TopCount && Score(phrase, h.text) <= result.value[TopCount - 1].score
  {
    var normalized := NormalizeText(phrase);
    var words := Split(normalized);
    if words == [] {
      return [], Done([]);
    }
    terms := words;
    var checked := normalized;
    if SomeMissing(idx, words) {
      terms := CorrectWords(idx, words);
      checked := Join(terms);
    } else {
      NothingToCorrect(idx, words);
      JoinSplit(normalized);
    }
    var hits := VerifiedHits(idx, contents, terms, checked);
    if hits.FileNotFound? {
      return terms, FileNotFound(hits.path);
    }
    var best := Rank(phrase, hits.value);
    result := Done(best);
  }
}
