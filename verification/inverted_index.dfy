/** The inverted index and its builder, `build_inverted_index`
    (src/InvertedIndexes.py:32-60), over an in-memory corpus: a sequence of
    documents, each a relative path and its lines in file order.

    Every line is stripped and lowercased; each maximal run of word
    characters in it gets one occurrence appended under that word, and the
    whole line, when non-empty, gets one under itself. The builder is written
    as the source's three nested loops over a mutable mapping; `CorpusHits`
    is an independent description of what ends up under each key, and the
    builder's postcondition says the two agree. */
module InvertedIndex {
  import opened Text
  import opened SeqFacts

  /** Line numbers are 1-based. */
  type LineNumber = n: nat | 1 <= n witness 1

  /** One line of one document. */
  datatype Occurrence = Occurrence(file: string, line: LineNumber)

  /** Term (a word or a whole line) to its occurrences in scan order;
      duplicates are kept. */
  type Index = map<string, seq<Occurrence>>

  /** A text file of the corpus: its path relative to the corpus directory
      and its lines. */
  datatype Document = Document(path: string, lines: seq<string>)

  type Corpus = seq<Document>

  /** `inverted_index.get(key, [])`. */
  function Lookup(idx: Index, key: string): seq<Occurrence> {
    if key in idx then idx[key] else []
  }

  /** The form a line is indexed in: `line.strip().lower()` (line 49). */
  function IndexedForm(raw: string): (r: string)
    ensures NoUpper(r)
  {
    Lower(Strip(raw))
  }

  // ---------------------------------------------------------------------------
  // Reference description of the index contents
  // ---------------------------------------------------------------------------

  function Repeat(o: Occurrence, count: nat): (r: seq<Occurrence>)
    ensures |r| == count && forall i :: 0 <= i < count ==> r[i] == o
  {
    seq(count, _ => o)
  }

  /** How many occurrences a raw line contributes under `key`: one per word
      token equal to it, plus one when the whole indexed line equals it. */
  function Multiplicity(key: string, raw: string): nat {
    var line := IndexedForm(raw);
    TermCount(key, FindWords(line), line)
  }

  /** How many times `key` is among the words, plus one when it is the
      (non-empty) whole line. */
  function TermCount(key: string, words: seq<string>, line: string): nat {
    multiset(words)[key] + (if line != [] && line == key then 1 else 0)
  }

  /** For each of `lines`, how many occurrences it contributes under `key`. */
  function Counts(key: string, lines: seq<string>): (r: seq<nat>)
    ensures |r| == |lines|
  {
    seq(|lines|, i requires 0 <= i < |lines| => Multiplicity(key, lines[i]))
  }

  /** The occurrences of consecutive lines of `path`, numbered from `n`, the
      i-th of which is repeated `counts[i]` times. */
  function Hits(path: string, counts: seq<nat>, n: LineNumber): seq<Occurrence>
    decreases |counts|
  {
    if counts == [] then []
    else Repeat(Occurrence(path, n), counts[0]) + Hits(path, counts[1..], n + 1)
  }

  /** Occurrences under `key` contributed by `lines`, numbered from `n`. */
  function LinesHits(key: string, path: string, lines: seq<string>, n: LineNumber): seq<Occurrence> {
    Hits(path, Counts(key, lines), n)
  }

  /** Occurrences under `key` contributed by the corpus, in scan order. */
  function CorpusHits(key: string, docs: Corpus): seq<Occurrence>
    decreases |docs|
  {
    if docs == [] then []
    else LinesHits(key, docs[0].path, docs[0].lines, 1) + CorpusHits(key, docs[1..])
  }

  /** One more occurrence after a run of them lengthens the run. */
  lemma RepeatSnoc(before: seq<Occurrence>, o: Occurrence, count: nat)
    ensures (before + Repeat(o, count)) + [o] == before + Repeat(o, count + 1)
  {
    assert (Repeat(o, count) + [o])[count] == o;
    assert Repeat(o, count) + [o] == Repeat(o, count + 1);
  }

  /** Adding one line at the end adds its occurrences at the end. */
  lemma {:induction false} HitsSnoc(path: string, counts: seq<nat>, c: nat, n: LineNumber)
    ensures Hits(path, counts + [c], n) == Hits(path, counts, n) + Repeat(Occurrence(path, n + |counts|), c)
    decreases |counts|
  {
    if counts == [] {
      assert [c][1..] == [];
    } else {
      assert (counts + [c])[1..] == counts[1..] + [c];
      HitsSnoc(path, counts[1..], c, n + 1);
      var h := Repeat(Occurrence(path, n), counts[0]);
      var b := Hits(path, counts[1..], n + 1);
      var t := Repeat(Occurrence(path, n + |counts|), c);
      assert Hits(path, counts + [c], n) == h + (b + t);
      assert h + (b + t) == (h + b) + t;
    }
  }

  /** Adding one document at the end adds its occurrences at the end. */
  lemma {:induction false} CorpusHitsSnoc(key: string, docs: Corpus, d: Document)
    ensures CorpusHits(key, docs + [d]) == CorpusHits(key, docs) + LinesHits(key, d.path, d.lines, 1)
    decreases |docs|
  {
    if docs == [] {
      assert [d][1..] == [];
    } else {
      assert (docs + [d])[1..] == docs[1..] + [d];
      CorpusHitsSnoc(key, docs[1..], d);
    }
  }

  // ---------------------------------------------------------------------------
  // The builder
  // ---------------------------------------------------------------------------

  /** Every key is non-empty and has no upper-case letter, and every key has
      at least one occurrence (keys are only ever created by an append). */
  predicate WellFormed(idx: Index) {
    forall k :: k in idx ==> k != [] && NoUpper(k) && idx[k] != []
  }

  /** `inverted_index[key].append(occ)` on the default-list mapping: the key's
      list, created empty when absent, grows by `occ`. */
  function Append(idx: Index, key: string, occ: Occurrence): Index {
    idx[key := Lookup(idx, key) + [occ]]
  }

  /** The list of one key after appending under `words[i]`. */
  lemma AppendNextWordAt(idx: Index, before: Index, words: seq<string>, i: nat, occ: Occurrence, k: string)
    requires i < |words|
    requires Lookup(before, k) == Lookup(idx, k) + Repeat(occ, multiset(words[..i])[k])
    ensures Lookup(Append(before, words[i], occ), k) == Lookup(idx, k) + Repeat(occ, multiset(words[..i + 1])[k])
  {
    var m := multiset(words[..i])[k];
    TakeNext(words, i);
    if k == words[i] {
      assert multiset(words[..i + 1])[k] == m + 1;
      RepeatSnoc(Lookup(idx, k), occ, m);
    } else {
      assert multiset(words[..i + 1])[k] == m;
    }
  }

  /** After appending under `words[..i]`, appending under `words[i]` is the
      same as having appended under `words[..i + 1]`. */
  lemma AppendNextWord(idx: Index, before: Index, words: seq<string>, i: nat, occ: Occurrence)
    requires i < |words|
    requires forall k :: Lookup(before, k) == Lookup(idx, k) + Repeat(occ, multiset(words[..i])[k])
    requires forall k :: k in before <==> k in idx || k in words[..i]
    ensures forall k :: Lookup(Append(before, words[i], occ), k) == Lookup(idx, k) + Repeat(occ, multiset(words[..i + 1])[k])
    ensures forall k :: k in Append(before, words[i], occ) <==> k in idx || k in words[..i + 1]
  {
    forall k ensures Lookup(Append(before, words[i], occ), k) == Lookup(idx, k) + Repeat(occ, multiset(words[..i + 1])[k]) {
      AppendNextWordAt(idx, before, words, i, occ, k);
    }
    TakeNext(words, i);
  }

  /** Lines 52-53: one occurrence under each word, left to right. */
  method AppendWords(idx: Index, words: seq<string>, occ: Occurrence) returns (r: Index)
    ensures forall k :: Lookup(r, k) == Lookup(idx, k) + Repeat(occ, multiset(words)[k])
    ensures forall k :: k in r <==> k in idx || k in words
  {
    r := idx;
    for i := 0 to |words|
      invariant forall k :: Lookup(r, k) == Lookup(idx, k) + Repeat(occ, multiset(words[..i])[k])
      invariant forall k :: k in r <==> k in idx || k in words[..i]
    {
      AppendNextWord(idx, r, words, i, occ);
      r := Append(r, words[i], occ);
    }
    TakeAll(words);
  }

  /** Lines 56-57: after the words, the whole line gets one occurrence
      unless it is empty. */
  lemma AppendLine(idx: Index, mid: Index, words: seq<string>, line: string, occ: Occurrence)
    requires forall k :: Lookup(mid, k) == Lookup(idx, k) + Repeat(occ, multiset(words)[k])
    requires forall k :: k in mid <==> k in idx || k in words
    ensures var r := if line != [] then Append(mid, line, occ) else mid;
      && (forall k :: Lookup(r, k) == Lookup(idx, k) + Repeat(occ, TermCount(k, words, line)))
      && (forall k :: k in r <==> k in idx || TermCount(k, words, line) > 0)
  {
    var r := if line != [] then Append(mid, line, occ) else mid;
    forall k ensures Lookup(r, k) == Lookup(idx, k) + Repeat(occ, TermCount(k, words, line)) {
      var m := multiset(words)[k];
      if line != [] && line == k {
        RepeatSnoc(Lookup(idx, k), occ, m);
        assert Lookup(r, k) == (Lookup(idx, k) + Repeat(occ, m)) + [occ];
      } else {
        assert Lookup(r, k) == Lookup(mid, k);
      }
    }
  }

  /** A line whose words and whole form are non-empty lower-case strings
      keeps the index well formed. */
  lemma LineKeepsWellFormed(idx: Index, r: Index, words: seq<string>, line: string, occ: Occurrence)
    requires WellFormed(idx)
    requires forall w :: w in words ==> w != [] && NoUpper(w)
    requires NoUpper(line)
    requires forall k :: Lookup(r, k) == Lookup(idx, k) + Repeat(occ, TermCount(k, words, line))
    requires forall k :: k in r <==> k in idx || TermCount(k, words, line) > 0
    ensures WellFormed(r)
  {
    forall k | k in r ensures k != [] && NoUpper(k) && r[k] != [] {
      assert Lookup(r, k) == r[k];
      if k !in idx {
        assert k in words || (line != [] && k == line);
      }
    }
  }

  /** The body of the per-line loop (lines 49-57): the line is stripped and
      lowercased, its words are indexed, then the whole line unless it is
      empty. */
  method IndexLine(idx: Index, path: string, n: LineNumber, raw: string) returns (r: Index)
    ensures forall k :: Lookup(r, k) == Lookup(idx, k) + Repeat(Occurrence(path, n), Multiplicity(k, raw))
    ensures WellFormed(idx) ==> WellFormed(r)
  {
    var occ := Occurrence(path, n);
    var line := IndexedForm(raw);
    var words := FindWords(line);
    var mid := AppendWords(idx, words, occ);
    AppendLine(idx, mid, words, line, occ);
    r := if line != [] then Append(mid, line, occ) else mid;
    if WellFormed(idx) {
      TokensNoUpper(line, IsWordChar);
      TokensAreRuns(line, IsWordChar);
      LineKeepsWellFormed(idx, r, words, line, occ);
    }
  }

  /** Indexing line `i + 1` of a document extends the index of its first `i`
      lines to that of its first `i + 1`. */
  lemma NextLine(idx: Index, before: Index, after: Index, doc: Document, i: nat)
    requires i < |doc.lines|
    requires forall k :: Lookup(before, k) == Lookup(idx, k) + Hits(doc.path, Counts(k, doc.lines)[..i], 1)
    requires forall k :: Lookup(after, k) == Lookup(before, k) + Repeat(Occurrence(doc.path, i + 1), Multiplicity(k, doc.lines[i]))
    ensures forall k :: Lookup(after, k) == Lookup(idx, k) + Hits(doc.path, Counts(k, doc.lines)[..i + 1], 1)
  {
    forall k ensures Lookup(after, k) == Lookup(idx, k) + Hits(doc.path, Counts(k, doc.lines)[..i + 1], 1) {
      var counts := Counts(k, doc.lines);
      TakeNext(counts, i);
      HitsSnoc(doc.path, counts[..i], counts[i], 1);
      assert counts[i] == Multiplicity(k, doc.lines[i]);
      AppendAssoc(Lookup(idx, k), Hits(doc.path, counts[..i], 1), Repeat(Occurrence(doc.path, i + 1), counts[i]));
    }
  }

  /** The per-line loop over one file, numbering lines from 1 (lines 46-59). */
  method IndexDocument(idx: Index, doc: Document) returns (r: Index)
    ensures forall k :: Lookup(r, k) == Lookup(idx, k) + LinesHits(k, doc.path, doc.lines, 1)
    ensures WellFormed(idx) ==> WellFormed(r)
  {
    r := idx;
    for i := 0 to |doc.lines|
      invariant forall k :: Lookup(r, k) == Lookup(idx, k) + Hits(doc.path, Counts(k, doc.lines)[..i], 1)
      invariant WellFormed(idx) ==> WellFormed(r)
    {
      var before := r;
      r := IndexLine(r, doc.path, i + 1, doc.lines[i]);
      NextLine(idx, before, r, doc, i);
    }
    forall k ensures Counts(k, doc.lines)[..|doc.lines|] == Counts(k, doc.lines) {
      TakeAll(Counts(k, doc.lines));
    }
  }

  /** `build_inverted_index`: an empty mapping filled from every document of
      the corpus in turn. Under every key it holds exactly the occurrences the
      corpus contributes, in scan order; a key is present exactly when it has
      one, and every key is a non-empty lower-case string. */
  method BuildInvertedIndex(corpus: Corpus) returns (idx: Index)
    ensures forall k :: Lookup(idx, k) == CorpusHits(k, corpus)
    ensures forall k :: k in idx <==> CorpusHits(k, corpus) != []
    ensures WellFormed(idx)
  {
    idx := map[];
    for d := 0 to |corpus|
      invariant forall k :: Lookup(idx, k) == CorpusHits(k, corpus[..d])
      invariant WellFormed(idx)
    {
      idx := IndexDocument(idx, corpus[d]);
      TakeNext(corpus, d);
      forall k ensures Lookup(idx, k) == CorpusHits(k, corpus[..d + 1]) {
        CorpusHitsSnoc(k, corpus[..d], corpus[d]);
      }
    }
    TakeAll(corpus);
    assert forall k :: k in idx <==> Lookup(idx, k) != [];
  }

  // ---------------------------------------------------------------------------
  // Where the occurrences point
  // ---------------------------------------------------------------------------

  /** The occurrence names a line of a document of the corpus. */
  predicate InCorpus(o: Occurrence, corpus: Corpus) {
    exists d :: d in corpus && d.path == o.file && o.line <= |d.lines|
  }

  lemma {:induction false} HitsInRange(path: string, counts: seq<nat>, n: LineNumber)
    ensures forall o :: o in Hits(path, counts, n) ==> o.file == path && n <= o.line < n + |counts|
    decreases |counts|
  {
    if counts != [] {
      var head := Repeat(Occurrence(path, n), counts[0]);
      var tail := Hits(path, counts[1..], n + 1);
      assert Hits(path, counts, n) == head + tail;
      HitsInRange(path, counts[1..], n + 1);
      forall o: Occurrence | o in head + tail ensures o.file == path && n <= o.line < n + |counts| {
        if o in head {
          assert o == Occurrence(path, n);
        }
      }
    }
  }

  lemma {:induction false} CorpusHitsInCorpus(key: string, docs: Corpus)
    ensures forall o :: o in CorpusHits(key, docs) ==> InCorpus(o, docs)
    decreases |docs|
  {
    if docs != [] {
      HitsInRange(docs[0].path, Counts(key, docs[0].lines), 1);
      CorpusHitsInCorpus(key, docs[1..]);
      assert CorpusHits(key, docs) == LinesHits(key, docs[0].path, docs[0].lines, 1) + CorpusHits(key, docs[1..]);
      forall o | o in CorpusHits(key, docs) ensures InCorpus(o, docs) {
        if o in LinesHits(key, docs[0].path, docs[0].lines, 1) {
          assert docs[0] in docs;
        } else {
          var d :| d in docs[1..] && d.path == o.file && o.line <= |d.lines|;
          assert d in docs;
        }
      }
    }
  }

  /** Every occurrence the corpus contributes names an existing line (1 to
      the number of lines) of one of its documents; with
      `BuildInvertedIndex`'s contract this covers every occurrence of a built
      index. */
  lemma CorpusHitsPointIntoCorpus(corpus: Corpus, k: string, o: Occurrence)
    requires o in CorpusHits(k, corpus)
    ensures InCorpus(o, corpus)
  {
    CorpusHitsInCorpus(k, corpus);
  }
}
