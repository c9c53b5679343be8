/** Phrase verification: `check_consecutive_words` (src/InvertedIndexes.py:321-331)
    and `process_file_for_phrase` (src/InvertedIndexes.py:118-136) over the
    lines of one file, already read into memory. */
module PhraseCheck {
  import opened Text
  import opened SeqFacts
  import opened InvertedIndex

  /** `check_consecutive_words(line, phrase)`: the normalised phrase is a
      contiguous substring of the normalised line. */
  function CheckConsecutiveWords(line: string, phrase: string): (r: bool)
    ensures r <==> exists i :: OccursAt(NormalizeText(phrase), NormalizeText(line), i)
  {
    IsSubstringIff(NormalizeText(phrase), NormalizeText(line));
    IsSubstring(NormalizeText(phrase), NormalizeText(line))
  }

  // ---------------------------------------------------------------------------
  // What the check accepts
  // ---------------------------------------------------------------------------

  /** Normalising the line first does not change the verdict, so
      `process_file_for_phrase` normalising before calling the check is
      harmless. */
  lemma CheckNormalizedLine(line: string, phrase: string)
    ensures CheckConsecutiveWords(NormalizeText(line), phrase) == CheckConsecutiveWords(line, phrase)
  {
    NormalizeTextIdempotent(line);
  }

  /** A phrase that normalises to nothing matches every line. */
  lemma CheckEmptyPhrase(line: string, phrase: string)
    requires NormalizeText(phrase) == []
    ensures CheckConsecutiveWords(line, phrase)
  {
    assert NormalizeText(line)[..0] == [];
  }

  /** Every line matches itself. */
  lemma CheckSelf(line: string)
    ensures CheckConsecutiveWords(line, line)
  {
    var t := NormalizeText(line);
    assert t[..|t|] == t;
  }

  /** Joining a non-empty prefix of the words and the rest. */
  lemma {:induction false} JoinPrefix(ws: seq<string>, b: nat)
    requires 0 < b < |ws|
    ensures Join(ws) == Join(ws[..b]) + " " + Join(ws[b..])
    decreases b
  {
    assert Join(ws) == ws[0] + " " + Join(ws[1..]);
    if b > 1 {
      var tl := ws[1..];
      JoinPrefix(tl, b - 1);
      assert tl[..b - 1] == ws[..b][1..] && tl[b - 1..] == ws[b..];
      assert Join(ws[..b]) == ws[0] + " " + Join(tl[..b - 1]);
    } else {
      assert ws[..b] == [ws[0]];
    }
  }

  /** The join of the first `b` words starts the join of all of them. */
  lemma JoinStartsWith(ws: seq<string>, b: nat)
    requires 0 < b <= |ws|
    ensures |Join(ws[..b])| <= |Join(ws)| && Join(ws)[..|Join(ws[..b])|] == Join(ws[..b])
  {
    if b == |ws| {
      assert ws[..b] == ws;
    } else {
      JoinPrefix(ws, b);
      PrefixOfAppend(Join(ws[..b]), " " + Join(ws[b..]));
    }
  }

  /** A run of the words starting after the first `a` of them occurs in
      the join just past the join of those `a` and a space. */
  lemma JoinInfixAfter(ws: seq<string>, a: nat, b: nat)
    requires 0 < a < b <= |ws|
    ensures OccursAt(Join(ws[a..b]), Join(ws), |Join(ws[..a])| + 1)
  {
    var tail := ws[a..];
    assert ws[a..b] == tail[..b - a];
    JoinStartsWith(tail, b - a);
    JoinPrefix(ws, a);
    AppendAssoc(Join(ws[..a]), " ", Join(tail));
    SliceAfter(Join(ws[..a]) + " ", Join(tail), |Join(ws[a..b])|);
  }

  /** A contiguous run of the words occurs in their join. */
  lemma JoinInfix(ws: seq<string>, a: nat, b: nat)
    requires a <= b <= |ws|
    ensures IsSubstring(Join(ws[a..b]), Join(ws))
  {
    IsSubstringIff(Join(ws[a..b]), Join(ws));
    if a == b {
      assert OccursAt(Join(ws[a..b]), Join(ws), 0);
    } else if a == 0 {
      JoinStartsWith(ws, b);
      assert OccursAt(Join(ws[a..b]), Join(ws), 0);
    } else {
      JoinInfixAfter(ws, a, b);
    }
  }

  /** The check accepts a phrase whose words are a consecutive run of the
      line's words, which is what the search relies on. */
  lemma WordRunMatches(line: string, phrase: string, a: nat, b: nat)
    requires a <= b <= |Split(NormalizeText(line))|
    requires Split(NormalizeText(phrase)) == Split(NormalizeText(line))[a..b]
    ensures CheckConsecutiveWords(line, phrase)
  {
    var l, p := NormalizeText(line), NormalizeText(phrase);
    JoinSplit(l);
    JoinSplit(p);
    JoinInfix(Split(l), a, b);
  }

  // ---------------------------------------------------------------------------
  // process_file_for_phrase
  // ---------------------------------------------------------------------------

  /** `(filename, line_number, original_line)`: a verified line, its text
      stripped. */
  datatype Hit = Hit(file: string, line: LineNumber, text: string)

  /** Line `n` exists (the guard of line 130) and its stripped, normalised
      text passes the check. */
  predicate LineMatches(lines: seq<string>, n: LineNumber, phrase: string) {
    n <= |lines| && CheckConsecutiveWords(NormalizeText(Strip(lines[n - 1])), phrase)
  }

  /** The hit for line `n` of the file. */
  function HitAt(file: string, lines: seq<string>, n: LineNumber): Hit
    requires n <= |lines|
  {
    Hit(file, n, Strip(lines[n - 1]))
  }

  /** Reference: the hits of the listed line numbers that exist and match,
      in the order of the list. */
  function Selected(file: string, ns: seq<LineNumber>, phrase: string, lines: seq<string>): seq<Hit> {
    if ns == [] then []
    else
      (if LineMatches(lines, ns[0], phrase) then [HitAt(file, lines, ns[0])] else [])
      + Selected(file, ns[1..], phrase, lines)
  }

  /** One step of the reference list from position `i`. */
  lemma SelectedFrom(file: string, ns: seq<LineNumber>, i: nat, phrase: string, lines: seq<string>)
    requires i < |ns|
    ensures Selected(file, ns[i..], phrase, lines)
      == (if LineMatches(lines, ns[i], phrase) then [HitAt(file, lines, ns[i])] else []) + Selected(file, ns[i + 1..], phrase, lines)
  {
    assert ns[i..][1..] == ns[i + 1..];
  }

  /** Every reported hit is a listed line that exists and matches, with its
      stripped text. */
  lemma {:induction false} SelectedSound(file: string, ns: seq<LineNumber>, phrase: string, lines: seq<string>)
    ensures forall h :: h in Selected(file, ns, phrase, lines) ==>
      h.line in ns && LineMatches(lines, h.line, phrase) && h == HitAt(file, lines, h.line)
    ensures |Selected(file, ns, phrase, lines)| <= |ns|
  {
    if ns != [] {
      SelectedSound(file, ns[1..], phrase, lines);
      assert forall n :: n in ns[1..] ==> n in ns;
    }
  }

  /** Every listed line that exists and matches is reported. */
  lemma {:induction false} SelectedComplete(file: string, ns: seq<LineNumber>, phrase: string, lines: seq<string>)
    ensures forall k :: 0 <= k < |ns| && LineMatches(lines, ns[k], phrase) ==> HitAt(file, lines, ns[k]) in Selected(file, ns, phrase, lines)
  {
    if ns != [] {
      SelectedComplete(file, ns[1..], phrase, lines);
      assert forall k :: 0 < k < |ns| ==> ns[k] == ns[1..][k - 1];
    }
  }

  /** Distinct line numbers give distinct hits: each listed line is
      reported at most once. */
  lemma {:induction false} SelectedDistinct(file: string, ns: seq<LineNumber>, phrase: string, lines: seq<string>)
    requires Distinct(ns)
    ensures Distinct(Selected(file, ns, phrase, lines))
  {
    if ns != [] {
      var tail := ns[1..];
      assert Distinct(tail) by {
        forall a, b | 0 <= a < b < |tail| ensures tail[a] != tail[b] {
          assert tail[a] == ns[a + 1] && tail[b] == ns[b + 1];
        }
      }
      SelectedDistinct(file, tail, phrase, lines);
      SelectedSound(file, tail, phrase, lines);
      var rest := Selected(file, tail, phrase, lines);
      if LineMatches(lines, ns[0], phrase) {
        var first := HitAt(file, lines, ns[0]);
        assert first !in rest by {
          forall k | 0 <= k < |tail| ensures tail[k] != ns[0] {
            assert tail[k] == ns[k + 1];
          }
        }
        DistinctAppend([first], rest);
      }
    }
  }

  /** The body of the loop of lines 129-134 for one line number: the
      hit, when the line exists and passes the check. */
  method CheckLine(file: string, n: LineNumber, phrase: string, lines: seq<string>) returns (found: seq<Hit>)
    ensures found == if LineMatches(lines, n, phrase) then [HitAt(file, lines, n)] else []
  {
    found := [];
    if n <= |lines| {
      var original := Strip(lines[n - 1]);
      var normalized := NormalizeText(original);
      if CheckConsecutiveWords(normalized, phrase) {
        found := [Hit(file, n, original)];
      }
    }
  }

  /** `process_file_for_phrase` over the file's lines: for each listed line
      number that exists, the stripped line is normalised and checked, and
      the matching ones are collected in list order. */
  method ProcessFileForPhrase(file: string, lineNumbers: seq<LineNumber>, phrase: string, lines: seq<string>)
    returns (results: seq<Hit>)
    ensures results == Selected(file, lineNumbers, phrase, lines)
    ensures forall h :: h in results <==>
      h.line in lineNumbers && LineMatches(lines, h.line, phrase) && h == HitAt(file, lines, h.line)
    ensures Distinct(lineNumbers) ==> Distinct(results)
  {
    results := [];
    for i := 0 to |lineNumbers|
      invariant results + Selected(file, lineNumbers[i..], phrase, lines) == Selected(file, lineNumbers, phrase, lines)
    {
      SelectedFrom(file, lineNumbers, i, phrase, lines);
      var found := CheckLine(file, lineNumbers[i], phrase, lines);
      AppendAssoc(results, found, Selected(file, lineNumbers[i + 1..], phrase, lines));
      results := results + found;
    }
    assert lineNumbers[|lineNumbers|..] == [];
    SelectedSound(file, lineNumbers, phrase, lines);
    SelectedComplete(file, lineNumbers, phrase, lines);
    if Distinct(lineNumbers) {
      SelectedDistinct(file, lineNumbers, phrase, lines);
    }
  }
}
