# Phrase search over an inverted index, in Dafny

This project models the search engine of `src/InvertedIndexes.py` and proves
properties about that model. The engine builds an inverted index over the
lines of a set of text files: every word and every whole line points to the
`(file, line)` places where it occurs. Searching for a phrase then takes
these steps:

- normalise and split the phrase;
- replace each word the index does not know by a close index key;
- intersect the occurrence sets of the words;
- re-read the candidate lines and keep those that contain the normalised
  phrase;
- score the kept lines with a position-weighted edit-distance heuristic and
  return the five best.

The model works on in-memory data:

- a string is `seq<char>`;
- a corpus is a sequence of documents, each a relative path and its lines;
- the index is a `map<string, seq<Occurrence>>`;
- a file being read is the `seq<string>` of its lines.

Characters follow an ASCII reading of Python's classes:

- `\w` is a letter, a digit or `_`;
- `\s` and `str.isspace` mean the space, `\t` to `\r`, and U+001C to U+001F;
- `str.lower` changes only `A`-`Z`.

## Modules

| file | module | what it holds |
|---|---|---|
| `wrappers.dfy` | `Wrappers`, `SeqFacts` | `Option`, plus small sequence facts used by the proofs |
| `text.dfy` | `Text` | the string helpers: `strip`, `lower`, `split`, `" ".join`, `re.findall(r'\b\w+\b')`, `in` on strings, and `normalize_text` |
| `edit_distance.dfy` | `EditDistance` | `calculate_levenshtein_distance` and `calculate_score` |
| `inverted_index.dfy` | `InvertedIndex` | `build_inverted_index`, and a reference description of what each key holds |
| `phrase_check.dfy` | `PhraseCheck` | `check_consecutive_words`, `process_file_for_phrase` |
| `fuzzy.dfy` | `Fuzzy` | correcting missing query words |
| `ranking.dfy` | `Ranking` | scoring, stable descending sort, top five |
| `search.dfy` | `Search` | `search_phrase_with_scores` |
| `index_cache.dfy` | `IndexCache` | the reuse-or-rebuild decision of `load_or_build_inverted_index` |

**Edit distance.**

- The Levenshtein table is specified by the recursive `Dist`.
- The row-by-row fill (`DistanceTable`) is proved to agree with `Dist`.
- The score's backtrack is a recursive function, `Backtrack`, that returns the trace of moves.
- The source's `while` loop (`BacktrackScore`) is proved to subtract exactly the penalties of that trace.

**Index builder.** The index builder is the source's nested loops over a mutable mapping. Its postcondition equates every key's list with `CorpusHits`, an independent scan-order description of the same list.

**Search.** The search is split into steps: intersection, grouping, per-file check, scoring, sorting and truncation. Each step is a method with its own contract. The top-level contract speaks of `Verified`: a line that carries every corrected word and contains the joined words. Opening a file that is not in the corpus contents ends the search with `FileNotFound`. This mirrors `open` raising inside a worker and `future.result()` raising it again. Only files that hold an occurrence of every word are opened, so only those can cause the error.

## Model

| member | source | states |
|---|---|---|
| Text.Strip | src/InvertedIndexes.py:49 | The stripped string is no longer than the input, and it neither starts nor ends with whitespace. |
| Text.StripRemovesOnlySpace | src/InvertedIndexes.py:131 | `strip` removes only whitespace: the result is a slice of the input with nothing but whitespace before and after it. |
| Text.CollapseSpacesShape | src/InvertedIndexes.py:341 | After `re.sub(r'\s+', ' ', ...)` the only whitespace is single spaces, never two in a row. Every other character comes from the input. The result starts with a space only if the input did. |
| Text.SplitCollapse | src/InvertedIndexes.py:341 | Collapsing whitespace runs keeps the words: `split()` gives the same list before and after. |
| Text.SplitTrimmed | src/InvertedIndexes.py:341 | Removing whitespace from both ends keeps the words. |
| Text.NormalizeText | src/InvertedIndexes.py:333-341 | The normaliser's output has only lower-case word characters and single spaces, and no space at either end. |
| Text.SplitNormalizeText | src/InvertedIndexes.py:333-341 | The normaliser keeps the words. The words of its output are those of the input once every character that is neither a word character nor whitespace is deleted, lower-cased. |
| Text.NormalizeTextIsJoinedWords | src/InvertedIndexes.py:333-341 | Reference form: the output is exactly those words joined by single spaces. For example, `"Hello, world!"` becomes `"hello world"`. |
| Text.NormalizeTextFixpoint | src/InvertedIndexes.py:333-341 | A string already in that form is left unchanged. |
| Text.NormalizeTextIdempotent | src/InvertedIndexes.py:333-341 | Normalising twice gives the same as normalising once. |
| Text.IsSubstringIff | src/InvertedIndexes.py:144 | Python's `p in s` holds exactly when `p` occurs at some index of `s`. |
| Text.TokensAreRuns | src/InvertedIndexes.py:37-51 | Each token found by `findall(r'\b\w+\b')` or `split()` is a non-empty run of characters of its class. |
| Text.TokensNoUpper | src/InvertedIndexes.py:49-51 | Tokens of a lower-cased line contain no upper-case letter. |
| Text.SplitNormalizedWords | src/InvertedIndexes.py:213-214 | The words of a normalised query are non-empty, lower-case and made of word characters only. |
| Text.JoinSplit | src/InvertedIndexes.py:213-214 | Joining the words of a normalised string with single spaces gives back the string. So the uncorrected query equals its words re-joined. |
| Text.SplitJoin | src/InvertedIndexes.py:254-256 | Splitting the join of non-empty, space-free words gives back the words. |
| EditDistance.DistanceTable | src/InvertedIndexes.py:300-316 | The filled table has `len(a)+1` rows of `len(b)+1` entries. Entry (i, j) is the edit distance of the prefixes of length i and j. |
| EditDistance.CalculateLevenshteinDistance | src/InvertedIndexes.py:298-318 | The result is the Levenshtein distance of the two strings. It is the first string's length when the second is empty. |
| EditDistance.LevenshteinSelf | src/InvertedIndexes.py:298-318 | `distance(s, s) == 0`. |
| EditDistance.LevenshteinSymmetric | src/InvertedIndexes.py:298-318 | `distance(a, b) == distance(b, a)`. |
| EditDistance.LevenshteinBounds | src/InvertedIndexes.py:298-318 | The distance lies between `abs(len(a) - len(b))` and `max(len(a), len(b))`. The distance to the empty string is the length. |
| EditDistance.LevenshteinZeroIff | src/InvertedIndexes.py:298-318 | The distance is 0 exactly when the strings are equal. |
| EditDistance.SubstitutionPenalty | src/InvertedIndexes.py:187 | A substitution costs 1 to 5. It costs 1 from query position 5 on. |
| EditDistance.GapPenalty | src/InvertedIndexes.py:194-200 | A deletion or insertion costs 2 to 10. It costs 2 from position 5 on. |
| EditDistance.NextStep | src/InvertedIndexes.py:181-200 | The move chosen at a cell keeps the indices in range: only insertions keep `i`, and only deletions keep `j`. |
| EditDistance.TableWalkable | src/InvertedIndexes.py:181-203 | On the distance table, at least one branch applies at every cell other than (0, 0). So the backtracking loop never stalls. |
| EditDistance.BacktrackWalk | src/InvertedIndexes.py:181-203 | From (i, j) the backtrack reaches (0, 0) after consuming exactly i query and j candidate characters. Its number of penalised steps equals the edit distance of the prefixes. |
| EditDistance.PenaltyBounds | src/InvertedIndexes.py:187-200 | The total penalty of a trace is between its number of penalised steps and ten times that number. |
| EditDistance.BacktrackScore | src/InvertedIndexes.py:178-203 | The loop returns `2*len(q)` minus the total penalty of the backtrack trace. |
| EditDistance.CalculateScore | src/InvertedIndexes.py:138-206 | The method computes the score: the containment shortcut, or else the table and the backtrack. |
| EditDistance.ScoreBounds | src/InvertedIndexes.py:138-206 | When `q` occurs in `c`, the score is exactly `2*len(q)`. Otherwise the distance d is at least 1 and `2*len(q) - 10d <= score <= 2*len(q) - d`, so the score may be negative. |
| EditDistance.Score | src/InvertedIndexes.py:138-206 | The score is at most `2*len(q)`, and it reaches that value exactly when `q` is a substring of the candidate. |
| InvertedIndex.AppendWords | src/InvertedIndexes.py:52-53 | Each key gains one occurrence per time it appears among the words, after its old list. The key set grows by exactly the words. |
| InvertedIndex.IndexLine | src/InvertedIndexes.py:49-57 | Each key gains as many copies of `(file, line)` as it has word tokens on the stripped, lower-cased line. It gains one more if it equals that whole non-empty line. Keys stay non-empty and lower-case, with non-empty lists. |
| InvertedIndex.IndexDocument | src/InvertedIndexes.py:45-59 | After a file, each key's list is the old list followed by the file's occurrences of it, in line order, with lines numbered from 1. |
| InvertedIndex.BuildInvertedIndex | src/InvertedIndexes.py:32-60 | Every key's list is exactly its occurrences in scan order, duplicates kept. A key is present exactly when it occurs somewhere. Every key is non-empty, has no upper-case letter and maps to a non-empty list. |
| InvertedIndex.CorpusHitsPointIntoCorpus | src/InvertedIndexes.py:46-59 | Every occurrence names a file of the corpus and a line number from 1 to that file's number of lines. |
| PhraseCheck.CheckConsecutiveWords | src/InvertedIndexes.py:321-331 | The check holds exactly when the normalised phrase occurs at some index of the normalised line. |
| PhraseCheck.CheckNormalizedLine | src/InvertedIndexes.py:131-133 | Normalising the line before the check does not change the verdict. |
| PhraseCheck.CheckEmptyPhrase | src/InvertedIndexes.py:321-331 | A phrase that normalises to the empty string matches every line. |
| PhraseCheck.CheckSelf | src/InvertedIndexes.py:321-331 | Every line matches itself. |
| PhraseCheck.JoinInfix | src/InvertedIndexes.py:331 | A consecutive run of words, joined by spaces, occurs in the join of all the words. |
| PhraseCheck.WordRunMatches | src/InvertedIndexes.py:321-331 | The check accepts a phrase whose normalised words are a consecutive run of the line's normalised words. |
| PhraseCheck.SelectedSound | src/InvertedIndexes.py:129-134 | Each reported hit is a listed line number that exists and passes the check, with the stripped line as its text. There are never more hits than listed numbers. |
| PhraseCheck.SelectedDistinct | src/InvertedIndexes.py:129-134 | When the listed numbers are distinct, no hit is reported twice. |
| PhraseCheck.SelectedComplete | src/InvertedIndexes.py:129-134 | Each listed line number that exists and passes the check is reported. |
| PhraseCheck.ProcessFileForPhrase | src/InvertedIndexes.py:118-136 | The loop returns the reference selection: in list order, the hits of the numbers `n <= len(lines)` whose stripped, normalised line passes the check. A hit is returned exactly when its line is listed, exists and passes the check, and it carries the stripped line. With distinct line numbers, no hit repeats. |
| Fuzzy.LexLessTotal | src/InvertedIndexes.py:242-245 | Python's string `<` orders any two distinct keys one way or the other. |
| Fuzzy.LexLessTransitive | src/InvertedIndexes.py:242-245 | Python's string `<` is transitive. |
| Fuzzy.LexLessAsymmetric | src/InvertedIndexes.py:242-245 | Two strings are never each below the other. |
| Fuzzy.LexLessIrreflexive | src/InvertedIndexes.py:242-245 | No string is below itself. |
| Fuzzy.CandidateByDistance | src/InvertedIndexes.py:237-240 | The length filter only saves work: a key passes both filters exactly when it is within distance 1. |
| Fuzzy.OutranksTransitive | src/InvertedIndexes.py:242-245 | The heap order on `(-score, key)` is transitive. |
| Fuzzy.BestUnique | src/InvertedIndexes.py:244-247 | At most one key is first in the heap order among the candidates. |
| Fuzzy.BestStep | src/InvertedIndexes.py:235-242 | Adding one candidate to those seen keeps track of the best: the new key if it outranks the old best, else the old best. |
| Fuzzy.BestMatch | src/InvertedIndexes.py:234-252 | The result is absent exactly when no key passes the filters. Otherwise it is the candidate with the highest score, ties going to the smallest key. |
| Fuzzy.CorrectedUnique | src/InvertedIndexes.py:228-252 | The correction of a word is uniquely determined. |
| Fuzzy.CorrectWords | src/InvertedIndexes.py:226-252 | There is one output word per input word. A word with occurrences is kept. A missing word becomes its best candidate key, or stays when there is none. |
| Ranking.ScoreAll | src/InvertedIndexes.py:284-285 | Each hit is paired, in order, with the score of the phrase as typed against the hit's stripped line. |
| Ranking.InsertAdds | src/InvertedIndexes.py:288 | Inserting a match adds exactly that match. |
| Ranking.InsertSorted | src/InvertedIndexes.py:288 | Inserting into a descending sequence keeps it descending. |
| Ranking.InsertStable | src/InvertedIndexes.py:288 | Inserting puts the match after every match of equal score. |
| Ranking.SortByScoreDesc | src/InvertedIndexes.py:288 | The output is a permutation of the input with non-increasing scores. Matches of equal score keep their relative order, as Python's stable `sorted(..., reverse=True)` does. |
| Ranking.TopMatches | src/InvertedIndexes.py:288 | `[:5]` keeps at most five matches. |
| Ranking.TopMatchesLeaveOutLower | src/InvertedIndexes.py:288 | A sorted match left out of the first five means five were kept, and it scores no more than the fifth. |
| Search.Intersect | src/InvertedIndexes.py:260-263 | An occurrence is common exactly when it lies in every word's set. |
| Search.GroupByFile | src/InvertedIndexes.py:261-269 | The grouping loses and invents nothing: an occurrence is common exactly when its line is listed under its file. The files are distinct, and each has a non-empty list. The numbers listed under a file are distinct, since they come from a set. |
| Search.ProcessGroups | src/InvertedIndexes.py:274-281 | The step fails exactly when some grouped file cannot be opened. It then names the first such file in submission order. Otherwise the merged results are exactly the hits of the grouped lines that exist and pass the check. They hold no repeated hit when the files and each file's numbers are distinct. |
| Search.CommonOfTerms | src/InvertedIndexes.py:257-263 | The intersection of the occurrence sets holds exactly the occurrences every word has. |
| Search.VerifiedHits | src/InvertedIndexes.py:257-281 | The step fails exactly when a file holding an occurrence of every word cannot be opened, and it names such a file. Otherwise the lines that reach the scoring step are exactly the verified lines for the corrected words, each once. |
| Search.Rank | src/InvertedIndexes.py:283-288 | At most five matches are kept, in non-increasing score order. As a multiset they are part of the scored hits, so nothing is kept more often than it was scored. Any hit left out scores no more than the fifth kept one. When the hits are distinct, no two kept matches share a hit. |
| Search.NothingToCorrect | src/InvertedIndexes.py:224-230 | When no word is missing, every word is its own correction. |
| Search.SearchPhraseWithScores | src/InvertedIndexes.py:209-295 | The search corrects each query word and returns no matches for an empty normalised query. It fails with `FileNotFound` exactly when a file holding an occurrence of every corrected word cannot be opened. Otherwise it returns at most five matches, in non-increasing score order. Every match is a verified line scored against the phrase as typed, and no line appears twice. A verified line left out scores no more than the fifth match. |
| IndexCache.LoadOrBuild | src/InvertedIndexes.py:84-115 | The stored index is returned unchanged exactly when both files exist and the checksum matches. Otherwise the index is built from the corpus. Either way the store then holds the returned index under the current checksum, so a second call reuses it. |

## Details of the code that the model keeps

- **Penalty positions.** Substitutions and deletions are penalised by `i`,
  the 1-based query position counted from the start (lines 187 and 194).
  Insertions are penalised by `j`, the 1-based candidate position
  (line 200). `Step` carries exactly these indices.
- **Tie-break in fuzzy correction.** The code pushes `(-score, candidate)`
  onto a heap and takes the smallest pair (lines 242-247). Ties therefore go
  to the smallest key in Python's string order (`Fuzzy.Outranks`,
  `Fuzzy.LexLess`), whatever order the keys are met in.
- **Unreadable files.** `future.result()` (line 279) raises again the error
  of a worker whose `open` failed (line 127), so the whole search fails.
  Only files holding a common occurrence are opened, so a missing file
  anywhere else in the index does no harm (`Search.Outcome`,
  `Search.CommonInMissingFile`).

## Left out

- `compute_file_checksum` (SHA-256 through `hashlib`): the checksum is an input string of `IndexCache.LoadOrBuild`.
- `extract_txt_files`, `os.walk`, `open`, `readlines` and `pickle`: the corpus, the file contents and the cache files are in-memory inputs (`Corpus`, `Search.Contents`, `IndexCache.Store`). Which `.txt` files exist and their walk order are inputs too.
- Reading a cache file that exists but is corrupt (an unpickling error) is not modelled.
- `search_inverted_index` (lines 63-81) is an exact-key lookup followed by printing and re-reading files. The lookup is `InvertedIndex.Lookup`; the printing is not modelled.
- All `print` output, including the messages of `search_phrase_with_scores`: the search returns its matches instead. For a query with no words the function returns `None`; the model returns no matches.
- The `ThreadPoolExecutor` runs sequentially, in the order of the grouped files. The tasks share no state, and the results are merged in submission order either way.
- The iteration order of the Python `set` of common occurrences is hash-dependent. The model walks it in an unspecified order, and every search property is stated so that it holds for any order.
- Unicode: `\w`, `\s` and `lower()` are modelled on ASCII only. The file decoding with `errors='ignore'` is not modelled.
- The unreachable line number 0 (Python would index `lines[-1]`): line numbers are a subtype starting at 1.
- `LLM/GeminiAPI.py` (a network client) and `main.py` (the interactive command loop) are not part of this model.
- Opening a file can fail for reasons other than its absence, such as permissions or a directory of that name. The model has one error, `FileNotFound`, for any path missing from `Search.Contents`. When several files are missing, the code's workers would all fail, and the first failure in submission order is raised. The model stops at that file.
- Search.SearchPhraseWithScores: returns the corrected words alongside the matches. The code keeps them in a local variable.
