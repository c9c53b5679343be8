/** The edit-distance engine of src/InvertedIndexes.py:
    `calculate_levenshtein_distance` (lines 298-318) and the position-weighted
    `calculate_score` (lines 138-206).

    `Dist` is the recursive reading of the dynamic-programming table both
    functions fill; `DistanceTable` fills that table row by row and is proved
    to agree with it. The score's backtrack is a recursive function producing
    the trace of steps it takes, and `CalculateScore` is the loop of the
    source, proved equal to it. */
module EditDistance {
  import opened Wrappers
  import opened Text

  // ---------------------------------------------------------------------------
  // Levenshtein distance
  // ---------------------------------------------------------------------------

  function Min3(x: nat, y: nat, z: nat): (m: nat)
    ensures m <= x && m <= y && m <= z
    ensures m == x || m == y || m == z
  {
    if x <= y && x <= z then x else if y <= z then y else z
  }

  /** The table entry `dp[i][j]`: the edit distance between the first `i`
      characters of `a` and the first `j` characters of `b`, by the
      recurrence of the source (a matching last character copies the
      diagonal; otherwise one plus the least of deletion, insertion and
      substitution). */
  function Dist(a: string, b: string, i: nat, j: nat): nat
    requires i <= |a| && j <= |b|
    decreases i + j
  {
    if i == 0 then j
    else if j == 0 then i
    else if a[i - 1] == b[j - 1] then Dist(a, b, i - 1, j - 1)
    else Min3(Dist(a, b, i - 1, j) + 1, Dist(a, b, i, j - 1) + 1, Dist(a, b, i - 1, j - 1) + 1)
  }

  /** The Levenshtein distance between `a` and `b`. */
  function Levenshtein(a: string, b: string): nat {
    Dist(a, b, |a|, |b|)
  }

  /** `dp` has the shape of a table for `a` and `b`: `|a| + 1` rows of
      `|b| + 1` entries. */
  predicate Shaped(dp: seq<seq<nat>>, a: string, b: string) {
    |dp| == |a| + 1 && forall i :: 0 <= i <= |a| ==> |dp[i]| == |b| + 1
  }

  /** `dp` is the table for `a` and `b`: entry (i, j) is `Dist(a, b, i, j)`. */
  predicate IsTable(dp: seq<seq<nat>>, a: string, b: string) {
    Shaped(dp, a, b) && forall i, j :: 0 <= i <= |a| && 0 <= j <= |b| ==> dp[i][j] == Dist(a, b, i, j)
  }

  /** The table, as a value. */
  function Table(a: string, b: string): (dp: seq<seq<nat>>)
    ensures IsTable(dp, a, b)
  {
    seq(|a| + 1, i requires 0 <= i <= |a| =>
      seq(|b| + 1, j requires 0 <= j <= |b| => Dist(a, b, i, j)))
  }

  /** There is only one table. */
  lemma TableUnique(dp: seq<seq<nat>>, a: string, b: string)
    requires IsTable(dp, a, b)
    ensures dp == Table(a, b)
  {
    var t := Table(a, b);
    forall i | 0 <= i <= |a| ensures dp[i] == t[i] {
      assert |dp[i]| == |t[i]|;
    }
  }

  /** `row` is row `i` of the table for `a` and `b`. */
  predicate IsRow(row: seq<nat>, a: string, b: string, i: nat)
    requires i <= |a|
  {
    |row| == |b| + 1 && forall j :: 0 <= j <= |b| ==> row[j] == Dist(a, b, i, j)
  }

  /** `row` holds the first entries of row `i` of the table. */
  predicate RowPrefix(row: seq<nat>, a: string, b: string, i: nat)
    requires i <= |a| && |row| <= |b| + 1
  {
    forall j :: 0 <= j < |row| ==> row[j] == Dist(a, b, i, j)
  }

  /** Extending a row prefix by the next entry. */
  lemma RowPrefixSnoc(row: seq<nat>, v: nat, a: string, b: string, i: nat)
    requires i <= |a| && |row| <= |b|
    requires RowPrefix(row, a, b, i) && v == Dist(a, b, i, |row|)
    ensures RowPrefix(row + [v], a, b, i)
  {
    forall j | 0 <= j < |row| + 1 ensures (row + [v])[j] == Dist(a, b, i, j) {
      if j < |row| {
        assert (row + [v])[j] == row[j];
      }
    }
  }

  /** Row `i` (1 <= i) of the table, filled left to right from row `i - 1`
      (lines 307-316 and 162-171). */
  method NextRow(a: string, b: string, i: nat, prev: seq<nat>) returns (row: seq<nat>)
    requires 1 <= i <= |a|
    requires IsRow(prev, a, b, i - 1)
    ensures IsRow(row, a, b, i)
  {
    row := [i];
    var j := 1;
    while j <= |b|
      invariant 1 <= j <= |b| + 1
      invariant |row| == j
      invariant RowPrefix(row, a, b, i)
    {
      assert prev[j] == Dist(a, b, i - 1, j) && prev[j - 1] == Dist(a, b, i - 1, j - 1);
      assert row[j - 1] == Dist(a, b, i, j - 1);
      DistStep(a, b, i, j);
      var v: nat;
      if a[i - 1] == b[j - 1] {
        v := prev[j - 1];
      } else {
        v := Min3(prev[j] + 1, row[j - 1] + 1, prev[j - 1] + 1);
      }
      RowPrefixSnoc(row, v, a, b, i);
      row := row + [v];
      j := j + 1;
    }
  }

  /** One step of the recurrence away from the borders. */
  lemma DistStep(a: string, b: string, i: nat, j: nat)
    requires 1 <= i <= |a| && 1 <= j <= |b|
    ensures Dist(a, b, i, j) ==
      if a[i - 1] == b[j - 1] then Dist(a, b, i - 1, j - 1)
      else Min3(Dist(a, b, i - 1, j) + 1, Dist(a, b, i, j - 1) + 1, Dist(a, b, i - 1, j - 1) + 1)
  {
  }

  /** The table of `calculate_levenshtein_distance` and `calculate_score`,
      as a list of rows: row `i`, column `j` holds `Dist(a, b, i, j)`. */
  method DistanceTable(a: string, b: string) returns (dp: seq<seq<nat>>)
    ensures IsTable(dp, a, b)
  {
    var first := seq(|b| + 1, j requires 0 <= j <= |b| => j as nat);
    assert IsRow(first, a, b, 0);
    dp := [first];
    var i := 1;
    while i <= |a|
      invariant 1 <= i <= |a| + 1
      invariant |dp| == i
      invariant forall ii :: 0 <= ii < i ==> IsRow(dp[ii], a, b, ii)
    {
      var row := NextRow(a, b, i, dp[i - 1]);
      dp := dp + [row];
      i := i + 1;
    }
    forall ii, jj | 0 <= ii <= |a| && 0 <= jj <= |b| ensures dp[ii][jj] == Dist(a, b, ii, jj) {
      assert IsRow(dp[ii], a, b, ii);
    }
  }

  /** `calculate_levenshtein_distance(s1, s2)`. */
  method CalculateLevenshteinDistance(s1: string, s2: string) returns (d: nat)
    ensures d == Levenshtein(s1, s2)
    ensures s2 == [] ==> d == |s1|
  {
    var dp := DistanceTable(s1, s2);
    d := dp[|s1|][|s2|];
  }

  /** Identical prefixes are at distance zero. */
  lemma {:induction false} DistSelf(a: string, i: nat)
    requires i <= |a|
    ensures Dist(a, a, i, i) == 0
  {
    if i > 0 {
      DistSelf(a, i - 1);
    }
  }

  /** `calculate_levenshtein_distance(s, s) == 0`. */
  lemma LevenshteinSelf(a: string)
    ensures Levenshtein(a, a) == 0
  {
    DistSelf(a, |a|);
  }

  /** Swapping the strings transposes the table. */
  lemma {:induction false} DistSymmetric(a: string, b: string, i: nat, j: nat)
    requires i <= |a| && j <= |b|
    ensures Dist(a, b, i, j) == Dist(b, a, j, i)
    decreases i + j
  {
    if i > 0 && j > 0 {
      DistSymmetric(a, b, i - 1, j - 1);
      if a[i - 1] != b[j - 1] {
        DistSymmetric(a, b, i - 1, j);
        DistSymmetric(a, b, i, j - 1);
      }
    }
  }

  /** The distance is symmetric. */
  lemma LevenshteinSymmetric(a: string, b: string)
    ensures Levenshtein(a, b) == Levenshtein(b, a)
  {
    DistSymmetric(a, b, |a|, |b|);
  }

  /** The table entry is at least the number of extra query characters. */
  lemma {:induction false} DistLowerRows(a: string, b: string, i: nat, j: nat)
    requires i <= |a| && j <= |b|
    ensures i - j <= Dist(a, b, i, j)
    decreases i + j
  {
    if i > 0 && j > 0 {
      DistLowerRows(a, b, i - 1, j - 1);
      if a[i - 1] != b[j - 1] {
        DistLowerRows(a, b, i - 1, j);
        DistLowerRows(a, b, i, j - 1);
      }
    }
  }

  /** The table entry is at least the number of extra candidate characters. */
  lemma {:induction false} DistLowerColumns(a: string, b: string, i: nat, j: nat)
    requires i <= |a| && j <= |b|
    ensures j - i <= Dist(a, b, i, j)
    decreases i + j
  {
    if i > 0 && j > 0 {
      DistLowerColumns(a, b, i - 1, j - 1);
      if a[i - 1] != b[j - 1] {
        DistLowerColumns(a, b, i - 1, j);
        DistLowerColumns(a, b, i, j - 1);
      }
    }
  }

  /** The table entry is at least the length difference. */
  lemma DistLower(a: string, b: string, i: nat, j: nat)
    requires i <= |a| && j <= |b|
    ensures i - j <= Dist(a, b, i, j) && j - i <= Dist(a, b, i, j)
  {
    DistLowerRows(a, b, i, j);
    DistLowerColumns(a, b, i, j);
  }

  /** The table entry is at most the longer length. */
  lemma {:induction false} DistUpper(a: string, b: string, i: nat, j: nat)
    requires i <= |a| && j <= |b|
    ensures Dist(a, b, i, j) <= (if i <= j then j else i)
    decreases i + j
  {
    if i > 0 && j > 0 {
      DistUpper(a, b, i - 1, j - 1);
    }
  }

  /** `||a| - |b|| <= dist(a, b) <= max(|a|, |b|)`, and the distance to the
      empty string is the length. */
  lemma LevenshteinBounds(a: string, b: string)
    ensures |a| - |b| <= Levenshtein(a, b) && |b| - |a| <= Levenshtein(a, b)
    ensures Levenshtein(a, b) <= (if |a| <= |b| then |b| else |a|)
    ensures Levenshtein(a, []) == |a|
  {
    DistLower(a, b, |a|, |b|);
    DistUpper(a, b, |a|, |b|);
  }

  /** Only equal prefixes are at distance zero. */
  lemma {:induction false} DistZero(a: string, b: string, i: nat, j: nat)
    requires i <= |a| && j <= |b|
    requires Dist(a, b, i, j) == 0
    ensures i == j && a[..i] == b[..j]
    decreases i + j
  {
    DistLower(a, b, i, j);
    if i > 0 {
      assert a[i - 1] == b[j - 1];
      DistZero(a, b, i - 1, j - 1);
      assert a[..i] == a[..i - 1] + [a[i - 1]];
      assert b[..j] == b[..j - 1] + [b[j - 1]];
    }
  }

  /** The distance is zero exactly for equal strings. */
  lemma LevenshteinZeroIff(a: string, b: string)
    ensures Levenshtein(a, b) == 0 <==> a == b
  {
    if Levenshtein(a, b) == 0 {
      DistZero(a, b, |a|, |b|);
      assert a == a[..|a|] && b == b[..|b|];
    }
    if a == b {
      LevenshteinSelf(a);
    }
  }

  // ---------------------------------------------------------------------------
  // calculate_score
  // ---------------------------------------------------------------------------

  /** One move of the backtrack, with the 1-based position its penalty is
      keyed by: the query index `i` for substitutions and deletions, the
      candidate index `j` for insertions. */
  datatype Step = Keep | Substitute(i: nat) | Delete(i: nat) | Insert(j: nat)

  /** Substitution penalty table (line 187): 5, 4, 3, 2 for `i` = 1..4, then 1. */
  function SubstitutionPenalty(i: nat): (p: nat)
    ensures 1 <= p <= 5
    ensures 5 <= i ==> p == 1
  {
    if i == 1 then 5 else if i == 2 then 4 else if i == 3 then 3 else if i == 4 then 2 else 1
  }

  /** Deletion and insertion penalty table (lines 194, 200): 10, 8, 6, 4 for
      positions 1..4, then 2. */
  function GapPenalty(k: nat): (p: nat)
    ensures 2 <= p <= 10
    ensures 5 <= k ==> p == 2
  {
    if k == 1 then 10 else if k == 2 then 8 else if k == 3 then 6 else if k == 4 then 4 else 2
  }

  function StepPenalty(s: Step): nat {
    match s
    case Keep => 0
    case Substitute(i) => SubstitutionPenalty(i)
    case Delete(i) => GapPenalty(i)
    case Insert(j) => GapPenalty(j)
  }

  /** The sum of the penalties along a trace. */
  function TotalPenalty(steps: seq<Step>): nat {
    if steps == [] then 0 else StepPenalty(steps[0]) + TotalPenalty(steps[1..])
  }

  /** The penalty of a trace is that of its first step plus the rest's. */
  lemma TotalPenaltyCons(first: Step, rest: seq<Step>)
    ensures TotalPenalty([first] + rest) == StepPenalty(first) + TotalPenalty(rest)
  {
    assert ([first] + rest)[1..] == rest;
  }

  /** The number of penalised (non-matching) steps of a trace. */
  function EditCount(steps: seq<Step>): nat {
    if steps == [] then 0 else (if steps[0].Keep? then 0 else 1) + EditCount(steps[1..])
  }

  /** How many query characters a trace consumes. */
  function QueryAdvance(steps: seq<Step>): nat {
    if steps == [] then 0 else (if steps[0].Insert? then 0 else 1) + QueryAdvance(steps[1..])
  }

  /** How many candidate characters a trace consumes. */
  function CandidateAdvance(steps: seq<Step>): nat {
    if steps == [] then 0 else (if steps[0].Delete? then 0 else 1) + CandidateAdvance(steps[1..])
  }

  /** The counts of a trace are those of its first step plus the rest's. */
  lemma StepsCons(first: Step, rest: seq<Step>)
    ensures QueryAdvance([first] + rest) == (if first.Insert? then 0 else 1) + QueryAdvance(rest)
    ensures CandidateAdvance([first] + rest) == (if first.Delete? then 0 else 1) + CandidateAdvance(rest)
    ensures EditCount([first] + rest) == (if first.Keep? then 0 else 1) + EditCount(rest)
  {
    assert ([first] + rest)[1..] == rest;
  }

  /** The move the backtrack of lines 181-203 takes at cell (i, j) of `dp`:
      a matching character first, then a substitution, a deletion or an
      insertion, whichever the table entries show, in that order; none at
      (0, 0). */
  function NextStep(q: string, c: string, dp: seq<seq<nat>>, i: nat, j: nat): (s: Option<Step>)
    requires Shaped(dp, q, c) && i <= |q| && j <= |c|
    ensures s.Some? ==> (s.value.Insert? || i > 0) && (s.value.Delete? || j > 0)
  {
    if i > 0 && j > 0 && q[i - 1] == c[j - 1] then Some(Keep)
    else if i > 0 && j > 0 && dp[i][j] == dp[i - 1][j - 1] + 1 then Some(Substitute(i))
    else if i > 0 && dp[i][j] == dp[i - 1][j] + 1 then Some(Delete(i))
    else if j > 0 && dp[i][j] == dp[i][j - 1] + 1 then Some(Insert(j))
    else None
  }

  /** Some move applies at every cell but (0, 0). */
  predicate Walkable(q: string, c: string, dp: seq<seq<nat>>)
    requires Shaped(dp, q, c)
  {
    forall i, j :: 0 <= i <= |q| && 0 <= j <= |c| && (i > 0 || j > 0) ==> NextStep(q, c, dp, i, j).Some?
  }

  /** The distance table can always be walked back to (0, 0). */
  lemma TableWalkable(q: string, c: string, dp: seq<seq<nat>>)
    requires IsTable(dp, q, c)
    ensures Walkable(q, c, dp)
  {
    forall i, j | 0 <= i <= |q| && 0 <= j <= |c| && (i > 0 || j > 0)
      ensures NextStep(q, c, dp, i, j).Some?
    {
      assert dp[i][j] == Dist(q, c, i, j);
      if i > 0 && j > 0 {
        assert dp[i - 1][j - 1] == Dist(q, c, i - 1, j - 1);
        assert dp[i - 1][j] == Dist(q, c, i - 1, j);
        assert dp[i][j - 1] == Dist(q, c, i, j - 1);
      } else if i > 0 {
        assert dp[i - 1][j] == Dist(q, c, i - 1, j);
      } else {
        assert dp[i][j - 1] == Dist(q, c, i, j - 1);
      }
    }
  }

  /** The trace of the backtrack from cell (i, j) of `dp`. It stops where no
      move applies, which never happens before (0, 0) on the distance table
      (`TableWalkable`). */
  function Backtrack(q: string, c: string, dp: seq<seq<nat>>, i: nat, j: nat): seq<Step>
    requires Shaped(dp, q, c) && i <= |q| && j <= |c|
    decreases i + j
  {
    match NextStep(q, c, dp, i, j)
    case None => []
    case Some(s) =>
      [s] + Backtrack(q, c, dp, if s.Insert? then i else i - 1, if s.Delete? then j else j - 1)
  }

  /** On the distance table the backtrack walks exactly from (i, j) to
      (0, 0) and makes as many penalised steps as the edit distance of the
      prefixes. */
  lemma {:induction false} BacktrackWalk(q: string, c: string, dp: seq<seq<nat>>, i: nat, j: nat)
    requires IsTable(dp, q, c) && i <= |q| && j <= |c|
    ensures var steps := Backtrack(q, c, dp, i, j);
      && QueryAdvance(steps) == i && CandidateAdvance(steps) == j
      && EditCount(steps) == Dist(q, c, i, j)
    decreases i + j
  {
    TableWalkable(q, c, dp);
    match NextStep(q, c, dp, i, j)
    case None =>
    case Some(s) =>
      var i', j' := if s.Insert? then i else i - 1, if s.Delete? then j else j - 1;
      BacktrackWalk(q, c, dp, i', j');
      StepsCons(s, Backtrack(q, c, dp, i', j'));
      assert dp[i][j] == Dist(q, c, i, j) && dp[i'][j'] == Dist(q, c, i', j');
  }

  /** `calculate_score(q, c)`: twice the query length when the query occurs
      in the candidate, else that base less the penalties of the backtrack
      over the distance table. The score reaches its maximum `2|q|` exactly
      when the query occurs in the candidate. */
  function Score(q: string, c: string): (score: int)
    ensures score <= 2 * |q|
    ensures score == 2 * |q| <==> IsSubstring(q, c)
  {
    var base := 2 * |q|;
    if IsSubstring(q, c) then base
    else
      var steps := Backtrack(q, c, Table(q, c), |q|, |c|);
      SubstringOfItself(q);
      LevenshteinZeroIff(q, c);
      BacktrackWalk(q, c, Table(q, c), |q|, |c|);
      PenaltyBounds(steps);
      base - TotalPenalty(steps)
  }

  /** Each penalised step costs between 1 and 10. */
  lemma {:induction false} PenaltyBounds(steps: seq<Step>)
    ensures EditCount(steps) <= TotalPenalty(steps) <= 10 * EditCount(steps)
  {
    if steps != [] {
      PenaltyBounds(steps[1..]);
    }
  }

  lemma SubstringOfItself(q: string)
    ensures IsSubstring(q, q)
  {
    assert q[..|q|] == q;
  }

  /** The score is the base when the query occurs in the candidate; otherwise
      the distance d is at least 1 and `2|q| - 10d <= score <= 2|q| - d`. */
  lemma ScoreBounds(q: string, c: string)
    ensures IsSubstring(q, c) ==> Score(q, c) == 2 * |q|
    ensures !IsSubstring(q, c) ==>
      1 <= Levenshtein(q, c) && 2 * |q| - 10 * Levenshtein(q, c) <= Score(q, c) <= 2 * |q| - Levenshtein(q, c)
  {
    SubstringOfItself(q);
    if !IsSubstring(q, c) {
      LevenshteinZeroIff(q, c);
      BacktrackWalk(q, c, Table(q, c), |q|, |c|);
      PenaltyBounds(Backtrack(q, c, Table(q, c), |q|, |c|));
    }
  }

  /** The backtracking loop of `calculate_score`: from the bottom-right
      corner of the table, step back along the first applicable move and
      subtract its penalty from twice the query length. */
  method BacktrackScore(q: string, c: string, dp: seq<seq<nat>>) returns (score: int)
    requires Shaped(dp, q, c) && Walkable(q, c, dp)
    ensures score == 2 * |q| - TotalPenalty(Backtrack(q, c, dp, |q|, |c|))
  {
    score := 2 * |q|;
    var i: nat, j: nat := |q|, |c|;
    while i > 0 || j > 0
      invariant i <= |q| && j <= |c|
      invariant score - TotalPenalty(Backtrack(q, c, dp, i, j)) == 2 * |q| - TotalPenalty(Backtrack(q, c, dp, |q|, |c|))
      decreases i + j
    {
      assert NextStep(q, c, dp, i, j).Some?;
      if i > 0 && j > 0 && q[i - 1] == c[j - 1] {
        TotalPenaltyCons(Keep, Backtrack(q, c, dp, i - 1, j - 1));
        i, j := i - 1, j - 1;
      } else if i > 0 && j > 0 && dp[i][j] == dp[i - 1][j - 1] + 1 {
        TotalPenaltyCons(Substitute(i), Backtrack(q, c, dp, i - 1, j - 1));
        score := score - SubstitutionPenalty(i);
        i, j := i - 1, j - 1;
      } else if i > 0 && dp[i][j] == dp[i - 1][j] + 1 {
        TotalPenaltyCons(Delete(i), Backtrack(q, c, dp, i - 1, j));
        score := score - GapPenalty(i);
        i := i - 1;
      } else if j > 0 && dp[i][j] == dp[i][j - 1] + 1 {
        TotalPenaltyCons(Insert(j), Backtrack(q, c, dp, i, j - 1));
        score := score - GapPenalty(j);
        j := j - 1;
      } else {
        assert false;
      }
    }
  }

  /** `calculate_score(user_input, match_candidate)`: the containment
      shortcut, else the table and the backtracking loop. */
  method CalculateScore(q: string, c: string) returns (score: int)
    ensures score == Score(q, c)
  {
    if IsSubstring(q, c) {
      return 2 * |q|;
    }
    var dp := DistanceTable(q, c);
    TableUnique(dp, q, c);
    TableWalkable(q, c, dp);
    score := BacktrackScore(q, c, dp);
  }
}
