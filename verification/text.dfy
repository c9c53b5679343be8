/** Character classes and the string helpers the search engine is built from:
    Python's `in` on strings, `str.strip`, `str.lower`, `str.split`,
    `" ".join`, `re.findall(r'\b\w+\b')` and the text normaliser
    `normalize_text` (src/InvertedIndexes.py:333-341).

    Characters follow an ASCII model of Python's classes: `\w` is a letter,
    a digit or `_`; `\s` (and `str.isspace`, which `strip` and `split` use) is
    the space, `\t` .. `\r` or U+001C .. U+001F; `lower` changes `A`-`Z` only. */
module Text {
  import opened SeqFacts

  // ---------------------------------------------------------------------------
  // Character classes
  // ---------------------------------------------------------------------------

  /** Whitespace: `\s` and `str.isspace` restricted to ASCII. */
  predicate IsSpace(c: char) {
    c == ' ' || ('\t' <= c <= '\r') || ('\U{1C}' <= c <= '\U{1F}')
  }

  predicate IsNonSpace(c: char) {
    !IsSpace(c)
  }

  /** A word character: `\w` restricted to ASCII. */
  predicate IsWordChar(c: char) {
    ('a' <= c <= 'z') || ('A' <= c <= 'Z') || ('0' <= c <= '9') || c == '_'
  }

  predicate IsWordOrSpace(c: char) {
    IsWordChar(c) || IsSpace(c)
  }

  predicate IsUpper(c: char) {
    'A' <= c <= 'Z'
  }

  /** `str.lower` on one character. */
  function ToLower(c: char): (r: char)
    ensures !IsUpper(r)
    ensures IsWordChar(r) == IsWordChar(c) && IsSpace(r) == IsSpace(c)
    ensures !IsUpper(c) ==> r == c
  {
    if IsUpper(c) then (c as int + 32) as char else c
  }

  /** No character of `s` is an upper-case letter. */
  predicate NoUpper(s: string) {
    forall i :: 0 <= i < |s| ==> !IsUpper(s[i])
  }

  // ---------------------------------------------------------------------------
  // str.lower, str.strip, re.sub filters
  // ---------------------------------------------------------------------------

  /** `str.lower`. */
  function Lower(s: string): (r: string)
    ensures |r| == |s| && NoUpper(r)
    ensures forall i :: 0 <= i < |s| ==> r[i] == ToLower(s[i])
  {
    seq(|s|, i requires 0 <= i < |s| => ToLower(s[i]))
  }

  /** Every character of `s` is whitespace. */
  predicate AllSpace(s: string) {
    forall i :: 0 <= i < |s| ==> IsSpace(s[i])
  }

  /** The index of the first non-space character of `s` at or after `i`,
      or `|s|` when there is none. */
  function SkipSpaces(s: string, i: nat): (k: nat)
    requires i <= |s|
    ensures i <= k <= |s|
    ensures forall j :: i <= j < k ==> IsSpace(s[j])
    ensures k < |s| ==> !IsSpace(s[k])
    decreases |s| - i
  {
    if i < |s| && IsSpace(s[i]) then SkipSpaces(s, i + 1) else i
  }

  /** The end of `s[lo..e]` once its trailing whitespace is removed. */
  function TrimEnd(s: string, lo: nat, e: nat): (k: nat)
    requires lo <= e <= |s|
    ensures lo <= k <= e
    ensures forall j :: k <= j < e ==> IsSpace(s[j])
    ensures k > lo ==> !IsSpace(s[k - 1])
    decreases e
  {
    if e > lo && IsSpace(s[e - 1]) then TrimEnd(s, lo, e - 1) else e
  }

  /** `str.strip()`: the slice of `s` left once the whitespace at both ends
      is removed; it neither starts nor ends with whitespace. */
  function Strip(s: string): (r: string)
    ensures |r| <= |s|
    ensures r == [] || (!IsSpace(r[0]) && !IsSpace(r[|r| - 1]))
  {
    var a := SkipSpaces(s, 0);
    s[a..TrimEnd(s, a, |s|)]
  }

  /** `Strip` removes only whitespace: its result is a slice of the input
      with nothing but whitespace on either side. */
  lemma StripRemovesOnlySpace(s: string)
    ensures exists a :: OccursAt(Strip(s), s, a) && AllSpace(s[..a]) && AllSpace(s[a + |Strip(s)|..])
  {
    var a := SkipSpaces(s, 0);
    var b := TrimEnd(s, a, |s|);
    assert OccursAt(s[a..b], s, a) && AllSpace(s[..a]) && AllSpace(s[b..]);
  }

  /** The characters of `s` that satisfy `keep`, in order. */
  function Filter(s: string, keep: char -> bool): (r: string)
    ensures |r| <= |s|
    ensures forall i :: 0 <= i < |r| ==> keep(r[i])
  {
    if s == [] then []
    else (if keep(s[0]) then [s[0]] else []) + Filter(s[1..], keep)
  }

  /** A filter that keeps no character of `s` yields nothing. */
  lemma {:induction false} FilterDropsAll(s: string, keep: char -> bool)
    requires forall i :: 0 <= i < |s| ==> !keep(s[i])
    ensures Filter(s, keep) == []
  {
    if s != [] {
      FilterDropsAll(s[1..], keep);
    }
  }

  /** Filtering works piece by piece. */
  lemma {:induction false} FilterAppend(u: string, v: string, keep: char -> bool)
    ensures Filter(u + v, keep) == Filter(u, keep) + Filter(v, keep)
    decreases |u|
  {
    if u == [] {
      assert u + v == v;
    } else {
      assert (u + v)[1..] == u[1..] + v;
      FilterAppend(u[1..], v, keep);
    }
  }

  /** `re.sub(r'\s+', ' ', s)`: every maximal run of whitespace becomes one
      space character. */
  function CollapseSpaces(s: string): (r: string)
    decreases |s|
  {
    if s == [] then []
    else if IsSpace(s[0]) then
      [' '] + CollapseSpaces(s[SkipSpaces(s, 0)..])
    else [s[0]] + CollapseSpaces(s[1..])
  }

  // ---------------------------------------------------------------------------
  // normalize_text
  // ---------------------------------------------------------------------------

  /** `normalize_text` (src/InvertedIndexes.py:341): delete every character
      that is neither a word character nor whitespace, collapse whitespace
      runs to one space, strip, lowercase. */
  function NormalizeText(s: string): (r: string)
    ensures Normalized(r)
  {
    var c := CollapseSpaces(Filter(s, IsWordOrSpace));
    CollapseFilteredIsSpacedWords(s);
    StripSpacedWords(c);
    LowerSpacedWords(Strip(c));
    Lower(Strip(c))
  }

  /** The shape of every normalised string: lower-case word characters and
      single spaces, no space at either end. */
  predicate Normalized(t: string) {
    && (forall i :: 0 <= i < |t| ==> t[i] == ' ' || (IsWordChar(t[i]) && !IsUpper(t[i])))
    && (t == [] || (t[0] != ' ' && t[|t| - 1] != ' '))
    && (forall i :: 0 <= i < |t| - 1 && t[i] == ' ' ==> t[i + 1] != ' ')
  }

  /** A filter that keeps every character is the identity. */
  lemma {:induction false} FilterKeepsAll(s: string, keep: char -> bool)
    requires forall i :: 0 <= i < |s| ==> keep(s[i])
    ensures Filter(s, keep) == s
  {
    if s != [] {
      FilterKeepsAll(s[1..], keep);
    }
  }

  /** What collapsing produces: single spaces and the non-space characters of
      the input, and a leading space only where the input had one. */
  lemma {:induction false} CollapseSpacesShape(s: string)
    ensures var r := CollapseSpaces(s);
      && (forall i :: 0 <= i < |r| ==> r[i] == ' ' || (!IsSpace(r[i]) && r[i] in s))
      && (forall i :: 0 <= i < |r| - 1 && r[i] == ' ' ==> r[i + 1] != ' ')
      && (r != [] && r[0] == ' ' ==> IsSpace(s[0]))
    decreases |s|
  {
    if s == [] {
    } else if IsSpace(s[0]) {
      var skip := SkipSpaces(s, 0);
      var rest := s[skip..];
      CollapseSpacesShape(rest);
      var tail := CollapseSpaces(rest);
      assert forall c :: c in rest ==> c in s by {
        forall c | c in rest ensures c in s {
          var k :| 0 <= k < |rest| && rest[k] == c;
          assert s[skip + k] == c;
        }
      }
      assert CollapseSpaces(s) == [' '] + tail;
    } else {
      CollapseSpacesShape(s[1..]);
      var tail := CollapseSpaces(s[1..]);
      assert forall c :: c in s[1..] ==> c in s;
      assert CollapseSpaces(s) == [s[0]] + tail;
    }
  }

  /** A string whose whitespace is already single spaces between non-space
      characters is left unchanged by collapsing. */
  lemma {:induction false} CollapseSpacesFixpoint(t: string)
    requires forall i :: 0 <= i < |t| && IsSpace(t[i]) ==> t[i] == ' '
    requires forall i :: 0 <= i < |t| - 1 && t[i] == ' ' ==> t[i + 1] != ' '
    ensures CollapseSpaces(t) == t
    decreases |t|
  {
    if t == [] {
    } else if IsSpace(t[0]) {
      assert t[1..] == [] || !IsSpace(t[1]);
      assert SkipSpaces(t, 0) == 1 by {
        assert SkipSpaces(t, 1) == 1;
      }
      CollapseSpacesFixpoint(t[1..]);
    } else {
      CollapseSpacesFixpoint(t[1..]);
    }
  }

  /** Word characters and spaces only, never two spaces in a row. */
  predicate SpacedWords(t: string) {
    && (forall i :: 0 <= i < |t| ==> t[i] == ' ' || IsWordChar(t[i]))
    && (forall i :: 0 <= i < |t| - 1 && t[i] == ' ' ==> t[i + 1] != ' ')
  }

  lemma CollapseFilteredIsSpacedWords(s: string)
    ensures SpacedWords(CollapseSpaces(Filter(s, IsWordOrSpace)))
  {
    var f := Filter(s, IsWordOrSpace);
    var c := CollapseSpaces(f);
    CollapseSpacesShape(f);
    forall i | 0 <= i < |c| ensures c[i] == ' ' || IsWordChar(c[i]) {
      if c[i] != ' ' {
        var k :| 0 <= k < |f| && f[k] == c[i];
        assert IsWordOrSpace(f[k]);
      }
    }
  }

  lemma StripSpacedWords(c: string)
    requires SpacedWords(c)
    ensures SpacedWords(Strip(c))
  {
    var t := Strip(c);
    StripRemovesOnlySpace(c);
    var a :| OccursAt(t, c, a) && AllSpace(c[..a]) && AllSpace(c[a + |t|..]);
    assert forall i :: 0 <= i < |t| ==> t[i] == c[a + i];
  }

  lemma LowerSpacedWords(t: string)
    requires SpacedWords(t)
    requires t == [] || (!IsSpace(t[0]) && !IsSpace(t[|t| - 1]))
    ensures Normalized(Lower(t))
  {
    var n := Lower(t);
    assert forall i :: 0 <= i < |t| ==> (n[i] == ' ' <==> t[i] == ' ');
  }

  /** Stripping a string with no whitespace at either end changes nothing. */
  lemma StripFixpoint(t: string)
    requires t == [] || (!IsSpace(t[0]) && !IsSpace(t[|t| - 1]))
    ensures Strip(t) == t
  {
    assert SkipSpaces(t, 0) == 0;
    assert TrimEnd(t, 0, |t|) == |t|;
    assert t[0..|t|] == t;
  }

  /** A normalised string is a fixed point of `normalize_text`. */
  lemma NormalizeTextFixpoint(t: string)
    requires Normalized(t)
    ensures NormalizeText(t) == t
  {
    FilterKeepsAll(t, IsWordOrSpace);
    assert Filter(t, IsWordOrSpace) == t;
    CollapseSpacesFixpoint(t);
    assert CollapseSpaces(t) == t;
    StripFixpoint(t);
    assert Strip(t) == t;
    LowerFixpoint(t);
  }

  /** Lower-casing a string without upper-case letters changes nothing. */
  lemma LowerFixpoint(t: string)
    requires NoUpper(t)
    ensures Lower(t) == t
  {
    assert forall i :: 0 <= i < |t| ==> Lower(t)[i] == t[i];
  }

  /** `normalize_text` is idempotent. */
  lemma NormalizeTextIdempotent(s: string)
    ensures NormalizeText(NormalizeText(s)) == NormalizeText(s)
  {
    NormalizeTextFixpoint(NormalizeText(s));
  }

  // ---------------------------------------------------------------------------
  // Substring search: Python's `p in s`
  // ---------------------------------------------------------------------------

  /** `p` occurs in `s` starting at index `i`. */
  ghost predicate OccursAt(p: string, s: string, i: int) {
    0 <= i && i + |p| <= |s| && s[i..i + |p|] == p
  }

  lemma ShiftOccurrence(p: string, s: string)
    requires s != []
    ensures forall i :: OccursAt(p, s[1..], i) ==> OccursAt(p, s, i + 1)
    ensures forall i :: 1 <= i && OccursAt(p, s, i) ==> OccursAt(p, s[1..], i - 1)
  {
    forall i | OccursAt(p, s[1..], i) ensures OccursAt(p, s, i + 1) {
      assert s[1..][i..i + |p|] == s[i + 1..i + 1 + |p|];
    }
    forall i | 1 <= i && OccursAt(p, s, i) ensures OccursAt(p, s[1..], i - 1) {
      assert s[1..][i - 1..i - 1 + |p|] == s[i..i + |p|];
    }
  }

  /** Python's `p in s` on strings, scanning the start positions left to
      right. */
  function IsSubstring(p: string, s: string): bool
    decreases |s|
  {
    if |p| > |s| then false
    else if s[..|p|] == p then true
    else IsSubstring(p, s[1..])
  }

  /** The scan finds `p` exactly when `p` is a contiguous substring of `s`
      (the empty string occurs everywhere). */
  lemma {:induction false} IsSubstringIff(p: string, s: string)
    ensures IsSubstring(p, s) <==> exists i :: OccursAt(p, s, i)
    decreases |s|
  {
    if |p| > |s| {
    } else if s[..|p|] == p {
      assert OccursAt(p, s, 0);
    } else {
      IsSubstringIff(p, s[1..]);
      ShiftOccurrence(p, s);
    }
  }

  // ---------------------------------------------------------------------------
  // Tokens: str.split() and re.findall(r'\b\w+\b')
  // ---------------------------------------------------------------------------

  /** Length of the longest prefix of `s` made of characters in the class. */
  function RunLength(s: string, inToken: char -> bool): (k: nat)
    ensures k <= |s|
    ensures forall i :: 0 <= i < k ==> inToken(s[i])
    ensures k < |s| ==> !inToken(s[k])
  {
    if s == [] || !inToken(s[0]) then 0 else 1 + RunLength(s[1..], inToken)
  }

  /** The maximal runs of characters in the class, left to right. */
  function Tokens(s: string, inToken: char -> bool): seq<string>
    decreases |s|
  {
    if s == [] then []
    else if !inToken(s[0]) then Tokens(s[1..], inToken)
    else
      var k := RunLength(s, inToken);
      [s[..k]] + Tokens(s[k..], inToken)
  }

  /** `s.split()`: the maximal runs of non-whitespace characters. */
  function Split(s: string): seq<string> {
    Tokens(s, IsNonSpace)
  }

  /** `re.findall(r'\b\w+\b', s)`: the maximal runs of word characters. */
  function FindWords(s: string): seq<string> {
    Tokens(s, IsWordChar)
  }

  /** `" ".join(ws)`. */
  function Join(ws: seq<string>): string {
    if ws == [] then []
    else if |ws| == 1 then ws[0]
    else ws[0] + " " + Join(ws[1..])
  }

  /** Every token is a non-empty run of characters in the class. */
  lemma {:induction false} TokensAreRuns(s: string, inToken: char -> bool)
    ensures forall t :: t in Tokens(s, inToken) ==> t != [] && forall i :: 0 <= i < |t| ==> inToken(t[i])
    decreases |s|
  {
    if s == [] {
    } else if !inToken(s[0]) {
      TokensAreRuns(s[1..], inToken);
    } else {
      var k := RunLength(s, inToken);
      TokensAreRuns(s[k..], inToken);
    }
  }

  /** Tokens of a string without upper-case letters have none either. */
  lemma {:induction false} TokensNoUpper(s: string, inToken: char -> bool)
    requires NoUpper(s)
    ensures forall t :: t in Tokens(s, inToken) ==> NoUpper(t)
    decreases |s|
  {
    if s == [] {
    } else if !inToken(s[0]) {
      TokensNoUpper(s[1..], inToken);
    } else {
      var k := RunLength(s, inToken);
      TokensNoUpper(s[k..], inToken);
    }
  }

  /** Splitting a normalised string yields lower-case words. */
  lemma SplitNormalizedWords(t: string)
    requires Normalized(t)
    ensures forall w :: w in Split(t) ==> w != [] && Normalized(w) && forall i :: 0 <= i < |w| ==> IsWordChar(w[i])
  {
    TokensNoUpper(t, IsNonSpace);
    TokensAreRuns(t, IsNonSpace);
    forall w | w in Split(t)
      ensures w != [] && Normalized(w) && forall i :: 0 <= i < |w| ==> IsWordChar(w[i])
    {
      assert forall i :: 0 <= i < |w| ==> IsNonSpace(w[i]);
      assert NoUpper(w);
      TokenCharsOccur(t, IsNonSpace, w);
    }
  }

  /** Every character of a token is a character of the tokenised string. */
  lemma {:induction false} TokenCharsOccur(s: string, inToken: char -> bool, w: string)
    requires w in Tokens(s, inToken)
    ensures forall i :: 0 <= i < |w| ==> w[i] in s
    decreases |s|
  {
    if s == [] {
    } else if !inToken(s[0]) {
      TokenCharsOccur(s[1..], inToken, w);
      assert forall c :: c in s[1..] ==> c in s;
    } else {
      var k := RunLength(s, inToken);
      if w == s[..k] {
        assert forall i :: 0 <= i < |w| ==> w[i] == s[i];
      } else {
        TokenCharsOccur(s[k..], inToken, w);
        assert forall i :: 0 <= i < |w| ==> w[i] in s[k..];
        assert forall c :: c in s[k..] ==> c in s;
      }
    }
  }

  /** The part of a normalised string after one of its spaces is normalised. */
  lemma NormalizedAfterSpace(t: string, k: nat)
    requires Normalized(t) && k < |t| && t[k] == ' '
    ensures Normalized(t[k + 1..]) && t[k + 1..] != []
  {
    assert k < |t| - 1;
  }

  /** One step of `split`: the first word, then the words after the
      whitespace character that ends it. */
  lemma SplitStep(t: string, k: nat)
    requires t != [] && IsNonSpace(t[0]) && k == RunLength(t, IsNonSpace)
    ensures 0 < k
    ensures Split(t) == [t[..k]] + Split(t[k..])
    ensures k < |t| ==> Split(t[k..]) == Split(t[k + 1..])
  {
    if k < |t| {
      assert t[k..][1..] == t[k + 1..];
    }
  }

  /** The step of `JoinSplit` past the first word of a normalised string. */
  lemma JoinSplitStep(t: string, k: nat)
    requires Normalized(t) && t != [] && k == RunLength(t, IsNonSpace) && k < |t|
    requires Join(Split(t[k + 1..])) == t[k + 1..]
    ensures Join(Split(t)) == t
  {
    var rest := t[k + 1..];
    assert IsNonSpace(t[0]);
    SplitStep(t, k);
    NormalizedAfterSpace(t, k);
    assert IsNonSpace(rest[0]);
    SplitStep(rest, RunLength(rest, IsNonSpace));
    var ws := [t[..k]] + Split(rest);
    assert Split(t) == ws;
    assert ws[0] == t[..k] && ws[1..] == Split(rest) && |ws| > 1;
    assert Join(ws) == t[..k] + " " + rest;
    SplitAround(t, k);
  }

  /** Round trip: joining the words of a normalised string restores it. */
  lemma {:induction false} JoinSplit(t: string)
    requires Normalized(t)
    ensures Join(Split(t)) == t
    decreases |t|
  {
    if t != [] {
      assert IsNonSpace(t[0]);
      var k := RunLength(t, IsNonSpace);
      SplitStep(t, k);
      if k == |t| {
        assert t[..k] == t && t[k..] == [];
      } else {
        assert t[k] == ' ';
        NormalizedAfterSpace(t, k);
        JoinSplit(t[k + 1..]);
        JoinSplitStep(t, k);
      }
    }
  }

  /** A word without whitespace splits into itself. */
  lemma SplitWord(w: string)
    requires w != [] && forall i :: 0 <= i < |w| ==> IsNonSpace(w[i])
    ensures Split(w) == [w]
  {
    assert RunLength(w, IsNonSpace) == |w|;
    assert w[..|w|] == w && w[|w|..] == [];
    assert Tokens(w, IsNonSpace) == [w] + Tokens([], IsNonSpace);
  }

  /** A leading word and a space split off as the first token. */
  lemma SplitWordSpace(w: string, rest: string)
    requires w != [] && forall i :: 0 <= i < |w| ==> IsNonSpace(w[i])
    ensures Split(w + " " + rest) == [w] + Split(rest)
  {
    var s := w + " " + rest;
    assert s[|w|] == ' ';
    assert forall i :: 0 <= i < |w| ==> s[i] == w[i];
    assert RunLength(s, IsNonSpace) == |w|;
    assert s[..|w|] == w;
    assert s[|w|..][1..] == rest;
    assert Tokens(s[|w|..], IsNonSpace) == Tokens(rest, IsNonSpace);
  }

  /** Round trip: splitting the join of non-empty space-free words returns
      the words. */
  lemma {:induction false} SplitJoin(ws: seq<string>)
    requires forall w :: w in ws ==> w != [] && forall i :: 0 <= i < |w| ==> IsNonSpace(w[i])
    ensures Split(Join(ws)) == ws
  {
    if ws != [] {
      assert ws[0] in ws;
      if |ws| == 1 {
        SplitWord(ws[0]);
      } else {
        SplitWordSpace(ws[0], Join(ws[1..]));
        assert forall w :: w in ws[1..] ==> w in ws;
        SplitJoin(ws[1..]);
      }
    }
  }

  // ---------------------------------------------------------------------------
  // What normalize_text keeps: the words
  // ---------------------------------------------------------------------------

  /** Whitespace in front of a string does not change its words. */
  lemma {:induction false} SplitDropSpaces(z: string, a: nat)
    requires a <= |z| && AllSpace(z[..a])
    ensures Split(z[a..]) == Split(z)
    decreases a
  {
    if a > 0 {
      assert IsSpace(z[..a][0]);
      var t := z[1..];
      var u := t[..a - 1];
      assert AllSpace(u) by {
        forall i | 0 <= i < |u| ensures IsSpace(u[i]) {
          assert u[i] == z[..a][i + 1];
        }
      }
      SplitDropSpaces(t, a - 1);
      assert t[a - 1..] == z[a..];
    }
  }

  /** The run at the front of `w + y` is `w` when `w` lies in the class and
      `y` does not continue it. */
  lemma {:induction false} RunLengthAppend(w: string, y: string, inToken: char -> bool)
    requires forall i :: 0 <= i < |w| ==> inToken(w[i])
    requires y == [] || !inToken(y[0])
    ensures RunLength(w + y, inToken) == |w|
    decreases |w|
  {
    if w == [] {
      assert w + y == y;
    } else {
      assert (w + y)[1..] == w[1..] + y;
      RunLengthAppend(w[1..], y, inToken);
    }
  }

  /** A word followed by whitespace, or by nothing, is the first word. */
  lemma SplitWordThen(w: string, y: string)
    requires w != [] && forall i :: 0 <= i < |w| ==> IsNonSpace(w[i])
    requires y == [] || IsSpace(y[0])
    ensures Split(w + y) == [w] + Split(y)
  {
    RunLengthAppend(w, y, IsNonSpace);
    var s := w + y;
    assert s[0] == w[0];
    assert s[..|w|] == w && s[|w|..] == y;
  }

  /** Whitespace at the end of a string does not change its words. */
  lemma {:induction false} SplitDropTrailingSpaces(u: string, v: string)
    requires AllSpace(v)
    ensures Split(u + v) == Split(u)
    decreases |u|
  {
    if u == [] {
      assert u + v == v && v[|v|..] == [];
      assert v[..|v|] == v;
      SplitDropSpaces(v, |v|);
    } else if IsSpace(u[0]) {
      assert (u + v)[1..] == u[1..] + v;
      SplitDropTrailingSpaces(u[1..], v);
    } else {
      var r := RunLength(u, IsNonSpace);
      var w, y := u[..r], u[r..];
      assert u == w + y && u + v == w + (y + v);
      assert y == [] || IsSpace(y[0]);
      SplitWordThen(w, y);
      SplitWordThen(w, y + v);
      SplitDropTrailingSpaces(y, v);
    }
  }

  /** Trimming whitespace from both ends does not change the words. */
  lemma SplitTrimmed(z: string, a: nat, b: nat)
    requires a <= b <= |z| && AllSpace(z[..a]) && AllSpace(z[b..])
    ensures Split(z[a..b]) == Split(z)
  {
    SplitDropSpaces(z, a);
    assert z[a..] == z[a..b] + z[b..];
    SplitDropTrailingSpaces(z[a..b], z[b..]);
  }

  /** Lower-casing works character by character. */
  lemma LowerAppend(x: string, y: string)
    ensures Lower(x + y) == Lower(x) + Lower(y)
  {
    assert forall i :: 0 <= i < |x + y| ==> Lower(x + y)[i] == (Lower(x) + Lower(y))[i];
  }

  lemma LowerSlice(x: string, a: nat, b: nat)
    requires a <= b <= |x|
    ensures Lower(x[a..b]) == Lower(x)[a..b]
  {
    assert forall i :: 0 <= i < b - a ==> Lower(x[a..b])[i] == Lower(x)[a + i];
  }

  /** Lower-casing changes no whitespace, so the spaces skipped are the same. */
  lemma {:induction false} SkipSpacesLower(x: string, i: nat)
    requires i <= |x|
    ensures SkipSpaces(Lower(x), i) == SkipSpaces(x, i)
    decreases |x| - i
  {
    if i < |x| {
      assert Lower(x)[i] == ToLower(x[i]);
      if IsSpace(x[i]) {
        SkipSpacesLower(x, i + 1);
      }
    }
  }

  /** Collapsing and lower-casing commute. */
  lemma {:induction false} CollapseLower(x: string)
    ensures CollapseSpaces(Lower(x)) == Lower(CollapseSpaces(x))
    decreases |x|
  {
    if x != [] {
      var l := Lower(x);
      assert l[0] == ToLower(x[0]);
      if IsSpace(x[0]) {
        var k := SkipSpaces(x, 0);
        SkipSpacesLower(x, 0);
        LowerSlice(x, k, |x|);
        assert x[k..|x|] == x[k..] && l[k..|x|] == l[k..];
        CollapseLower(x[k..]);
        LowerAppend([' '], CollapseSpaces(x[k..]));
        assert Lower([' ']) == [' '];
      } else {
        LowerSlice(x, 1, |x|);
        assert x[1..|x|] == x[1..] && l[1..|x|] == l[1..];
        CollapseLower(x[1..]);
        LowerAppend([x[0]], CollapseSpaces(x[1..]));
        assert Lower([x[0]]) == [l[0]];
      }
    }
  }

  /** Collapsing leaves a leading run of non-space characters as it is. */
  lemma {:induction false} CollapseRun(z: string, r: nat)
    requires r <= |z| && forall i :: 0 <= i < r ==> IsNonSpace(z[i])
    ensures CollapseSpaces(z) == z[..r] + CollapseSpaces(z[r..])
    decreases r
  {
    if r > 0 {
      CollapseRun(z[1..], r - 1);
      assert z[1..][r - 1..] == z[r..];
      assert z[..r] == [z[0]] + z[1..][..r - 1];
    }
  }

  /** Collapsing whitespace keeps the words. */
  lemma {:induction false} SplitCollapse(z: string)
    ensures Split(CollapseSpaces(z)) == Split(z)
    decreases |z|
  {
    if z == [] {
    } else if IsSpace(z[0]) {
      var k := SkipSpaces(z, 0);
      var rest := z[k..];
      SplitCollapse(rest);
      assert AllSpace(z[..k]) by {
        forall i | 0 <= i < k ensures IsSpace(z[..k][i]) {
          assert z[..k][i] == z[i];
        }
      }
      SplitDropSpaces(z, k);
      assert ([' '] + CollapseSpaces(rest))[1..] == CollapseSpaces(rest);
    } else {
      var r := RunLength(z, IsNonSpace);
      var rest := z[r..];
      CollapseRun(z, r);
      SplitCollapse(rest);
      assert rest == [] || IsSpace(rest[0]);
      assert CollapseSpaces(rest) == [] || CollapseSpaces(rest)[0] == ' ';
      assert z == z[..r] + rest;
      SplitWordThen(z[..r], CollapseSpaces(rest));
      SplitWordThen(z[..r], rest);
    }
  }

  /** `normalize_text` keeps the words: its result splits into the
      lower-cased words of the text once every character that is neither a
      word character nor whitespace is deleted. */
  lemma SplitNormalizeText(s: string)
    ensures Split(NormalizeText(s)) == Split(Lower(Filter(s, IsWordOrSpace)))
  {
    var f := Filter(s, IsWordOrSpace);
    var c := CollapseSpaces(f);
    var a := SkipSpaces(c, 0);
    var b := TrimEnd(c, a, |c|);
    assert Strip(c) == c[a..b];
    LowerSlice(c, a, b);
    var l := Lower(c);
    assert AllSpace(l[..a]) by {
      forall i | 0 <= i < a ensures IsSpace(l[..a][i]) {
        assert l[..a][i] == ToLower(c[i]);
      }
    }
    assert AllSpace(l[b..]) by {
      forall i | 0 <= i < |l| - b ensures IsSpace(l[b..][i]) {
        assert l[b..][i] == ToLower(c[b + i]);
      }
    }
    SplitTrimmed(l, a, b);
    CollapseLower(f);
    SplitCollapse(Lower(f));
  }

  /** Reference: `normalize_text` is the lower-cased words of the text,
      punctuation deleted, joined by single spaces. */
  lemma NormalizeTextIsJoinedWords(s: string)
    ensures NormalizeText(s) == Join(Split(Lower(Filter(s, IsWordOrSpace))))
  {
    SplitNormalizeText(s);
    JoinSplit(NormalizeText(s));
  }
}
