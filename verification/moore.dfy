/** The Boyer-Moore bad-character matcher of search_algorithms.h: the
    `badCharHeuristic` table and the `Moore` functor that scans each
    alignment right to left and shifts on a mismatch. */
module BoyerMoore {
  import opened WildcardMatch

  /** Size of the bad-character table; a character indexes it directly. */
  const NoOfChars: nat := 127

  /** Every character can index the table (the C++ code reads and writes
      `badchar[c]` with no bounds check). */
  predicate InAlphabet(s: string) {
    forall i :: 0 <= i < |s| ==> s[i] as int < NoOfChars
  }

  function Max(a: int, b: int): int {
    if a > b then a else b
  }

  /** The index of the last occurrence of `ch` in `pat`, or -1 when it does
      not occur. '?' is an ordinary character here. */
  function LastIndexOf(pat: string, ch: char): (r: int)
    ensures -1 <= r < |pat|
    ensures r >= 0 ==> pat[r] == ch
    ensures forall k :: r < k < |pat| ==> pat[k] != ch
    ensures r == -1 <==> ch !in pat
  {
    if |pat| == 0 then -1
    else if pat[|pat| - 1] == ch then |pat| - 1
    else LastIndexOf(pat[..|pat| - 1], ch)
  }

  /** `t` is the bad-character table of `pat`. */
  predicate IsBadCharTable(t: seq<int>, pat: string) {
    && |t| == NoOfChars
    && forall c :: 0 <= c < NoOfChars ==> t[c] == LastIndexOf(pat, c as char)
  }

  /** Builds the last-occurrence table: every entry starts at -1, then each
      pattern position, left to right, overwrites the entry of its character. */
  method BadCharHeuristic(pat: string) returns (badchar: seq<int>)
    requires InAlphabet(pat)
    ensures |badchar| == NoOfChars
    ensures forall c :: 0 <= c < NoOfChars ==> -1 <= badchar[c] < |pat|
    ensures forall c :: 0 <= c < NoOfChars ==> (badchar[c] == -1 <==> c as char !in pat)
    ensures forall c :: 0 <= c < NoOfChars && badchar[c] >= 0 ==>
              && pat[badchar[c]] == c as char
              && forall k :: badchar[c] < k < |pat| ==> pat[k] != c as char
    ensures IsBadCharTable(badchar, pat)
  {
    badchar := [];
    var i := 0;
    while i < NoOfChars
      invariant 0 <= i <= NoOfChars
      invariant |badchar| == i
      invariant forall c :: 0 <= c < i ==> badchar[c] == -1
    {
      badchar := badchar + [-1];
      i := i + 1;
    }
    i := 0;
    while i < |pat|
      invariant 0 <= i <= |pat|
      invariant |badchar| == NoOfChars
      invariant forall c :: 0 <= c < NoOfChars ==> badchar[c] == LastIndexOf(pat[..i], c as char)
    {
      assert pat[..i + 1][..i] == pat[..i];
      badchar := badchar[pat[i] as int := i];
      i := i + 1;
    }
    assert pat[..|pat|] == pat;
  }

  /** The matcher object: it owns the table built from the pattern it was
      constructed with. */
  datatype Moore = Moore(badchar: seq<int>)

  /** The `Moore` constructor. */
  method NewMoore(pat: string) returns (m: Moore)
    requires InAlphabet(pat)
    ensures IsBadCharTable(m.badchar, pat)
  {
    var t := BadCharHeuristic(pat);
    m := Moore(t);
  }

  /** The inner loop: walks `j` down while the pattern matches the text at
      alignment `s`; returns the mismatching pattern index, or -1 when the
      whole range `[0, j]` matches. */
  function ScanBack(txt: string, pat: string, s: nat, j: int): (k: int)
    requires s + |pat| <= |txt|
    requires -1 <= j < |pat|
    ensures -1 <= k <= j
    ensures forall i: nat :: k < i <= j ==> MatchesCharAt(txt, pat, s, i)
    ensures k >= 0 ==> !MatchesCharAt(txt, pat, s, k)
    decreases j + 1
  {
    if j >= 0 && CharMatches(pat[j], txt[s + j]) then ScanBack(txt, pat, s, j - 1)
    else j
  }

  /** The shift after a mismatch at pattern index `j`. The wildcard test
      reads the mirrored position `|pat| - j - 1`, exactly as the C++ code
      does. */
  function Shift(badchar: seq<int>, txt: string, pat: string, s: nat, j: nat): (d: int)
    requires |badchar| == NoOfChars
    requires j < |pat| && s + j < |txt| && txt[s + j] as int < NoOfChars
    ensures d >= 1
    ensures pat[|pat| - j - 1] != Wildcard ==> d >= j - badchar[txt[s + j] as int]
  {
    if pat[|pat| - j - 1] == Wildcard then 1
    else Max(1, j - badchar[txt[s + j] as int])
  }

  /** The outer loop from alignment `s` on. Every shift is at least one, so
      `|txt| - s` decreases and the scan terminates. */
  function MooreFrom(badchar: seq<int>, txt: string, pat: string, s: nat): (r: Option<nat>)
    requires |badchar| == NoOfChars && InAlphabet(txt)
    ensures r.Some? ==> s <= r.value && MatchesAt(txt, pat, r.value)
    decreases |txt| - s
  {
    if s > |txt| - |pat| then None
    else
      var j := ScanBack(txt, pat, s, |pat| - 1);
      if j < 0 then Some(s)
      else MooreFrom(badchar, txt, pat, s + Shift(badchar, txt, pat, s, j))
  }

  /** `Moore::operator()`: search `txt` for `pat` with the table of `moore`. */
  function Search(moore: Moore, txt: string, pat: string): (r: Option<nat>)
    requires |moore.badchar| == NoOfChars && InAlphabet(txt)
    ensures |pat| > |txt| ==> r == None
    ensures r.Some? ==> r.value <= |txt| - |pat| && MatchesAt(txt, pat, r.value)
  {
    if |pat| > |txt| then None
    else MooreFrom(moore.badchar, txt, pat, 0)
  }

  /** A table never lets a shift skip a matching alignment: an entry is at
      least -1, and no pattern position to the right of the entry for `c`
      can match `c`. */
  predicate SafeTable(t: seq<int>, pat: string) {
    && |t| == NoOfChars
    && forall c :: 0 <= c < NoOfChars ==>
         && t[c] >= -1
         && forall k :: t[c] < k < |pat| ==> !CharMatches(pat[k], c as char)
  }

  /** With a safe table the scan finds exactly the first match at or after `s`. */
  lemma {:induction false} MooreFromComplete(t: seq<int>, txt: string, pat: string, s: nat)
    requires SafeTable(t, pat) && InAlphabet(txt)
    ensures MooreFrom(t, txt, pat, s) == FirstMatchFrom(txt, pat, s)
    decreases |txt| - s
  {
    if s <= |txt| - |pat| {
      var j := ScanBack(txt, pat, s, |pat| - 1);
      if j < 0 {
        assert MatchesAt(txt, pat, s);
      } else {
        var d := Shift(t, txt, pat, s, j);
        ShiftSkipsNoMatch(t, txt, pat, s, j);
        SkipNonMatches(txt, pat, s, s + d);
        MooreFromComplete(t, txt, pat, s + d);
      }
    }
  }

  /** After a mismatch at pattern index `j`, no alignment the shift jumps
      over can match: each would place a pattern position to the right of
      the table entry over the mismatching text character. */
  lemma ShiftSkipsNoMatch(t: seq<int>, txt: string, pat: string, s: nat, j: int)
    requires SafeTable(t, pat)
    requires s + |pat| <= |txt| && 0 <= j < |pat| && txt[s + j] as int < NoOfChars
    requires !MatchesCharAt(txt, pat, s, j)
    ensures forall k: nat :: s <= k < s + Shift(t, txt, pat, s, j) ==> !MatchesAt(txt, pat, k)
  {
    var d := Shift(t, txt, pat, s, j);
    var c := txt[s + j] as int;
    forall k: nat | s < k < s + d && k + |pat| <= |txt|
      ensures !MatchesAt(txt, pat, k)
    {
      var i := j - (k - s);
      assert t[c] < i <= j;
      assert !MatchesCharAt(txt, pat, k, i);
    }
  }

  /** Without wildcards in the pattern, the plain bad-character table is safe. */
  lemma BadCharTableSafeWithoutWildcards(t: seq<int>, pat: string)
    requires IsBadCharTable(t, pat) && WildcardFree(pat)
    ensures SafeTable(t, pat)
  {
  }

  /** For a wildcard-free pattern, Moore with the pattern's own table returns
      exactly what the brute-force matcher returns: the leftmost match. */
  lemma MooreAgreesWithBruteForce(moore: Moore, txt: string, pat: string)
    requires IsBadCharTable(moore.badchar, pat) && WildcardFree(pat) && InAlphabet(txt)
    ensures Search(moore, txt, pat) == FirstMatch(txt, pat)
  {
    BadCharTableSafeWithoutWildcards(moore.badchar, pat);
    MooreFromComplete(moore.badchar, txt, pat, 0);
  }

  /** With a wildcard in the pattern the scan can skip the leftmost match:
      "b?a" occurs in "cbxa" at offset 1, but the mismatch on 'x' at
      alignment 0 shifts by 3 and the search reports "not found". */
  lemma MooreMissesWildcardMatch(t: seq<int>)
    requires IsBadCharTable(t, "b?a")
    ensures Search(Moore(t), "cbxa", "b?a") == None
    ensures FirstMatch("cbxa", "b?a") == Some(1)
  {
  }

  /** A bad-character table that counts a wildcard as an occurrence of every
      character: each entry is the last index holding that character or '?'. */
  predicate IsWildcardAwareTable(t: seq<int>, pat: string) {
    && |t| == NoOfChars
    && forall c :: 0 <= c < NoOfChars ==>
         t[c] == Max(LastIndexOf(pat, c as char), LastIndexOf(pat, Wildcard))
  }

  /** The corrected table: the plain table, with every entry raised to the
      last position of a wildcard. */
  method WildcardAwareBadCharHeuristic(pat: string) returns (badchar: seq<int>)
    requires InAlphabet(pat)
    ensures IsWildcardAwareTable(badchar, pat)
    ensures SafeTable(badchar, pat)
  {
    badchar := BadCharHeuristic(pat);
    var w := badchar[Wildcard as int];
    var i := 0;
    while i < NoOfChars
      invariant 0 <= i <= NoOfChars
      invariant |badchar| == NoOfChars
      invariant forall c :: 0 <= c < i ==>
                  badchar[c] == Max(LastIndexOf(pat, c as char), LastIndexOf(pat, Wildcard))
      invariant forall c :: i <= c < NoOfChars ==> badchar[c] == LastIndexOf(pat, c as char)
    {
      badchar := badchar[i := Max(badchar[i], w)];
      i := i + 1;
    }
    WildcardAwareTableIsSafe(badchar, pat);
  }

  lemma WildcardAwareTableIsSafe(t: seq<int>, pat: string)
    requires IsWildcardAwareTable(t, pat)
    ensures SafeTable(t, pat)
  {
  }

  /** With the corrected table, Moore returns the leftmost match for every
      pattern, wildcards included. */
  lemma MooreWithWildcardAwareTable(moore: Moore, txt: string, pat: string)
    requires IsWildcardAwareTable(moore.badchar, pat) && InAlphabet(txt)
    ensures Search(moore, txt, pat) == FirstMatch(txt, pat)
  {
    WildcardAwareTableIsSafe(moore.badchar, pat);
    MooreFromComplete(moore.badchar, txt, pat, 0);
  }
}
