/** The per-line search of main.cpp: the duplicate brute-force matcher
    `bruteForceFind` and `find`, which records the leftmost match of each
    line that has one. */
module MtFind {
  import opened WildcardMatch

  /** The length of a C string: the number of characters before the first NUL. */
  function StrLen(s: string): (n: nat)
    ensures n <= |s|
    ensures forall i :: 0 <= i < n ==> s[i] != '\0'
    ensures n < |s| ==> s[n] == '\0'
  {
    if |s| == 0 || s[0] == '\0' then 0 else 1 + StrLen(s[1..])
  }

  /** main.cpp's own copy of the brute-force matcher, loop for loop. */
  method BruteForceFind(text: string, pat: string) returns (r: Option<nat>)
    ensures r == FirstMatch(text, pat)
  {
    if |pat| > |text| {
      return None;
    }
    var j := 0;
    while j <= |text| - |pat|
      invariant 0 <= j <= |text| - |pat| + 1
      invariant forall k: nat :: k < j ==> !MatchesAt(text, pat, k)
    {
      var i := 0;
      while i < |pat| && CharMatches(pat[i], text[i + j])
        invariant 0 <= i <= |pat|
        invariant forall q: nat :: q < i ==> MatchesCharAt(text, pat, j, q)
      {
        i := i + 1;
      }
      if i >= |pat| {
        r := Some(j);
        LeftmostIsFirstMatch(text, pat, r);
        return;
      }
      assert !MatchesCharAt(text, pat, j, i);
      j := j + 1;
    }
    r := None;
    LeftmostIsFirstMatch(text, pat, r);
  }

  /** One result of `find`: 0-based line number, 0-based column, matched text. */
  datatype Entry = Entry(lineNumber: nat, pos: nat, text: string)

  /** `e` reports the leftmost match of `pat` in line `e.lineNumber`. */
  predicate IsLeftmostEntry(lines: seq<string>, pat: string, e: Entry) {
    && e.lineNumber < |lines|
    && FirstMatch(lines[e.lineNumber], pat) == Some(e.pos)
    && e.pos + |pat| <= |lines[e.lineNumber]|
    && e.text == lines[e.lineNumber][e.pos .. e.pos + |pat|]
  }

  predicate HasEntryFor(results: seq<Entry>, k: nat) {
    exists i :: 0 <= i < |results| && results[i].lineNumber == k
  }

  /** `results` is what `find` has recorded after visiting the first `n` lines. */
  predicate ReportedUpTo(lines: seq<string>, pat: string, results: seq<Entry>, n: nat) {
    && n <= |lines|
    && |results| <= n
    && (forall a, b :: 0 <= a < b < |results| ==> results[a].lineNumber < results[b].lineNumber)
    && (forall i :: 0 <= i < |results| ==> results[i].lineNumber < n)
    && (forall i :: 0 <= i < |results| ==> IsLeftmostEntry(lines, pat, results[i]))
    && (forall k :: 0 <= k < n ==> (HasEntryFor(results, k) <==> FirstMatch(lines[k], pat).Some?))
  }

  /** Searches every line for the pattern (read as a C string) and records
      the leftmost match of each line that has one, in line order. */
  method Find(lines: seq<string>, pattern: string) returns (results: seq<Entry>)
    ensures |lines| == 0 ==> results == []
    ensures |results| <= |lines|
    ensures forall a, b :: 0 <= a < b < |results| ==> results[a].lineNumber < results[b].lineNumber
    ensures forall i :: 0 <= i < |results| ==>
              && IsLeftmostEntry(lines, pattern[..StrLen(pattern)], results[i])
              && |results[i].text| == StrLen(pattern)
    ensures forall k :: 0 <= k < |lines| ==>
              (HasEntryFor(results, k) <==> FirstMatch(lines[k], pattern[..StrLen(pattern)]).Some?)
    ensures forall k :: 0 <= k < |lines| && |lines[k]| < StrLen(pattern) ==> !HasEntryFor(results, k)
  {
    var pat := pattern[..StrLen(pattern)];
    results := [];
    var lineNumber := 0;
    while lineNumber < |lines|
      invariant lineNumber <= |lines|
      invariant ReportedUpTo(lines, pat, results, lineNumber)
    {
      var line := lines[lineNumber];
      var result := BruteForceFind(line, pat);
      var next := results;
      if result.Some? {
        var pos := result.value;
        next := results + [Entry(lineNumber, pos, line[pos .. pos + |pat|])];
      }
      ReportLine(lines, pat, results, lineNumber, next);
      results := next;
      lineNumber := lineNumber + 1;
    }
    forall k | 0 <= k < |lines| && |lines[k]| < |pat|
      ensures FirstMatch(lines[k], pat).None?
    {
      TooShortNeverMatches(lines[k], pat);
    }
  }

  /** Visiting line `n` keeps `ReportedUpTo`: the line contributes its
      leftmost match when it has one and nothing otherwise. */
  lemma ReportLine(lines: seq<string>, pat: string, results: seq<Entry>, n: nat, next: seq<Entry>)
    requires n < |lines| && ReportedUpTo(lines, pat, results, n)
    requires FirstMatch(lines[n], pat).None? ==> next == results
    requires FirstMatch(lines[n], pat).Some? ==>
               var pos := FirstMatch(lines[n], pat).value;
               next == results + [Entry(n, pos, lines[n][pos .. pos + |pat|])]
    ensures ReportedUpTo(lines, pat, next, n + 1)
  {
    if FirstMatch(lines[n], pat).Some? {
      var e := next[|results|];
      assert MatchesAt(lines[n], pat, e.pos);
      assert IsLeftmostEntry(lines, pat, e);
      forall k | 0 <= k <= n
        ensures HasEntryFor(next, k) <==> HasEntryFor(results, k) || k == n
      {
        HasEntryForAppend(results, e, k);
      }
    } else {
      assert !HasEntryFor(results, n);
    }
  }

  lemma HasEntryForAppend(results: seq<Entry>, e: Entry, k: nat)
    ensures HasEntryFor(results + [e], k) <==> HasEntryFor(results, k) || e.lineNumber == k
  {
    if HasEntryFor(results, k) {
      var i :| 0 <= i < |results| && results[i].lineNumber == k;
      assert (results + [e])[i] == results[i];
    }
    if e.lineNumber == k {
      assert (results + [e])[|results|] == e;
    }
  }

  /** A text shorter than the pattern has no match. */
  lemma TooShortNeverMatches(text: string, pat: string)
    requires |text| < |pat|
    ensures FirstMatch(text, pat) == None
  {
  }
}
