/** The brute-force matcher `bruteforcematch` of search_algorithms.h. */
module BruteForce {
  import opened WildcardMatch

  /** Tries every alignment from the left and compares the pattern left to
      right at each one; returns the first alignment where every character
      matches. */
  method BruteForceMatch(text: string, pat: string) returns (r: Option<nat>)
    ensures |pat| > |text| ==> r == None
    ensures r.Some? ==> r.value <= |text| - |pat| && MatchesAt(text, pat, r.value)
    ensures r.Some? ==> forall k: nat :: k < r.value ==> !MatchesAt(text, pat, k)
    ensures r.None? ==> forall k: nat :: k <= |text| - |pat| ==> !MatchesAt(text, pat, k)
    ensures r == FirstMatch(text, pat)
  {
    if |pat| > |text| {
      return None;
    }
    var j := 0;
    while j <= |text| - |pat|
      invariant 0 <= j <= |text| - |pat| + 1
      invariant forall k: nat :: k < j ==> !MatchesAt(text, pat, k)
    {
      var i := 0;
      while i < |pat| && CharMatches(pat[i], text[i + j])
        invariant 0 <= i <= |pat|
        invariant forall q: nat :: q < i ==> MatchesCharAt(text, pat, j, q)
      {
        i := i + 1;
      }
      if i >= |pat| {
        r := Some(j);
        LeftmostIsFirstMatch(text, pat, r);
        return;
      }
      assert !MatchesCharAt(text, pat, j, i);
      j := j + 1;
    }
    r := None;
    LeftmostIsFirstMatch(text, pat, r);
  }
}
