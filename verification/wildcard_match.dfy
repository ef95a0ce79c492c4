/** What it means for an mtfind pattern to match a text.

    Both matchers of mtfind use the same notion of a match: the pattern
    character '?' matches any single character and every other pattern
    character matches only itself. A `char` here is one byte of the C++
    text, so '?' matches one byte and offsets count bytes. A matcher
    returns the offset of a match or nothing; the C++ null pointer becomes
    `None`. */
module WildcardMatch {

  /** The result of a matcher: `Some(offset)` or `None` for "not found". */
  datatype Option<T> = None | Some(value: T)

  /** The single-character wildcard. */
  const Wildcard: char := '?'

  predicate CharMatches(p: char, c: char) {
    p == Wildcard || p == c
  }

  predicate WildcardFree(pat: string) {
    forall i :: 0 <= i < |pat| ==> pat[i] != Wildcard
  }

  /** Pattern position `i` matches the text character under it at alignment `s`. */
  predicate MatchesCharAt(text: string, pat: string, s: nat, i: nat)
    requires i < |pat| && s + i < |text|
  {
    CharMatches(pat[i], text[s + i])
  }

  /** The pattern lies inside the text at offset `s` and matches it there. */
  predicate MatchesAt(text: string, pat: string, s: nat) {
    && s + |pat| <= |text|
    && forall i: nat :: i < |pat| ==> MatchesCharAt(text, pat, s, i)
  }

  /** `r` is the leftmost offset at which the pattern matches, or `None`
      when it matches nowhere. */
  ghost predicate IsLeftmost(text: string, pat: string, r: Option<nat>) {
    match r
    case Some(k) =>
      MatchesAt(text, pat, k) && forall k': nat :: k' < k ==> !MatchesAt(text, pat, k')
    case None =>
      forall k: nat :: !MatchesAt(text, pat, k)
  }

  /** The first offset at or after `s` where the pattern matches. */
  function FirstMatchFrom(text: string, pat: string, s: nat): Option<nat>
    decreases |text| - s
  {
    if s + |pat| > |text| then None
    else if MatchesAt(text, pat, s) then Some(s)
    else FirstMatchFrom(text, pat, s + 1)
  }

  /** `FirstMatchFrom` returns a match at or after `s` with no match between
      `s` and it, or `None` when nothing at or after `s` matches. */
  lemma {:induction false} FirstMatchFromIsFirst(text: string, pat: string, s: nat)
    ensures var r := FirstMatchFrom(text, pat, s);
      && (r.Some? ==> s <= r.value && MatchesAt(text, pat, r.value))
      && forall k: nat :: s <= k && (r.None? || k < r.value) ==> !MatchesAt(text, pat, k)
    decreases |text| - s
  {
    if s + |pat| <= |text| && !MatchesAt(text, pat, s) {
      FirstMatchFromIsFirst(text, pat, s + 1);
    }
  }

  /** The reference answer every matcher is compared with: the leftmost match. */
  function FirstMatch(text: string, pat: string): (r: Option<nat>)
    ensures IsLeftmost(text, pat, r)
  {
    FirstMatchFromIsFirst(text, pat, 0);
    FirstMatchFrom(text, pat, 0)
  }

  /** The leftmost match is unique: `FirstMatch` is the only result that
      satisfies `IsLeftmost`. */
  lemma LeftmostIsFirstMatch(text: string, pat: string, r: Option<nat>)
    ensures IsLeftmost(text, pat, r) <==> r == FirstMatch(text, pat)
  {
  }

  /** Offsets known not to match can be skipped without changing the first match. */
  lemma {:induction false} SkipNonMatches(text: string, pat: string, s: nat, s': nat)
    requires s <= s'
    requires forall k: nat :: s <= k < s' ==> !MatchesAt(text, pat, k)
    ensures FirstMatchFrom(text, pat, s) == FirstMatchFrom(text, pat, s')
    decreases s' - s
  {
    if s < s' && s + |pat| <= |text| {
      assert !MatchesAt(text, pat, s);
      SkipNonMatches(text, pat, s + 1, s');
    }
  }
}
