/** The product-URL classifiers of all three files share one shape: a table of regular expressions that
    are plain literals (no anchors, no flags, no metacharacters), tried in order until one matches. A
    literal regular expression matches exactly when it occurs as a substring, so `pattern.test(url)` is
    `Contains(url, pattern)` here. */
module Patterns {

  /** `p` occurs in `s` starting at index `i`. */
  predicate OccursAt(s: string, p: string, i: nat) {
    i + |p| <= |s| && s[i..i + |p|] == p
  }

  /** `p` occurs somewhere in `s` (what `RegExp.prototype.test` answers for a literal pattern). */
  predicate Contains(s: string, p: string) {
    exists i: nat | i <= |s| :: OccursAt(s, p, i)
  }

  /** Some pattern of the table occurs in `url`. */
  predicate MatchesAny(patterns: seq<string>, url: string) {
    exists k | 0 <= k < |patterns| :: Contains(url, patterns[k])
  }

  /** A string that contains `p` is at least as long as `p`. */
  lemma ContainsLength(s: string, p: string)
    requires Contains(s, p)
    ensures |p| <= |s|
  {
    var i: nat :| i <= |s| && OccursAt(s, p, i);
  }

  /** A pattern holding a character that `s` lacks cannot occur in `s`. */
  lemma AbsentCharacter(s: string, p: string, k: nat)
    requires k < |p| && p[k] !in s
    ensures !Contains(s, p)
  {
    forall i: nat | i <= |s| ensures !OccursAt(s, p, i) {
      if i + |p| <= |s| {
        assert s[i..i + |p|][k] == s[i + k];
      }
    }
  }

  /** The `isProductUrl` loop: try the patterns in table order and return `true` at the first one that
      matches, `false` after the last. The ghost `first` is the index the loop stopped at. */
  method TestPatterns(patterns: seq<string>, url: string) returns (matched: bool, ghost first: nat)
    ensures matched <==> MatchesAny(patterns, url)
    ensures matched ==> first < |patterns| && Contains(url, patterns[first])
    ensures forall j :: 0 <= j < first && j < |patterns| ==> !Contains(url, patterns[j])
  {
    for k := 0 to |patterns|
      invariant forall j :: 0 <= j < k ==> !Contains(url, patterns[j])
    {
      if Contains(url, patterns[k]) {
        return true, k;
      }
    }
    return false, |patterns|;
  }
}
