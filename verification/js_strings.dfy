/** The few JavaScript string operations the modelled code relies on:
    includes, replace with a string pattern (and the first-occurrence search it
    does), endsWith and toLowerCase.
    Strings are sequences of characters; case folding covers A-Z only. */
module JsStrings {

  import opened Wrappers

  /** `sub` occurs in `s` starting at index `k`. */
  predicate OccursAt(s: string, sub: string, k: nat) {
    k + |sub| <= |s| && s[k..k + |sub|] == sub
  }

  /** String.prototype.includes. Every string includes the empty string, and
      nothing longer than itself. */
  predicate Includes(s: string, sub: string)
    ensures sub == [] ==> Includes(s, sub)
    ensures Includes(s, sub) ==> |sub| <= |s|
  {
    assert sub == [] ==> OccursAt(s, sub, 0);
    exists k: nat | k <= |s| :: OccursAt(s, sub, k)
  }

  /** A string lacking one of the characters of `sub` does not include it. */
  lemma MissingCharNotIncluded(s: string, sub: string, c: char)
    requires c in sub && c !in s
    ensures !Includes(s, sub)
  {
  }

  /** The first index at or after `from` where `pat` occurs in `s`. */
  function IndexOfFrom(s: string, pat: string, from: nat): (r: Option<nat>)
    ensures r.Some? ==>
      from <= r.value && OccursAt(s, pat, r.value) &&
      forall j | from <= j < r.value :: !OccursAt(s, pat, j)
    ensures r.None? ==> forall j: nat | from <= j :: !OccursAt(s, pat, j)
    decreases |s| - from
  {
    if from + |pat| > |s| then None
    else if OccursAt(s, pat, from) then Some(from)
    else IndexOfFrom(s, pat, from + 1)
  }

  /** The first occurrence of `pat` in `s`, as `replace` searches for it. */
  function IndexOf(s: string, pat: string): (r: Option<nat>)
    ensures r.Some? ==> OccursAt(s, pat, r.value) && forall j | 0 <= j < r.value :: !OccursAt(s, pat, j)
    ensures r.None? <==> !Includes(s, pat)
  {
    IndexOfFrom(s, pat, 0)
  }

  /** String.prototype.replace with a string pattern: only the first occurrence
      is replaced (the replacement is taken literally; the one used here holds
      no `$` pattern). A string without the pattern is returned as it is; one
      with it grows by the difference in length and holds the replacement. */
  function ReplaceFirst(s: string, pat: string, rep: string): (r: string)
    ensures !Includes(s, pat) ==> r == s
    ensures Includes(s, pat) ==> |r| == |s| - |pat| + |rep| && Includes(r, rep)
  {
    match IndexOf(s, pat)
    case None => s
    case Some(k) =>
      var r := s[..k] + rep + s[k + |pat|..];
      assert OccursAt(r, rep, k) by {
        assert r[k..k + |rep|] == rep;
      }
      r
  }

  /** String.prototype.endsWith: a string ends with the empty string, and a
      string that ends with `suffix` includes it. */
  predicate EndsWith(s: string, suffix: string)
    ensures suffix == [] ==> EndsWith(s, suffix)
    ensures EndsWith(s, suffix) ==> Includes(s, suffix)
  {
    assert |suffix| <= |s| ==> OccursAt(s, suffix, |s| - |suffix|) == (s[|s| - |suffix|..] == suffix);
    |suffix| <= |s| && s[|s| - |suffix|..] == suffix
  }

  function ToLowerAscii(c: char): char {
    if 'A' <= c <= 'Z' then (c as int + 32) as char else c
  }

  /** String.prototype.toLowerCase, restricted to A-Z: the length is kept, no
      upper-case ASCII letter is left, and every other character is kept. */
  function LowerCase(s: string): (r: string)
    ensures |r| == |s|
    ensures forall i | 0 <= i < |r| :: !('A' <= r[i] <= 'Z')
    ensures forall i | 0 <= i < |s| && !('A' <= s[i] <= 'Z') :: r[i] == s[i]
  {
    seq(|s|, i requires 0 <= i < |s| => ToLowerAscii(s[i]))
  }
}
