/**
 * The `java.lang.String` operations the services rely on: `toLowerCase`
 * (as a length-preserving ASCII fold), `trim`, `indexOf` and `contains`.
 */
module JavaString {

  /** Lower-case fold of one character: 'A'..'Z' become 'a'..'z', every other character is kept. */
  function LowerChar(c: char): (r: char)
    ensures r == c || 'A' <= c <= 'Z'
    ensures 'a' <= r <= 'z' <==> 'a' <= c <= 'z' || 'A' <= c <= 'Z'
    ensures r <= ' ' <==> c <= ' '
  {
    if 'A' <= c <= 'Z' then (c as int + 32) as char else c
  }

  /** `s.toLowerCase()`: the fold applied to every character, length preserved. */
  function Lower(s: string): (r: string)
    ensures |r| == |s|
    ensures forall i :: 0 <= i < |s| ==> r[i] == LowerChar(s[i])
  {
    seq(|s|, i requires 0 <= i < |s| => LowerChar(s[i]))
  }

  /** A character `trim` removes: code point at most U+0020. */
  predicate IsTrimmable(c: char) {
    c <= ' '
  }

  /** The string has no trimmable character at either end. */
  predicate IsTrimmed(s: string) {
    |s| == 0 || (!IsTrimmable(s[0]) && !IsTrimmable(s[|s| - 1]))
  }

  /** Every character of the string is trimmable. */
  predicate IsBlank(s: string) {
    forall i :: 0 <= i < |s| ==> IsTrimmable(s[i])
  }

  /** The first index at or after `st` whose character `trim` keeps, or `|s|` (trim's first scan). */
  function TrimStartFrom(s: string, st: nat): (r: nat)
    requires st <= |s|
    ensures st <= r <= |s|
    ensures forall i :: st <= i < r ==> IsTrimmable(s[i])
    ensures r == |s| || !IsTrimmable(s[r])
    decreases |s| - st
  {
    if st < |s| && IsTrimmable(s[st]) then TrimStartFrom(s, st + 1) else st
  }

  /** The end, at most `len`, after dropping trailing trimmable characters but none before `st` (trim's second scan). */
  function TrimEndFrom(s: string, st: nat, len: nat): (r: nat)
    requires st <= len <= |s|
    ensures st <= r <= len
    ensures forall i :: r <= i < len ==> IsTrimmable(s[i])
    ensures r == st || !IsTrimmable(s[r - 1])
    decreases len
  {
    if st < len && IsTrimmable(s[len - 1]) then TrimEndFrom(s, st, len - 1) else len
  }

  /** Where the trimmed string starts inside the original. */
  function TrimOffset(s: string): nat
    ensures TrimOffset(s) <= |s|
  {
    TrimStartFrom(s, 0)
  }

  /** Where the trimmed string ends inside the original. */
  function TrimLimit(s: string): nat
    ensures TrimOffset(s) <= TrimLimit(s) <= |s|
  {
    TrimEndFrom(s, TrimOffset(s), |s|)
  }

  /** `s.trim()`: `s` without its leading and trailing characters at most U+0020. */
  function Trim(s: string): string {
    s[TrimOffset(s)..TrimLimit(s)]
  }

  /**
   * `trim` drops exactly the trimmable characters at both ends: the result
   * has none at either end, only a blank string trims to "", and a string
   * with none at its ends is returned unchanged.
   */
  lemma TrimSpec(s: string)
    ensures |Trim(s)| <= |s|
    ensures IsTrimmed(Trim(s))
    ensures Trim(s) == [] <==> IsBlank(s)
    ensures IsTrimmed(s) ==> Trim(s) == s
    ensures forall i :: 0 <= i < TrimOffset(s) || TrimLimit(s) <= i < |s| ==> IsTrimmable(s[i])
  {
  }

  /**
   * `trim` keeps every span `s[i..j]` whose first and last characters are
   * not trimmable, at the same place relative to where the trimmed string starts.
   */
  lemma TrimKeepsSpan(s: string, i: nat, j: nat)
    requires i < j <= |s| && !IsTrimmable(s[i]) && !IsTrimmable(s[j - 1])
    ensures TrimOffset(s) <= i && j <= TrimLimit(s)
    ensures Trim(s)[i - TrimOffset(s)..j - TrimOffset(s)] == s[i..j]
  {
    var a, b := TrimOffset(s), TrimLimit(s);
    TrimSpec(s);
    assert a <= i && j <= b;
    var t := s[a..b];
    forall k | 0 <= k < j - i ensures t[i - a..j - a][k] == s[i..j][k] {
      assert t[i - a + k] == s[i + k];
    }
    assert t[i - a..j - a] == s[i..j];
  }

  /** A string that begins with a character `trim` keeps still begins with it after trimming. */
  lemma TrimKeepsPrefix(s: string, p: string)
    requires 0 < |p| <= |s| && s[..|p|] == p && IsTrimmed(p)
    ensures |p| <= |Trim(s)| && Trim(s)[..|p|] == p
  {
    TrimKeepsSpan(s, 0, |p|);
  }

  /** A string that ends with a character `trim` keeps still ends with it after trimming. */
  lemma TrimKeepsSuffix(s: string, p: string)
    requires 0 < |p| <= |s| && s[|s| - |p|..] == p && IsTrimmed(p)
    ensures |p| <= |Trim(s)| && Trim(s)[|Trim(s)| - |p|..] == p
  {
    TrimKeepsSpan(s, |s| - |p|, |s|);
    assert s[|s| - |p|] == p[0];
  }

  /** `pat` occurs in `text` starting at position `k`. */
  predicate OccursAt(text: string, pat: string, k: int) {
    0 <= k && k + |pat| <= |text| && text[k..k + |pat|] == pat
  }

  /** `pat` occurs somewhere in `text`. */
  ghost predicate Occurs(text: string, pat: string) {
    exists k :: OccursAt(text, pat, k)
  }

  /** The first occurrence of `pat` in `text` at or after `from`, or -1. */
  function IndexFrom(text: string, pat: string, from: nat): (r: int)
    ensures r == -1 || (from <= r && OccursAt(text, pat, r))
    ensures r == -1 ==> forall k :: from <= k ==> !OccursAt(text, pat, k)
    ensures r >= 0 ==> forall k :: from <= k < r ==> !OccursAt(text, pat, k)
    decreases |text| - from
  {
    if from + |pat| > |text| then -1
    else if text[from..from + |pat|] == pat then from
    else IndexFrom(text, pat, from + 1)
  }

  /** `text.indexOf(pat)`: the first position where `pat` occurs, or -1 when it does not occur. */
  function IndexOf(text: string, pat: string): (r: int)
    ensures -1 <= r
    ensures r == -1 <==> !Occurs(text, pat)
    ensures r >= 0 ==> OccursAt(text, pat, r) && forall k :: 0 <= k < r ==> !OccursAt(text, pat, k)
  {
    IndexFrom(text, pat, 0)
  }

  /** `text.contains(pat)`, which Java defines as `indexOf(pat) >= 0`. */
  predicate Contains(text: string, pat: string) {
    IndexOf(text, pat) >= 0
  }
}
