/** Java string operations the services rely on: `trim()`, the
    `trim().isEmpty()` blank test, and case mapping (ASCII letters only). */
module Text {

  /** Java's `trim()` removes every character whose code is at most U+0020. */
  predicate IsTrimmable(c: char) {
    c <= ' '
  }

  /** `s.trim().isEmpty()`: the string holds only trimmable characters. */
  predicate IsBlank(s: string) {
    forall i :: 0 <= i < |s| ==> IsTrimmable(s[i])
  }

  function TrimStart(s: string): (r: string)
    ensures |r| <= |s| && r == s[|s| - |r|..]
    ensures |r| > 0 ==> !IsTrimmable(r[0])
    ensures forall i :: 0 <= i < |s| - |r| ==> IsTrimmable(s[i])
    decreases |s|
  {
    if |s| > 0 && IsTrimmable(s[0]) then TrimStart(s[1..]) else s
  }

  function TrimEnd(s: string): (r: string)
    ensures |r| <= |s| && r == s[..|r|]
    ensures |r| > 0 ==> !IsTrimmable(r[|r| - 1])
    ensures forall i :: |r| <= i < |s| ==> IsTrimmable(s[i])
    decreases |s|
  {
    if |s| > 0 && IsTrimmable(s[|s| - 1]) then TrimEnd(s[..|s| - 1]) else s
  }

  /** Java's `String.trim()`. */
  function Trim(s: string): (r: string)
    ensures |r| <= |s|
    ensures |r| > 0 ==> !IsTrimmable(r[0]) && !IsTrimmable(r[|r| - 1])
  {
    TrimEnd(TrimStart(s))
  }

  /** The trimmed string is empty exactly when the input is blank. */
  lemma TrimEmptyIffBlank(s: string)
    ensures Trim(s) == [] <==> IsBlank(s)
  {
    if Trim(s) == [] {
      // a non-empty TrimStart(s) starts with a kept character, which TrimEnd would keep too
      assert TrimStart(s) == [];
    }
  }

  /** A string that neither starts nor ends with a trimmable character is its own trim. */
  lemma TrimOfTrimmed(s: string)
    requires |s| > 0 ==> !IsTrimmable(s[0]) && !IsTrimmable(s[|s| - 1])
    ensures Trim(s) == s
  {
  }

  function LowerChar(c: char): (r: char)
    ensures 'A' <= c <= 'Z' ==> 'a' <= r <= 'z'
    ensures !('A' <= c <= 'Z') ==> r == c
  {
    if 'A' <= c <= 'Z' then (c as int + 32) as char else c
  }

  function UpperChar(c: char): (r: char)
    ensures 'a' <= c <= 'z' ==> 'A' <= r <= 'Z'
    ensures !('a' <= c <= 'z') ==> r == c
  {
    if 'a' <= c <= 'z' then (c as int - 32) as char else c
  }

  /** `toLowerCase()` restricted to ASCII letters. */
  function ToLower(s: string): (r: string)
    ensures |r| == |s|
    ensures forall i :: 0 <= i < |s| ==> r[i] == LowerChar(s[i])
  {
    seq(|s|, i requires 0 <= i < |s| => LowerChar(s[i]))
  }

  /** `toUpperCase()` restricted to ASCII letters. */
  function ToUpper(s: string): (r: string)
    ensures |r| == |s|
    ensures forall i :: 0 <= i < |s| ==> r[i] == UpperChar(s[i])
  {
    seq(|s|, i requires 0 <= i < |s| => UpperChar(s[i]))
  }

  /** Lower-casing twice changes nothing more. */
  lemma ToLowerIdempotent(s: string)
    ensures ToLower(ToLower(s)) == ToLower(s)
  {
  }

  /** Upper-casing is invariant under lower-casing first: the two case maps
      agree on which strings are equal ignoring case. */
  lemma UpperOfLower(s: string)
    ensures ToUpper(ToLower(s)) == ToUpper(s)
  {
  }

  /** `needle` occurs as a contiguous block of `hay`. */
  predicate IsInfix(needle: string, hay: string) {
    exists k :: 0 <= k <= |hay| - |needle| && InfixAt(needle, hay, k)
  }

  predicate InfixAt(needle: string, hay: string, k: int) {
    0 <= k <= |hay| - |needle| && hay[k..k + |needle|] == needle
  }

  /** `LOWER(hay) LIKE LOWER(CONCAT('%', needle, '%'))` for a needle without
      wildcard characters. */
  predicate ContainsIgnoreCase(hay: string, needle: string) {
    IsInfix(ToLower(needle), ToLower(hay))
  }

  /** Every string contains the empty needle and itself. */
  lemma ContainsIgnoreCaseBasics(hay: string)
    ensures ContainsIgnoreCase(hay, "")
    ensures ContainsIgnoreCase(hay, hay)
  {
    assert InfixAt(ToLower(""), ToLower(hay), 0);
    assert InfixAt(ToLower(hay), ToLower(hay), 0);
  }
}
