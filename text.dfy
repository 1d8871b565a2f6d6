/**
 * The few JavaScript notions the sign-up path relies on: falsiness of a field,
 * `s.split(sep)[0]`, and `s.replace(pattern, replacement)` with a one-character string pattern.
 * Strings are sequences of characters.
 */
module Text {
  import opened Wrappers

  /** JavaScript's `!v` for a value that is a string or `undefined`: absent or empty. */
  predicate Falsy(v: Option<string>) {
    v.None? || v.value == ""
  }

  /** The index of the first occurrence of `c` in `s`. */
  function FirstIndex(s: string, c: char): (i: nat)
    requires c in s
    ensures i < |s| && s[i] == c
    ensures c !in s[..i]
  {
    if s[0] == c then 0 else FirstIndex(s[1..], c) + 1
  }

  /** `s.split(sep)[0]`: the text before the first `sep`, or all of `s` when there is none. */
  function BeforeFirst(s: string, sep: char): (r: string)
    ensures sep !in r
    ensures r <= s
    ensures |r| < |s| <==> sep in s
    ensures |r| < |s| ==> s[|r|] == sep
  {
    if sep in s then s[..FirstIndex(s, sep)] else s
  }

  /**
   * `s.replace(target, replacement)` with one-character strings: only the FIRST
   * occurrence of `target` is replaced.
   */
  function ReplaceFirst(s: string, target: char, replacement: char): (r: string)
    ensures |r| == |s|
    ensures target !in s ==> r == s
    ensures target in s ==>
      var i := FirstIndex(s, target);
      r[i] == replacement && r[..i] == s[..i] && r[i + 1..] == s[i + 1..]
  {
    if s == [] then []
    else if s[0] == target then [replacement] + s[1..]
    else [s[0]] + ReplaceFirst(s[1..], target, replacement)
  }
}
