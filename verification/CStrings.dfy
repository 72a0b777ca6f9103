/** NUL-terminated strings inside character buffers. */
module CStrings {
  /** The characters of `s` before its first NUL. */
  function Text(s: seq<char>): (t: string)
    ensures |t| <= |s|
    ensures forall i :: 0 <= i < |t| ==> t[i] == s[i] != '\0'
    ensures |t| < |s| ==> s[|t|] == '\0'
  {
    if s == [] || s[0] == '\0' then "" else [s[0]] + Text(s[1..])
  }

  ghost predicate Terminated(s: seq<char>) {
    |Text(s)| < |s|
  }

  /** A string without NUL; the buffer form of a C string literal or variable name. */
  ghost predicate NoNul(s: string) {
    '\0' !in s
  }

  /** Writing a NUL after `n` other characters makes them the text. */
  lemma TextIs(s: seq<char>, n: nat)
    requires n < |s| && s[n] == '\0' && NoNul(s[..n])
    ensures Terminated(s) && Text(s) == s[..n]
  {
  }

  /** `s[i]` of a C string whose characters before the NUL are `s`. */
  function At(s: string, i: nat): char
    requires i <= |s|
  {
    if i < |s| then s[i] else '\0'
  }

  /** Index of the first `c`, or the length. */
  function IndexOf(s: string, c: char): (k: nat)
    ensures k <= |s|
    ensures forall i :: 0 <= i < k ==> s[i] != c
    ensures k < |s| ==> s[k] == c
  {
    if s == "" || s[0] == c then 0 else 1 + IndexOf(s[1..], c)
  }
}
