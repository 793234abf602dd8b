/**
 * The few functions of Go's `strings` package that the resolver uses, on
 * strings of characters. Case folding covers the ASCII letters only.
 */
module Strings {

  predicate IsUpperAscii(c: char) {
    'A' <= c <= 'Z'
  }

  function LowerChar(c: char): char {
    if IsUpperAscii(c) then (c as int + 32) as char else c
  }

  function UpperChar(c: char): char {
    if 'a' <= c <= 'z' then (c as int - 32) as char else c
  }

  /** strings.ToLower */
  function ToLower(s: string): string {
    seq(|s|, i requires 0 <= i < |s| => LowerChar(s[i]))
  }

  /** strings.ToUpper */
  function ToUpper(s: string): string {
    seq(|s|, i requires 0 <= i < |s| => UpperChar(s[i]))
  }

  /** A string that strings.ToLower leaves as it is. */
  predicate IsLower(s: string) {
    s == [] || (!IsUpperAscii(s[0]) && IsLower(s[1..]))
  }

  /** strings.HasSuffix: a plain character suffix, with no regard for labels. */
  predicate HasSuffix(s: string, suffix: string) {
    |suffix| <= |s| && s[|s| - |suffix|..] == suffix
  }

  /** strings.TrimSuffix: drops one occurrence of `suffix` from the end, if there. */
  function TrimSuffix(s: string, suffix: string): (r: string)
    ensures HasSuffix(s, suffix) ==> r + suffix == s
    ensures !HasSuffix(s, suffix) ==> r == s
  {
    if HasSuffix(s, suffix) then s[..|s| - |suffix|] else s
  }

  /** ToLower works character by character, so it distributes over concatenation. */
  lemma ToLowerAppend(a: string, b: string)
    ensures ToLower(a + b) == ToLower(a) + ToLower(b)
  {
  }

  /** ToLower yields a lower-case string and leaves a lower-case one as it is. */
  lemma {:induction false} ToLowerIsLower(s: string)
    ensures IsLower(ToLower(s))
    ensures IsLower(s) ==> ToLower(s) == s
  {
    if s != [] {
      ToLowerIsLower(s[1..]);
      assert ToLower(s)[1..] == ToLower(s[1..]);
      if IsLower(s) {
        assert ToLower(s) == [s[0]] + ToLower(s[1..]);
      }
    }
  }
}
