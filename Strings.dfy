/** Substring tests used by the well-formedness rules (`includes`, `endsWith`). */
module Strings {

  /** `s` begins with `t`. */
  predicate StartsWith(s: string, t: string) {
    |t| <= |s| && s[..|t|] == t
  }

  /** `s.includes(t)`: `t` occurs somewhere in `s`. */
  predicate Contains(s: string, t: string) {
    exists i :: 0 <= i <= |s| - |t| && StartsWith(s[i..], t)
  }

  /** `s.endsWith(c)` for a one-character suffix. */
  predicate EndsWith(s: string, c: char) {
    |s| > 0 && s[|s| - 1] == c
  }

  /** Two characters `a` `b` occur next to each other at some position of `s`. */
  lemma ContainsPair(s: string, i: nat, a: char, b: char)
    requires i + 1 < |s| && s[i] == a && s[i + 1] == b
    ensures Contains(s, [a, b])
  {
    assert StartsWith(s[i..], [a, b]);
  }
}
