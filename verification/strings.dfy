/** Prefix and suffix tests with the meaning of Python's `str.startswith` and `str.endswith`. */
module Strings {

  /** `s.startswith(p)`: the empty prefix is a prefix of every string. */
  predicate StartsWith(s: string, p: string) {
    |p| <= |s| && s[..|p|] == p
  }

  /** `s.endswith(p)`: the empty suffix is a suffix of every string. */
  predicate EndsWith(s: string, p: string) {
    |p| <= |s| && s[|s| - |p|..] == p
  }

  /** A prefix survives any extension on the right. */
  lemma StartsWithAppend(s: string, p: string, t: string)
    requires StartsWith(s, p)
    ensures StartsWith(s + t, p)
  {
    assert (s + t)[..|p|] == s[..|p|];
  }
}
