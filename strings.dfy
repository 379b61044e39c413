/** The two functions of Go's `strings` package that the filesystem builder
    relies on to recognise and strip the `.gz` suffix. */
module Strings {

  /** `strings.HasSuffix`: `s` is at least as long as `suffix` and ends with it. */
  function HasSuffix(s: string, suffix: string): (r: bool)
    ensures r <==> |suffix| <= |s| && s[..|s| - |suffix|] + suffix == s
  {
    |suffix| <= |s| && s[|s| - |suffix|..] == suffix
  }

  /** `strings.TrimSuffix`: `s` without a trailing `suffix`; `s` itself when
      it does not end with `suffix`. */
  function TrimSuffix(s: string, suffix: string): (r: string)
    ensures HasSuffix(s, suffix) ==> r + suffix == s
    ensures !HasSuffix(s, suffix) ==> r == s
  {
    if HasSuffix(s, suffix) then s[..|s| - |suffix|] else s
  }

  /** Two strings that both carry the suffix are told apart by what is left
      once it is trimmed: stripping `.gz` never merges two source paths. */
  lemma TrimSuffixInjective(a: string, b: string, suffix: string)
    requires HasSuffix(a, suffix) && HasSuffix(b, suffix)
    requires TrimSuffix(a, suffix) == TrimSuffix(b, suffix)
    ensures a == b
  {
  }

  /** A suffix of a suffix is a suffix: a path ending in a base name that ends
      in `.gz` ends in `.gz` too. */
  lemma HasSuffixTransitive(s: string, t: string, u: string)
    requires HasSuffix(s, t) && HasSuffix(t, u)
    ensures HasSuffix(s, u)
  {
  }
}
