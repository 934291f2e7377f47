/** Suffix tests on column and metric names, as `str.endswith` does them. */
module Strings {

  /** `c.endswith(suffix)`. */
  predicate HasSuffix(c: string, suffix: string) {
    |suffix| <= |c| && c[|c| - |suffix|..] == suffix
  }

  /** `c` with `suffix` removed from its end. */
  function StripSuffix(c: string, suffix: string): (r: string)
    requires HasSuffix(c, suffix)
    ensures |r| + |suffix| == |c|
  {
    c[..|c| - |suffix|]
  }

  /** Stripping a suffix and appending it again gives back the name. */
  lemma StripThenAppend(c: string, suffix: string)
    requires HasSuffix(c, suffix)
    ensures StripSuffix(c, suffix) + suffix == c
  {
    assert c == c[..|c| - |suffix|] + c[|c| - |suffix|..];
  }

  /** Appending a suffix gives a name that ends with it and strips back to the original. */
  lemma AppendThenStrip(p: string, suffix: string)
    ensures HasSuffix(p + suffix, suffix) && StripSuffix(p + suffix, suffix) == p
  {
    var c := p + suffix;
    assert c[|c| - |suffix|..] == suffix;
    assert c[..|p|] == p;
  }

  /** `endswith` means "is something followed by the suffix". */
  lemma HasSuffixIff(c: string, suffix: string)
    ensures HasSuffix(c, suffix) <==> exists p :: c == p + suffix
  {
    if HasSuffix(c, suffix) {
      StripThenAppend(c, suffix);
    }
    if exists p :: c == p + suffix {
      var p :| c == p + suffix;
      AppendThenStrip(p, suffix);
    }
  }
}
