/**
 A variant of the comparison key that does what the comment beside
 `similarUrl` describes: drop one trailing `/` or `#`. The command does not
 use it; it is kept apart from the pass so that the difference from the key
 the code actually computes can be stated.
 */
module IntendedNormalizer {
  import Php
  import opened CleanDuplicatesCommand

  /** The key with one trailing separator removed, written with the `substr` the comment implies. */
  function StripTrailingSeparator(url: string): (key: string)
    ensures key <= url
    ensures |url| - |key| == (if EndsWithSeparator(url) then 1 else 0)
  {
    if EndsWithSeparator(url) then Php.SubstrLen(url, 0, |url| - 1) else url
  }

  /** The key the code computes and the intended one differ exactly on URLs ending in a separator. */
  lemma DiffersFromSimilarUrl(url: string)
    ensures StripTrailingSeparator(url) != SimilarUrl(url) <==> EndsWithSeparator(url)
  {
  }

  /** Only one separator is removed, so a doubled one leaves the other in place. */
  lemma StripsOnlyOne()
    ensures StripTrailingSeparator("http://a.com/") == "http://a.com"
    ensures StripTrailingSeparator("http://a.com#") == "http://a.com"
    ensures StripTrailingSeparator("http://a.com//") == "http://a.com/"
    ensures SimilarUrl("http://a.com/") == "http://a.com/"
  {
  }
}
