/**
 * Shaping of the search request and of the posting URL
 * (job_analyzer.py:27-37 and 67-68).
 */
module Search {
  import opened Text

  const Country := "Portugal"
  const BaseUrl := "https://www.linkedin.com/jobs/search"
  /** Results per page on the search site: page `p` starts at result `p * 25`. */
  const PageSize := 25
  /** The site's geographic id for Portugal, sent with every search. */
  const GeoId := "100364837"
  const CountryCode := "pt"

  /** The query parameters of one search request. */
  datatype SearchParams = SearchParams(
    keywords: string,
    location: string,
    start: int,
    geoId: string,
    countryCode: string)

  /** Appends ", Portugal" unless the location already mentions Portugal. */
  function FormatLocation(location: string): (r: string)
    ensures Contains(r, Country)
    ensures Contains(location, Country) ==> r == location
    ensures !Contains(location, Country) ==> r == location + ", " + Country
  {
    if Contains(location, Country) then location
    else
      assert (location + ", " + Country)[|location| + 2..] == Country;
      location + ", " + Country
  }

  /** Formatting is idempotent. */
  lemma FormatLocationIdempotent(location: string)
    ensures FormatLocation(FormatLocation(location)) == FormatLocation(location)
  {
  }

  /** The parameters of the request for page `page` (0-based). */
  function PageParams(keyword: string, formattedLocation: string, page: nat): SearchParams
  {
    SearchParams(keyword, formattedLocation, page * PageSize, GeoId, CountryCode)
  }

  /** The posting URL up to, and without, its first `?`. */
  function BeforeQuery(url: string): (r: string)
    ensures '?' !in r
    ensures StartsWith(url, r)
    ensures |r| < |url| ==> url[|r|] == '?'
    ensures '?' !in url ==> r == url
  {
    if url == [] then []
    else if url[0] == '?' then []
    else
      var rest := BeforeQuery(url[1..]);
      assert url == [url[0]] + url[1..];
      [url[0]] + rest
  }

  /** Cutting twice is cutting once. */
  lemma BeforeQueryIdempotent(url: string)
    ensures BeforeQuery(BeforeQuery(url)) == BeforeQuery(url)
  {
  }

  /** `url.split('?')[0]`: the contract pins the result down uniquely. */
  lemma BeforeQueryUnique(url: string, r: string)
    requires '?' !in r && StartsWith(url, r) && (|r| < |url| ==> url[|r|] == '?')
    ensures r == BeforeQuery(url)
  {
    var q := BeforeQuery(url);
    assert r == url[..|r|] && q == url[..|q|];
  }
}
