/**
 * The values that flow through the scraper: result cards, detail pages,
 * search pages and the job records built from them, with the functions that
 * say which cards become records (job_analyzer.py:61-97), what description a
 * detail page yields (job_analyzer.py:103-147), and what a whole search
 * accumulates (job_analyzer.py:29-49).
 */
module Postings {
  import opened Wrappers
  import opened Text
  import opened Search

  /** The recency window, in seconds: 24 hours, inclusive. */
  const RecencyWindow := 24 * 3600
  const SuccessStatus := 200
  const NoDescription := "No description available"
  /** The containers that may hold a posting's description, tried in this order. */
  const DescriptionSelectors: seq<string> :=
    ["div.show-more-less-html__markup", "div.description__text", "div.job-description"]

  /**
   * The `<time>` element of a card: its `datetime` attribute (None when the
   * attribute is missing) and the seconds elapsed between that instant and now
   * (None when the attribute does not parse as an ISO 8601 instant).
   */
  datatype TimeTag = TimeTag(datetime: Option<string>, age: Option<int>)

  /**
   * One `div.job-search-card`: the href of its first anchor (None when there is
   * no anchor or it has no href), its first `<time>` element, and the text of
   * its title, company and location nodes (None when the node is absent).
   */
  datatype Card = Card(
    href: Option<string>,
    time: Option<TimeTag>,
    title: Option<string>,
    company: Option<string>,
    location: Option<string>)

  /**
   * A fetched posting page: its status code, and for each CSS selector the
   * texts of the elements it selects, with their show-more buttons removed.
   */
  datatype DetailPage = DetailPage(status: int, select: string -> seq<string>)

  /** A fetched search-results page: its status code and its job cards in page order. */
  datatype SearchPage = SearchPage(status: int, cards: seq<Card>)

  /** One accepted posting; `secondsAgo` is the elapsed time the hours figure is rounded from. */
  datatype JobRecord = JobRecord(
    title: string,
    company: string,
    location: string,
    postedDate: string,
    jobUrl: string,
    description: Option<string>,
    secondsAgo: int)

  /** The shape every cleaned description has. */
  predicate CleanText(s: string)
  {
    Trimmed(s) && PlainSpacesOnly(s) && '+' !in s
  }

  /** What holds of every record the scraper keeps. */
  predicate WellFormed(r: JobRecord)
  {
    && r.secondsAgo <= RecencyWindow
    && '?' !in r.jobUrl
    && r.postedDate != []
    && Trimmed(r.title) && Trimmed(r.company) && Trimmed(r.location)
    && (r.description.Some? ==> CleanText(r.description.value))
  }

  // ---------------------------------------------------------------------
  // Detail pages
  // ---------------------------------------------------------------------

  /** The texts selected by each of `selectors`, in selector order, then document order. */
  function Gathered(selectors: seq<string>, select: string -> seq<string>): seq<string>
  {
    if selectors == [] then []
    else Gathered(selectors[..|selectors| - 1], select) + select(selectors[|selectors| - 1])
  }

  /** Every selector contributes what it matches: later selectors are tried even after a hit. */
  lemma AllSelectorsContribute(select: string -> seq<string>)
    ensures Gathered(DescriptionSelectors, select)
         == select(DescriptionSelectors[0]) + select(DescriptionSelectors[1]) + select(DescriptionSelectors[2])
  {
    var s := DescriptionSelectors;
    assert s[..|s| - 1] == s[..2] && s[..2][..1] == s[..1] && s[..1][..0] == [];
    assert Gathered(s[..1], select) == select(s[0]);
    assert Gathered(s[..2], select) == select(s[0]) + select(s[1]);
  }

  /** `sep.join(parts)`. */
  function Join(parts: seq<string>, sep: string): (r: string)
    ensures parts == [] ==> r == []
    ensures |parts| == 1 ==> r == parts[0]
  {
    if parts == [] then []
    else if |parts| == 1 then parts[0]
    else parts[0] + sep + Join(parts[1..], sep)
  }

  lemma MarkerIsClean()
    ensures CleanText(NoDescription)
  {
    var m := NoDescription;
    assert forall i :: 0 <= i < |m| ==> m[i] == ' ' || m[i] == 'N' || 'a' <= m[i] <= 'z';
    assert forall c :: c in m ==> c == ' ' || c == 'N' || 'a' <= c <= 'z';
  }

  /**
   * The description a detail-page request yields: None when the request
   * raised or answered other than 200, the marker when no selector matched,
   * otherwise the cleaned newline-joined texts of every match.
   */
  function Describe(response: Option<DetailPage>): (d: Option<string>)
    ensures d.Some? ==> CleanText(d.value)
  {
    match response
    case None => None
    case Some(page) =>
      if page.status != SuccessStatus then None
      else
        var parts := Gathered(DescriptionSelectors, page.select);
        if parts == [] then
          MarkerIsClean();
          Some(NoDescription)
        else Some(CleanDescription(Join(parts, "\n")))
  }

  /**
   * The three outcomes of a description request. The marker is returned when
   * nothing matched, but also when the cleaned page text happens to be the
   * marker itself, so only the None outcome is told apart exactly.
   */
  lemma DescribeOutcomes(response: Option<DetailPage>)
    ensures Describe(response).None? <==> response.None? || response.value.status != SuccessStatus
    ensures response.Some? && response.value.status == SuccessStatus
            && Gathered(DescriptionSelectors, response.value.select) == []
            ==> Describe(response) == Some(NoDescription)
    ensures Describe(response) == Some(NoDescription)
            ==> Gathered(DescriptionSelectors, response.value.select) == []
                || CleanDescription(Join(Gathered(DescriptionSelectors, response.value.select), "\n")) == NoDescription
  {
  }

  // ---------------------------------------------------------------------
  // Cards
  // ---------------------------------------------------------------------

  /** The elapsed time is within the window (24 h, boundary included). */
  predicate Recent(seconds: int)
  {
    seconds <= RecencyWindow
  }

  /**
   * A card is kept exactly when it has a linked anchor, a `<time>` element
   * with a non-empty, parseable `datetime` no older than the window, and all
   * three of its title, company and location nodes.
   */
  predicate Admissible(c: Card)
  {
    && c.href.Some?
    && c.time.Some?
    && c.time.value.datetime.Some? && c.time.value.datetime.value != []
    && c.time.value.age.Some? && Recent(c.time.value.age.value)
    && c.title.Some? && c.company.Some? && c.location.Some?
  }

  /** The record built from an admissible card and its description. */
  function MakeRecord(c: Card, description: Option<string>): (r: JobRecord)
    requires Admissible(c)
    requires description.Some? ==> CleanText(description.value)
    ensures WellFormed(r)
    ensures r.jobUrl == BeforeQuery(c.href.value) && StartsWith(c.href.value, r.jobUrl)
    ensures r.secondsAgo == c.time.value.age.value && r.description == description
    ensures InnerSlice(r.title, c.title.value) && NonSpace(r.title) == NonSpace(c.title.value)
    ensures InnerSlice(r.company, c.company.value) && NonSpace(r.company) == NonSpace(c.company.value)
    ensures InnerSlice(r.location, c.location.value) && NonSpace(r.location) == NonSpace(c.location.value)
    ensures r.postedDate == c.time.value.datetime.value
  {
    StripKeepsNonSpace(c.title.value);
    StripKeepsNonSpace(c.company.value);
    StripKeepsNonSpace(c.location.value);
    JobRecord(
      Strip(c.title.value), Strip(c.company.value), Strip(c.location.value),
      c.time.value.datetime.value, BeforeQuery(c.href.value), description, c.time.value.age.value)
  }

  /** The detail URL the scraper requests for a card with a link. */
  function CardUrl(c: Card): string
    requires c.href.Some?
  {
    BeforeQuery(c.href.value)
  }

  /** What one card contributes to the job list. */
  function Kept(c: Card, fetch: string -> Option<DetailPage>): seq<JobRecord>
  {
    if Admissible(c) then [MakeRecord(c, Describe(fetch(CardUrl(c))))] else []
  }

  /** The records a page of cards contributes, in card order. */
  function Accepted(cards: seq<Card>, fetch: string -> Option<DetailPage>): seq<JobRecord>
  {
    if cards == [] then []
    else Accepted(cards[..|cards| - 1], fetch) + Kept(cards[|cards| - 1], fetch)
  }

  /** The detail requests a page of cards causes: one per linked card, kept or not. */
  function FetchedUrls(cards: seq<Card>): seq<string>
  {
    if cards == [] then []
    else
      var last := cards[|cards| - 1];
      FetchedUrls(cards[..|cards| - 1]) + (if last.href.Some? then [CardUrl(last)] else [])
  }

  /** Handling one more card appends what that card contributes. */
  lemma CardStep(cards: seq<Card>, i: nat, fetch: string -> Option<DetailPage>)
    requires i < |cards|
    ensures Accepted(cards[..i + 1], fetch) == Accepted(cards[..i], fetch) + Kept(cards[i], fetch)
    ensures FetchedUrls(cards[..i + 1])
            == FetchedUrls(cards[..i]) + (if cards[i].href.Some? then [CardUrl(cards[i])] else [])
  {
    assert cards[..i + 1][..i] == cards[..i];
  }

  /** The positions of the admissible cards, in increasing order. */
  function AdmittedIndices(cards: seq<Card>): (ix: seq<nat>)
    ensures forall k :: 0 <= k < |ix| ==> ix[k] < |cards| && Admissible(cards[ix[k]])
    ensures forall k, l :: 0 <= k < l < |ix| ==> ix[k] < ix[l]
  {
    if cards == [] then []
    else
      var n := |cards| - 1;
      var front := AdmittedIndices(cards[..n]);
      assert forall k :: 0 <= k < |front| ==> cards[front[k]] == cards[..n][front[k]];
      front + (if Admissible(cards[n]) then [n] else [])
  }

  /**
   * Accepted records are exactly the admissible cards' records, in card order,
   * and every admissible card yields one.
   */
  lemma {:induction false} AcceptedInCardOrder(cards: seq<Card>, fetch: string -> Option<DetailPage>)
    ensures |Accepted(cards, fetch)| == |AdmittedIndices(cards)| <= |cards|
    ensures forall k :: 0 <= k < |Accepted(cards, fetch)| ==>
              Accepted(cards, fetch)[k] == Kept(cards[AdmittedIndices(cards)[k]], fetch)[0]
  {
    if cards != [] {
      var n := |cards| - 1;
      var front := cards[..n];
      AcceptedInCardOrder(front, fetch);
      var acc, ix := Accepted(cards, fetch), AdmittedIndices(cards);
      var acc', ix' := Accepted(front, fetch), AdmittedIndices(front);
      assert acc == acc' + Kept(cards[n], fetch);
      assert ix == ix' + (if Admissible(cards[n]) then [n] else []);
      forall k | 0 <= k < |acc|
        ensures acc[k] == Kept(cards[ix[k]], fetch)[0]
      {
        if k < |acc'| {
          assert acc[k] == acc'[k] && ix[k] == ix'[k];
          assert cards[ix'[k]] == front[ix'[k]];
        } else {
          assert Admissible(cards[n]) && ix[k] == n;
          assert acc[k] == Kept(cards[n], fetch)[0];
        }
      }
    }
  }

  /** Every admissible card is among the admitted positions. */
  lemma {:induction false} AdmissibleCardsAdmitted(cards: seq<Card>)
    ensures forall i :: 0 <= i < |cards| && Admissible(cards[i]) ==> i in AdmittedIndices(cards)
  {
    if cards != [] {
      var n := |cards| - 1;
      AdmissibleCardsAdmitted(cards[..n]);
      assert forall i :: 0 <= i < n ==> cards[..n][i] == cards[i];
    }
  }

  /** Cards contribute independently: the records of two runs of cards concatenate. */
  lemma {:induction false} AcceptedAppend(a: seq<Card>, b: seq<Card>, fetch: string -> Option<DetailPage>)
    ensures Accepted(a + b, fetch) == Accepted(a, fetch) + Accepted(b, fetch)
  {
    if b == [] {
      assert a + b == a;
    } else {
      var n := |b| - 1;
      assert (a + b)[..|a + b| - 1] == a + b[..n];
      AcceptedAppend(a, b[..n], fetch);
    }
  }

  /** Every accepted record is well formed. */
  lemma {:induction false} AcceptedWellFormed(cards: seq<Card>, fetch: string -> Option<DetailPage>)
    ensures forall r :: r in Accepted(cards, fetch) ==> WellFormed(r)
  {
    if cards != [] {
      AcceptedWellFormed(cards[..|cards| - 1], fetch);
    }
  }

  /**
   * A detail page is requested for every linked card, including those later
   * rejected as too old or incomplete, so no page yields more records than requests.
   */
  lemma {:induction false} RejectedCardsAreFetched(cards: seq<Card>, fetch: string -> Option<DetailPage>)
    ensures forall i :: 0 <= i < |cards| && cards[i].href.Some? ==> CardUrl(cards[i]) in FetchedUrls(cards)
    ensures |Accepted(cards, fetch)| <= |FetchedUrls(cards)| <= |cards|
  {
    if cards != [] {
      var n := |cards| - 1;
      RejectedCardsAreFetched(cards[..n], fetch);
      assert forall i :: 0 <= i < n ==> cards[..n][i] == cards[i];
    }
  }

  // ---------------------------------------------------------------------
  // Search pages
  // ---------------------------------------------------------------------

  /** A page that raised or answered other than 200 contributes nothing. */
  function PageRecords(response: Option<SearchPage>, fetch: string -> Option<DetailPage>): seq<JobRecord>
  {
    if response.Some? && response.value.status == SuccessStatus
    then Accepted(response.value.cards, fetch)
    else []
  }

  /** The records the search for one page yields. */
  function PageOf(
    keyword: string, formattedLocation: string,
    search: SearchParams -> Option<SearchPage>, fetch: string -> Option<DetailPage>): nat -> seq<JobRecord>
  {
    (page: nat) => PageRecords(search(PageParams(keyword, formattedLocation, page)), fetch)
  }

  /** The contributions of pages 0 .. n-1, in page order. */
  function Pages<T>(pageOf: nat -> seq<T>, n: nat): seq<T>
  {
    if n == 0 then [] else Pages(pageOf, n - 1) + pageOf(n - 1)
  }

  /** The records of pages 0 .. pages-1, in page order. */
  function Harvest(
    keyword: string, formattedLocation: string, pages: nat,
    search: SearchParams -> Option<SearchPage>, fetch: string -> Option<DetailPage>): seq<JobRecord>
  {
    Pages(PageOf(keyword, formattedLocation, search, fetch), pages)
  }

  /** The cards a search response offers: none unless it succeeded. */
  function CardsOn(response: Option<SearchPage>): nat
  {
    if response.Some? && response.value.status == SuccessStatus then |response.value.cards| else 0
  }

  /** The sum of `count(i)` for i in 0 .. n-1. */
  function Total(count: nat -> nat, n: nat): nat
  {
    if n == 0 then 0 else Total(count, n - 1) + count(n - 1)
  }

  /** The number of cards offered by the successful pages among pages 0 .. pages-1. */
  function CardsOffered(
    keyword: string, formattedLocation: string, pages: nat,
    search: SearchParams -> Option<SearchPage>): nat
  {
    Total((page: nat) => CardsOn(search(PageParams(keyword, formattedLocation, page))), pages)
  }

  /** A longer search extends a shorter one: earlier pages' records come first, unchanged. */
  lemma HarvestExtends(
    keyword: string, formattedLocation: string, m: nat, n: nat,
    search: SearchParams -> Option<SearchPage>, fetch: string -> Option<DetailPage>)
    requires m <= n
    ensures Harvest(keyword, formattedLocation, m, search, fetch) <= Harvest(keyword, formattedLocation, n, search, fetch)
  {
    PagesExtend(PageOf(keyword, formattedLocation, search, fetch), m, n);
  }

  lemma {:induction false} PagesExtend<T>(pageOf: nat -> seq<T>, m: nat, n: nat)
    requires m <= n
    ensures Pages(pageOf, m) <= Pages(pageOf, n)
    decreases n
  {
    if m < n {
      PagesExtend(pageOf, m, n - 1);
      var shorter := Pages(pageOf, m);
      assert Pages(pageOf, n) == Pages(pageOf, n - 1) + pageOf(n - 1);
      assert Pages(pageOf, n)[..|shorter|] == Pages(pageOf, n - 1)[..|shorter|];
    }
  }

  /** Each successful page adds at most its number of cards, and every record is well formed. */
  lemma HarvestBounded(
    keyword: string, formattedLocation: string, n: nat,
    search: SearchParams -> Option<SearchPage>, fetch: string -> Option<DetailPage>)
    ensures |Harvest(keyword, formattedLocation, n, search, fetch)| <= CardsOffered(keyword, formattedLocation, n, search)
    ensures forall r :: r in Harvest(keyword, formattedLocation, n, search, fetch) ==> WellFormed(r)
  {
    var pageOf := PageOf(keyword, formattedLocation, search, fetch);
    var count := (page: nat) => CardsOn(search(PageParams(keyword, formattedLocation, page)));
    forall i: nat | i < n
      ensures |pageOf(i)| <= count(i) && forall r :: r in pageOf(i) ==> WellFormed(r)
    {
      PageBounded(search(PageParams(keyword, formattedLocation, i)), fetch);
    }
    PagesBounded(pageOf, count, n);
    PagesAll(pageOf, n, WellFormed);
  }

  /** A page yields at most one record per card offered, each well formed. */
  lemma PageBounded(response: Option<SearchPage>, fetch: string -> Option<DetailPage>)
    ensures |PageRecords(response, fetch)| <= CardsOn(response)
    ensures forall r :: r in PageRecords(response, fetch) ==> WellFormed(r)
  {
    if response.Some? && response.value.status == SuccessStatus {
      AcceptedInCardOrder(response.value.cards, fetch);
      AcceptedWellFormed(response.value.cards, fetch);
    }
  }

  lemma {:induction false} PagesBounded<T>(pageOf: nat -> seq<T>, count: nat -> nat, n: nat)
    requires forall i: nat :: i < n ==> |pageOf(i)| <= count(i)
    ensures |Pages(pageOf, n)| <= Total(count, n)
  {
    if n > 0 {
      PagesBounded(pageOf, count, n - 1);
    }
  }

  lemma {:induction false} PagesAll<T>(pageOf: nat -> seq<T>, n: nat, p: T -> bool)
    requires forall i: nat, x :: i < n && x in pageOf(i) ==> p(x)
    ensures forall x :: x in Pages(pageOf, n) ==> p(x)
  {
    if n > 0 {
      PagesAll(pageOf, n - 1, p);
    }
  }
}
