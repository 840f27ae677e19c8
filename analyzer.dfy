/**
 * The `LinkedInJobAnalyzer` class of job_analyzer.py: an object whose job
 * list only ever grows, the page loop and card loop that grow it, the
 * description request, and the analysis of a finished table.
 */
module Analyzer {
  import opened Wrappers
  import opened Text
  import opened Search
  import opened Postings
  import opened Aggregate

  /** The summary `analyze_data` returns. */
  datatype Analyses = Analyses(
    totalJobs: nat,
    topCompanies: seq<(string, nat)>,
    locationsDistribution: seq<(string, nat)>,
    commonSkills: seq<(string, nat)>,
    postingTrends: seq<(int, nat)>)

  /** How many entries the company and location tables keep. */
  const TopN := 10

  /** The company column. */
  function Companies(rows: seq<JobRecord>): seq<string>
  {
    seq(|rows|, i requires 0 <= i < |rows| => rows[i].company)
  }

  /** The location column. */
  function Locations(rows: seq<JobRecord>): seq<string>
  {
    seq(|rows|, i requires 0 <= i < |rows| => rows[i].location)
  }

  /** The description column, `None` where a record has none. */
  function Descriptions(rows: seq<JobRecord>): seq<Option<string>>
  {
    seq(|rows|, i requires 0 <= i < |rows| => rows[i].description)
  }

  /** The calendar day of each row, as `dayOf` reads it from the posted date. */
  function Days(rows: seq<JobRecord>, dayOf: string -> int): seq<int>
  {
    seq(|rows|, i requires 0 <= i < |rows| => dayOf(rows[i].postedDate))
  }

  /** One more page appends that page's records to the job list. */
  lemma NextPage(
    keyword: string, formattedLocation: string, page: nat,
    search: SearchParams -> Option<SearchPage>, fetch: string -> Option<DetailPage>,
    initial: seq<JobRecord>, before: seq<JobRecord>, after: seq<JobRecord>)
    requires before == initial + Harvest(keyword, formattedLocation, page, search, fetch)
    requires after == before + PageRecords(search(PageParams(keyword, formattedLocation, page)), fetch)
    ensures after == initial + Harvest(keyword, formattedLocation, page + 1, search, fetch)
  {
  }

  class LinkedInJobAnalyzer {
    const baseUrl: string
    /** Every record accepted so far, by every search on this object, in acceptance order. */
    var jobsData: seq<JobRecord>

    ghost predicate Valid()
      reads this
    {
      forall r :: r in jobsData ==> WellFormed(r)
    }

    constructor ()
      ensures Valid() && jobsData == [] && baseUrl == BaseUrl
    {
      baseUrl := BaseUrl;
      jobsData := [];
    }

    /**
     * Requests pages 0 .. numPages-1 and appends what each accepts. Records
     * from earlier calls stay in front, unchanged. Returns the whole job list,
     * or None where building the table raises because the list is empty, and
     * the requests made.
     */
    method SearchJobs(
      search: SearchParams -> Option<SearchPage>, fetch: string -> Option<DetailPage>,
      keyword: string, location: string := Country, numPages: int := 10)
      returns (table: Option<seq<JobRecord>>, issued: seq<SearchParams>)
      requires Valid()
      modifies this
      ensures Valid()
      ensures var pages := if numPages < 0 then 0 else numPages;
        && jobsData == old(jobsData) + Harvest(keyword, FormatLocation(location), pages, search, fetch)
        && |issued| == pages
        && (forall i :: 0 <= i < pages ==> issued[i] == PageParams(keyword, FormatLocation(location), i))
        && forall i :: 0 <= i < pages ==>
             && issued[i].keywords == keyword && issued[i].location == FormatLocation(location)
             && issued[i].start == i * PageSize
             && issued[i].geoId == GeoId && issued[i].countryCode == CountryCode
      ensures table == if jobsData == [] then None else Some(jobsData)
    {
      var formattedLocation := FormatLocation(location);
      var pages := if numPages < 0 then 0 else numPages;  // range() of a negative count is empty
      issued := [];
      for page := 0 to pages
        invariant Valid()
        invariant jobsData == old(jobsData) + Harvest(keyword, formattedLocation, page, search, fetch)
        invariant |issued| == page
        invariant forall i :: 0 <= i < page ==> issued[i] == PageParams(keyword, formattedLocation, i)
      {
        var params := PageParams(keyword, formattedLocation, page);
        issued := issued + [params];
        var response := search(params);
        ghost var before := jobsData;
        if response.Some? && response.value.status == SuccessStatus {
          var _ := ParseJobsPage(response.value.cards, fetch);
        }
        NextPage(keyword, formattedLocation, page, search, fetch, old(jobsData), before, jobsData);
      }
      table := if jobsData == [] then None else Some(jobsData);
    }

    /**
     * Walks the cards of one page in order: requests the description of
     * every linked card, then appends the card's record when it is admissible.
     * Returns the detail URLs requested.
     */
    method ParseJobsPage(cards: seq<Card>, fetch: string -> Option<DetailPage>) returns (fetched: seq<string>)
      requires Valid()
      modifies this
      ensures Valid()
      ensures jobsData == old(jobsData) + Accepted(cards, fetch)
      ensures fetched == FetchedUrls(cards)
    {
      fetched := [];
      for i := 0 to |cards|
        invariant Valid()
        invariant jobsData == old(jobsData) + Accepted(cards[..i], fetch)
        invariant fetched == FetchedUrls(cards[..i])
      {
        ghost var before := jobsData;
        var requested := ParseCard(cards[i], fetch);
        if requested.Some? {
          fetched := fetched + [requested.value];
        }
        CardStep(cards, i, fetch);
        assert before + Kept(cards[i], fetch)
          == old(jobsData) + (Accepted(cards[..i], fetch) + Kept(cards[i], fetch));
      }
      assert cards[..|cards|] == cards;
    }

    /**
     * The body of the card loop: a linked card's description is requested
     * (its URL cut at the first `?`), and the card is appended as a record
     * when it is admissible. Returns the URL requested, if any.
     */
    method ParseCard(job: Card, fetch: string -> Option<DetailPage>) returns (requested: Option<string>)
      requires Valid()
      modifies this
      ensures Valid()
      ensures jobsData == old(jobsData) + Kept(job, fetch)
      ensures requested == (if job.href.Some? then Some(CardUrl(job)) else None)
    {
      requested := None;
      if job.href.Some? {
        var jobUrl := job.href.value;
        if '?' in jobUrl {
          jobUrl := BeforeQuery(jobUrl);
        }
        var description := GetJobDescription(jobUrl, fetch);
        requested := Some(jobUrl);
        // A missing `datetime` attribute or an unparseable stamp raises, and the card is skipped.
        if job.time.Some? && job.time.value.datetime.Some? {
          var postedDate := job.time.value.datetime.value;
          if postedDate != [] && job.time.value.age.Some? {
            var seconds := job.time.value.age.value;
            if seconds <= RecencyWindow {
              // A missing title, company or location node raises, and the card is skipped.
              if job.title.Some? && job.company.Some? && job.location.Some? {
                var record := JobRecord(
                  Strip(job.title.value), Strip(job.company.value), Strip(job.location.value),
                  postedDate, jobUrl, description, seconds);
                assert record == MakeRecord(job, Describe(fetch(CardUrl(job))));
                jobsData := jobsData + [record];
              }
            }
          }
        }
      }
    }

    /**
     * Requests a posting page and assembles its description from the elements
     * of every description selector, in selector order.
     */
    method GetJobDescription(jobUrl: string, fetch: string -> Option<DetailPage>) returns (description: Option<string>)
      ensures description == Describe(fetch(jobUrl))
      ensures description.Some? ==> CleanText(description.value)
    {
      var response := fetch(jobUrl);
      if response.None? {
        return None;
      }
      var page := response.value;
      if page.status != SuccessStatus {
        return None;
      }
      var descriptionText: seq<string> := [];
      for k := 0 to |DescriptionSelectors|
        invariant descriptionText == Gathered(DescriptionSelectors[..k], page.select)
      {
        var selector := DescriptionSelectors[k];
        assert DescriptionSelectors[..k + 1][..k] == DescriptionSelectors[..k];
        var elements := page.select(selector);
        if elements != [] {
          for j := 0 to |elements|
            invariant descriptionText == Gathered(DescriptionSelectors[..k], page.select) + elements[..j]
          {
            descriptionText := descriptionText + [elements[j]];
          }
          assert elements[..|elements|] == elements;
        }
      }
      assert DescriptionSelectors[..|DescriptionSelectors|] == DescriptionSelectors;
      if descriptionText != [] {
        return Some(CleanDescription(Join(descriptionText, "\n")));
      }
      return Some(NoDescription);
    }

    /** Counts, for each skill of the vocabulary, the rows that mention it, largest count first. */
    method ExtractSkills(rows: seq<JobRecord>) returns (skills: seq<(string, nat)>)
      ensures multiset(skills) == multiset(SkillTally(Descriptions(rows)))
      ensures NonIncreasing(skills) && DistinctKeys(skills)
      ensures forall i :: 0 <= i < |skills| ==> skills[i].1 <= |rows|
    {
      var descriptions := Descriptions(rows);
      var skillCounts: seq<(string, nat)> := [];
      for k := 0 to |CommonSkills|
        invariant skillCounts == SkillTally(descriptions)[..k]
      {
        skillCounts := skillCounts + [(CommonSkills[k], SkillMentions(descriptions, CommonSkills[k]))];
      }
      assert skillCounts == SkillTally(descriptions);
      SortByCountKeys(skillCounts);
      skills := SortByCount(skillCounts);
      SameMembers(skills, skillCounts);
      forall i | 0 <= i < |skills| ensures skills[i].1 <= |rows| {
        assert skills[i] in skillCounts;
      }
    }

    /** The analyses of a finished table. */
    method AnalyzeData(rows: seq<JobRecord>, dayOf: string -> int) returns (analyses: Analyses)
      ensures analyses.totalJobs == |rows|
      ensures TopTable(analyses.topCompanies, Companies(rows), TopN)
      ensures TopTable(analyses.locationsDistribution, Locations(rows), TopN)
      ensures multiset(analyses.commonSkills) == multiset(SkillTally(Descriptions(rows)))
      ensures NonIncreasing(analyses.commonSkills)
      ensures analyses.postingTrends == PostingTrends(Days(rows, dayOf))
    {
      var topCompanies := TopCounts(Companies(rows), TopN);
      TopCountsSpec(Companies(rows), TopN);
      var locations := TopCounts(Locations(rows), TopN);
      TopCountsSpec(Locations(rows), TopN);
      var skills := ExtractSkills(rows);
      analyses := Analyses(|rows|, topCompanies, locations, skills, PostingTrends(Days(rows, dayOf)));
    }
  }
}
