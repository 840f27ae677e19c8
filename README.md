# LinkedIn job analyzer: a Dafny model

This project models the `LinkedInJobAnalyzer` class of `job_analyzer.py`, a scraper
that searches a job site for postings in Portugal and summarises them:

- `search_jobs` normalises the location and requests result pages at offsets `0, 25, 50, …`.
  It feeds every page answered with status 200 to `_parse_jobs_page`.
- `_parse_jobs_page` walks the job cards of a page in order. It requests the description of
  every card that has a link. It appends a record to the object's `jobs_data` list when the
  card has a `<time>` stamp at most 24 hours old and title, company and location nodes.
- `_get_job_description` collects the texts of every element matched by three description
  selectors, joins them and runs a fixed chain of regular-expression cleanups.
- `analyze_data` and `_extract_skills` count postings per company, location, skill and day.

The network and HTML layers are replaced by plain values:
- A search request is answered by an oracle `search: SearchParams -> Option<SearchPage>`.
- A description request is answered by an oracle `fetch: string -> Option<DetailPage>`.
- `None` stands for a request that raised.
- A card is a `Card` datatype holding the extracted link, time stamp and node texts, each optional.
- A detail page maps each CSS selector to the texts of the elements it selects.

Modules, one per component:
- `Text` (`text.dfy`): the cleanup chain, one recursive function per `re.sub`, plus `str.strip` and the case-insensitive substring test.
- `Search` (`search.dfy`): location formatting, page parameters, and cutting the URL at `?`.
- `Postings` (`postings.dfy`): cards, pages, records, and the specification functions.
  These say which cards are kept (`Admissible`, `Accepted`), what a description request
  yields (`Describe`), and what a whole search accumulates (`Harvest`).
- `Aggregate` (`aggregate.dfy`): `value_counts` with its top-10 head, skill mentions, per-day counts.
- `Analyzer` (`analyzer.dfy`): the class `LinkedInJobAnalyzer`.
  Its field `jobsData` is a `seq` that the methods only extend.
  Its loops are proved against the functions above.

Behaviour of the code worth noting:
- Description selectors are not first-match-wins. Every selector is tried, and the texts of all matches are concatenated.
- The description of a linked card is requested before its time stamp is checked. Cards rejected as too old still cause a request.
- Every `+` is deleted from a description, not only one next to a "show more" phrase.
- The job list is an instance field. It is never reset, so a second `search_jobs` call on one object appends after the first call's records.
- Deleting "show more" phrases is a single pass. It can create a new phrase (`ShowShow moremore` becomes `Showmore`), and deleting a phrase between two spaces leaves a double space. The model therefore claims neither phrase-free nor double-space-free output.
- The marker "No description available" comes back when no selector matched. It also comes back when the matched text cleans to exactly that string, so only the `None` outcome is told apart exactly.
- `search_jobs` ends by building a table from the job list. On an empty list that step raises, because the frame has no `posted_date` column. `SearchJobs` returns `None` in that case.

## Model

| member | source | states |
|---|---|---|
| `Search.FormatLocation` | job_analyzer.py:27 | The result contains "Portugal". It is the input when the input already contains "Portugal", and otherwise the input followed by ", Portugal". |
| `Search.FormatLocationIdempotent` | job_analyzer.py:27 | Formatting a formatted location changes nothing. |
| `Search.BeforeQuery` | job_analyzer.py:67-68 | The URL is cut at its first `?`. The result has no `?` and is a prefix of the URL, and the next URL character is `?` when anything was cut. A `?`-free URL is unchanged. |
| `Search.BeforeQueryIdempotent` | job_analyzer.py:67-68 | Cutting twice equals cutting once. |
| `Search.BeforeQueryUnique` | job_analyzer.py:67-68 | Any `?`-free prefix followed by `?` or by the end of the URL is the cut URL, so `BeforeQuery`'s contract determines `split('?')[0]`. |
| `Text.Contains` | job_analyzer.py:27 | Python's `in` on strings: true iff the text has a position at which the pattern starts. |
| `Text.CollapseSpaces` | job_analyzer.py:134 | After `\s+` → space, the only whitespace is plain spaces, with no two adjacent. The non-whitespace characters are unchanged. The first character is a space iff the input starts with whitespace. |
| `Text.CollapseSpacesLast` | job_analyzer.py:134 | The last character is a space iff the input ends with whitespace, and otherwise it is the input's last character. A trailing whitespace run becomes one space. |
| `Text.CollapseSpacesWords` | job_analyzer.py:134 | Collapsing keeps every word: the maximal runs of non-whitespace characters are the same, in the same order. |
| `Text.CollapseSpacesFixpoint` | job_analyzer.py:134 | The substitution leaves a text unchanged iff its whitespace is plain single spaces. |
| `Text.CollapseSpacesIdempotent` | job_analyzer.py:134 | Collapsing twice equals collapsing once. |
| `Text.DeleteUiPhrases` | job_analyzer.py:135 | Deleting "show more", "see more" and "show less" (case-insensitive, `\s*` inside) yields a subsequence of the text, so it never adds or reorders characters. |
| `Text.DeleteUiPhrasesFirst` | job_analyzer.py:135 | The pass is a single left-to-right scan. It keeps the text in front of the first phrase, drops that phrase and resumes right after it. |
| `Text.DeleteUiPhrasesKeep` | job_analyzer.py:135 | A prefix in which no phrase starts is copied unchanged. |
| `Text.DeleteUiPhrasesFixpoint` | job_analyzer.py:135 | The deletion pass changes a text iff some position of it starts a phrase. |
| `Text.DotsMatch` | job_analyzer.py:136 | A match of `(\s*\.){k}\s*` has exactly k dots among its non-whitespace characters. It takes all the whitespace after the last dot, and it is non-empty when k > 0. |
| `Text.DotsMatchExact` | job_analyzer.py:136 | There is a match iff the first k non-whitespace characters of the text are dots. |
| `Text.DotsMatchUnique` | job_analyzer.py:136 | The match length is the only prefix length with k dots as its non-whitespace characters that ends at a non-whitespace character or at the end. |
| `Text.NormalizeEllipses` | job_analyzer.py:136 | Rewriting each spaced ellipsis to "... " changes only whitespace: the non-whitespace characters are unchanged. It introduces no character other than `.` and space. |
| `Text.EllipsisAtStart` | job_analyzer.py:136 | A text whose first three non-whitespace characters are dots comes out starting with "... ". |
| `Text.NoEllipsisUnchanged` | job_analyzer.py:136 | A text without three consecutive dots among its non-whitespace characters is left unchanged. |
| `Text.NormalizeEllipsesFirst` | job_analyzer.py:136 | The rewrite is a single left-to-right scan. It keeps the text in front of the first match, replaces that match by "... " and resumes right after it. |
| `Text.NormalizeEllipsesKeep` | job_analyzer.py:136 | A prefix in which no match starts is copied unchanged. |
| `Text.DeleteArtifacts` | job_analyzer.py:139 | After the artifact substitution no `+` remains. The result is a subsequence of the text, never longer. |
| `Text.DeleteArtifactsFixpoint` | job_analyzer.py:139 | The substitution changes a text iff some position of it starts a `+` or a spaced "Show more Show less". |
| `Text.DeleteArtifactsFirst` | job_analyzer.py:139 | The substitution is a single left-to-right scan. It keeps the text in front of the first artifact, drops that artifact and resumes right after it. |
| `Text.DeleteArtifactsKeep` | job_analyzer.py:139 | A prefix in which no artifact starts is copied unchanged. |
| `Text.Strip` | job_analyzer.py:141 | `strip()` gives a slice `s[a..b]` of the text with only whitespace before `a` and after `b`, and with no leading or trailing whitespace itself. An already trimmed text is unchanged. |
| `Text.StripUnique` | job_analyzer.py:141 | Only one trimmed text is such a slice, so the contract of `Strip` determines its result. |
| `Text.StripKeepsNonSpace` | job_analyzer.py:141 | Stripping removes whitespace only. |
| `Text.CleanDescription` | job_analyzer.py:131-141 | The cleaned description has no leading or trailing whitespace and no `+`, and its only whitespace is the plain space. |
| `Text.ContainsFolded` | job_analyzer.py:179 | The case-insensitive search is true iff some position starts a match of the lower-case pattern under Python's case folding. |
| `Postings.AllSelectorsContribute` | job_analyzer.py:109-127 | The collected texts are those of all three selectors, in selector order. A hit on an earlier selector does not stop the later ones. |
| `Postings.Describe` | job_analyzer.py:103-147 | Whenever a description string is returned, it has the cleaned shape. |
| `Postings.DescribeOutcomes` | job_analyzer.py:103-147 | The result is `None` iff the request raised or the status is not 200. With status 200 and no match, the result is the marker. When the marker is returned, nothing matched or the matched text cleaned to the marker. |
| `Postings.MakeRecord` | job_analyzer.py:80-88 | A kept card's record is well formed. Title, company and location are each their node's text with the outer whitespace cut off, which with `StripUnique` is `strip()`. The posted date is the raw `datetime` value, the URL is the card link cut at `?`, and the age is the stamp's age. |
| `Postings.CardStep` | job_analyzer.py:61-97 | Handling one more card appends exactly that card's record, if any, and that card's request, if any. |
| `Postings.AdmittedIndices` | job_analyzer.py:61-97 | The positions of the kept cards are strictly increasing and name admissible cards. |
| `Postings.AcceptedInCardOrder` | job_analyzer.py:61-97 | A page yields one record per admissible card, at most one per card. The k-th record is built from the k-th admissible card, so records keep card order. |
| `Postings.AdmissibleCardsAdmitted` | job_analyzer.py:61-97 | Every admissible card is among the kept positions. Together with `AdmittedIndices`, a card is appended iff it has a link, a non-empty parseable stamp at most 86400 s old, and all three nodes. |
| `Postings.AcceptedAppend` | job_analyzer.py:61-97 | Cards are processed independently: the records of two card runs concatenate. |
| `Postings.AcceptedWellFormed` | job_analyzer.py:72-89 | Every appended record is at most 24 h old. Its URL has no `?`, its text fields are trimmed, and its description, when present, is clean. |
| `Postings.RejectedCardsAreFetched` | job_analyzer.py:63-79 | Every linked card's URL is requested, including cards later rejected. A page therefore yields no more records than requests, and no more requests than cards. |
| `Postings.HarvestExtends` | job_analyzer.py:29-49 | Pages are processed in order. The records of the first m pages are a prefix of those of the first n ≥ m pages. |
| `Postings.PageBounded` | job_analyzer.py:39-44 | A result page adds at most one record per card it offers, and none when the request failed. Every record it adds is well formed. |
| `Postings.HarvestBounded` | job_analyzer.py:29-49 | A search yields at most as many records as its successful pages offer cards, since a failed page adds none. Every record is well formed. |
| `Aggregate.CountOf` | job_analyzer.py:163-164 | An occurrence count is at most the length, and positive iff the value occurs. |
| `Aggregate.Distinct` | job_analyzer.py:163-164 | The distinct values are exactly the values of the column, each once. |
| `Aggregate.InsertByCount` | job_analyzer.py:182 | Inserting adds exactly that entry: the result is the old table plus the entry, as a multiset. |
| `Aggregate.InsertByCountOrdered` | job_analyzer.py:182 | Inserting into a table whose counts never increase keeps that order. |
| `Aggregate.InsertByCountKeys` | job_analyzer.py:182 | Inserting an entry whose key is new keeps the keys distinct. |
| `Aggregate.SortByCount` | job_analyzer.py:182 | Sorting by count (descending) yields a permutation of the table whose counts never increase. |
| `Aggregate.SortByCountKeys` | job_analyzer.py:182 | Sorting keeps the keys distinct. |
| `Aggregate.ValueCountsEntries` | job_analyzer.py:163-164 | `value_counts()` has one entry per distinct value, with distinct keys and non-increasing counts. Each entry holds a value of the column and its true count. |
| `Aggregate.ValueCountsIndex` | job_analyzer.py:163-164 | Every value of the column has an entry in `value_counts()`. |
| `Aggregate.TopCountsSpec` | job_analyzer.py:163-164 | `value_counts().head(10)` has at most 10 entries, one per value, each with its true count (≥ 1), counts non-increasing. A value left out occurs no more often than any shown, and one is left out only when the table is full. |
| `Aggregate.SkillMentions` | job_analyzer.py:178-180 | A skill count is the number of rows whose present description contains the skill case-insensitively. It lies between 0 and the row count. |
| `Aggregate.SkillTally` | job_analyzer.py:177-180 | The skill dictionary has distinct keys, and every vocabulary skill is a key. Each entry holds that skill's mention count, which is at most the number of rows. |
| `Aggregate.PostingTrends` | job_analyzer.py:166 | The per-day table lists each day with postings exactly once, days strictly ascending, each with its number of postings (≥ 1). |
| `Aggregate.PostingTrendsTotal` | job_analyzer.py:166 | The per-day counts add up to the number of postings. |
| `Analyzer.LinkedInJobAnalyzer.constructor` | job_analyzer.py:11-20 | A new analyzer has an empty job list and the search base URL. |
| `Analyzer.LinkedInJobAnalyzer.SearchJobs` | job_analyzer.py:22-51 | `location` defaults to "Portugal" and `numPages` to 10. Issues exactly `max(numPages, 0)` requests. Request i carries the keyword, the formatted location, `start = 25 i`, the Portugal geo id and country code `pt`. Appends the harvest of those pages after the records already present, keeping every record well formed. Returns the whole job list, or `None` when it is empty. |
| `Analyzer.LinkedInJobAnalyzer.ParseJobsPage` | job_analyzer.py:53-97 | The card loop's nested checks append exactly `Accepted(cards)` after the existing records. It requests exactly one description per linked card, in card order. |
| `Analyzer.LinkedInJobAnalyzer.ParseCard` | job_analyzer.py:62-97 | One card appends exactly its `Kept` record after the existing records, keeping every record well formed. It requests the card URL cut at `?` exactly when the card has a link. |
| `Analyzer.LinkedInJobAnalyzer.GetJobDescription` | job_analyzer.py:99-147 | The selector loops build the description that `Describe` specifies, so a returned string is clean. |
| `Analyzer.LinkedInJobAnalyzer.ExtractSkills` | job_analyzer.py:170-182 | The result is a permutation of the per-skill counts with non-increasing counts and distinct skills. No count exceeds the number of rows. |
| `Analyzer.LinkedInJobAnalyzer.AnalyzeData` | job_analyzer.py:157-168 | The total is the row count. The company and location tables are top-10 tables of their columns. The skill table is a sorted permutation of the skill counts. The trend table is the per-day count. |

## Left out

- HTTP requests and the fixed header dictionary (job_analyzer.py:12-18, 39, 104): replaced by the `search` and `fetch` oracles. Each oracle is a function, so within one call a URL requested twice gets the same answer.
- BeautifulSoup parsing, `find`, `select`, button `decompose` and `get_text`: a card holds its extracted texts, and a detail page maps a selector to the texts of the elements it matches, after button removal.
- ISO 8601 parsing of the `datetime` attribute, including the `Z` rewrite, and the wall clock: each `<time>` tag carries its age in whole seconds, or `None` when it does not parse. Fractions of a second are not modelled, so an age of 86400.5 s cannot be expressed.
- `hours_ago` and its float rounding: a record keeps the age in seconds it is computed from.
- `time.sleep` throttling and every `print` diagnostic.
- The pandas table: `_create_dataframe` is modelled only as failing on an empty job list. `to_datetime` is replaced by a caller-supplied `dayOf` that gives a posted date's calendar day as a number.
- Tie order in `value_counts` and `sort_values`: the model sorts stably, and only order-independent properties are proved.
- `create_visualizations` (job_analyzer.py:184-221) and all of main.py: chart building and file output.
- Exceptions raised while a result page is parsed, before its card loop starts, are modelled as that page's request returning `None`.
