# News-to-script scraper: a Dafny model of its decision logic

The program scrapes the "popular" articles from the Bloomberg Technoz
homepage. It pulls the body text of each article, has a language model
turn them into a short spoken news script, and posts the script to a
Telegram chat. This project models the part of `scriptPopular/main.py`
that makes decisions:

- **URL normalisation** (`Urls`): a relative `href` is joined onto
  `https://www.bloombergtechnoz.com`. An `href` that starts with "http"
  passes through unchanged.
- **Article discovery** (`Discovery`): the popular-list container is found
  by a first-match cascade. At most five candidates are inspected. Each
  candidate's title goes through a three-step cascade and its link through
  a two-step cascade. Candidates that resolve are kept in page order.
- **Content extraction** (`Content`): the content region is found by a
  first-match cascade. Paragraphs longer than 20 characters are kept and
  joined with single spaces.
- **Batch orchestration** (`Batch`): there is one record per article, with
  empty content when the fetch failed. The batch pauses between fetches
  but not after the last one. It then chooses which records go to the
  summariser.
- **Prompt assembly** (`Prompt`): the numbered article blocks, with content
  cut to 2000 characters, are wrapped in the request template.
- **The run up to the summariser** (`Pipeline`): steps 1 to 3 of `main`.

The parsed page is abstract (`Markup`). An element is a `Tag` carrying its
name, its classes, its stripped text, its optional `href` and its
descendants in document order. The library's `find` is "first descendant
that matches" and `find_all` is "every descendant that matches". Both are
defined once, together with the shared first-match cascade (`FirstMatch`,
run by `LocateFirst`) that discovery and extraction both use. A page fetch
is a `Response`: the body text, `""` on any failure, together with its
parse. The article fetches of one run are a map from address to response,
and an address missing from the map is a failed fetch.

Where the code and its own comments, docstrings and prompt text say
different things, the model follows the code:

- The comment "Skip very short paragraphs" (main.py:197) is the test
  `len > 20`, so a paragraph of exactly 20 characters is dropped too.
- The comment "Make URL absolute if it's relative" (main.py:138) is a
  plain prefix test, not a scheme test. A relative `href` that happens to
  start with "http" (`https-guide`) is left unchanged.
- The docstrings promise 5 popular articles (main.py:3, main.py:76), and
  the request text always says "5 trending articles" (main.py:293). Yet
  discovery returns only the candidates that resolve, which may be fewer.
- `generate_script` builds a system instruction (main.py:250) that is
  never sent. The request holds only the user prompt.

## Model

| member | source | states |
|---|---|---|
| `Markup.Find` | scriptPopular/main.py:115-119 | `find` returns an element that lies inside the searched element and matches the query, and no element before it in document order matches. It returns nothing exactly when no descendant matches. |
| `Markup.FindIsFirst` | scriptPopular/main.py:115-119 | `find` returns an element exactly when that element is the first match in document order. |
| `Markup.FindAll` | scriptPopular/main.py:107-109 | `find_all`/`select` return exactly the matching descendants and never more elements than were searched. |
| `Markup.FindAllAppend` | scriptPopular/main.py:107-109 | `find_all` over two stretches of a page is the matches of the first followed by those of the second, so the result keeps document order and multiplicity. |
| `Markup.FindAllKeepsMatches` | scriptPopular/main.py:107-109 | When every element matches, `find_all` returns the elements themselves, in place. |
| `Markup.FirstMatchWins` | scriptPopular/main.py:89-102 | In a cascade, the first locator that finds something decides the result. No later selector is consulted, so a found primary marker beats every fallback. |
| `Markup.FirstMatchNone` | scriptPopular/main.py:104-109 | The cascade comes up empty exactly when every locator in it does. Only then is the last-resort branch taken. |
| `Markup.FirstMatchSource` | scriptPopular/main.py:99-102 | The cascade's result is what some locator returned, and every locator before that one returned nothing. |
| `Markup.LocateFirst` | scriptPopular/main.py:89-102 | The source's cascade loop: primary marker first, then the selectors in order, stopping at the first hit. It returns exactly the first match of the ordered locator list. |
| `Urls.NormalizeUrl` | scriptPopular/main.py:138-144 | Every normalised address starts with "http". |
| `Urls.RootRelative` | scriptPopular/main.py:139-140 | `/path` becomes exactly the base URL followed by `/path`. |
| `Urls.DotRelative` | scriptPopular/main.py:141-142 | `./path` loses its dot and becomes the base URL followed by `/path`. |
| `Urls.BareRelative` | scriptPopular/main.py:143-144 | A path that starts with none of `/`, `./` or `http` is joined to the base URL with one slash. |
| `Urls.RelativeSpellingsAgree` | scriptPopular/main.py:139-144 | `/p`, `./p` and `p` all resolve to the same address. |
| `Urls.HttpPrefixPassesThrough` | scriptPopular/main.py:143-144 | Any `href` starting with "http" is returned unchanged. This is a prefix test, not a scheme test. |
| `Urls.NormalizeIdempotent` | scriptPopular/main.py:138-144 | Normalising an already normalised address changes nothing. |
| `Discovery.TitleTag` | scriptPopular/main.py:115-119 | The title tag lies inside the candidate. The first `h5.title` is chosen whenever one exists, even after an earlier heading. Otherwise the first h2–h6 heading is chosen, and otherwise the first anchor. There is none exactly when the candidate holds no heading and no anchor. |
| `Discovery.LinkTag` | scriptPopular/main.py:129-131 | The link is the first anchor with an `href` whenever one exists. Only when none exists does it fall back to the title tag, and then only if that is an anchor. |
| `Discovery.ResolveAsWritten` | scriptPopular/main.py:115-146 | The source's per-candidate outcome: keep, skip, or raise on `link_tag["href"]`. A kept reference has a non-empty title and a URL starting with "http". Which title and URL it carries is stated by `Discovery.ResolveValue`. |
| `Discovery.AsWrittenRaisesOnBareAnchor` | scriptPopular/main.py:129-136 | The source raises exactly when the headline comes from an anchor and no anchor in the candidate has an `href`. The title-anchor link fallback can never produce a usable link. |
| `Discovery.BareAnchorCardRaises` | scriptPopular/main.py:129-136 | A card holding only `<a>Headline</a>` raises in the source and is skipped by the corrected resolution. |
| `Discovery.Resolve` | scriptPopular/main.py:115-146 | Corrected per-candidate resolution. A kept reference has a non-empty title and a URL starting with "http". |
| `Discovery.ResolveValue` | scriptPopular/main.py:115-146 | A candidate the source keeps is kept unchanged by the corrected resolution. It carries the title tag's text as its headline, and its URL is the normalised `href` of the first anchor that has one. |
| `Discovery.ResolveKeeps` | scriptPopular/main.py:115-134 | A candidate is kept if and only if its cascaded title text is non-empty and some anchor in it has an `href`. |
| `Discovery.ResolveMatchesAsWritten` | scriptPopular/main.py:129-136 | The corrected resolution agrees with the source on every candidate the source keeps or skips. The two differ only where the source raises. |
| `Discovery.CandidateElements` | scriptPopular/main.py:104-109 | When the container cascade finds a list, the candidates are its first min(n, ARTICLE_COUNT) `li` items, in order. Otherwise they are the first min(n, ARTICLE_COUNT) `article` elements of the page. |
| `Discovery.Discovered` | scriptPopular/main.py:113-149 | Discovery yields no more references than candidates. Every reference has a non-empty title and a URL starting with "http". |
| `Discovery.DiscoveredAppend` | scriptPopular/main.py:113-146 | Discovery distributes over concatenation of candidate lists, so references keep the relative order of their elements. |
| `Discovery.DiscoveredMembers` | scriptPopular/main.py:113-146 | A reference is discovered if and only if some inspected candidate resolves to it. |
| `Discovery.DiscoveredAllResolve` | scriptPopular/main.py:113-149 | When every candidate resolves, there is exactly one reference per candidate, position by position. |
| `Discovery.SkipShortensDiscovery` | scriptPopular/main.py:107-134 | A skipped candidate is not replaced by a later element, so any skip leaves fewer references than candidates. |
| `Discovery.FullPopularList` | scriptPopular/main.py:89-149 | A found list with at least five items, the first five of which resolve, yields exactly five references in list order. |
| `Discovery.ResolveCandidate` | scriptPopular/main.py:114-147 | The loop body (title cascade, empty-title skip, link cascade, normalisation) computes exactly the corrected resolution of the candidate. |
| `Discovery.GetPopularArticles` | scriptPopular/main.py:74-149 | The call fails with HomepageUnavailable if and only if the homepage body is empty. Otherwise the result is the discovery of the capped candidates: at most five references, each with a non-empty title and a URL starting with "http". |
| `Content.KeepSubstantial` | scriptPopular/main.py:194-198 | The filter keeps no more texts than it was given. |
| `Content.KeepSubstantialMembers` | scriptPopular/main.py:195-198 | A paragraph text survives if and only if it occurs in scope and is longer than 20 characters. Texts of 20 characters or fewer, and empty ones, are dropped. |
| `Content.KeepSubstantialAppend` | scriptPopular/main.py:194-198 | The filter distributes over concatenation, so survivors stay in document order. |
| `Content.JoinEmpty` | scriptPopular/main.py:200 | A space-join of non-empty parts is empty if and only if there are no parts. |
| `Content.JoinLength` | scriptPopular/main.py:200 | The join's length is the parts' total length plus one separator between each neighbouring pair. |
| `Content.ExtractedContentEmpty` | scriptPopular/main.py:159-200 | Extraction returns `""`, never an error, exactly when the fetch failed or no paragraph in scope is longer than 20 characters. |
| `Content.ScrapeArticleContent` | scriptPopular/main.py:152-200 | The source's method, with its region cascade and paragraph loop, returns exactly the single-space join, in document order, of the surviving paragraph texts. On a failed fetch it returns `""`. |
| `Batch.ScrapeAllArticles` | scriptPopular/main.py:203-234 | One record per input, in order, with the same title and URL. The content is the page's extracted text, or `""` when the fetch failed. The fetches and pauses form a polite schedule. |
| `Batch.PoliteTraceCounts` | scriptPopular/main.py:229-232 | The schedule pauses `len - 1` times. It fetches every article's URL once and in order, and it ends with a fetch, never a pause. |
| `Batch.WithContent` | scriptPopular/main.py:440 | The non-empty filter keeps no more records than the batch. |
| `Batch.WithContentMembers` | scriptPopular/main.py:440 | A record is kept if and only if it is in the batch and its content is non-empty. |
| `Batch.WithContentAppend` | scriptPopular/main.py:440 | The filter distributes over concatenation, so kept records stay in batch order. |
| `Batch.ValidArticlesChoice` | scriptPopular/main.py:440-442 | With some content present, the summariser gets exactly the records with content. With none, it gets the whole batch. From a non-empty batch it always gets between one and the batch size of records. |
| `Prompt.Excerpt` | scriptPopular/main.py:288 | Empty content shows "Content not available". Otherwise the block shows the prefix of the content of length min(len, 2000). |
| `Prompt.DecimalString` | scriptPopular/main.py:283-285 | A block's number is a non-empty string of decimal digits. |
| `Prompt.DecimalRoundTrip` | scriptPopular/main.py:283-285 | Reading a block number back gives the number. |
| `Prompt.ArticlesTextPrefix` | scriptPopular/main.py:282-290 | The text for the first k articles is a prefix of the text for all of them. |
| `Prompt.BlockAt` | scriptPopular/main.py:282-290 | Block k+1 (label, headline, URL, excerpt) stands whole right after the blocks of the earlier articles. |
| `Prompt.HeadlineVerbatim` | scriptPopular/main.py:284-286 | Wherever a block stands whole, its headline stands there character for character, right after the block's label. Together with BlockAt, every headline appears verbatim in the article text. |
| `Prompt.BuildArticlesText` | scriptPopular/main.py:282-290 | The `+=` loop builds exactly the numbered blocks of all articles, in order, numbered from 1. |
| `Prompt.UserPrompt` | scriptPopular/main.py:292-303 | The request template carries the article text unchanged, right after its fixed head. |
| `Pipeline.PrepareSummaryRequest` | scriptPopular/main.py:424-446 | An empty homepage and an empty discovery each stop the run before any article fetch. Otherwise the run goes on: it scrapes the discovered articles on a polite schedule, hands one to five chosen records to the summariser, and builds the request text from exactly those records. Discovery here is the corrected one (see Findings and Left out). |

## Findings

| source | as written | input that shows it | evidently intended | confidence | as-written member | corrected member |
|---|---|---|---|---|---|---|
| scriptPopular/main.py:129-136 | When no anchor in the candidate has an `href`, the link falls back to the title tag if it is an anchor, and then reads `link_tag["href"]`. That anchor lies inside the candidate, so it has no `href`, and the subscript raises `KeyError`. The exception leaves `get_popular_articles` and aborts the whole run. | A popular-list item `<li><a>Headline</a></li>` (no heading, anchor without `href`) | Skip the candidate, as every other missing title or link does. | high; not executed | `Discovery.AsWrittenRaisesOnBareAnchor` | `Discovery.Resolve` |

`Discovery.ResolveAsWritten` keeps the source's outcome, including the
raise. `Discovery.BareAnchorCardRaises` exhibits the input. Discovery and
everything after it use the corrected `Discovery.Resolve`, which skips such
a candidate.

## Left out

- HTTP fetching (`fetch_page_content`): network I/O. A fetch is given as a `Response` whose body is `""` on failure. The article fetches of one run are a map from URL to response, so a URL fetched twice is assumed to answer the same.
- HTML parsing and the `decompose()` stripping of script, style, noscript, iframe, nav, footer and header elements: library code. The model takes every page as already parsed, and article pages as already stripped. The homepage is never stripped by the source, and the model takes it as given.
- The CSS engine behind `select_one`: selectors with descendant combinators need the library's tree. Each document carries the element `select_one` returns per selector. `find`, `find_all` and `select("article")` are modelled directly.
- `get_text(strip=True)`: library code. Each tag carries its stripped text.
- The Gemini request, its JSON payload, the response parsing, and the unused system instruction: an external service.
- Telegram delivery, `html.escape`, the date stamp and the error notification: I/O and library calls.
- `time.sleep`, `print` logging, the environment-variable checks and the exit code: side effects only. Pauses appear as `Pause` steps in the batch trace.
- Exceptions other than the two modelled run errors (for example a parser failure inside `scrape_article_content`): not modelled.
- Discovery.GetPopularArticles: uses the corrected candidate resolution, so it does not raise on a candidate whose only link has no `href`. The source does raise there (see Findings).
- Pipeline.PrepareSummaryRequest: inherits the corrected candidate resolution, so a run whose inspected candidates include one whose only link has no `href` goes on without that candidate. The source aborts the run there: the `KeyError` reaches `main`, which reports failure (see Findings).
