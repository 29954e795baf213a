/**
 * One run up to the summariser: discover, abort on nothing found, scrape
 * every article, choose the records and build the request text.
 */
module Pipeline {
  import opened Basics
  import opened Markup
  import opened Discovery
  import opened Batch
  import opened Prompt

  /** What the summariser is asked: the chosen records and the request text built from them. */
  datatype SummaryRequest = SummaryRequest(records: seq<ScrapedArticle>, prompt: string)

  /** The records a run hands on, from the homepage response and the article responses. */
  function ChosenRecords(home: Response, web: map<string, Response>): seq<ScrapedArticle>
  {
    var found := Discovered(CandidateElements(home.doc));
    ValidArticles(seq(|found|, i requires 0 <= i < |found| => Scraped(found[i], web)))
  }

  /**
   * Steps 1 to 3 of `main`: an unreadable homepage and an empty discovery
   * both stop the run before any article is fetched; otherwise every
   * discovered article is scraped, politely, and between one and
   * ARTICLE_COUNT records reach the summariser.
   */
  method PrepareSummaryRequest(home: Response, web: map<string, Response>)
    returns (r: Result<SummaryRequest, RunError>, trace: seq<Step>)
    ensures home.html == "" ==> r == Err(HomepageUnavailable) && trace == []
    ensures home.html != "" && Discovered(CandidateElements(home.doc)) == [] ==>
              r == Err(NoArticlesFound) && trace == []
    ensures r.Ok? <==> home.html != "" && Discovered(CandidateElements(home.doc)) != []
    ensures r.Ok? ==> PoliteTrace(trace, Discovered(CandidateElements(home.doc)))
    ensures r.Ok? ==> r.value.records == ChosenRecords(home, web)
    ensures r.Ok? ==> 1 <= |r.value.records| <= ARTICLE_COUNT
    ensures r.Ok? ==> r.value.prompt == UserPrompt(ArticlesText(r.value.records))
  {
    trace := [];
    var articles := GetPopularArticles(home);
    if articles.Err? {
      return Err(articles.error), trace;
    }
    if articles.value == [] {
      return Err(NoArticlesFound), trace;
    }
    var scraped;
    scraped, trace := ScrapeAllArticles(articles.value, web);
    ghost var found := articles.value;
    assert scraped == seq(|found|, i requires 0 <= i < |found| => Scraped(found[i], web));
    var valid := ValidArticles(scraped);
    ValidArticlesChoice(scraped);
    var articlesText := BuildArticlesText(valid);
    r := Ok(SummaryRequest(valid, UserPrompt(articlesText)));
  }
}
