/**
 * Batch orchestration: scrape every discovered article in turn with a pause
 * between fetches, keep one record per article, and choose what goes to the
 * summariser.
 */
module Batch {
  import opened Markup
  import opened Discovery
  import opened Content

  /** Seconds paused between two article fetches. */
  const REQUEST_DELAY: nat := 2

  /** One article with the text scraped from its page ("" when nothing was obtained). */
  datatype ScrapedArticle = ScrapedArticle(title: string, url: string, content: string)

  /** The observable steps of a batch: fetching one article page, or pausing. */
  datatype Step = FetchPage(url: string) | Pause(seconds: nat)

  /** The network as the batch meets it: the response each address gives; an address missing here fails. */
  function Fetch(web: map<string, Response>, url: string): Response
  {
    if url in web then web[url] else Response("", EmptyDocument)
  }

  /** The record kept for one article. */
  function Scraped(article: ArticleRef, web: map<string, Response>): ScrapedArticle
  {
    ScrapedArticle(article.title, article.url, ExtractedContent(Fetch(web, article.url)))
  }

  /**
   * A polite schedule: the fetches of the articles in order, with one pause
   * between each neighbouring pair and none after the last.
   */
  predicate PoliteTrace(trace: seq<Step>, articles: seq<ArticleRef>)
  {
    && |trace| == (if articles == [] then 0 else 2 * |articles| - 1)
    && forall k | 0 <= k < |trace| ::
         trace[k] == if k % 2 == 0 then FetchPage(articles[k / 2].url) else Pause(REQUEST_DELAY)
  }

  function PauseCount(trace: seq<Step>): nat
  {
    if trace == [] then 0
    else PauseCount(trace[..|trace| - 1]) + (if trace[|trace| - 1].Pause? then 1 else 0)
  }

  function FetchedUrls(trace: seq<Step>): seq<string>
  {
    if trace == [] then []
    else
      var init := FetchedUrls(trace[..|trace| - 1]);
      match trace[|trace| - 1]
      case FetchPage(url) => init + [url]
      case Pause(_) => init
  }

  /**
   * A polite schedule pauses one time fewer than it fetches, fetches every
   * article's address once and in order, and ends with a fetch.
   */
  lemma {:induction false} PoliteTraceCounts(trace: seq<Step>, articles: seq<ArticleRef>)
    requires PoliteTrace(trace, articles)
    ensures PauseCount(trace) == if articles == [] then 0 else |articles| - 1
    ensures |FetchedUrls(trace)| == |articles|
    ensures forall i | 0 <= i < |articles| :: FetchedUrls(trace)[i] == articles[i].url
    ensures trace != [] ==> trace[|trace| - 1] == FetchPage(articles[|articles| - 1].url)
    decreases |articles|
  {
    var n := |articles|;
    if n == 1 {
      assert trace[..0] == [];
    } else if n > 1 {
      var shorter := trace[..|trace| - 2];
      var init := articles[..n - 1];
      assert PoliteTrace(shorter, init) by {
        forall k | 0 <= k < |shorter|
          ensures shorter[k] == if k % 2 == 0 then FetchPage(init[k / 2].url) else Pause(REQUEST_DELAY)
        {
          assert shorter[k] == trace[k];
        }
      }
      PoliteTraceCounts(shorter, init);
      assert trace[..|trace| - 1][..|trace| - 2] == shorter;
      assert trace[|trace| - 2] == Pause(REQUEST_DELAY);
      assert trace[|trace| - 1] == FetchPage(articles[n - 1].url);
    }
  }

  /**
   * `scrape_all_articles`: one record per input, in order, with the title and
   * address carried over and the content scraped from its page ("" when the
   * fetch failed); a pause after every fetch but the last.
   */
  method ScrapeAllArticles(articles: seq<ArticleRef>, web: map<string, Response>)
    returns (scraped: seq<ScrapedArticle>, trace: seq<Step>)
    ensures |scraped| == |articles|
    ensures forall i | 0 <= i < |articles| ::
              && scraped[i].title == articles[i].title
              && scraped[i].url == articles[i].url
              && scraped[i].content == ExtractedContent(Fetch(web, articles[i].url))
    ensures PoliteTrace(trace, articles)
  {
    scraped := [];
    trace := [];
    for i := 0 to |articles|
      invariant |scraped| == i
      invariant forall j | 0 <= j < i :: scraped[j] == Scraped(articles[j], web)
      invariant |trace| == if i == |articles| && i > 0 then 2 * i - 1 else 2 * i
      invariant forall k | 0 <= k < |trace| ::
                  trace[k] == if k % 2 == 0 then FetchPage(articles[k / 2].url) else Pause(REQUEST_DELAY)
    {
      var article := articles[i];
      trace := trace + [FetchPage(article.url)];
      var content := ScrapeArticleContent(Fetch(web, article.url));
      if content != "" {
        scraped := scraped + [ScrapedArticle(article.title, article.url, content)];
      } else {
        scraped := scraped + [ScrapedArticle(article.title, article.url, "")];
      }
      if i < |articles| - 1 {
        trace := trace + [Pause(REQUEST_DELAY)];
      }
    }
  }

  /** The records with some content: `[a for a in scraped if a["content"]]`. */
  function WithContent(scraped: seq<ScrapedArticle>): (r: seq<ScrapedArticle>)
    ensures |r| <= |scraped|
  {
    if scraped == [] then []
    else
      var init := WithContent(scraped[..|scraped| - 1]);
      var last := scraped[|scraped| - 1];
      if last.content != "" then init + [last] else init
  }

  /** A record is kept exactly when it is in the batch and has content. */
  lemma {:induction false} WithContentMembers(scraped: seq<ScrapedArticle>, a: ScrapedArticle)
    ensures a in WithContent(scraped) <==> a in scraped && a.content != ""
    decreases |scraped|
  {
    if scraped != [] {
      WithContentMembers(scraped[..|scraped| - 1], a);
      assert scraped == scraped[..|scraped| - 1] + [scraped[|scraped| - 1]];
    }
  }

  /** The filter distributes over concatenation: kept records keep their batch order. */
  lemma {:induction false} WithContentAppend(a: seq<ScrapedArticle>, b: seq<ScrapedArticle>)
    ensures WithContent(a + b) == WithContent(a) + WithContent(b)
    decreases |b|
  {
    if b == [] {
      assert a + b == a;
    } else {
      var b' := b[..|b| - 1];
      assert (a + b)[..|a + b| - 1] == a + b';
      assert (a + b)[|a + b| - 1] == b[|b| - 1];
      WithContentAppend(a, b');
    }
  }

  /** What is handed to the summariser: the records with content, or the whole batch when none has any. */
  function ValidArticles(scraped: seq<ScrapedArticle>): seq<ScrapedArticle>
  {
    var valid := WithContent(scraped);
    if valid == [] then scraped else valid
  }

  /**
   * When some record has content, the summariser gets exactly the records with
   * content; when none has, it gets the whole batch. Either way it gets at
   * least one record from a non-empty batch, and never more than the batch.
   */
  lemma ValidArticlesChoice(scraped: seq<ScrapedArticle>)
    ensures (exists a | a in scraped :: a.content != "") ==>
              ValidArticles(scraped) == WithContent(scraped) &&
              forall a | a in ValidArticles(scraped) :: a in scraped && a.content != ""
    ensures (forall a | a in scraped :: a.content == "") ==> ValidArticles(scraped) == scraped
    ensures scraped != [] ==> 1 <= |ValidArticles(scraped)| <= |scraped|
  {
    forall a | true ensures a in WithContent(scraped) <==> a in scraped && a.content != "" {
      WithContentMembers(scraped, a);
    }
    if scraped != [] && WithContent(scraped) != [] {
      assert WithContent(scraped)[0] in WithContent(scraped);
    }
  }
}
