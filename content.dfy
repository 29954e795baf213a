/**
 * Article content extraction: pick the content region by a cascade, read
 * its paragraphs, keep the long ones and join them with single spaces.
 */
module Content {
  import opened Basics
  import opened Markup

  /** Paragraphs of this many characters or fewer are dropped as noise. */
  const MIN_PARAGRAPH_LENGTH: nat := 20

  /** The site's own content region: `div.detail-in`. */
  const CONTENT_REGION := FindTag("div", "detail-in")

  /** The content-area selectors tried, in order, when that region is absent. */
  const CONTENT_FALLBACKS := [
    SelectOne(".article-content"),
    SelectOne(".post-content"),
    SelectOne(".entry-content"),
    SelectOne("article"),
    SelectOne(".content"),
    SelectOne("main")
  ]

  /** Where paragraphs are read: inside the region the cascade finds, else the whole page. */
  function ContentScope(doc: Document): seq<Tag>
  {
    match FirstMatch(doc, [CONTENT_REGION] + CONTENT_FALLBACKS)
    case Some(region) => region.inner
    case None => doc.all
  }

  /** The stripped text of every paragraph in the scope, in document order. */
  function ParagraphTexts(doc: Document): (texts: seq<string>)
  {
    var paragraphs := FindAll(ContentScope(doc), ByName({"p"}));
    seq(|paragraphs|, i requires 0 <= i < |paragraphs| => paragraphs[i].text)
  }

  predicate Substantial(text: string)
  {
    text != "" && |text| > MIN_PARAGRAPH_LENGTH
  }

  /** The paragraph texts that survive the length filter, in order. */
  function KeepSubstantial(texts: seq<string>): (kept: seq<string>)
    ensures |kept| <= |texts|
  {
    if texts == [] then []
    else
      var init := KeepSubstantial(texts[..|texts| - 1]);
      var last := texts[|texts| - 1];
      if Substantial(last) then init + [last] else init
  }

  /** A text survives exactly when it occurs among the inputs and is longer than the threshold. */
  lemma {:induction false} KeepSubstantialMembers(texts: seq<string>, t: string)
    ensures t in KeepSubstantial(texts) <==> t in texts && |t| > MIN_PARAGRAPH_LENGTH
    decreases |texts|
  {
    if texts != [] {
      KeepSubstantialMembers(texts[..|texts| - 1], t);
      assert texts == texts[..|texts| - 1] + [texts[|texts| - 1]];
    }
  }

  /** The filter distributes over concatenation: survivors keep their document order. */
  lemma {:induction false} KeepSubstantialAppend(a: seq<string>, b: seq<string>)
    ensures KeepSubstantial(a + b) == KeepSubstantial(a) + KeepSubstantial(b)
    decreases |b|
  {
    if b == [] {
      assert a + b == a;
    } else {
      var b' := b[..|b| - 1];
      assert (a + b)[..|a + b| - 1] == a + b';
      assert (a + b)[|a + b| - 1] == b[|b| - 1];
      KeepSubstantialAppend(a, b');
    }
  }

  /** Python's `sep.join(parts)`. */
  function Join(parts: seq<string>, sep: string): string
  {
    if parts == [] then ""
    else if |parts| == 1 then parts[0]
    else Join(parts[..|parts| - 1], sep) + sep + parts[|parts| - 1]
  }

  /** Joining non-empty parts gives the empty text only when there are no parts. */
  lemma {:induction false} JoinEmpty(parts: seq<string>, sep: string)
    requires forall p | p in parts :: p != ""
    ensures Join(parts, sep) == "" <==> parts == []
  {
    if |parts| > 1 {
      assert parts[|parts| - 1] in parts;
      assert |Join(parts, sep)| >= |parts[|parts| - 1]|;
    } else if |parts| == 1 {
      assert parts[0] in parts;
    }
  }

  /** The join's length: every part, plus one separator between each neighbouring pair. */
  lemma {:induction false} JoinLength(parts: seq<string>, sep: string)
    requires parts != []
    ensures |Join(parts, sep)| == TotalLength(parts) + (|parts| - 1) * |sep|
    decreases |parts|
  {
    if |parts| > 1 {
      JoinLength(parts[..|parts| - 1], sep);
    }
  }

  function TotalLength(parts: seq<string>): nat
  {
    if parts == [] then 0 else TotalLength(parts[..|parts| - 1]) + |parts[|parts| - 1]|
  }

  /** What `scrape_article_content` returns for one fetched page. */
  function ExtractedContent(page: Response): string
  {
    if page.html == "" then "" else Join(KeepSubstantial(ParagraphTexts(page.doc)), " ")
  }

  /**
   * Extraction never fails on a fetched page: it comes back empty exactly when
   * the fetch failed or no paragraph in scope is longer than the threshold.
   */
  lemma ExtractedContentEmpty(page: Response)
    ensures ExtractedContent(page) == "" <==>
              page.html == "" || forall t | t in ParagraphTexts(page.doc) :: |t| <= MIN_PARAGRAPH_LENGTH
  {
    if page.html != "" {
      var texts := ParagraphTexts(page.doc);
      var kept := KeepSubstantial(texts);
      forall p | p in kept ensures p != "" {
        KeepSubstantialMembers(texts, p);
      }
      JoinEmpty(kept, " ");
      if kept == [] {
        forall t | t in texts ensures |t| <= MIN_PARAGRAPH_LENGTH {
          KeepSubstantialMembers(texts, t);
        }
      } else {
        KeepSubstantialMembers(texts, kept[0]);
      }
    }
  }

  /**
   * `scrape_article_content`: nothing for a failed fetch; otherwise locate the
   * region, collect the long paragraph texts in order and join them.
   */
  method ScrapeArticleContent(page: Response) returns (content: string)
    ensures content == ExtractedContent(page)
  {
    if page.html == "" {
      return "";
    }
    var contentTag := LocateFirst(page.doc, CONTENT_REGION, CONTENT_FALLBACKS);
    var paragraphs: seq<Tag>;
    if contentTag.None? {
      paragraphs := FindAll(page.doc.all, ByName({"p"}));
    } else {
      paragraphs := FindAll(contentTag.value.inner, ByName({"p"}));
    }
    ghost var texts := ParagraphTexts(page.doc);
    assert |texts| == |paragraphs| && forall i | 0 <= i < |paragraphs| :: texts[i] == paragraphs[i].text;
    var contentParts: seq<string> := [];
    for i := 0 to |paragraphs|
      invariant contentParts == KeepSubstantial(texts[..i])
    {
      assert texts[..i + 1][..i] == texts[..i];
      var text := paragraphs[i].text;
      if text != "" && |text| > MIN_PARAGRAPH_LENGTH {
        contentParts := contentParts + [text];
      }
    }
    assert texts[..|paragraphs|] == texts;
    content := Join(contentParts, " ");
  }
}
