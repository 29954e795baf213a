/**
 * Homepage discovery: pick the "popular" container by a cascade, inspect at
 * most ARTICLE_COUNT candidate elements, resolve each one's title and link,
 * and keep the ones that resolve, in page order.
 */
module Discovery {
  import opened Basics
  import opened Markup
  import Urls

  /** How many articles one run wants; also how many candidates are inspected. */
  const ARTICLE_COUNT: nat := 5

  /** The site's own marker for the popular list: `ul.list-terpopuler`. */
  const POPULAR_LIST := FindTag("ul", "list-terpopuler")

  /** The popular/trending selectors tried, in order, when the marker is absent. */
  const POPULAR_FALLBACKS := [
    SelectOne(".popular-posts ul"),
    SelectOne(".trending ul"),
    SelectOne("[class*='popular'] ul"),
    SelectOne("[class*='trending'] ul")
  ]

  const HEADINGS: set<string> := {"h2", "h3", "h4", "h5", "h6"}

  /** A discovered article: its headline and its normalised address. */
  datatype ArticleRef = ArticleRef(title: string, url: string)

  /** Why a run stops before summarising. */
  datatype RunError = HomepageUnavailable | NoArticlesFound

  /**
   * The title cascade inside one candidate: the first `h5.title` when there is
   * one (even after an earlier heading), else the first h2-h6 heading, else
   * the first anchor.
   */
  function TitleTag(e: Tag): (r: Option<Tag>)
    ensures r.Some? ==> r.value in e.inner
    ensures r.None? <==> forall t | t in e.inner :: t.name !in HEADINGS && t.name != "a"
    ensures r.Some? && r.value.name == "a" ==> forall t | t in e.inner :: t.name !in HEADINGS
    ensures (exists t | t in e.inner :: Matches(t, ByClass("h5", "title"))) ==>
              r.Some? && IsFirst(e.inner, ByClass("h5", "title"), r.value)
    ensures (forall t | t in e.inner :: !Matches(t, ByClass("h5", "title"))) &&
            (exists t | t in e.inner :: t.name in HEADINGS) ==>
              r.Some? && IsFirst(e.inner, ByName(HEADINGS), r.value)
    ensures (forall t | t in e.inner :: t.name !in HEADINGS) && (exists t | t in e.inner :: t.name == "a") ==>
              r.Some? && IsFirst(e.inner, ByName({"a"}), r.value)
  {
    var titled := Find(e.inner, ByClass("h5", "title"));
    if titled.Some? then titled
    else
      var heading := Find(e.inner, ByName(HEADINGS));
      if heading.Some? then heading
      else Find(e.inner, ByName({"a"}))
  }

  /**
   * The link cascade: the first anchor that has an `href`; only when no anchor
   * has one, the title tag if it is itself an anchor.
   */
  function LinkTag(e: Tag, titleTag: Tag): (r: Option<Tag>)
    ensures (exists t | t in e.inner :: Matches(t, WithHref("a"))) ==>
              r.Some? && IsFirst(e.inner, WithHref("a"), r.value)
    ensures (forall t | t in e.inner :: !Matches(t, WithHref("a"))) ==>
              (r.Some? <==> titleTag.name == "a") && (r.Some? ==> r.value == titleTag)
  {
    var anchor := Find(e.inner, WithHref("a"));
    if anchor.Some? then anchor
    else if titleTag.name == "a" then Some(titleTag)
    else None
  }

  /** What the source does with one candidate: keep it, skip it, or raise on a missing `href`. */
  datatype Candidate = Found(article: ArticleRef) | Skipped | KeyErrorRaised

  /**
   * One candidate as written: no title tag, an empty title or no link skips
   * it; otherwise the link's `href` is read with a subscript, which raises
   * when the attribute is absent.
   */
  function ResolveAsWritten(e: Tag): (c: Candidate)
    ensures c.Found? ==> c.article.title != "" && StartsWith(c.article.url, "http")
  {
    match TitleTag(e)
    case None => Skipped
    case Some(titleTag) =>
      if titleTag.text == "" then Skipped
      else
        match LinkTag(e, titleTag)
        case None => Skipped
        case Some(linkTag) =>
          match linkTag.href
          case None => KeyErrorRaised
          case Some(href) => Found(ArticleRef(titleTag.text, Urls.NormalizeUrl(href)))
  }

  /** A candidate whose only anchor has no `href` and carries the headline. */
  const BareAnchorCard := Tag("li", {}, "", None, [Tag("a", {}, "Headline", None, [])])

  /**
   * The link fallback can only ever pick an anchor without `href`: the title
   * anchor lies inside the candidate, so had it an `href` the first lookup
   * would have found one. The source therefore raises exactly when the
   * headline comes from an anchor and no anchor of the candidate has an `href`.
   */
  lemma AsWrittenRaisesOnBareAnchor(e: Tag)
    ensures ResolveAsWritten(e) == KeyErrorRaised <==>
              TitleTag(e).Some? && TitleTag(e).value.name == "a" && TitleTag(e).value.text != "" &&
              forall t | t in e.inner :: !(t.name == "a" && t.href.Some?)
  {
    var anchor := Find(e.inner, WithHref("a"));
    if TitleTag(e).Some? && anchor.None? {
      assert !Matches(TitleTag(e).value, WithHref("a"));
    }
  }

  /** The smallest page that shows it: one card holding `<a>Headline</a>` aborts the whole run. */
  lemma BareAnchorCardRaises()
    ensures ResolveAsWritten(BareAnchorCard) == KeyErrorRaised
    ensures Resolve(BareAnchorCard) == None
  {
    AsWrittenRaisesOnBareAnchor(BareAnchorCard);
  }

  /**
   * One candidate, corrected: a link without `href` skips the candidate as
   * every other miss does.
   */
  function Resolve(e: Tag): (r: Option<ArticleRef>)
    ensures r.Some? ==> r.value.title != "" && StartsWith(r.value.url, "http")
  {
    match ResolveAsWritten(e)
    case Found(article) => Some(article)
    case _ => None
  }

  /**
   * What a found candidate carries, as written and corrected alike: the title
   * tag's text as its headline, and the normalised `href` of the first anchor
   * that has one as its address.
   */
  lemma ResolveValue(e: Tag)
    requires ResolveAsWritten(e).Found?
    ensures Resolve(e) == Some(ResolveAsWritten(e).article)
    ensures TitleTag(e).Some? && Resolve(e).value.title == TitleTag(e).value.text
    ensures exists link | IsFirst(e.inner, WithHref("a"), link) ::
              link.href.Some? && Resolve(e).value.url == Urls.NormalizeUrl(link.href.value)
  {
    var titleTag := TitleTag(e).value;
    assert Find(e.inner, WithHref("a")).Some? by {
      AsWrittenRaisesOnBareAnchor(e);
    }
    var link := LinkTag(e, titleTag).value;
    assert IsFirst(e.inner, WithHref("a"), link);
  }

  /** A candidate is kept exactly when its title text is non-empty and some anchor in it has an `href`. */
  lemma ResolveKeeps(e: Tag)
    ensures Resolve(e).Some? <==> TitleTag(e).Some? && TitleTag(e).value.text != "" &&
                                  exists t | t in e.inner :: t.name == "a" && t.href.Some?
  {
    AsWrittenRaisesOnBareAnchor(e);
  }

  /** Where the two differ: only where the source raises, and there the corrected one skips. */
  lemma ResolveMatchesAsWritten(e: Tag)
    ensures ResolveAsWritten(e).Found? ==> Resolve(e) == Some(ResolveAsWritten(e).article)
    ensures ResolveAsWritten(e).Skipped? ==> Resolve(e) == None
    ensures ResolveAsWritten(e).KeyErrorRaised? ==> Resolve(e) == None
  {
  }

  /** The candidates inspected: the first ARTICLE_COUNT list items of the cascade's container, else of the page's articles. */
  function CandidateElements(doc: Document): (c: seq<Tag>)
    ensures |c| <= ARTICLE_COUNT
    ensures FirstMatch(doc, [POPULAR_LIST] + POPULAR_FALLBACKS).Some? ==>
              var items := FindAll(FirstMatch(doc, [POPULAR_LIST] + POPULAR_FALLBACKS).value.inner, ByName({"li"}));
              |c| == (if |items| < ARTICLE_COUNT then |items| else ARTICLE_COUNT) && c == items[..|c|]
    ensures FirstMatch(doc, [POPULAR_LIST] + POPULAR_FALLBACKS).None? ==>
              var articles := FindAll(doc.all, ByName({"article"}));
              |c| == (if |articles| < ARTICLE_COUNT then |articles| else ARTICLE_COUNT) && c == articles[..|c|]
  {
    match FirstMatch(doc, [POPULAR_LIST] + POPULAR_FALLBACKS)
    case Some(popularList) => Take(FindAll(popularList.inner, ByName({"li"})), ARTICLE_COUNT)
    case None => Take(FindAll(doc.all, ByName({"article"})), ARTICLE_COUNT)
  }

  /** How each candidate resolves, position by position. */
  function Resolutions(cands: seq<Tag>): (r: seq<Option<ArticleRef>>)
    ensures |r| == |cands|
    ensures forall i | 0 <= i < |cands| :: r[i] == Resolve(cands[i])
  {
    seq(|cands|, i requires 0 <= i < |cands| => Resolve(cands[i]))
  }

  /** The references that resolve, in candidate order. */
  function Discovered(cands: seq<Tag>): (r: seq<ArticleRef>)
    ensures |r| <= |cands|
    ensures forall a | a in r :: a.title != "" && StartsWith(a.url, "http")
  {
    var rs := Resolutions(cands);
    assert forall a | a in Somes(rs) :: Some(a) in rs by {
      forall a | a in Somes(rs) ensures Some(a) in rs { SomesMembers(rs, a); }
    }
    Somes(rs)
  }

  /** Discovery distributes over concatenation: candidates keep their relative order. */
  lemma DiscoveredAppend(a: seq<Tag>, b: seq<Tag>)
    ensures Discovered(a + b) == Discovered(a) + Discovered(b)
  {
    ResolutionsAppend(a, b);
    SomesAppend(Resolutions(a), Resolutions(b));
  }

  lemma ResolutionsAppend(a: seq<Tag>, b: seq<Tag>)
    ensures Resolutions(a + b) == Resolutions(a) + Resolutions(b)
  {
    var l, r := Resolutions(a + b), Resolutions(a) + Resolutions(b);
    forall i | 0 <= i < |a + b| ensures l[i] == r[i] {
      if i < |a| { assert (a + b)[i] == a[i]; } else { assert (a + b)[i] == b[i - |a|]; }
    }
  }

  /** A reference is discovered exactly when some candidate resolves to it. */
  lemma DiscoveredMembers(cands: seq<Tag>, x: ArticleRef)
    ensures x in Discovered(cands) <==> exists i | 0 <= i < |cands| :: Resolve(cands[i]) == Some(x)
  {
    SomesMembers(Resolutions(cands), x);
  }

  /** When every candidate resolves, discovery returns one reference per candidate, in order. */
  lemma DiscoveredAllResolve(cands: seq<Tag>)
    requires forall i | 0 <= i < |cands| :: Resolve(cands[i]).Some?
    ensures |Discovered(cands)| == |cands|
    ensures forall i | 0 <= i < |cands| :: Discovered(cands)[i] == Resolve(cands[i]).value
  {
    SomesAllPresent(Resolutions(cands));
  }

  /** Resolving one more candidate adds its reference at the end, or nothing. */
  lemma DiscoveredStep(cands: seq<Tag>, i: nat)
    requires i < |cands|
    ensures Discovered(cands[..i + 1]) ==
              Discovered(cands[..i]) + (if Resolve(cands[i]).Some? then [Resolve(cands[i]).value] else [])
  {
    assert cands[..i + 1] == cands[..i] + [cands[i]];
    DiscoveredAppend(cands[..i], [cands[i]]);
    assert Resolutions([cands[i]]) == [Resolve(cands[i])];
    assert [Resolve(cands[i])][..0] == [];
  }

  /**
   * A skipped candidate is not made up for by a later element: only the
   * inspected candidates count, so one skip leaves fewer references than
   * candidates.
   */
  lemma SkipShortensDiscovery(cands: seq<Tag>, i: nat)
    requires i < |cands| && Resolve(cands[i]).None?
    ensures |Discovered(cands)| < |cands|
  {
    assert cands == cands[..i] + [cands[i]] + cands[i + 1..];
    DiscoveredAppend(cands[..i] + [cands[i]], cands[i + 1..]);
    DiscoveredAppend(cands[..i], [cands[i]]);
    assert Resolutions([cands[i]]) == [None];
    assert Somes([Resolve(cands[i])]) == [];
  }

  /**
   * A found container with at least ARTICLE_COUNT items whose first
   * ARTICLE_COUNT all resolve yields exactly ARTICLE_COUNT references, in
   * list order.
   */
  lemma FullPopularList(doc: Document, popularList: Tag)
    requires FirstMatch(doc, [POPULAR_LIST] + POPULAR_FALLBACKS) == Some(popularList)
    requires |FindAll(popularList.inner, ByName({"li"}))| >= ARTICLE_COUNT
    requires forall i | 0 <= i < ARTICLE_COUNT :: Resolve(FindAll(popularList.inner, ByName({"li"}))[i]).Some?
    ensures |Discovered(CandidateElements(doc))| == ARTICLE_COUNT
    ensures forall i | 0 <= i < ARTICLE_COUNT ::
              Discovered(CandidateElements(doc))[i] == Resolve(FindAll(popularList.inner, ByName({"li"}))[i]).value
  {
    var items := FindAll(popularList.inner, ByName({"li"}));
    assert CandidateElements(doc) == items[..ARTICLE_COUNT];
    DiscoveredAllResolve(items[..ARTICLE_COUNT]);
  }

  /**
   * The body of the candidate loop: the title cascade, the empty-title skip,
   * the link cascade, and URL normalisation. A link without `href` is skipped
   * (see ResolveAsWritten for what the source does there).
   */
  method ResolveCandidate(element: Tag) returns (found: Option<ArticleRef>)
    ensures found == Resolve(element)
  {
    found := None;
    var titleTag := Find(element.inner, ByClass("h5", "title"));
    if titleTag.None? {
      titleTag := Find(element.inner, ByName(HEADINGS));
    }
    if titleTag.None? {
      titleTag := Find(element.inner, ByName({"a"}));
    }
    if titleTag.None? {
      return;
    }
    var title := titleTag.value.text;
    if title == "" {
      return;
    }
    var linkTag := Find(element.inner, WithHref("a"));
    if linkTag.None? {
      linkTag := if titleTag.value.name == "a" then titleTag else None;
    }
    if linkTag.None? || linkTag.value.href.None? {
      return;
    }
    var url := Urls.NormalizeUrl(linkTag.value.href.value);
    found := Some(ArticleRef(title, url));
  }

  /**
   * `get_popular_articles`: fail on an empty homepage; otherwise locate the
   * container, take the candidates, and resolve each one in turn.
   */
  method GetPopularArticles(home: Response) returns (r: Result<seq<ArticleRef>, RunError>)
    ensures home.html == "" <==> r == Err(HomepageUnavailable)
    ensures home.html != "" ==> r == Ok(Discovered(CandidateElements(home.doc)))
    ensures r.Ok? ==> |r.value| <= ARTICLE_COUNT
    ensures r.Ok? ==> forall a | a in r.value :: a.title != "" && StartsWith(a.url, "http")
  {
    if home.html == "" {
      return Err(HomepageUnavailable);
    }
    var popularList := LocateFirst(home.doc, POPULAR_LIST, POPULAR_FALLBACKS);
    var elements: seq<Tag>;
    if popularList.None? {
      elements := Take(FindAll(home.doc.all, ByName({"article"})), ARTICLE_COUNT);
    } else {
      elements := Take(FindAll(popularList.value.inner, ByName({"li"})), ARTICLE_COUNT);
    }
    var articles: seq<ArticleRef> := [];
    for i := 0 to |elements|
      invariant articles == Discovered(elements[..i])
    {
      DiscoveredStep(elements, i);
      var found := ResolveCandidate(elements[i]);
      if found.Some? {
        articles := articles + [found.value];
      }
    }
    assert elements[..|elements|] == elements;
    return Ok(Take(articles, ARTICLE_COUNT));
  }
}
