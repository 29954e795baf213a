/**
 * The parsed page as the scraper queries it.
 *
 * The HTML library itself is not modelled. An element is a `Tag`: its tag
 * name, its classes, its visible text with surrounding whitespace stripped
 * (what `get_text(strip=True)` returns), its `href` attribute if it has one,
 * and every element nested inside it, in document order. The library's
 * `find` and `find_all` are then first-match and filter over that sequence.
 * CSS selectors with descendant combinators (`.trending ul`) need the
 * library's tree, so `select_one` is read off an answer table the document
 * carries.
 */
module Markup {
  import opened Basics

  datatype Tag = Tag(name: string, classes: set<string>, text: string, href: Option<string>, inner: seq<Tag>)

  /** A parsed page: every element in document order, and what `select_one` answers per selector. */
  datatype Document = Document(all: seq<Tag>, selected: map<string, Tag>)

  /** What one page fetch gave: the body text ("" when the fetch failed) and its parse. */
  datatype Response = Response(html: string, doc: Document)

  const EmptyDocument := Document([], map[])

  /** The three shapes of `find`/`find_all` query the scraper issues. */
  datatype Query =
    | ByName(names: set<string>)           // find("a"), find(["h2", ..., "h6"]), find_all("p")
    | ByClass(name: string, cls: string)   // find("h5", class_="title")
    | WithHref(name: string)               // find("a", href=True)

  predicate Matches(t: Tag, q: Query)
  {
    match q
    case ByName(names) => t.name in names
    case ByClass(n, c) => t.name == n && c in t.classes
    case WithHref(n) => t.name == n && t.href.Some?
  }

  /** Position of the first element the query matches, or `|tags|` when none does. */
  function FirstIndex(tags: seq<Tag>, q: Query): (i: nat)
    ensures i <= |tags|
    ensures i < |tags| ==> Matches(tags[i], q)
    ensures forall j | 0 <= j < i :: !Matches(tags[j], q)
  {
    if tags == [] then 0
    else if Matches(tags[0], q) then 0
    else 1 + FirstIndex(tags[1..], q)
  }

  /** `t` stands in `tags` at a position the query matches, and no earlier element matches it. */
  predicate IsFirst(tags: seq<Tag>, q: Query, t: Tag)
  {
    exists i | 0 <= i < |tags| :: tags[i] == t && Matches(t, q) && forall j | 0 <= j < i :: !Matches(tags[j], q)
  }

  /** `find`: the first element in document order that the query matches. */
  function Find(tags: seq<Tag>, q: Query): (r: Option<Tag>)
    ensures r.Some? ==> r.value in tags && Matches(r.value, q) && IsFirst(tags, q, r.value)
    ensures r.None? <==> forall t | t in tags :: !Matches(t, q)
  {
    var i := FirstIndex(tags, q);
    if i < |tags| then Some(tags[i]) else None
  }

  /** `find` returns an element exactly when that element is the first match. */
  lemma FindIsFirst(tags: seq<Tag>, q: Query, t: Tag)
    ensures Find(tags, q) == Some(t) <==> IsFirst(tags, q, t)
  {
    if IsFirst(tags, q, t) {
      var i :| 0 <= i < |tags| && tags[i] == t && Matches(t, q) && forall j | 0 <= j < i :: !Matches(tags[j], q);
      var k := FirstIndex(tags, q);
      assert k == i;
    }
  }

  /** `find_all` (and `select` of a bare tag name): every matching element, in document order. */
  function FindAll(tags: seq<Tag>, q: Query): (r: seq<Tag>)
    ensures |r| <= |tags|
    ensures forall t | t in r :: t in tags && Matches(t, q)
    ensures forall t | t in tags && Matches(t, q) :: t in r
  {
    if tags == [] then []
    else if Matches(tags[0], q) then [tags[0]] + FindAll(tags[1..], q)
    else FindAll(tags[1..], q)
  }

  /**
   * `find_all` distributes over concatenation: the matches of an earlier part
   * of the page come first, each as often as it occurs there.
   */
  lemma {:induction false} FindAllAppend(a: seq<Tag>, b: seq<Tag>, q: Query)
    ensures FindAll(a + b, q) == FindAll(a, q) + FindAll(b, q)
    decreases |a|
  {
    if a == [] {
      assert a + b == b;
    } else {
      assert (a + b)[0] == a[0];
      assert (a + b)[1..] == a[1..] + b;
      FindAllAppend(a[1..], b, q);
    }
  }

  /** Every element of a page the query matches throughout is returned, in place. */
  lemma {:induction false} FindAllKeepsMatches(tags: seq<Tag>, q: Query)
    requires forall i | 0 <= i < |tags| :: Matches(tags[i], q)
    ensures FindAll(tags, q) == tags
    decreases |tags|
  {
    if tags != [] {
      FindAllKeepsMatches(tags[1..], q);
      assert [tags[0]] + tags[1..] == tags;
    }
  }

  /** One step of a container cascade: a `find` by tag and class, or a `select_one` by CSS selector. */
  datatype Locator = FindTag(name: string, cls: string) | SelectOne(css: string)

  function Locate(doc: Document, loc: Locator): Option<Tag>
  {
    match loc
    case FindTag(n, c) => Find(doc.all, ByClass(n, c))
    case SelectOne(css) => if css in doc.selected then Some(doc.selected[css]) else None
  }

  /** The cascade: what the first locator that finds anything finds. */
  function FirstMatch(doc: Document, locs: seq<Locator>): Option<Tag>
  {
    if locs == [] then None
    else if Locate(doc, locs[0]).Some? then Locate(doc, locs[0])
    else FirstMatch(doc, locs[1..])
  }

  /** A locator that finds something wins over every later one. */
  lemma {:induction false} FirstMatchWins(doc: Document, locs: seq<Locator>, i: nat)
    requires i < |locs| && Locate(doc, locs[i]).Some?
    requires forall j | 0 <= j < i :: Locate(doc, locs[j]).None?
    ensures FirstMatch(doc, locs) == Locate(doc, locs[i])
  {
    if i > 0 {
      assert Locate(doc, locs[0]).None?;
      FirstMatchWins(doc, locs[1..], i - 1);
    }
  }

  /** The cascade comes up empty exactly when every locator does. */
  lemma {:induction false} FirstMatchNone(doc: Document, locs: seq<Locator>)
    ensures FirstMatch(doc, locs).None? <==> forall j | 0 <= j < |locs| :: Locate(doc, locs[j]).None?
  {
    if locs != [] {
      FirstMatchNone(doc, locs[1..]);
      assert forall j | 1 <= j < |locs| :: locs[j] == locs[1..][j - 1];
    }
  }

  /** Whatever the cascade returns came from some locator, and every earlier locator found nothing. */
  lemma {:induction false} FirstMatchSource(doc: Document, locs: seq<Locator>)
    requires FirstMatch(doc, locs).Some?
    ensures exists i | 0 <= i < |locs| ::
              Locate(doc, locs[i]) == FirstMatch(doc, locs) &&
              forall j | 0 <= j < i :: Locate(doc, locs[j]).None?
  {
    if Locate(doc, locs[0]).Some? {
      assert Locate(doc, locs[0]) == FirstMatch(doc, locs);
    } else {
      FirstMatchSource(doc, locs[1..]);
      var i :| 0 <= i < |locs[1..]| &&
               Locate(doc, locs[1..][i]) == FirstMatch(doc, locs[1..]) &&
               forall j | 0 <= j < i :: Locate(doc, locs[1..][j]).None?;
      assert Locate(doc, locs[i + 1]) == FirstMatch(doc, locs);
      assert forall j | 0 <= j < i + 1 :: Locate(doc, locs[j]).None? by {
        forall j | 0 <= j < i + 1 ensures Locate(doc, locs[j]).None? {
          if j > 0 { assert locs[j] == locs[1..][j - 1]; }
        }
      }
    }
  }

  /**
   * The cascade as the scraper runs it: try the primary locator; if it finds
   * nothing, walk the fallback selectors in order and stop at the first hit.
   */
  method LocateFirst(doc: Document, primary: Locator, fallbacks: seq<Locator>) returns (found: Option<Tag>)
    ensures found == FirstMatch(doc, [primary] + fallbacks)
  {
    assert ([primary] + fallbacks)[1..] == fallbacks;
    found := Locate(doc, primary);
    if found.None? {
      var i := 0;
      while i < |fallbacks|
        invariant 0 <= i <= |fallbacks|
        invariant found.None?
        invariant FirstMatch(doc, [primary] + fallbacks) == FirstMatch(doc, fallbacks[i..])
      {
        found := Locate(doc, fallbacks[i]);
        if found.Some? {
          break;
        }
        assert fallbacks[i..][1..] == fallbacks[i + 1..];
        i := i + 1;
      }
    }
  }
}
