/** Turning a scraped `href` into an address: relative ones are joined onto the news site, "http"-prefixed ones pass through. */
module Urls {
  import opened Basics

  /** The site every relative link is resolved against. */
  const BASE_URL: string := "https://www.bloombergtechnoz.com"

  lemma BaseIsHttp(rest: string)
    ensures StartsWith(BASE_URL + rest, "http")
  {
    assert (BASE_URL + rest)[..4] == BASE_URL[..4];
  }

  /**
   * Three prefix cases and a pass-through: root-relative, dot-relative, and
   * anything not starting with "http" are joined to the site; the rest is
   * taken as already absolute. The last test is a plain prefix test, not a
   * scheme test.
   */
  function NormalizeUrl(href: string): (url: string)
    ensures StartsWith(url, "http")
  {
    if StartsWith(href, "/") then
      BaseIsHttp(href);
      BASE_URL + href
    else if StartsWith(href, "./") then
      BaseIsHttp(href[1..]);
      BASE_URL + href[1..]
    else if !StartsWith(href, "http") then
      BaseIsHttp("/" + href);
      BASE_URL + "/" + href
    else href
  }

  /** A root-relative path is appended to the site as it is. */
  lemma RootRelative(path: string)
    ensures NormalizeUrl("/" + path) == BASE_URL + "/" + path
  {
    assert StartsWith("/" + path, "/");
  }

  /** A dot-relative path loses its dot and lands under the site root. */
  lemma DotRelative(path: string)
    ensures NormalizeUrl("./" + path) == BASE_URL + "/" + path
  {
    var href := "./" + path;
    assert !StartsWith(href, "/") by { assert href[0] == '.'; }
    assert StartsWith(href, "./");
    assert href[1..] == "/" + path;
  }

  /** Any other path without the "http" prefix is joined to the site with a slash. */
  lemma BareRelative(path: string)
    requires !StartsWith(path, "/") && !StartsWith(path, "./") && !StartsWith(path, "http")
    ensures NormalizeUrl(path) == BASE_URL + "/" + path
  {
  }

  /** All three relative spellings of one path give the same address. */
  lemma RelativeSpellingsAgree(path: string)
    requires !StartsWith(path, "/") && !StartsWith(path, "./") && !StartsWith(path, "http")
    ensures NormalizeUrl("/" + path) == NormalizeUrl("./" + path) == NormalizeUrl(path)
  {
    RootRelative(path);
    DotRelative(path);
    BareRelative(path);
  }

  /** Whatever starts with "http" is returned untouched, even a relative name such as "https-guide". */
  lemma HttpPrefixPassesThrough(href: string)
    requires StartsWith(href, "http")
    ensures NormalizeUrl(href) == href
  {
    assert href[0] == 'h';
    assert !StartsWith(href, "/") && !StartsWith(href, "./");
  }

  /** Normalising an address that was already normalised changes nothing. */
  lemma {:induction false} NormalizeIdempotent(href: string)
    ensures NormalizeUrl(NormalizeUrl(href)) == NormalizeUrl(href)
  {
    HttpPrefixPassesThrough(NormalizeUrl(href));
  }
}
