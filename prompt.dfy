/**
 * The text handed to the summariser: one labelled block per article, with
 * its content cut to an excerpt, wrapped in the fixed request template.
 */
module Prompt {
  import opened Basics
  import opened Batch

  /** At most this many characters of an article's content go into its block. */
  const EXCERPT_LENGTH: nat := 2000

  /** Shown in place of content when an article has none. */
  const MISSING_CONTENT := "Content not available"

  const PROMPT_HEAD := "\nGenerate a professional TikTok/Reels news script based on these 5 trending articles\nfrom Bloomberg Technoz.\n\n"
  const PROMPT_TAIL := "\n\nRemember:\n- Use EXACT headlines (no modifications)\n- No clickbait language\n- Professional news anchor tone\n- 2-3 minute duration (350-450 words)\n"

  /** What a block shows as content: the first EXCERPT_LENGTH characters, or the placeholder for none. */
  function Excerpt(content: string): (shown: string)
    ensures content == "" ==> shown == MISSING_CONTENT
    ensures content != "" ==> StartsWith(content, shown) &&
                              |shown| == if |content| < EXCERPT_LENGTH then |content| else EXCERPT_LENGTH
  {
    if content != "" then Take(content, EXCERPT_LENGTH) else MISSING_CONTENT
  }

  function Digit(d: nat): (c: char)
    requires d < 10
    ensures '0' <= c <= '9' && c as int - '0' as int == d
  {
    ('0' as int + d) as char
  }

  predicate AllDigits(s: string)
  {
    forall i | 0 <= i < |s| :: '0' <= s[i] <= '9'
  }

  /** Python's `str(n)` for a natural number. */
  function DecimalString(n: nat): (s: string)
    ensures s != [] && AllDigits(s)
  {
    if n < 10 then [Digit(n)] else DecimalString(n / 10) + [Digit(n % 10)]
  }

  /** The number a string of decimal digits spells. */
  function DecimalValue(s: string): nat
    requires AllDigits(s)
  {
    if s == [] then 0
    else
      assert AllDigits(s[..|s| - 1]);
      10 * DecimalValue(s[..|s| - 1]) + (s[|s| - 1] as int - '0' as int)
  }

  /** Reading the numeral back gives the number: block labels are unambiguous. */
  lemma {:induction false} DecimalRoundTrip(n: nat)
    ensures DecimalValue(DecimalString(n)) == n
  {
    if n >= 10 {
      var s := DecimalString(n);
      assert s[..|s| - 1] == DecimalString(n / 10);
      DecimalRoundTrip(n / 10);
    }
  }

  /** The label that opens block `i`, up to where the headline starts. */
  function BlockHead(i: nat): string
  {
    "\nARTICLE " + DecimalString(i) + ":\nHEADLINE: "
  }

  /** The labelled record for the `i`-th article (counting from 1). */
  function Block(i: nat, article: ScrapedArticle): string
  {
    BlockHead(i) + article.title + BlockTail(article)
  }

  /** The rest of a block after the headline: address, excerpt and the closing rule. */
  function BlockTail(article: ScrapedArticle): string
  {
    "\nURL: " + article.url + "\nCONTENT: " + Excerpt(article.content) + "\n---\n"
  }

  /** All blocks, numbered from 1, in the order of the articles. */
  function ArticlesText(articles: seq<ScrapedArticle>): string
  {
    if articles == [] then ""
    else ArticlesText(articles[..|articles| - 1]) + Block(|articles|, articles[|articles| - 1])
  }

  /** The text for the first `k` articles is a prefix of the text for all of them. */
  lemma {:induction false} ArticlesTextPrefix(articles: seq<ScrapedArticle>, k: nat)
    requires k <= |articles|
    ensures StartsWith(ArticlesText(articles), ArticlesText(articles[..k]))
    decreases |articles|
  {
    if k < |articles| {
      var init := articles[..|articles| - 1];
      assert init[..k] == articles[..k];
      ArticlesTextPrefix(init, k);
      var whole := ArticlesText(articles);
      var part := ArticlesText(articles[..k]);
      assert whole[..|ArticlesText(init)|] == ArticlesText(init);
      assert whole[..|part|] == ArticlesText(init)[..|part|];
    } else {
      assert articles[..k] == articles;
    }
  }

  /**
   * Block `k + 1` stands whole right after the blocks of the articles before
   * it: every article is shown, in order, with its label, headline, address
   * and excerpt.
   */
  lemma BlockAt(articles: seq<ScrapedArticle>, k: nat)
    requires k < |articles|
    ensures var off := |ArticlesText(articles[..k])|;
            var block := Block(k + 1, articles[k]);
            off + |block| <= |ArticlesText(articles)| &&
            ArticlesText(articles)[off..off + |block|] == block
  {
    var prefix := articles[..k + 1];
    assert prefix[..|prefix| - 1] == articles[..k];
    var before := ArticlesText(articles[..k]);
    var block := Block(k + 1, articles[k]);
    assert ArticlesText(prefix) == before + block;
    ArticlesTextPrefix(articles, k + 1);
    SliceAfterPrefix(ArticlesText(articles), before, block);
  }

  /**
   * Wherever a block stands whole in a text (as BlockAt places every block in
   * the article text), its headline stands there character for character,
   * right after the block's label.
   */
  lemma HeadlineVerbatim(whole: string, off: nat, i: nat, article: ScrapedArticle)
    requires off + |Block(i, article)| <= |whole| && whole[off..off + |Block(i, article)|] == Block(i, article)
    ensures off + |BlockHead(i)| + |article.title| <= |whole|
    ensures whole[off + |BlockHead(i)|..off + |BlockHead(i)| + |article.title|] == article.title
  {
    PieceOfSlice(whole, off, BlockHead(i), article.title, BlockTail(article));
  }

  lemma SliceAfterPrefix(whole: string, a: string, b: string)
    requires StartsWith(whole, a + b)
    ensures |a| + |b| <= |whole| && whole[|a|..|a| + |b|] == b
  {
    assert whole[|a|..|a| + |b|] == (a + b)[|a|..];
  }

  lemma PieceOfSlice(whole: string, off: nat, a: string, b: string, c: string)
    requires off + |a + b + c| <= |whole| && whole[off..off + |a + b + c|] == a + b + c
    ensures off + |a| + |b| <= |whole| && whole[off + |a|..off + |a| + |b|] == b
  {
    var abc := a + b + c;
    forall i | 0 <= i < |b|
      ensures whole[off + |a|..off + |a| + |b|][i] == b[i]
    {
      assert whole[off + |a| + i] == whole[off..off + |abc|][|a| + i] == abc[|a| + i];
    }
  }

  /** `generate_script`'s loop: append one block per article, numbering from 1. */
  method BuildArticlesText(articles: seq<ScrapedArticle>) returns (text: string)
    ensures text == ArticlesText(articles)
  {
    text := "";
    for i := 0 to |articles|
      invariant text == ArticlesText(articles[..i])
    {
      assert articles[..i + 1][..i] == articles[..i];
      text := text + Block(i + 1, articles[i]);
    }
    assert articles[..|articles|] == articles;
  }

  /** The request text: the fixed template around the article blocks, which it carries unchanged. */
  function UserPrompt(articlesText: string): (prompt: string)
    ensures |PROMPT_HEAD| + |articlesText| <= |prompt|
    ensures prompt[|PROMPT_HEAD|..|PROMPT_HEAD| + |articlesText|] == articlesText
  {
    PROMPT_HEAD + articlesText + PROMPT_TAIL
  }
}
