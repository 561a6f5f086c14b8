/** `process_article` and `display_article`: run the primary path, fall back
    when it yields nothing, and lay out the result for printing. */
module Pipeline {
  import opened Options
  import opened Text
  import opened Articles
  import opened Primary
  import opened Fallback

  /** `process_article`: the newspaper3k outcome and the fallback's fetched
      page are inputs; `None` in either stands for the exception its path
      catches. */
  function ProcessArticle(parsed: Option<ParsedArticle>, fetched: Option<Page>, tokenize: Tokenizer)
    : (r: Option<ArticleRecord>)
    ensures parsed.Some? ==> r == ExtractArticle(parsed, tokenize)
    ensures parsed.None? ==> r == FallbackScrape(fetched, tokenize)
    ensures r.None? <==> parsed.None? && fetched.None?
  {
    var primary := ExtractArticle(parsed, tokenize);
    if primary.None? then FallbackScrape(fetched, tokenize) else primary
  }

  /** When the primary path succeeds, the fallback's input has no influence on
      the result: the fallback is not consulted. */
  lemma PrimaryWins(article: ParsedArticle, fetched1: Option<Page>, fetched2: Option<Page>, tokenize: Tokenizer)
    ensures ProcessArticle(Some(article), fetched1, tokenize).Some?
    ensures ProcessArticle(Some(article), fetched1, tokenize)
         == ProcessArticle(Some(article), fetched2, tokenize)
  {
  }

  /** The line printed when nothing was extracted. */
  const NothingExtracted: string := "Could not extract article data."

  /** The header that opens the keywords block. */
  const KeywordsHeader: string := "\nKEYWORDS:\n"

  /** A horizontal rule of 80 copies of `c`. */
  function Rule(c: char): string {
    seq(80, _ => c)
  }

  /** Some printed block starts with `header`. */
  predicate HasBlock(out: seq<string>, header: string) {
    exists i :: 0 <= i < |out| && header <= out[i]
  }

  predicate EndsWith(s: string, suffix: string) {
    |suffix| <= |s| && s[|s| - |suffix|..] == suffix
  }

  /** `display_article`, as the list of texts passed to successive `print`
      calls: the title block, the summary block, the keywords block when there
      are keywords, and a closing rule; or the single failure line. */
  function DisplayArticle(result: Option<ArticleRecord>): (out: seq<string>)
    ensures result.None? ==> out == [NothingExtracted]
    ensures result.Some? ==> |out| == if result.value.keywords == [] then 3 else 4
    ensures result.Some? ==> (HasBlock(out, KeywordsHeader) <==> result.value.keywords != [])
    ensures result.Some? ==> EndsWith(out[1], result.value.summary)
    ensures result.Some? && result.value.keywords != [] ==>
              out[2] == KeywordsHeader + Join(", ", result.value.keywords)
  {
    match result
    case None => [NothingExtracted]
    case Some(a) =>
      var title := "\n" + Rule('=') + "\nTITLE: " + a.title + "\n" + Rule('=');
      var summary := "\nSUMMARY:\n" + Rule('-') + "\n" + a.summary;
      var closing := "\n" + Rule('=');
      assert title[1] == '=' && summary[1] == 'S' && closing[1] == '=';
      assert !(KeywordsHeader <= title) && !(KeywordsHeader <= summary) && !(KeywordsHeader <= closing);
      assert summary[|summary| - |a.summary|..] == a.summary;
      if a.keywords == [] then
        [title, summary, closing]
      else
        var keywords := KeywordsHeader + Join(", ", a.keywords);
        var out := [title, summary, keywords, closing];
        assert KeywordsHeader <= out[2];
        out
  }
}
