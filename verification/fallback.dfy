/** The fallback path, `fallback_scrape`: fetch the page, take the title from
    the first `h1`, take the body from the first content selector that matches
    (or from all paragraphs), and summarise it by its first seven sentences. */
module Fallback {
  import opened Options
  import opened Seqs
  import opened Text
  import opened Articles

  /** The content selectors, in the order they are tried. */
  const ContentSelectors: seq<string> := [
    "article", ".article-content", ".article-body", ".story-body",
    ".content", ".story", ".post-content", "[itemprop=\"articleBody\"]"]

  /** The title used when the page has no `h1`. */
  const NoTitle: string := "No title found"

  /** The number of leading sentences the fallback summary keeps. */
  const LeadCap: nat := 7

  /** A fetched and parsed page, as far as the fallback looks at it:
      `heading` is the text of the first `h1`, if there is one; `selected`
      maps each content selector that matches some element to the text of
      the first such element with its `script` and `style` subtrees removed,
      every one of its text strings separated from the next by a newline;
      `paragraphs` are the texts of all `p` elements in document order, read
      after the `script` and `style` subtrees of the first matching element
      (if any) have been removed from the page. */
  datatype Page = Page(
    heading: Option<string>,
    selected: map<string, string>,
    paragraphs: seq<string>)

  /** The index of the first selector at or after position `i` that matches. */
  function FirstMatchFrom(selected: map<string, string>, i: nat): (r: Option<nat>)
    requires i <= |ContentSelectors|
    ensures r.Some? ==> && i <= r.value < |ContentSelectors|
                        && ContentSelectors[r.value] in selected
                        && forall j :: i <= j < r.value ==> ContentSelectors[j] !in selected
    ensures r.None? ==> forall j :: i <= j < |ContentSelectors| ==> ContentSelectors[j] !in selected
    decreases |ContentSelectors| - i
  {
    if i == |ContentSelectors| then None
    else if ContentSelectors[i] in selected then Some(i)
    else FirstMatchFrom(selected, i + 1)
  }

  /** The stripped text of the element the first matching selector picks, or
      `None` when no selector matches. */
  function SelectedText(selected: map<string, string>): Option<string> {
    match FirstMatchFrom(selected, 0)
    case None => None
    case Some(i) => Some(Strip(selected[ContentSelectors[i]]))
  }

  /** The paragraph fallback: the stripped paragraph texts joined by newlines. */
  function ParagraphText(page: Page): string {
    Join("\n", seq(|page.paragraphs|, k requires 0 <= k < |page.paragraphs| => Strip(page.paragraphs[k])))
  }

  /** The paragraph text keeps every paragraph, stripped, in document order:
      when no stripped paragraph contains a newline, splitting it at newlines
      gives the paragraphs back. */
  lemma ParagraphTextLines(page: Page)
    requires |page.paragraphs| > 0
    requires forall k :: 0 <= k < |page.paragraphs| ==> '\n' !in Strip(page.paragraphs[k])
    ensures var lines := Split(ParagraphText(page), '\n');
            && |lines| == |page.paragraphs|
            && forall k :: 0 <= k < |lines| ==> lines[k] == Strip(page.paragraphs[k])
  {
    var stripped := seq(|page.paragraphs|, k requires 0 <= k < |page.paragraphs| => Strip(page.paragraphs[k]));
    assert "\n" == ['\n'];
    SplitJoin(stripped, '\n');
  }

  /** The body text: the selected text unless there is none or it is empty. */
  function Content(page: Page): string {
    var selected := SelectedText(page.selected);
    if selected.None? || selected.value == [] then ParagraphText(page) else selected.value
  }

  function Title(page: Page): string {
    match page.heading
    case None => NoTitle
    case Some(h) => Strip(h)
  }

  /** Python's `sentences[:min(7, len(sentences))]`: the first seven
      sentences, or all of them when there are fewer. */
  function LeadSentences(sentences: seq<string>): (r: seq<string>)
    ensures r <= sentences
    ensures |r| == if |sentences| <= LeadCap then |sentences| else LeadCap
  {
    sentences[..Min(LeadCap, |sentences|)]
  }

  /** `fallback_scrape`: `None` when the fetch failed; otherwise the record of
      title, body text, lead summary and no keywords. The title is the
      stripped `h1` text, or "No title found" when there is no `h1`. */
  function FallbackScrape(fetched: Option<Page>, tokenize: Tokenizer): (r: Option<ArticleRecord>)
    ensures r.Some? <==> fetched.Some?
    ensures r.Some? ==> && r.value.text == Content(fetched.value)
                        && r.value.keywords == []
                        && (fetched.value.heading.None? ==> r.value.title == NoTitle)
                        && (fetched.value.heading.Some? ==> r.value.title == Strip(fetched.value.heading.value))
  {
    match fetched
    case None => None
    case Some(page) =>
      var content := Content(page);
      Some(ArticleRecord(Title(page), content, Join(" ", LeadSentences(tokenize(content))), []))
  }

  /** The body text is decided by the earliest matching selector alone: its
      stripped text when that is non-empty, the paragraph text when it is
      empty or when no selector matches at all. */
  lemma ContentChoice(page: Page)
    ensures forall i :: 0 <= i < |ContentSelectors| && ContentSelectors[i] in page.selected
                        && (forall j :: 0 <= j < i ==> ContentSelectors[j] !in page.selected) ==>
              Content(page) == (var t := Strip(page.selected[ContentSelectors[i]]);
                                if t != [] then t else ParagraphText(page))
    ensures (forall i :: 0 <= i < |ContentSelectors| ==> ContentSelectors[i] !in page.selected) ==>
              Content(page) == ParagraphText(page)
  {
    forall i | 0 <= i < |ContentSelectors| && ContentSelectors[i] in page.selected
               && (forall j :: 0 <= j < i ==> ContentSelectors[j] !in page.selected)
      ensures FirstMatchFrom(page.selected, 0) == Some(i)
    {
      FirstMatchIs(page.selected, i);
    }
  }

  /** A matching selector with no match before it is the first match. */
  lemma FirstMatchIs(selected: map<string, string>, i: nat)
    requires i < |ContentSelectors| && ContentSelectors[i] in selected
    requires forall j :: 0 <= j < i ==> ContentSelectors[j] !in selected
    ensures FirstMatchFrom(selected, 0) == Some(i)
  {
  }

  /** Selectors after the one that matched are never looked at: two pages that
      agree on which selectors up to the winning one match, and on the winning
      element's text, yield the same body text. */
  lemma LaterSelectorsIgnored(p1: Page, p2: Page, i: nat)
    requires i < |ContentSelectors|
    requires FirstMatchFrom(p1.selected, 0) == Some(i)
    requires forall j :: 0 <= j <= i ==> (ContentSelectors[j] in p1.selected <==> ContentSelectors[j] in p2.selected)
    requires ContentSelectors[i] in p2.selected
    requires p1.selected[ContentSelectors[i]] == p2.selected[ContentSelectors[i]]
    requires p1.paragraphs == p2.paragraphs
    ensures Content(p1) == Content(p2)
  {
    ContentChoice(p1);
    ContentChoice(p2);
  }

  /** The fallback summary joins the first seven sentences of the body text
      (all of them when there are at most seven), so it is a prefix of the
      joined sentence list. */
  lemma FallbackSummary(page: Page, tokenize: Tokenizer)
    ensures var r := FallbackScrape(Some(page), tokenize).value;
            var sentences := tokenize(r.text);
            && (|sentences| <= LeadCap ==> r.summary == Join(" ", sentences))
            && (|sentences| > LeadCap ==> r.summary == Join(" ", sentences[..LeadCap]))
            && r.summary <= Join(" ", sentences)
  {
    LeadSummary(tokenize(Content(page)));
  }

  /** The joined lead sentences: all of them up to seven, the first seven
      beyond that, and in either case a prefix of the joined list. */
  lemma LeadSummary(sentences: seq<string>)
    ensures |sentences| <= LeadCap ==> Join(" ", LeadSentences(sentences)) == Join(" ", sentences)
    ensures |sentences| > LeadCap ==> Join(" ", LeadSentences(sentences)) == Join(" ", sentences[..LeadCap])
    ensures Join(" ", LeadSentences(sentences)) <= Join(" ", sentences)
  {
    var lead := LeadSentences(sentences);
    LeadPieces(sentences, lead);
    JoinPrefix(" ", lead, sentences[|lead|..]);
  }

  lemma LeadPieces(sentences: seq<string>, lead: seq<string>)
    requires lead == sentences[..Min(LeadCap, |sentences|)]
    ensures sentences == lead + sentences[|lead|..]
    ensures |sentences| <= LeadCap ==> lead == sentences
  {
    assert sentences == sentences[..|lead|] + sentences[|lead|..];
  }
}
