# Article-Summary: summary selection and fallback, in Dafny

This project models the article pipeline of `scrape.py`. Article-Summary fetches a
news article from a URL, extracts its title and body, summarises it, and prints
the result. The pipeline is pure once its three external oracles become inputs:

- The newspaper3k `Article` (download, parse, nlp) becomes an `Option<ParsedArticle>`.
  `None` stands for any exception that `extract_article` catches.
- The page fetched with `requests` and parsed with BeautifulSoup becomes an
  `Option<Page>`. `None` stands for any exception that `fallback_scrape` catches.
  A `Page` holds the text of the first `h1`, if there is one. It maps each
  content selector that matches to the text of its first matching element, with
  `script`/`style` removed and a newline between every two of its text strings.
  It also lists the texts of all `p` elements in document order. Those are read
  after the winning element's `script`/`style` subtrees were removed from the
  page, because `decompose` changes the parsed page in place (scrape.py:61-62, 66).
- NLTK's `sent_tokenize` becomes a `Tokenizer` parameter, which is any total
  function from text to a sentence list.

Modules, one per component:

- `Options`: the `Option` type used for Python's `None`.
- `Seqs`: sequence vocabulary (`Elems`, `NoDups`, subsequence positions, first occurrences).
- `Text`: Python's `str.strip()` with the full `str.isspace()` character set,
  `sep.join(parts)`, and `str.split(c)`. `str.split(c)` is used only as the
  inverse of a join.
- `Articles`: `ParsedArticle`, `ArticleRecord` and `Tokenizer`.
- `Primary`: `extract_article`. This is the baseline-summary extension up to 10
  sentences. It has a declarative reference (`Fresh`/`FreshTail`), a recursive
  model of the loop (`ExtendFrom`) and a loop method (`BuildExtendedSentences`).
- `Fallback`: `fallback_scrape`. This covers title defaulting, first-match
  selection over the eight selectors, the paragraph fallback, and the
  seven-sentence lead summary.
- `Pipeline`: `process_article` (primary, then fallback) and the output blocks of `display_article`.

Two behaviours of the program are easy to miss:

- The paragraph fallback is taken when no selector matches. It is also taken
  when the matched element's text strips to empty (scrape.py:65).
- A baseline of more than ten sentences is kept whole, so the summary can have
  more than ten sentences (scrape.py:28-30).

## Model

| member | source | states |
|---|---|---|
| Text.Strip | scrape.py:63 | the result has no whitespace at either end, and it is empty exactly when the input is all whitespace |
| Text.StripSurround | scrape.py:63 | the input is the stripped text with a whitespace-only piece on either side |
| Text.StripLeft | scrape.py:63 | the result is the input without a whitespace-only prefix, and it does not start with whitespace |
| Text.StripRight | scrape.py:63 | the result is the input without a whitespace-only suffix, and it does not end with whitespace |
| Text.Join | scrape.py:33 | JoinAppend, JoinPrefix and SplitJoin state it: one separator between consecutive parts, and splitting a one-character join gives the parts back |
| Text.StripUnique | scrape.py:54 | any trimmed string with only whitespace around it is what strip returns, so strip is determined by its shape |
| Text.StripIdempotent | scrape.py:67 | stripping an already stripped text changes nothing |
| Text.JoinAppend | scrape.py:33 | joining two non-empty lists is the two joins with one separator between them |
| Text.JoinPrefix | scrape.py:69 | the join of a list starts with the join of any prefix of it |
| Text.SplitJoin | scrape.py:67 | a newline or space join can be split back into exactly its parts when no part contains the separator |
| Primary.FreshMembers | scrape.py:27-32 | the reference list of appendable sentences holds exactly the source sentences outside the excluded set, each once |
| Primary.ExtendFrom | scrape.py:27-32 | ExtendFromFresh states it: from any state the loop appends the first Room(len) reference sentences |
| Primary.ExtendedSentences | scrape.py:26-32 | ExtendedSentencesSpec states it: the baseline followed by FreshTail |
| Primary.ExtendFromFresh | scrape.py:29-32 | from any state, the loop appends exactly the first Room(len) reference sentences and nothing once the summary holds 10 |
| Primary.ExtendedSentencesSpec | scrape.py:26-32 | the extended list is the baseline followed by the first min(10 - len, D) fresh sentences |
| Primary.BuildExtendedSentences | scrape.py:27-32 | the loop with its membership set computes the baseline followed by the reference tail |
| Primary.FreshPositions | scrape.py:29-31 | the fresh sentences occur in the source at increasing positions, each at its first occurrence |
| Primary.ExtendKeepsBaseline | scrape.py:26-28 | the baseline sentences stay unchanged at the front, duplicates included; nothing is added to a baseline of 10 or more; the joined baseline is a prefix of the joined result |
| Primary.ExtendAppendsFreshSentences | scrape.py:29-32 | every appended sentence is from the source and not in the baseline, and no sentence is appended twice |
| Primary.ExtendFollowsSourceOrder | scrape.py:29-31 | the appended sentences are a subsequence of the source, in first-occurrence order |
| Primary.ExtendLength | scrape.py:30 | the length is the baseline length when that is 10 or more, else min(10, baseline + D), where D counts the distinct source sentences not in the baseline; the tail is a prefix of the reference |
| Primary.ExtractArticle | scrape.py:16-44 | None exactly when newspaper3k failed; title, text and keywords are passed through; empty text returns the baseline summary verbatim, otherwise the space-join of baseline plus reference tail |
| Primary.ExtractArticleKeepsBaseline | scrape.py:24-35 | the summary equals the baseline string when the text is empty, and otherwise starts with the baseline's joined sentences |
| Primary.ThreeSentenceScenario | scrape.py:24-33 | a three-sentence article whose baseline is sentence 2 gets the summary "s2 s1 s3" |
| Fallback.FirstMatchFrom | scrape.py:56-64 | the chosen selector matches and no earlier selector in the fixed list does; when none is chosen, no selector matches |
| Fallback.ContentChoice | scrape.py:55-67 | the body is the earliest matching selector's stripped text if that is non-empty, otherwise the newline-join of the stripped paragraphs; with no match it is the paragraph join |
| Fallback.LaterSelectorsIgnored | scrape.py:59-64 | selectors after the winning one have no influence on the body |
| Fallback.ParagraphTextLines | scrape.py:66-67 | when there is at least one paragraph and no stripped paragraph contains a newline, splitting the paragraph fallback at newlines gives back every stripped paragraph in document order |
| Fallback.FallbackScrape | scrape.py:46-78 | present exactly when the page was fetched; the text is the selected body (Content); keywords are empty; the title is "No title found" without an h1, else the stripped h1 text; FallbackSummary states the summary |
| Fallback.Title | scrape.py:53-54 | FallbackScrape states it: "No title found" without an h1, else the stripped h1 text |
| Fallback.SelectedText | scrape.py:56-64 | ContentChoice and LaterSelectorsIgnored state it through Content: the earliest matching selector's element, stripped |
| Fallback.ParagraphText | scrape.py:66-67 | ParagraphTextLines states it: the stripped paragraphs, newline-separated, in document order |
| Fallback.Content | scrape.py:55-67 | ContentChoice states it: the earliest match's stripped text when non-empty, else the paragraph text |
| Fallback.LeadSentences | scrape.py:69 | the result is a prefix of the sentence list of length 7, or of the whole list when it has at most 7 |
| Fallback.FallbackSummary | scrape.py:68-69 | the summary joins all sentences of the body when there are at most 7, else the first 7, and is a prefix of the joined sentence list |
| Pipeline.ProcessArticle | scrape.py:80-86 | the primary result whenever newspaper3k succeeded, otherwise exactly the fallback's result; None only when both paths fail |
| Pipeline.PrimaryWins | scrape.py:82-86 | with a successful primary path the result is present and independent of the fallback's input |
| Pipeline.DisplayArticle | scrape.py:88-97 | a single failure line for None; otherwise 3 blocks, or 4 with keywords; a keywords block exists exactly when keywords are non-empty, and it lists them comma-separated; the summary block ends with the summary |

## Left out

- newspaper3k `Article.download/parse/nlp` is an external library. Its output or failure is an input value.
- `requests.get`, `raise_for_status`, BeautifulSoup parsing, `select_one`, `decompose` and `get_text` are network access and HTML parsing. They are abstracted into `Page`, so the script/style removal and the newline between text strings belong to the `selected` oracle. The effect of that removal on the later `p` lookup belongs to the `paragraphs` oracle.
- `nltk.sent_tokenize` is an uninterpreted `Tokenizer` parameter. The import-time download of `punkt` (scrape.py:9-13) is I/O and is not modelled.
- Exceptions raised inside either path, including from the tokenizer, are collapsed into the `None` input of that path. The `print` diagnostics at scrape.py:43, 77 and 84 are output only and are not modelled.
- `display_article` is modelled as the list of strings passed to `print`. The trailing newline that `print` adds is not modelled.
- `argparse`, `main` and the `--full` text print (scrape.py:99-108) are CLI plumbing and are not modelled.
- `scrape_gui.py` is not part of this model. It is tkinter layout, a background thread, clipboard and browser calls, and float-based wrap lengths. Its `process_article(url, api_key)` call passes an argument that scrape.py:80 does not accept. No remote-summarisation path exists in the code, so none is modelled.
- Pipeline.DisplayArticle: does not state the exact title, rule and closing block texts. It states only the block structure, where the summary goes, and the keywords block's text.
