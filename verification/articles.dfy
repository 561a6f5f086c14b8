/** The values that flow through the scraper. */
module Articles {

  /** What newspaper3k's `Article` holds after `download()`, `parse()` and
      `nlp()`: the extracted title and body text, the library's own summary
      (the baseline) and its keywords. */
  datatype ParsedArticle = ParsedArticle(
    title: string,
    text: string,
    summary: string,
    keywords: seq<string>)

  /** The dictionary both extraction paths return: `title`, `text`,
      `summary` and `keywords`. */
  datatype ArticleRecord = ArticleRecord(
    title: string,
    text: string,
    summary: string,
    keywords: seq<string>)

  /** NLTK's `sent_tokenize`, left uninterpreted: any function from a text to
      its sentence list. */
  type Tokenizer = string -> seq<string>
}
