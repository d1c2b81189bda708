/**
 The page records the search works on. Each loaded page is a flat record of the text
 fields taken from its markup; a page that failed to load is `None` in the corpus and is
 skipped by every search.
 */
module Pages {

  datatype Option<T> = None | Some(value: T)

  /** One `<img>` of a page: its `src` and `alt` attributes. */
  datatype Image = Image(src: string, alt: string)

  /**
   A loaded page: its number and address, the first `<title>`, `<h1>` and `<h2>`, the
   description and keywords meta tags, the text of every `<p>` joined with single spaces,
   and its images in document order.
   */
  datatype Page = Page(
    pageNum: nat,
    url: string,
    title: string,
    h1: string,
    h2: string,
    metaDescription: string,
    metaKeywords: string,
    paragraphs: string,
    images: seq<Image>)

  /** The loaded pages in load order; `None` marks a page that failed to load. */
  type Corpus = seq<Option<Page>>

  /** The text the meta pass searches: the description, a space, then the keywords. */
  function MetaText(p: Page): string {
    p.metaDescription + " " + p.metaKeywords
  }

  /** No page record is loaded twice; holds when page numbers are distinct. */
  predicate DistinctPages(corpus: Corpus) {
    forall i, j :: 0 <= i < j < |corpus| && corpus[i].Some? && corpus[j].Some? ==>
      corpus[i].value != corpus[j].value
  }
}
