/**
 The environment of the pipeline: the configuration it reads, the PDF as the
 document library presents it, and the failures that reach the caller.
 */
module Documents {
  import opened Wrappers

  /** `MINIMUM_WORDS_PER_PAGE` and the case-insensitive removal of
      `WATERMARK_PATTERNS`, which the model leaves uninterpreted. */
  datatype Config = Config(minWordsPerPage: int, stripWatermarks: string -> string)

  /** One page. `extracted` is what `page.get_text()` returns after the content
      sanitising, or `None` when sanitising or extraction raises; `renders`
      says whether the page can be rasterised. */
  datatype Page = Page(extracted: Option<string>, renders: bool)

  /** `opens` says whether `fitz.open(path)` succeeds. */
  datatype Document = Document(opens: bool, pages: seq<Page>)

  /** Exceptions that propagate out of `__recognize_pdf`: the library's open
      error, the `LogicError` wrapping a rasterisation failure, and the
      `IndexError` of the remap when the OCR batch is too short. */
  datatype Error = OpenFailed | RenderFailed | IndexOutOfRange

  predicate AllExtracted(doc: Document) {
    forall i :: 0 <= i < |doc.pages| ==> doc.pages[i].extracted.Some?
  }
}
