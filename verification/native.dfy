/**
 Native extraction (`__extract_without_ocr`): post-process each page's text,
 classify the page, and list the pages that must go through OCR.
 */
module Native {
  import opened Wrappers
  import opened Text
  import opened Words
  import opened Pages
  import opened Documents

  /** The page-text post-processing of `__extract_without_ocr`: remove the
      watermark matches, collapse whitespace runs, strip. */
  function PostProcess(cfg: Config, raw: string): (r: string)
    ensures IsNormalized(r)
    ensures r == [] <==> (forall i :: 0 <= i < |cfg.stripWatermarks(raw)| ==> IsSpace(cfg.stripWatermarks(raw)[i]))
  {
    NormalizeWhitespace(cfg.stripWatermarks(raw))
  }

  /** The processed page text is the watermark-stripped text's tokens joined
      by single spaces: it is trimmed and single-spaced, and keeps the visible
      characters and the word count. */
  lemma PostProcessFacts(cfg: Config, raw: string)
    ensures IsNormalized(PostProcess(cfg, raw))
    ensures Visible(PostProcess(cfg, raw)) == Visible(cfg.stripWatermarks(raw))
    ensures WordCount(PostProcess(cfg, raw)) == WordCount(cfg.stripWatermarks(raw))
    ensures PostProcess(cfg, raw) == Join(' ', Tokens(cfg.stripWatermarks(raw)))
  {
    NormalizeKeepsWordCount(cfg.stripWatermarks(raw));
    NormalizeIsJoinedTokens(cfg.stripWatermarks(raw));
  }

  /** The page classification of `__extract_without_ocr`:
      `if text or get_word_count(text) >= MINIMUM_WORDS_PER_PAGE`. */
  function ClassifyPage(pageNo: nat, text: string, minWords: int): (r: PageRecord)
    ensures r.pageNo == pageNo
    ensures r.text.Some? <==> (text != [] || minWords <= 0)
    ensures r.text.Some? ==> r.text.value == text && r.ocr == Some(false)
    ensures r.text.None? ==> r.ocr.None?
    ensures minWords >= 1 ==> (r.text.Some? <==> text != [])
    ensures HasText(r) <==> text != []
  {
    if text != [] || WordCount(text) >= minWords then
      PageRecord(pageNo, Some(text), Some(false))
    else
      PageRecord(pageNo, None, None)
  }

  /** The post-processed text of page `i`, for a document whose pages all extract. */
  function PageText(doc: Document, cfg: Config, i: nat): string
    requires i < |doc.pages| && doc.pages[i].extracted.Some?
  {
    PostProcess(cfg, doc.pages[i].extracted.value)
  }

  /** `__extract_without_ocr`: the open is outside the `try`, so its failure
      propagates; any failure while processing a page discards every record. */
  function ExtractWithoutOcr(doc: Document, cfg: Config): (r: Result<seq<PageRecord>, Error>)
    ensures r.Failure? <==> !doc.opens
    ensures r.Failure? ==> r.error == OpenFailed
    ensures r.Success? ==> (r.value == [] <==> (|doc.pages| == 0 || !AllExtracted(doc)))
    ensures r.Success? && r.value != [] ==>
      && |r.value| == |doc.pages|
      && (forall i :: 0 <= i < |r.value| ==> r.value[i].pageNo == i)
      && (forall i :: 0 <= i < |r.value| ==>
            r.value[i] == ClassifyPage(i, PageText(doc, cfg, i), cfg.minWordsPerPage))
  {
    if !doc.opens then Failure(OpenFailed)
    else if !AllExtracted(doc) then Success([])
    else Success(seq(|doc.pages|, i requires 0 <= i < |doc.pages| =>
                   ClassifyPage(i, PageText(doc, cfg, i), cfg.minWordsPerPage)))
  }

  /** `reprocessing_page` in `__recognize_pdf`: the page numbers whose text is
      `None` or empty, in order. */
  function ReprocessingPages(native: seq<PageRecord>): (ps: seq<nat>)
    ensures |ps| <= |native|
    ensures forall p :: p in ps <==>
      exists i :: 0 <= i < |native| && native[i].pageNo == p && !HasText(native[i])
    ensures StrictlyAscending(native) ==> StrictlyIncreasing(ps)
  {
    if native == [] then []
    else
      var rest := ReprocessingPages(native[1..]);
      assert forall p :: p in rest <==>
        exists i :: 1 <= i < |native| && native[i].pageNo == p && !HasText(native[i]) by {
        forall p | p in rest
          ensures exists i :: 1 <= i < |native| && native[i].pageNo == p && !HasText(native[i])
        {
          var j :| 0 <= j < |native[1..]| && native[1..][j].pageNo == p && !HasText(native[1..][j]);
          assert native[j + 1] == native[1..][j];
        }
        forall p, i | 1 <= i < |native| && native[i].pageNo == p && !HasText(native[i])
          ensures p in rest
        {
          assert native[1..][i - 1] == native[i];
        }
      }
      var head := if !HasText(native[0]) then [native[0].pageNo] else [];
      assert StrictlyAscending(native) ==> StrictlyIncreasing(head + rest) by {
        if StrictlyAscending(native) {
          assert StrictlyAscending(native[1..]);
          forall j | 0 <= j < |rest|
            ensures native[0].pageNo < rest[j]
          {
            assert rest[j] in rest;
          }
        }
      }
      head + rest
  }

  /** With a non-positive threshold an empty page is kept as `{text: "", ocr: False}`,
      yet it is still queued for OCR because its text has length zero. */
  lemma EmptyPageKeptYetRequeued(doc: Document, cfg: Config, p: nat)
    requires doc.opens && AllExtracted(doc) && p < |doc.pages|
    requires PageText(doc, cfg, p) == [] && cfg.minWordsPerPage <= 0
    ensures ExtractWithoutOcr(doc, cfg).value[p] == PageRecord(p, Some([]), Some(false))
    ensures p in ReprocessingPages(ExtractWithoutOcr(doc, cfg).value)
  {
    var native := ExtractWithoutOcr(doc, cfg).value;
    assert native[p].pageNo == p && !HasText(native[p]);
  }
}
