/**
 The orchestration `__recognize_pdf`: native extraction first, full-document
 OCR when it yields nothing, and otherwise OCR of only the pages without text,
 merged back into the native results.
 */
module Pipeline {
  import opened Wrappers
  import opened Seqs
  import opened Text
  import opened Pages
  import opened Documents
  import opened Native
  import opened Ocr

  /** `__recognize_pdf`. */
  function RecognizePdf(doc: Document, cfg: Config, engine: OcrEngine): (r: Result<seq<PageRecord>, Error>)
    ensures r.Failure? ==> (r.error == OpenFailed <==> !doc.opens)
    ensures !doc.opens ==> r.Failure?
  {
    var native :- ExtractWithoutOcr(doc, cfg);
    if |native| == 0 then ExtractPdfWithOcr(doc, None, engine)
    else
      var reprocessing := ReprocessingPages(native);
      if |reprocessing| == 0 then Success(native)
      else
        var ocrRecords :- ExtractPdfWithOcr(doc, Some(reprocessing), engine);
        Success(FilterAndSort(ocrRecords + native))
  }

  /** The pages queued for OCR after native extraction of an openable document. */
  function Queued(doc: Document, cfg: Config): seq<nat>
    requires doc.opens
  {
    ReprocessingPages(ExtractWithoutOcr(doc, cfg).value)
  }

  /** Every page extracts, yet some page's post-processed text is empty. */
  predicate PartlyUsable(doc: Document, cfg: Config) {
    && doc.opens
    && AllExtracted(doc)
    && exists p: nat :: p < |doc.pages| && PageText(doc, cfg, p) == []
  }

  /** Every page whose post-processed text is empty can be rasterised. */
  predicate EmptyPagesRender(doc: Document, cfg: Config)
    requires AllExtracted(doc)
  {
    forall p: nat :: p < |doc.pages| && PageText(doc, cfg, p) == [] ==> doc.pages[p].renders
  }

  /** When native extraction yields nothing (no page, or a page failed), the
      whole document is OCR'd: it fails exactly when some page cannot be
      rasterised, and otherwise returns every prediction, numbered by page,
      empty texts included and without an `ocr` flag. */
  lemma NothingNativeMeansFullOcr(doc: Document, cfg: Config, engine: OcrEngine)
    requires doc.opens && (|doc.pages| == 0 || !AllExtracted(doc))
    ensures var r := RecognizePdf(doc, cfg, engine);
      var predictions := engine(ImagesOf(Range(|doc.pages|)));
      && (r.Failure? <==> exists p: nat :: p < |doc.pages| && !doc.pages[p].renders)
      && (r.Failure? ==> r.error == RenderFailed)
      && (r.Success? ==>
            && |r.value| == |predictions|
            && forall i :: 0 <= i < |r.value| ==>
                 r.value[i] == PageRecord(i, Some(JoinLines(predictions[i])), None))
  {
    var r := RecognizePdf(doc, cfg, engine);
    assert r == ExtractPdfWithOcr(doc, None, engine);
    var images := ConvertPdfToImages(doc, None);
    if images.Success? {
      SelectAllPages(|doc.pages|, None);
      assert images.value == ImagesOf(Range(|doc.pages|));
    }
  }

  /** Native extraction of a document whose pages all extract: one record per
      page, in page order, with text exactly when the page text is non-empty. */
  lemma NativeRecordsPerPage(doc: Document, cfg: Config)
    requires doc.opens && AllExtracted(doc) && |doc.pages| > 0
    ensures var native := ExtractWithoutOcr(doc, cfg).value;
      && |native| == |doc.pages|
      && StrictlyAscending(native)
      && forall i :: 0 <= i < |native| ==>
           native[i].pageNo == i && (HasText(native[i]) <==> PageText(doc, cfg, i) != [])
  {
  }

  /** The pages queued for OCR are, in ascending order, exactly those whose
      post-processed text is empty: a page with text never goes through OCR. */
  lemma QueuedExactlyEmptyPages(doc: Document, cfg: Config)
    requires doc.opens && AllExtracted(doc) && |doc.pages| > 0
    ensures StrictlyIncreasing(Queued(doc, cfg))
    ensures forall p: nat :: p in Queued(doc, cfg) <==> p < |doc.pages| && PageText(doc, cfg, p) == []
    ensures forall i :: 0 <= i < |Queued(doc, cfg)| ==> Queued(doc, cfg)[i] < |doc.pages|
  {
    NativeRecordsPerPage(doc, cfg);
    var native := ExtractWithoutOcr(doc, cfg).value;
    var q := Queued(doc, cfg);
    assert q == ReprocessingPages(native);
    forall p: nat
      ensures p in q <==> p < |doc.pages| && PageText(doc, cfg, p) == []
    {
      if p < |doc.pages| && PageText(doc, cfg, p) == [] {
        assert native[p].pageNo == p && !HasText(native[p]);
      }
    }
    forall i | 0 <= i < |q|
      ensures q[i] < |doc.pages|
    {
      assert q[i] in q;
    }
  }

  /** When every page yields text, the native records are returned as they are:
      one per page, in page order, flagged as not OCR'd. */
  lemma AllUsableNeedsNoOcr(doc: Document, cfg: Config, engine: OcrEngine)
    requires doc.opens && AllExtracted(doc) && |doc.pages| > 0
    requires forall p: nat :: p < |doc.pages| ==> PageText(doc, cfg, p) != []
    ensures var r := RecognizePdf(doc, cfg, engine);
      && r.Success?
      && |r.value| == |doc.pages|
      && forall i :: 0 <= i < |doc.pages| ==>
           r.value[i] == PageRecord(i, Some(PageText(doc, cfg, i)), Some(false))
  {
    QueuedExactlyEmptyPages(doc, cfg);
    var native := ExtractWithoutOcr(doc, cfg).value;
    var q := Queued(doc, cfg);
    assert q == [] by {
      if q != [] {
        HeadIsMember(q);
        assert false;
      }
    }
    assert RecognizePdf(doc, cfg, engine) == Success(native);
    forall i | 0 <= i < |doc.pages|
      ensures native[i] == PageRecord(i, Some(PageText(doc, cfg, i)), Some(false))
    {
      assert native[i] == ClassifyPage(i, PageText(doc, cfg, i), cfg.minWordsPerPage);
    }
  }

  lemma QueuedPagesRender(doc: Document, cfg: Config)
    requires doc.opens && AllExtracted(doc) && |doc.pages| > 0 && EmptyPagesRender(doc, cfg)
    ensures forall i :: 0 <= i < |Queued(doc, cfg)| ==>
      Queued(doc, cfg)[i] < |doc.pages| && doc.pages[Queued(doc, cfg)[i]].renders
  {
    QueuedExactlyEmptyPages(doc, cfg);
    var q := Queued(doc, cfg);
    forall i | 0 <= i < |q|
      ensures doc.pages[q[i]].renders
    {
      var p: nat := q[i];
      assert p in q;
      assert PageText(doc, cfg, p) == [];
    }
  }

  /** The mixed path: with some pages blank, the blank pages are OCR'd as one
      batch, giving one record per queued page, in queue order. */
  lemma MixedPathOcrRecords(doc: Document, cfg: Config, engine: OcrEngine)
    requires PartlyUsable(doc, cfg) && EmptyPagesRender(doc, cfg)
    requires OnePredictionPerImage(engine)
    ensures var q := Queued(doc, cfg);
      var predictions := engine(ImagesOf(q));
      var ocr := ExtractPdfWithOcr(doc, Some(q), engine);
      && q != []
      && |predictions| == |q|
      && ocr.Success?
      && |ocr.value| == |q|
      && (forall j :: 0 <= j < |q| ==>
            ocr.value[j] == PageRecord(q[j], Some(JoinLines(predictions[j])), Some(true)))
  {
    QueuedExactlyEmptyPages(doc, cfg);
    var q := Queued(doc, cfg);
    var p: nat :| p < |doc.pages| && PageText(doc, cfg, p) == [];
    assert p in q;
    QueuedPagesRender(doc, cfg);
    SubsetOcrFollowsList(doc, q, engine);
    assert |ImagesOf(q)| == |q|;
  }

  /** ... and the result is those records merged with the native ones. */
  lemma MixedPathMerges(doc: Document, cfg: Config, engine: OcrEngine)
    requires PartlyUsable(doc, cfg) && EmptyPagesRender(doc, cfg)
    requires OnePredictionPerImage(engine)
    ensures var ocr := ExtractPdfWithOcr(doc, Some(Queued(doc, cfg)), engine);
      && ocr.Success?
      && RecognizePdf(doc, cfg, engine)
           == Success(FilterAndSort(ocr.value + ExtractWithoutOcr(doc, cfg).value))
  {
    MixedPathOcrRecords(doc, cfg, engine);
    NativeRecordsPerPage(doc, cfg);
    var native := ExtractWithoutOcr(doc, cfg).value;
    var q := Queued(doc, cfg);
    assert |native| > 0 && ReprocessingPages(native) == q && q != [];
  }

  /** No page is both queued for OCR and carrying native text: the two operands
      of the merge never compete for a page. */
  lemma QueuedPagesHaveNoNativeText(doc: Document, cfg: Config)
    requires doc.opens && AllExtracted(doc) && |doc.pages| > 0
    ensures var native := ExtractWithoutOcr(doc, cfg).value;
      forall j :: 0 <= j < |Queued(doc, cfg)| ==>
        Queued(doc, cfg)[j] < |native| && !HasText(native[Queued(doc, cfg)[j]])
  {
    QueuedExactlyEmptyPages(doc, cfg);
    NativeRecordsPerPage(doc, cfg);
    var q := Queued(doc, cfg);
    forall j | 0 <= j < |q|
      ensures !HasText(ExtractWithoutOcr(doc, cfg).value[q[j]])
    {
      var p: nat := q[j];
      assert p in q;
    }
  }

  /** The merge step on its own: OCR records for a strictly increasing queue of
      pages, none of which has native text, merged with one native record per
      page, give strictly ascending page numbers. */
  lemma MergeOfQueueAndNative(ocr: seq<PageRecord>, native: seq<PageRecord>, q: seq<nat>)
    requires StrictlyIncreasing(q) && |ocr| == |q|
    requires forall j :: 0 <= j < |q| ==> ocr[j].pageNo == q[j]
    requires forall i :: 0 <= i < |native| ==> native[i].pageNo == i
    requires forall j :: 0 <= j < |q| ==> q[j] < |native| && !HasText(native[q[j]])
    ensures StrictlyAscending(FilterAndSort(ocr + native))
  {
    forall x, y | x in ocr && y in native && HasText(x) && HasText(y)
      ensures x.pageNo != y.pageNo
    {
      var j :| 0 <= j < |ocr| && ocr[j] == x;
      var i :| 0 <= i < |native| && native[i] == y;
      assert native[q[j]].pageNo == q[j];
    }
    MergeOfDisjointIsStrict(ocr, native);
  }

  /** The merged result holds at most one record per page, in ascending page
      order, although it concatenates two separately produced lists. */
  lemma MixedPathStrictlyAscending(doc: Document, cfg: Config, engine: OcrEngine)
    requires PartlyUsable(doc, cfg) && EmptyPagesRender(doc, cfg)
    requires OnePredictionPerImage(engine)
    ensures RecognizePdf(doc, cfg, engine).Success?
    ensures StrictlyAscending(RecognizePdf(doc, cfg, engine).value)
  {
    MixedPathOcrRecords(doc, cfg, engine);
    MixedPathMerges(doc, cfg, engine);
    NativeRecordsPerPage(doc, cfg);
    QueuedPagesHaveNoNativeText(doc, cfg);
    var q := Queued(doc, cfg);
    var ocr := ExtractPdfWithOcr(doc, Some(q), engine).value;
    var native := ExtractWithoutOcr(doc, cfg).value;
    assert StrictlyIncreasing(q);
    MergeOfQueueAndNative(ocr, native, q);
  }

  /** The OCR record of the `j`-th queued page. */
  function OcrRecord(q: seq<nat>, predictions: seq<Prediction>, j: nat): PageRecord
    requires j < |q| && j < |predictions|
  {
    PageRecord(q[j], Some(JoinLines(predictions[j])), Some(true))
  }

  /** The setting of the merge: one native record per page, and one OCR record
      per queued page, none of which has native text. */
  predicate MergeInputs(ocr: seq<PageRecord>, native: seq<PageRecord>, q: seq<nat>, predictions: seq<Prediction>) {
    && |ocr| == |q| == |predictions|
    && (forall j :: 0 <= j < |q| ==> ocr[j] == OcrRecord(q, predictions, j))
    && (forall i :: 0 <= i < |native| ==> native[i].pageNo == i)
    && (forall j :: 0 <= j < |q| ==> q[j] < |native| && !HasText(native[q[j]]))
  }

  /** Every merged record has text, and it is the native record of its page when
      that page has native text, and an OCR record of the page otherwise. */
  lemma MergeSound(ocr: seq<PageRecord>, native: seq<PageRecord>, q: seq<nat>, predictions: seq<Prediction>)
    requires MergeInputs(ocr, native, q, predictions)
    ensures forall x :: x in FilterAndSort(ocr + native) ==>
      && HasText(x)
      && x.pageNo < |native|
      && (if HasText(native[x.pageNo]) then x == native[x.pageNo]
          else exists j :: 0 <= j < |q| && x == OcrRecord(q, predictions, j))
  {
    var out := FilterAndSort(ocr + native);
    forall x | x in out
      ensures x.pageNo < |native|
      ensures if HasText(native[x.pageNo]) then x == native[x.pageNo]
              else exists j :: 0 <= j < |q| && x == OcrRecord(q, predictions, j)
    {
      assert x in ocr + native && HasText(x);
      if x in native {
        var i :| 0 <= i < |native| && native[i] == x;
        assert x.pageNo == i && HasText(native[i]);
      } else {
        var j :| 0 <= j < |ocr| && ocr[j] == x;
        assert x == OcrRecord(q, predictions, j);
        assert x.pageNo == q[j] && !HasText(native[q[j]]);
      }
    }
  }

  /** Nothing with text is lost: every native record with text and every
      non-empty OCR record is in the merge. */
  lemma MergeComplete(ocr: seq<PageRecord>, native: seq<PageRecord>, q: seq<nat>, predictions: seq<Prediction>)
    requires MergeInputs(ocr, native, q, predictions)
    ensures forall i :: 0 <= i < |native| && HasText(native[i]) ==> native[i] in FilterAndSort(ocr + native)
    ensures forall j :: 0 <= j < |q| && JoinLines(predictions[j]) != [] ==>
      OcrRecord(q, predictions, j) in FilterAndSort(ocr + native)
  {
    forall j | 0 <= j < |q| && JoinLines(predictions[j]) != []
      ensures OcrRecord(q, predictions, j) in FilterAndSort(ocr + native)
    {
      assert ocr[j] in ocr + native;
    }
    forall i | 0 <= i < |native| && HasText(native[i])
      ensures native[i] in FilterAndSort(ocr + native)
    {
      assert native[i] in ocr + native;
    }
  }

  /** A queued page appears in the merge only as its own OCR record, and only
      when that record's text is non-empty: a page blank in both passes is absent. */
  lemma MergeQueuedPageIsOcr(ocr: seq<PageRecord>, native: seq<PageRecord>, q: seq<nat>, predictions: seq<Prediction>)
    requires MergeInputs(ocr, native, q, predictions) && StrictlyIncreasing(q)
    ensures forall x, j :: x in FilterAndSort(ocr + native) && 0 <= j < |q| && x.pageNo == q[j] ==>
      x == OcrRecord(q, predictions, j) && JoinLines(predictions[j]) != []
  {
    var out := FilterAndSort(ocr + native);
    MergeSound(ocr, native, q, predictions);
    forall x, j | x in out && 0 <= j < |q| && x.pageNo == q[j]
      ensures x == OcrRecord(q, predictions, j) && JoinLines(predictions[j]) != []
    {
      assert HasText(x) && !HasText(native[q[j]]);
      var k :| 0 <= k < |q| && x == OcrRecord(q, predictions, k);
      IncreasingInjective(q, k, j);
    }
  }

  lemma IncreasingInjective(q: seq<nat>, k: nat, j: nat)
    requires StrictlyIncreasing(q) && k < |q| && j < |q| && q[k] == q[j]
    ensures k == j
  {
  }

  /** On the mixed path the actual OCR and native records form a merge setting. */
  lemma MixedPathMergeInputs(doc: Document, cfg: Config, engine: OcrEngine)
    requires PartlyUsable(doc, cfg) && EmptyPagesRender(doc, cfg)
    requires OnePredictionPerImage(engine)
    ensures var q := Queued(doc, cfg);
      var ocr := ExtractPdfWithOcr(doc, Some(q), engine);
      var native := ExtractWithoutOcr(doc, cfg).value;
      && ocr.Success?
      && StrictlyIncreasing(q)
      && MergeInputs(ocr.value, native, q, engine(ImagesOf(q)))
      && RecognizePdf(doc, cfg, engine) == Success(FilterAndSort(ocr.value + native))
  {
    MixedPathOcrRecords(doc, cfg, engine);
    MixedPathMerges(doc, cfg, engine);
    NativeRecordsPerPage(doc, cfg);
    QueuedPagesHaveNoNativeText(doc, cfg);
    var q := Queued(doc, cfg);
    assert StrictlyIncreasing(q);
  }

  /** What the mixed path returns: every record has text, and it is the native
      record of its page when that page has native text, and the OCR record of
      the page otherwise. */
  lemma MixedPathSound(doc: Document, cfg: Config, engine: OcrEngine)
    requires PartlyUsable(doc, cfg) && EmptyPagesRender(doc, cfg)
    requires OnePredictionPerImage(engine)
    ensures var r := RecognizePdf(doc, cfg, engine);
      var native := ExtractWithoutOcr(doc, cfg).value;
      var q := Queued(doc, cfg);
      var predictions := engine(ImagesOf(q));
      && r.Success?
      && |predictions| == |q|
      && forall x :: x in r.value ==>
           && HasText(x)
           && x.pageNo < |native|
           && (if HasText(native[x.pageNo]) then x == native[x.pageNo]
               else exists j :: 0 <= j < |q| && x == OcrRecord(q, predictions, j))
  {
    MixedPathMergeInputs(doc, cfg, engine);
    var q := Queued(doc, cfg);
    MergeSound(ExtractPdfWithOcr(doc, Some(q), engine).value, ExtractWithoutOcr(doc, cfg).value,
               q, engine(ImagesOf(q)));
  }

  /** Nothing with text is lost on the mixed path. */
  lemma MixedPathComplete(doc: Document, cfg: Config, engine: OcrEngine)
    requires PartlyUsable(doc, cfg) && EmptyPagesRender(doc, cfg)
    requires OnePredictionPerImage(engine)
    ensures var r := RecognizePdf(doc, cfg, engine);
      var native := ExtractWithoutOcr(doc, cfg).value;
      var q := Queued(doc, cfg);
      var predictions := engine(ImagesOf(q));
      && r.Success?
      && |predictions| == |q|
      && (forall i :: 0 <= i < |native| && HasText(native[i]) ==> native[i] in r.value)
      && (forall j :: 0 <= j < |q| && JoinLines(predictions[j]) != [] ==>
            OcrRecord(q, predictions, j) in r.value)
  {
    MixedPathMergeInputs(doc, cfg, engine);
    var q := Queued(doc, cfg);
    MergeComplete(ExtractPdfWithOcr(doc, Some(q), engine).value, ExtractWithoutOcr(doc, cfg).value,
                  q, engine(ImagesOf(q)));
  }

  /** On the mixed path a blank page appears only as its own OCR record, and
      only when the OCR text is non-empty: a page blank to both passes is absent. */
  lemma MixedPathQueuedPageIsOcr(doc: Document, cfg: Config, engine: OcrEngine)
    requires PartlyUsable(doc, cfg) && EmptyPagesRender(doc, cfg)
    requires OnePredictionPerImage(engine)
    ensures var r := RecognizePdf(doc, cfg, engine);
      var q := Queued(doc, cfg);
      var predictions := engine(ImagesOf(q));
      && r.Success?
      && |predictions| == |q|
      && forall x, j :: x in r.value && 0 <= j < |q| && x.pageNo == q[j] ==>
           x == OcrRecord(q, predictions, j) && JoinLines(predictions[j]) != []
  {
    MixedPathMergeInputs(doc, cfg, engine);
    var q := Queued(doc, cfg);
    MergeQueuedPageIsOcr(ExtractPdfWithOcr(doc, Some(q), engine).value, ExtractWithoutOcr(doc, cfg).value,
                         q, engine(ImagesOf(q)));
  }

  /** A page whose processed text is empty is queued for OCR. */
  lemma BlankPageIsQueued(doc: Document, cfg: Config, p: nat)
    requires doc.opens && AllExtracted(doc) && p < |doc.pages| && PageText(doc, cfg, p) == []
    ensures p in Queued(doc, cfg)
  {
    var native := ExtractWithoutOcr(doc, cfg).value;
    assert native[p].pageNo == p && !HasText(native[p]);
  }

  /** On the mixed path a blank page that cannot be rasterised makes the whole
      recognition fail, discarding the native results. */
  lemma MixedPathRenderFailure(doc: Document, cfg: Config, engine: OcrEngine)
    requires PartlyUsable(doc, cfg)
    requires exists p: nat :: p < |doc.pages| && PageText(doc, cfg, p) == [] && !doc.pages[p].renders
    ensures RecognizePdf(doc, cfg, engine) == Failure(RenderFailed)
  {
    var q := Queued(doc, cfg);
    var p: nat :| p < |doc.pages| && PageText(doc, cfg, p) == [] && !doc.pages[p].renders;
    BlankPageIsQueued(doc, cfg, p);
    RasteriseFailsOnSelectedPage(doc, Some(q), p);
    assert ExtractPdfWithOcr(doc, Some(q), engine) == Failure(RenderFailed);
  }

  /** On the mixed path the queued pages are rasterised exactly, in queue order. */
  lemma QueuedPagesRasterised(doc: Document, cfg: Config)
    requires PartlyUsable(doc, cfg) && EmptyPagesRender(doc, cfg)
    ensures Queued(doc, cfg) != []
    ensures ConvertPdfToImages(doc, Some(Queued(doc, cfg))) == Success(ImagesOf(Queued(doc, cfg)))
  {
    QueuedExactlyEmptyPages(doc, cfg);
    QueuedPagesRender(doc, cfg);
    var q := Queued(doc, cfg);
    var p: nat :| p < |doc.pages| && PageText(doc, cfg, p) == [];
    assert p in q;
    RasteriseExactList(doc, q);
  }

  /** A batch answer with fewer predictions than queued pages makes the remap
      raise, and the recognition fails. */
  lemma ShortBatchFails(doc: Document, cfg: Config, engine: OcrEngine)
    requires PartlyUsable(doc, cfg) && EmptyPagesRender(doc, cfg)
    requires |engine(ImagesOf(Queued(doc, cfg)))| < |Queued(doc, cfg)|
    ensures RecognizePdf(doc, cfg, engine) == Failure(IndexOutOfRange)
  {
    QueuedPagesRasterised(doc, cfg);
    var q := Queued(doc, cfg);
    var results := RecognizeImages(ImagesOf(q), engine);
    assert Remap(q, results) == Failure(IndexOutOfRange);
    assert ExtractPdfWithOcr(doc, Some(q), engine) == Failure(IndexOutOfRange);
    assert ExtractWithoutOcr(doc, cfg).value != [];
  }
}
