/**
 The OCR fallback: choose the pages to rasterise (`__convert_pdf_to_images`),
 recognise the batch (`SuryaProcessor.recognize_images`) and put the results
 back on their document pages (`__extract_pdf_with_ocr`).
 */
module Ocr {
  import opened Wrappers
  import opened Seqs
  import opened Text
  import opened Pages
  import opened Documents

  /** A page rasterised at the fixed zoom of 1.5 x 1.5, known by its page index. */
  datatype Image = PageImage(pageNo: nat)

  /** The recognised text lines of one image. */
  type Prediction = seq<string>

  /** The recognition model: one batch call over the ordered images. Nothing
      forces it to answer with one prediction per image. */
  type OcrEngine = seq<Image> -> seq<Prediction>

  ghost predicate OnePredictionPerImage(engine: OcrEngine) {
    forall images :: |engine(images)| == |images|
  }

  /** The page test in `__convert_pdf_to_images`: `processing_page` is truthy when present and non-empty, and only
      then restricts the pages. */
  predicate Selects(filter: Option<seq<nat>>, p: nat) {
    filter.None? || filter.value == [] || p in filter.value
  }

  /** The page loop of `__convert_pdf_to_images`: the page indices, in
      ascending order, that the filter admits. */
  function SelectPages(pageCount: nat, filter: Option<seq<nat>>): (ps: seq<nat>)
    ensures StrictlyIncreasing(ps)
    ensures forall p: nat :: p in ps <==> p < pageCount && Selects(filter, p)
    ensures forall i :: 0 <= i < |ps| ==> ps[i] < pageCount
  {
    if pageCount == 0 then []
    else
      var below := SelectPages(pageCount - 1, filter);
      assert forall i :: 0 <= i < |below| ==> below[i] < pageCount - 1 by {
        forall i | 0 <= i < |below|
          ensures below[i] < pageCount - 1
        {
          assert below[i] in below;
        }
      }
      below + (if Selects(filter, pageCount - 1) then [pageCount - 1] else [])
  }

  /** Two strictly increasing sequences with the same elements are equal. */
  lemma {:induction false} StrictlyIncreasingUnique(a: seq<nat>, b: seq<nat>)
    requires StrictlyIncreasing(a) && StrictlyIncreasing(b)
    requires forall p :: p in a <==> p in b
    ensures a == b
    decreases |a|
  {
    if a != [] && b != [] {
      assert b[0] in a && a[0] in b;
      LeastOfIncreasing(a, b[0]);
      LeastOfIncreasing(b, a[0]);
      forall p
        ensures p in a[1..] <==> p in b[1..]
      {
        InTail(a, p);
        InTail(b, p);
      }
      StrictlyIncreasingUnique(a[1..], b[1..]);
      assert a == [a[0]] + a[1..];
      assert b == [b[0]] + b[1..];
    } else if a != [] {
      HeadIsMember(a);
      assert false;
    } else if b != [] {
      HeadIsMember(b);
      assert false;
    }
  }

  lemma LeastOfIncreasing(s: seq<nat>, p: nat)
    requires StrictlyIncreasing(s) && p in s
    ensures s[0] <= p
  {
    var j :| 0 <= j < |s| && s[j] == p;
  }

  lemma InTail(s: seq<nat>, p: nat)
    requires StrictlyIncreasing(s) && s != []
    ensures p in s[1..] <==> p in s && p != s[0]
  {
    if p in s && p != s[0] {
      var j :| 0 <= j < |s| && s[j] == p;
      assert s[1..][j - 1] == p;
    }
  }

  /** The page indices `0 .. n - 1`. */
  function Range(n: nat): (ps: seq<nat>)
    ensures |ps| == n && forall i :: 0 <= i < n ==> ps[i] == i
  {
    seq(n, i requires 0 <= i < n => i as nat)
  }

  /** Without a usable filter every page is rasterised, in page order. */
  lemma SelectAllPages(pageCount: nat, filter: Option<seq<nat>>)
    requires filter.None? || filter.value == []
    ensures SelectPages(pageCount, filter) == Range(pageCount)
  {
    var all := Range(pageCount);
    assert forall p: nat :: p in all <==> p < pageCount by {
      forall p: nat | p < pageCount
        ensures p in all
      {
        assert all[p] == p;
      }
    }
    StrictlyIncreasingUnique(SelectPages(pageCount, filter), all);
  }

  /** A non-empty, strictly increasing, in-range filter is selected exactly:
      rasterisation order then matches the filter's order, which the remap
      relies on. */
  lemma SelectExactFilter(pageCount: nat, filter: seq<nat>)
    requires filter != [] && StrictlyIncreasing(filter)
    requires forall i :: 0 <= i < |filter| ==> filter[i] < pageCount
    ensures SelectPages(pageCount, Some(filter)) == filter
  {
    StrictlyIncreasingUnique(SelectPages(pageCount, Some(filter)), filter);
  }

  /** The images of the given pages, in the given order. */
  function ImagesOf(pages: seq<nat>): (images: seq<Image>)
    ensures |images| == |pages|
    ensures forall i :: 0 <= i < |pages| ==> images[i].pageNo == pages[i]
  {
    seq(|pages|, i requires 0 <= i < |pages| => PageImage(pages[i]))
  }

  /** `__convert_pdf_to_images`: the open failure propagates as is; a failure to
      rasterise any selected page becomes a `LogicError` and no image survives. */
  function ConvertPdfToImages(doc: Document, filter: Option<seq<nat>>): (r: Result<seq<Image>, Error>)
    ensures !doc.opens ==> r == Failure(OpenFailed)
    ensures doc.opens ==>
      (r.Failure? <==> exists p: nat :: p < |doc.pages| && Selects(filter, p) && !doc.pages[p].renders)
    ensures r.Failure? ==> r.error != IndexOutOfRange
    ensures r.Success? ==> r.value == ImagesOf(SelectPages(|doc.pages|, filter))
  {
    if !doc.opens then Failure(OpenFailed)
    else
      var selected := SelectPages(|doc.pages|, filter);
      if forall i :: 0 <= i < |selected| ==> doc.pages[selected[i]].renders then
        assert forall p: nat :: p < |doc.pages| && Selects(filter, p) ==> doc.pages[p].renders by {
          forall p: nat | p < |doc.pages| && Selects(filter, p)
            ensures doc.pages[p].renders
          {
            assert p in selected;
          }
        }
        Success(ImagesOf(selected))
      else
        Failure(RenderFailed)
  }

  /** A selected page that cannot be rasterised fails the conversion. */
  lemma RasteriseFailsOnSelectedPage(doc: Document, filter: Option<seq<nat>>, p: nat)
    requires doc.opens && p < |doc.pages| && Selects(filter, p) && !doc.pages[p].renders
    ensures ConvertPdfToImages(doc, filter) == Failure(RenderFailed)
  {
  }

  /** `SuryaProcessor.recognize_images`: one record per prediction, numbered by
      its position in the batch, text lines joined with newlines, no `ocr` key. */
  function RecognizeImages(images: seq<Image>, engine: OcrEngine): (r: seq<PageRecord>)
    ensures |r| == |engine(images)|
    ensures forall i :: 0 <= i < |r| ==>
      && r[i].pageNo == i
      && r[i].ocr.None?
      && r[i].text == Some(JoinLines(engine(images)[i]))
  {
    var predictions := engine(images);
    seq(|predictions|, i requires 0 <= i < |predictions| =>
      PageRecord(i, Some(JoinLines(predictions[i])), None))
  }

  /** The remap loop of `__extract_pdf_with_ocr`: the `i`-th result is relabelled with `processing_page[i]`;
      a batch shorter than the list raises `IndexError` and yields nothing. */
  function Remap(processing: seq<nat>, results: seq<PageRecord>): (r: Result<seq<PageRecord>, Error>)
    ensures r.Success? <==> |results| >= |processing|
    ensures r.Failure? ==> r.error == IndexOutOfRange
    ensures r.Success? ==>
      && PageNos(r.value) == processing
      && (forall i :: 0 <= i < |processing| ==>
            r.value[i].text == results[i].text && r.value[i].ocr == Some(true))
  {
    if |results| < |processing| then Failure(IndexOutOfRange)
    else Success(seq(|processing|, i requires 0 <= i < |processing| =>
                   PageRecord(processing[i], results[i].text, Some(true))))
  }

  /** `__extract_pdf_with_ocr`. */
  function ExtractPdfWithOcr(doc: Document, processing: Option<seq<nat>>, engine: OcrEngine)
    : (r: Result<seq<PageRecord>, Error>)
    ensures !doc.opens ==> r == Failure(OpenFailed)
    ensures doc.opens ==>
      var predictions := engine(ImagesOf(SelectPages(|doc.pages|, processing)));
      var unrendered := exists p: nat :: p < |doc.pages| && Selects(processing, p) && !doc.pages[p].renders;
      && (unrendered ==> r == Failure(RenderFailed))
      && (!unrendered && processing.Some? && |predictions| < |processing.value| ==>
            r == Failure(IndexOutOfRange))
      && (!unrendered && (processing.None? || |predictions| >= |processing.value|) ==> r.Success?)
    ensures processing.None? && r.Success? ==>
      var predictions := engine(ImagesOf(SelectPages(|doc.pages|, None)));
      && |r.value| == |predictions|
      && forall i :: 0 <= i < |r.value| ==>
           r.value[i] == PageRecord(i, Some(JoinLines(predictions[i])), None)
    ensures processing.Some? && r.Success? ==>
      var predictions := engine(ImagesOf(SelectPages(|doc.pages|, processing)));
      && PageNos(r.value) == processing.value
      && |r.value| <= |predictions|
      && forall i :: 0 <= i < |r.value| ==>
           r.value[i] == PageRecord(processing.value[i], Some(JoinLines(predictions[i])), Some(true))
  {
    var images :- ConvertPdfToImages(doc, processing);
    var results := RecognizeImages(images, engine);
    if processing.None? then Success(results)
    else Remap(processing.value, results)
  }

  /** All pages rendered: full-document OCR numbers the records by page and
      keeps them all, empty texts included, without an `ocr` flag. */
  lemma FullOcrCoversEveryPage(doc: Document, engine: OcrEngine)
    requires doc.opens && OnePredictionPerImage(engine)
    requires forall p :: 0 <= p < |doc.pages| ==> doc.pages[p].renders
    ensures var r := ExtractPdfWithOcr(doc, None, engine);
      && r.Success?
      && |r.value| == |doc.pages|
      && forall i :: 0 <= i < |doc.pages| ==>
           r.value[i] == PageRecord(i, Some(JoinLines(engine(ImagesOf(Range(|doc.pages|)))[i])), None)
  {
    SelectAllPages(|doc.pages|, None);
    var images := ConvertPdfToImages(doc, None).value;
    assert images == ImagesOf(Range(|doc.pages|));
  }

  /** A strictly increasing in-range page list whose pages all render is
      rasterised exactly, in list order. */
  lemma RasteriseExactList(doc: Document, pages: seq<nat>)
    requires doc.opens
    requires pages != [] && StrictlyIncreasing(pages)
    requires forall i :: 0 <= i < |pages| ==> pages[i] < |doc.pages| && doc.pages[pages[i]].renders
    ensures ConvertPdfToImages(doc, Some(pages)) == Success(ImagesOf(pages))
  {
    SelectExactFilter(|doc.pages|, pages);
    assert forall p: nat :: p < |doc.pages| && Selects(Some(pages), p) ==> doc.pages[p].renders by {
      forall p: nat | p < |doc.pages| && Selects(Some(pages), p)
        ensures doc.pages[p].renders
      {
        var j :| 0 <= j < |pages| && pages[j] == p;
      }
    }
    var images := ConvertPdfToImages(doc, Some(pages)).value;
    assert images == ImagesOf(pages);
  }

  /** Subset OCR on a strictly increasing in-range page list whose pages all
      render: one record per listed page, in list order, flagged as OCR. */
  lemma SubsetOcrFollowsList(doc: Document, pages: seq<nat>, engine: OcrEngine)
    requires doc.opens && OnePredictionPerImage(engine)
    requires pages != [] && StrictlyIncreasing(pages)
    requires forall i :: 0 <= i < |pages| ==> pages[i] < |doc.pages| && doc.pages[pages[i]].renders
    ensures var r := ExtractPdfWithOcr(doc, Some(pages), engine);
      && r.Success?
      && |r.value| == |pages|
      && forall i :: 0 <= i < |pages| ==>
           r.value[i] == PageRecord(pages[i], Some(JoinLines(engine(ImagesOf(pages))[i])), Some(true))
  {
    RasteriseExactList(doc, pages);
  }
}
