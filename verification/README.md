# Hybrid PDF text extraction: a Dafny model of the page-merge pipeline

The OCR service turns a PDF into per-page plain text. It first tries native
text extraction and falls back to optical character recognition only for the
pages where that fails. This project models the decision and merge logic
between the PDF library and the recognition model, and proves properties of it:

- **Native extraction** (`__extract_without_ocr`). Each page's text has the
  configured watermark patterns removed. Its whitespace runs are then
  collapsed to one space and the text is stripped. Finally the page is
  classified by the rule `text or get_word_count(text) >= MINIMUM_WORDS_PER_PAGE`.
- **The word counter** (`get_word_count`). It counts the matches of
  `\b\w+\b`, which are exactly the maximal runs of word characters.
- **Page selection and rasterisation** (`__convert_pdf_to_images`).
- **Batch recognition** (`SuryaProcessor.recognize_images`). The model itself
  is an abstract function from the ordered images to their predicted text
  lines.
- **Remapping of batch results onto page numbers** (`__extract_pdf_with_ocr`).
- **The merge** (`__filter_and_sort_data`). It drops records without text and
  then stable-sorts the rest by page number.
- **The orchestration** (`__recognize_pdf`). It has three paths:
  - full-document OCR when native extraction yields nothing;
  - the native records unchanged when every page has text;
  - otherwise, OCR of only the blank pages, merged with the native records.

A document is modelled as whether it opens plus, for each page, the text the
library extracts (`None` when extraction raises) and whether the page can be
rasterised. Raised exceptions become `Failure` values of a `Result`.

Modules, one per file:

- `Wrappers`: `Option` and `Result`.
- `Seqs`: generic sequence identities used by the text and page proofs.
- `Text`: Python's whitespace class, collapsing, stripping, `"\n".join`.
- `Words`: the word counter.
- `Pages`: page records, the text filter, the stable sort, the merge.
- `Documents`: the configuration, the document and the errors.
- `Native`: native extraction and the re-processing list.
- `Ocr`: page selection, rasterisation, recognition and remapping.
- `Pipeline`: `__recognize_pdf` and its end-to-end properties.

Behaviour of the code worth knowing:

- On the full-OCR path (`ocr_service/services/ocr_service.py:70-71, 187-188`)
  the recognition output is returned as it is. It is neither filtered nor
  sorted, and its records carry no `ocr` flag (`ocr` is `None` in the model).
- `fitz.open` runs outside the `try` in both native extraction (line 98) and
  rasterisation (line 205). A document that cannot be opened therefore fails
  the whole request with `OpenFailed`. It does not fall back to OCR.
- With `MINIMUM_WORDS_PER_PAGE <= 0`, an empty page is kept as
  `{text: "", ocr: False}`. It is nevertheless queued for OCR, because line 75
  tests `len(text) == 0`.
- An empty page filter selects every page, because line 209 tests the list's
  truthiness.
- A recognition batch shorter than the queue makes the remap raise
  `IndexError`, which the model reports as `IndexOutOfRange`.

## Model

| member | source | states |
|---|---|---|
| Text.IsSpace | ocr_service/services/ocr_service.py:155-156 | a character is whitespace exactly when it is one of Python's `str` whitespace code points (tab to carriage return, the file, group, record and unit separators, space, U+0085, U+00A0, U+1680, U+2000 to U+200A, U+2028, U+2029, U+202F, U+205F, U+3000); this one set is what both `\s` and `strip()` use |
| Text.TrimStart | ocr_service/services/ocr_service.py:156 | the result is a suffix of the input that does not start with whitespace, and everything dropped is whitespace |
| Text.TrimEnd | ocr_service/services/ocr_service.py:156 | the result is a prefix of the input that does not end with whitespace, and everything dropped is whitespace |
| Text.CollapseSpaces | ocr_service/services/ocr_service.py:155 | the result is single-spaced, no longer than the input, empty only for empty input, and starts with whitespace exactly when the input does |
| Text.CollapseRun | ocr_service/services/ocr_service.py:155 | a maximal whitespace run anywhere in the text becomes exactly one `' '`, and the text on either side of it collapses independently |
| Text.CollapseKeepsVisible | ocr_service/services/ocr_service.py:155 | collapsing whitespace runs keeps the non-whitespace characters and their order |
| Text.TrimStartKeepsVisible | ocr_service/services/ocr_service.py:156 | stripping leading whitespace keeps the non-whitespace characters |
| Text.TrimEndKeepsVisible | ocr_service/services/ocr_service.py:156 | stripping trailing whitespace keeps the non-whitespace characters |
| Text.TrimKeepsSingleSpaced | ocr_service/services/ocr_service.py:155-156 | stripping a single-spaced text leaves it single-spaced |
| Text.NormalizeWhitespace | ocr_service/services/ocr_service.py:155-156 | the processed text has no leading or trailing whitespace and no two adjacent whitespace characters, keeps every non-whitespace character in order, and is empty exactly when the input is all whitespace |
| Text.NormalizeIsJoinedTokens | ocr_service/services/ocr_service.py:155-156 | the post-processing equals `" ".join(text.split())`: the text's maximal non-whitespace runs, in order, with exactly one space between neighbours |
| Text.TokensAreTokens | ocr_service/services/ocr_service.py:155-156 | every piece of `split()` is a non-empty run without whitespace |
| Text.TokensOfJoin | ocr_service/services/ocr_service.py:155-156 | splitting a space-joined list of such runs gives the list back |
| Text.CollapseSingleSpaced | ocr_service/services/ocr_service.py:155 | collapsing leaves an already single-spaced text unchanged |
| Text.NormalizedIffFixpoint | ocr_service/services/ocr_service.py:155-156 | a text is unchanged by the post-processing exactly when it is already trimmed and single-spaced |
| Text.NormalizeIdempotent | ocr_service/services/ocr_service.py:155-156 | post-processing whitespace twice gives the same text as once |
| Text.Join | ocr_service/processor/surya_processor.py:38 | the joined text's length is the sum of the part lengths plus one separator between neighbours, and it is empty exactly for no parts or one empty part |
| Text.SplitJoin | ocr_service/processor/surya_processor.py:38 | splitting a joined text at the separator gives back its parts when no part contains the separator, so a page text gives back its recognised lines |
| Text.JoinSplit | ocr_service/processor/surya_processor.py:38 | joining the pieces of any text split at a separator restores the text |
| Text.JoinLines | ocr_service/processor/surya_processor.py:38 | a page text is empty exactly when there are no lines or one empty line |
| Words.IsWordChar | ocr_service/supports/utils.py:6 | a character belongs to `\w` exactly when it is an ASCII letter, an ASCII digit or `_` (the Unicode part is under "Left out") |
| Words.TakeWord | ocr_service/supports/utils.py:6 | the greedy `\w+` match at the start is the longest prefix of word characters |
| Words.SkipNonWord | ocr_service/supports/utils.py:6 | the scan resumes at the first word character, skipping only non-word characters |
| Words.FindWords | ocr_service/supports/utils.py:6 | there are no more matches than characters |
| Words.FindWordsAreWords | ocr_service/supports/utils.py:6 | every match is a non-empty run of word characters |
| Words.WordCount | ocr_service/supports/utils.py:4-7 | the word count is at most the length of the text |
| Words.WordCountZeroIff | ocr_service/supports/utils.py:6-7 | the count is zero exactly when the text has no word character, so the empty text counts zero |
| Words.RunStartsSplit | ocr_service/supports/utils.py:6 | the run starts of a concatenation are those of each part, the second scanned with the first's last character as context |
| Words.WordCountIsRunCount | ocr_service/supports/utils.py:6 | the number of findall matches equals the number of maximal runs of word characters |
| Words.WordCountJoin | ocr_service/supports/utils.py:6 | joining two texts with one non-word separator adds their counts |
| Words.CollapseKeepsRunStarts | ocr_service/services/ocr_service.py:155 | collapsing whitespace does not change the number of word runs |
| Words.NormalizeKeepsWordCount | ocr_service/services/ocr_service.py:155-157 | the word count seen by the classifier equals that of the text before whitespace processing |
| Pages.OnPage | ocr_service/services/ocr_service.py:91 | the records of one page are exactly the members with that page number |
| Pages.OnPageConcat | ocr_service/services/ocr_service.py:82 | the records of a page in a concatenation are those of the first list followed by those of the second |
| Pages.HasText | ocr_service/services/ocr_service.py:88 | a record's `entry.get('text')` is truthy exactly when its text is present and non-empty; it is also the negation of the queueing test `text is None or len(text) == 0` at line 75 |
| Pages.KeepWithText | ocr_service/services/ocr_service.py:88 | the filter keeps exactly the records whose text is present and non-empty |
| Pages.KeepMultiset | ocr_service/services/ocr_service.py:88 | every record with text is kept as often as it occurs in the input, and every other record is dropped |
| Pages.KeepConcat | ocr_service/services/ocr_service.py:88 | filtering distributes over concatenation |
| Pages.InsertByPage | ocr_service/services/ocr_service.py:91 | inserting into a sorted list gives a sorted list one longer, headed by the new record or the old head |
| Pages.InsertMultiset | ocr_service/services/ocr_service.py:91 | insertion adds exactly the one record and loses none |
| Pages.InsertOnPage | ocr_service/services/ocr_service.py:91 | insertion places the record before the records of its own page and leaves other pages untouched |
| Pages.SortByPage | ocr_service/services/ocr_service.py:91 | the sort is sorted by page, a permutation, and stable: each page's records keep their relative order |
| Pages.StableSortUnique | ocr_service/services/ocr_service.py:91 | a sorted list with the same per-page order is the same list, so the stable sort is fully determined |
| Pages.FilterAndSort | ocr_service/services/ocr_service.py:86-93 | the merge is sorted by page and is a permutation of the records with text; per page it is the input's records with text, in input order |
| Pages.MergeKeepsOperandOrder | ocr_service/services/ocr_service.py:82-93 | for equal page numbers the records of the OCR list come before those of the native list |
| Pages.UniqueOnPageAtMostOne | ocr_service/services/ocr_service.py:91 | a list with unique page numbers has at most one record per page |
| Pages.AtMostOneOnPageUnique | ocr_service/services/ocr_service.py:91 | at most one record per page means the page numbers are unique |
| Pages.MergeOfDisjointIsStrict | ocr_service/services/ocr_service.py:82-93 | merging two lists without repeated pages, which never both have text for one page, gives strictly ascending page numbers |
| Native.PostProcess | ocr_service/services/ocr_service.py:149-156 | the processed page text is trimmed and single-spaced, and it is empty exactly when the watermark-stripped text holds only whitespace |
| Native.PostProcessFacts | ocr_service/services/ocr_service.py:149-156 | the page text is the watermark-stripped text's whitespace-separated runs joined by single spaces; it is trimmed and single-spaced, and keeps the visible characters and the word count |
| Native.ClassifyPage | ocr_service/services/ocr_service.py:157-171 | a page is kept with `ocr` false exactly when its text is non-empty or the threshold is at most zero; for a threshold of at least one, exactly when the text is non-empty; otherwise it has no text and no flag |
| Native.ExtractWithoutOcr | ocr_service/services/ocr_service.py:96-177 | failure exactly when the document does not open; the result is empty exactly when there are no pages or some page fails; otherwise it has one classified record per page, numbered by page index |
| Native.ReprocessingPages | ocr_service/services/ocr_service.py:72-76 | the list holds exactly the page numbers of records with absent or empty text, strictly ascending when the records are |
| Native.EmptyPageKeptYetRequeued | ocr_service/services/ocr_service.py:157-164 | with a threshold of at most zero, an empty page is kept as empty text yet still queued for OCR |
| Ocr.Selects | ocr_service/services/ocr_service.py:209 | a page passes the loop's test exactly when `processing_page` is `None` or empty (falsy) or lists the page |
| Ocr.SelectPages | ocr_service/services/ocr_service.py:208-210 | the selected pages are strictly ascending and are exactly the in-range pages the filter admits |
| Ocr.StrictlyIncreasingUnique | ocr_service/services/ocr_service.py:208-210 | two strictly ascending page lists with the same members are equal |
| Ocr.SelectAllPages | ocr_service/services/ocr_service.py:208-210 | a `None` or empty filter selects every page in order |
| Ocr.SelectExactFilter | ocr_service/services/ocr_service.py:208-210 | a non-empty, strictly ascending, in-range filter is selected exactly, in its own order |
| Ocr.ConvertPdfToImages | ocr_service/services/ocr_service.py:202-222 | an unopenable document fails as opening; otherwise it fails exactly when a selected page cannot be rasterised, and it yields one image per selected page in page order |
| Ocr.RasteriseFailsOnSelectedPage | ocr_service/services/ocr_service.py:207-219 | a selected page that cannot be rasterised fails the conversion with the wrapped error |
| Ocr.RecognizeImages | ocr_service/processor/surya_processor.py:36-45 | one record per prediction, numbered by batch position, with the joined lines as text and no `ocr` flag |
| Ocr.Remap | ocr_service/services/ocr_service.py:189-198 | succeeds exactly when the batch has at least as many results as the list; then record `i` has page `processing_page[i]`, the `i`-th text, and `ocr` true |
| Ocr.ExtractPdfWithOcr | ocr_service/services/ocr_service.py:180-198 | an unopenable document fails as opening; otherwise the call fails with the rasterisation error when a selected page cannot be rasterised, fails with the index error when the batch is shorter than the list, and succeeds in every other case; without a list, record `i` has page `i`, the `i`-th prediction's joined lines and no flag; with a list, it has the `i`-th listed page, that text and `ocr` true |
| Ocr.FullOcrCoversEveryPage | ocr_service/services/ocr_service.py:183-188 | with every page renderable, full OCR gives one record per page, numbered by page, empty texts included |
| Ocr.RasteriseExactList | ocr_service/services/ocr_service.py:205-218 | renderable pages listed strictly ascending are rasterised exactly, in list order |
| Ocr.SubsetOcrFollowsList | ocr_service/services/ocr_service.py:183-198 | subset OCR gives one record per listed page, in list order, carrying that page's predicted text and `ocr` true |
| Pipeline.RecognizePdf | ocr_service/services/ocr_service.py:66-82 | the recognition fails with the open error exactly when the document does not open |
| Pipeline.NothingNativeMeansFullOcr | ocr_service/services/ocr_service.py:68-71 | when native extraction yields nothing, the result fails exactly when a page cannot be rasterised; otherwise it is the full OCR output, unfiltered and unsorted |
| Pipeline.NativeRecordsPerPage | ocr_service/services/ocr_service.py:101-171 | native extraction gives one record per page, strictly ascending, with text exactly when the processed page text is non-empty |
| Pipeline.QueuedExactlyEmptyPages | ocr_service/services/ocr_service.py:72-76 | the queued pages are strictly ascending and are exactly the pages whose processed text is empty |
| Pipeline.AllUsableNeedsNoOcr | ocr_service/services/ocr_service.py:77-78 | when every page has text, the native records are returned unchanged, one per page in order, with `ocr` false |
| Pipeline.QueuedPagesRender | ocr_service/services/ocr_service.py:208-213 | when blank pages render, every queued page is in range and renders |
| Pipeline.MixedPathOcrRecords | ocr_service/services/ocr_service.py:79-81 | the blank pages are OCR'd as one batch, giving one `ocr`-true record per queued page in queue order |
| Pipeline.MixedPathMerges | ocr_service/services/ocr_service.py:79-82 | the mixed result is the merge of the OCR records followed by the native records |
| Pipeline.QueuedPagesHaveNoNativeText | ocr_service/services/ocr_service.py:72-76 | no queued page has a native record with text, so the OCR and usable-native page sets are disjoint |
| Pipeline.MergeOfQueueAndNative | ocr_service/services/ocr_service.py:82-93 | OCR records for a strictly ascending queue of textless pages, merged with one native record per page, give strictly ascending pages |
| Pipeline.MixedPathStrictlyAscending | ocr_service/services/ocr_service.py:66-93 | the mixed path succeeds and its output is strictly ascending by page, with no page twice |
| Pipeline.MergeSound | ocr_service/services/ocr_service.py:82-93 | every merged record has text and an in-range page; it is the page's native record when that has text, and one of the OCR records otherwise |
| Pipeline.MergeComplete | ocr_service/services/ocr_service.py:82-93 | every native record with text and every non-empty OCR record survives the merge |
| Pipeline.MergeQueuedPageIsOcr | ocr_service/services/ocr_service.py:82-93 | a queued page appears in the merge only as its own OCR record, and only when that text is non-empty |
| Pipeline.MixedPathSound | ocr_service/services/ocr_service.py:66-93 | every record of the mixed result has text and a page below the page count; it is the native record of a page with text and the OCR record of a blank page |
| Pipeline.MixedPathComplete | ocr_service/services/ocr_service.py:66-93 | every page with native text keeps its native record, and every non-empty OCR text appears on its page |
| Pipeline.MixedPathQueuedPageIsOcr | ocr_service/services/ocr_service.py:66-93 | a blank page appears only as its own OCR record and only with non-empty OCR text, so a page blank to both passes is absent |
| Pipeline.BlankPageIsQueued | ocr_service/services/ocr_service.py:72-76 | a page whose processed text is empty is queued for OCR |
| Pipeline.MixedPathRenderFailure | ocr_service/services/ocr_service.py:219-220 | a blank page that cannot be rasterised fails the whole recognition, discarding the native results |
| Pipeline.QueuedPagesRasterised | ocr_service/services/ocr_service.py:205-218 | on the mixed path the queued pages are rasterised exactly, in queue order |
| Pipeline.ShortBatchFails | ocr_service/services/ocr_service.py:189-198 | a batch with fewer predictions than queued pages fails the recognition with the index error |

## Left out

- Content-stream sanitising (`ocr_service/services/ocr_service.py:104-142`) is
  not modelled. It rewrites annotations, `/Transparency`, `/CA`, `/ca` and
  `/Watermark` entries through side-effecting PDF-library calls. The model
  takes the page text the library extracts after sanitising as given.
- The watermark substitution at lines 149-153 uses a configured
  case-insensitive pattern. It is an uninterpreted `string -> string`
  (`Config.stripWatermarks`), and no property of it, idempotence included, is
  claimed. The pattern is assumed to compile: an invalid one raises `re.error`
  inside the `try` of lines 99-175 on the first page, so native extraction
  returns `[]` for every document and every request takes the full-OCR path
  of lines 70-71.
- Words.IsWordChar models `\w` as ASCII letters, digits and `_`. Python's `str`
  patterns also count Unicode letters and digits as word characters; the
  Unicode tables are not modelled.
- Rasterisation (`fitz.Matrix`, `get_pixmap`, PIL, zoom 1.5) is reduced to a
  per-page `renders` flag. Every failure becomes the `LogicError` of
  lines 219-220 (`RenderFailed`).
- The recognition model (model loading and `run_ocr` in
  `ocr_service/processor/surya_processor.py`) is an abstract function from
  images to predictions. The language hints are not modelled.
- `Ocr.FullOcrCoversEveryPage`, `Ocr.SubsetOcrFollowsList` and the seven
  lemmas `Pipeline.MixedPathOcrRecords`, `MixedPathMerges`,
  `MixedPathMergeInputs`, `MixedPathStrictlyAscending`, `MixedPathSound`,
  `MixedPathComplete` and `MixedPathQueuedPageIsOcr` require an engine that
  answers one prediction per image (`OnePredictionPerImage`). The other
  members of `Ocr` and `Pipeline` hold for every engine; for a short batch,
  `ShortBatchFails` and the contracts of `Remap` and `ExtractPdfWithOcr` give
  the index error.
- Ocr.RecognizeImages: an exception from model loading or `run_ocr`
  (`ocr_service/processor/surya_processor.py:26-35`) is not modelled, because the
  engine is a total function. In the service such an exception fails the
  whole request.
- Pipeline.NothingNativeMeansFullOcr: "fails exactly when a page cannot be
  rasterised" holds only for an engine that does not raise.
- Pipeline.MixedPathOcrRecords, `MixedPathMerges`, `MixedPathMergeInputs`,
  `MixedPathStrictlyAscending`, `MixedPathSound`, `MixedPathComplete` and
  `MixedPathQueuedPageIsOcr`: their success holds only for an engine that does
  not raise. The same applies to `Ocr.FullOcrCoversEveryPage` and
  `Ocr.SubsetOcrFollowsList`.
- Text.CollapseSpaces: its own contract does not say that a run becomes one
  space. `Text.CollapseRun` states that, and `Text.NormalizeIsJoinedTokens`
  pins the whole post-processing down.
- Upload handling, image recognition and temporary files
  (`ocr_service/services/ocr_service.py:24-64`) are not modelled: they are
  I/O and MIME sniffing.
- `ocr_service/server.py` (HTTP routes) and `ocr_service/supports/env.py`
  (environment loading) are not modelled. `MINIMUM_WORDS_PER_PAGE` and the
  watermark pattern are fields of `Config`.
- Logging, the closing of document handles and the `async` keywords are not
  modelled, because none of them affects the results.
- Words.FindWords states only the length bound itself; the matches are
  characterised by `FindWordsAreWords` and `WordCountIsRunCount`.
