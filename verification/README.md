# PDF tool core, modelled in Dafny

The PDF tool is a browser application with three components:

- **The splitter** loads one PDF. The user marks cut positions after pages and deletes pages, and the splitter downloads the remaining pages. The result is one PDF when there is one segment, and a ZIP archive of numbered PDFs when there are several.
- **The picture-to-PDF converter** keeps an ordered list of JPEG/PNG pictures. The user can reorder them by dragging and remove them. It turns them into one PDF with one page per picture.
- **The merger** keeps an ordered list of PDF files and concatenates all their pages into one PDF.

The model follows the components' own form:

- The state each component keeps in React hooks is a Dafny `class` whose fields are that state.
- Event handlers are methods with `modifies` clauses.
- The pure updaters handed to the state setters, the segment computation and the file naming are functions.
- The loops of the source are `for` loops with invariants: the segment scan, the archive loop, the picture loop and the merge loop.

The PDF codec is abstracted:

- Loading bytes is a function parameter `Codec` that returns a document (a sequence of pages) or nothing.
- Embedding a picture is a parameter `ImageDecoder` that accepts or rejects the bytes.
- Copying pages by index fails on an index outside the source.
- What reaches the browser is an `Outcome`:
  - nothing (`Skipped`);
  - the "no pages" notice (`NothingToDownload`);
  - a caught error (`Failed`);
  - a `PdfFile` or `ZipArchive` value with its names and pages.

Files:

- `wrappers.dfy`: `Option`.
- `lists.dfy`: flattening, filtering, removal by position, and relocation of one item.
- `documents.dfy`: files, pages, the codec and the outcomes.
- `segmentation.dfy`: the segment computation and its characterisation.
- `split_naming.dfy`: the output names.
- `splitter.dfy`: the splitter state and operations.
- `split_view.dfy`: what the split view offers per page and per marker.
- `image_to_pdf.dfy`: the picture list.
- `pdf_merger.dfy`: the merge list.

The segment computation is specified twice:

1. `Segmentation.Split` is a recursive reference definition.
2. `Segmentation.IsSegmentation` is the property any correct answer has: the segments concatenate to the active pages, none is empty, each but the last ends on a cut, and no cut page appears anywhere but at a segment's end.

Two lemmas show that the two coincide. `Splitter.Splitter.GetSegments`, the loop of the source, is proved equal to them.

## Model

| member | source | states |
|---|---|---|
| Segmentation.ActivePages | src/components/PDFSplitter.tsx:64-66 | the active pages are exactly the page indices below the page count that are not deleted, in strictly increasing order |
| Segmentation.Split | src/components/PDFSplitter.tsx:79-96 | the scan over the active pages; its contract is stated by Segmentation.SplitIsSegmentation and Segmentation.SegmentationIsSplit |
| Segmentation.Segments | src/components/PDFSplitter.tsx:57-100 | `getSegments` with its early returns; its contract is stated by Segmentation.SegmentsAreSegmentation, SegmentsEmptyOrWhole, SegmentsPartition, SegmentsOrdered and SegmentsBoundaries |
| Segmentation.SplitIsSegmentation | src/components/PDFSplitter.tsx:79-96 | cutting after every cut page gives segments that concatenate back to the pages, are non-empty, end on a cut (all but the last) and contain no cut page before their end |
| Segmentation.SegmentationIsSplit | src/components/PDFSplitter.tsx:79-96 | any segmentation with those properties is the one computed: the result of the scan is uniquely determined |
| Segmentation.SplitWithoutCuts | src/components/PDFSplitter.tsx:74-77 | without cuts the scan would return the active pages as one segment, so the early return agrees with the loop |
| Segmentation.SegmentsAreSegmentation | src/components/PDFSplitter.tsx:57-100 | the segments of the whole function (with its early returns) are a segmentation of the active pages |
| Segmentation.SegmentsEmptyOrWhole | src/components/PDFSplitter.tsx:69-77 | there are no segments exactly when every page is deleted; with no cut and some active page there is one segment of all active pages |
| Segmentation.SegmentsPartition | src/components/PDFSplitter.tsx:79-96 | the segments concatenate to the active pages in ascending order, so every page that is not deleted occurs exactly once and no other page occurs |
| Segmentation.SegmentsOrdered | src/components/PDFSplitter.tsx:79-96 | within a segment pages ascend, and every page of an earlier segment precedes every page of a later one |
| Segmentation.SegmentsBoundaries | src/components/PDFSplitter.tsx:85-89 | every segment but the last ends on a cut position, and no cut page is inside a segment |
| Segmentation.SplitDependsOnInnerCuts | src/components/PDFSplitter.tsx:85 | the segmentation depends only on which pages other than the last are cuts |
| Segmentation.SegmentsDependOnActiveCuts | src/components/PDFSplitter.tsx:64-96 | cut positions on deleted pages, outside the document or on the last active page change nothing |
| Segmentation.FivePagesTwoCuts | src/components/PDFSplitter.tsx:57-100 | five pages with cuts after pages 1 and 3 (0-based) give the segments [0,1], [2,3], [4] |
| Segmentation.SegmentPagesInRange | src/components/PDFSplitter.tsx:64-66 | every page of every segment is a page of the document and is not deleted |
| Segmentation.SegmentStart | src/components/PDFSplitter.tsx:82-89 | the page after a cut page opens a segment whose index is the number of cut pages before it |
| Splitter.SortAscending | src/components/PDFSplitter.tsx:29 | the numeric sort returns the same numbers, as a multiset, in ascending order |
| Splitter.WithSplit | src/components/PDFSplitter.tsx:28-30 | adding a cut yields an ascending list with exactly one more occurrence of the position; nothing is deduplicated |
| Splitter.WithoutSplit | src/components/PDFSplitter.tsx:32-34 | removing a cut drops every occurrence of the position, keeps all other positions with their counts and order |
| Splitter.WithDeleted | src/components/PDFSplitter.tsx:36-38 | deleting a page puts it in the set and leaves every other page's status alone |
| Splitter.WithoutDeleted | src/components/PDFSplitter.tsx:40-46 | restoring a page takes it out of the set and leaves every other page's status alone |
| Splitter.SortAscendingKeepsSorted | src/components/PDFSplitter.tsx:29 | sorting a list that is already ascending returns it unchanged |
| Splitter.WithSplitIsInsertion | src/components/PDFSplitter.tsx:28-30 | on an ascending cut list, adding a cut inserts the position at its place |
| Splitter.SplitUpdatesKeepStrict | src/components/PDFSplitter.tsx:28-34 | adding a position that is not yet a cut, or removing any, keeps the cut list strictly increasing |
| Splitter.CutTwiceSameSegments | src/components/PDFSplitter.tsx:28-30 | adding the same cut twice gives the segments of adding it once |
| Splitter.InertCut | src/components/PDFSplitter.tsx:28-30 | a cut on a deleted page, outside the document or after the last active page leaves the segments unchanged |
| Splitter.ActiveCountMatches | src/components/PDFSplitter.tsx:168 | with deleted pages inside the document, page count minus deleted count is the number of active pages |
| Splitter.ConsistentSourceCopies | src/components/PDFSplitter.tsx:117-121 | loaded from bytes with the stored page count, every segment's pages can be copied |
| Splitter.Splitter.constructor | src/components/PDFSplitter.tsx:11-15 | no file, no bytes, zero pages, no cuts and no deletions |
| Splitter.Splitter.HandleFileSelect | src/components/PDFSplitter.tsx:17-26 | file and bytes are stored first; a successful load sets the page count and clears cuts and deletions, a failed one leaves them as they were |
| Splitter.Splitter.AddSplitLine | src/components/PDFSplitter.tsx:28-30 | the cut list becomes the sorted list with the new position added |
| Splitter.Splitter.RemoveSplitLine | src/components/PDFSplitter.tsx:32-34 | the cut list loses every occurrence of the position |
| Splitter.Splitter.DeletePage | src/components/PDFSplitter.tsx:36-38 | the page joins the deleted set |
| Splitter.Splitter.UndeletePage | src/components/PDFSplitter.tsx:40-46 | the page leaves the deleted set |
| Splitter.Splitter.ClearAllSplits | src/components/PDFSplitter.tsx:48-50 | no cut remains, and the state stays valid |
| Splitter.Splitter.RestoreAllDeleted | src/components/PDFSplitter.tsx:52-54 | no page remains deleted, and the state stays valid |
| Splitter.Splitter.ActivePagesCount | src/components/PDFSplitter.tsx:168 | the count is the number of active pages, and it is zero exactly when there is nothing to download |
| Splitter.Splitter.GetSegments | src/components/PDFSplitter.tsx:57-100 | the accumulator loop returns exactly the segmentation of the active pages along the cuts |
| Splitter.ExportSingle | src/components/PDFSplitter.tsx:116-133 | fails exactly when the bytes do not load or the segment names a page the document lacks; otherwise delivers `<base>.pdf` holding the segment's pages in order |
| Splitter.ExportArchive | src/components/PDFSplitter.tsx:136-160 | fails exactly when the bytes do not load or some segment names a page the document lacks; otherwise delivers `<base>_geteilt.zip` whose entry i is `<base>_teil-<i+1>.pdf` holding segment i's pages in order |
| Splitter.Splitter.HandleDownload | src/components/PDFSplitter.tsx:102-165 | no bytes: nothing; no segments: the notice; otherwise it delivers a download unless it fails, and it fails exactly when the bytes do not load or a segment names a page outside the loaded document; one segment gives `<base>.pdf` with that segment's pages in order; several give `<base>_geteilt.zip` whose entry i is `<base>_teil-<i+1>.pdf` holding segment i's pages in order |
| SplitNaming.RemoveFirst | src/components/PDFSplitter.tsx:113 | `replace` with a string pattern; its contract is stated by SplitNaming.RemoveFirstAbsent and SplitNaming.RemoveFirstPresent |
| SplitNaming.RemoveFirstAbsent | src/components/PDFSplitter.tsx:113 | a name without ".pdf" is left as it is |
| SplitNaming.RemoveFirstPresent | src/components/PDFSplitter.tsx:113 | only the first occurrence of ".pdf" is cut out |
| SplitNaming.BaseName | src/components/PDFSplitter.tsx:113 | the base name is never empty |
| SplitNaming.BaseNameOfPdfName | src/components/PDFSplitter.tsx:113 | for `<stem>.pdf` with no other ".pdf" the base name is the stem, or "dokument" when the stem is empty |
| SplitNaming.FirstOccurrenceOnly | src/components/PDFSplitter.tsx:113 | "a.pdf.pdf" gives the base name "a.pdf" |
| SplitNaming.Decimal | src/components/PDFSplitter.tsx:149 | the decimal numeral is non-empty and has two or more digits exactly from 10 on |
| SplitNaming.DecimalInjective | src/components/PDFSplitter.tsx:149 | different numbers have different numerals |
| SplitNaming.SingleName | src/components/PDFSplitter.tsx:128 | the single document's name; stated by SplitNaming.OutputNames |
| SplitNaming.PartName | src/components/PDFSplitter.tsx:149 | the name of archive entry i, numbered from 1; stated by SplitNaming.OutputNames and SplitNaming.PartNamesDistinct |
| SplitNaming.ArchiveName | src/components/PDFSplitter.tsx:156 | the archive's name; stated by SplitNaming.OutputNames |
| SplitNaming.OutputNames | src/components/PDFSplitter.tsx:128-156 | every output name starts with the base name, the documents end in ".pdf" and the archive in ".zip", and no archive entry is named like the single document |
| SplitNaming.PartNamesDistinct | src/components/PDFSplitter.tsx:149 | the archive entries of different segments have different names |
| SplitView.MarkerAt | src/components/PDFSplitView.tsx:126-158 | the marker after page i; its contract is stated by SplitView.MarkerToggles |
| SplitView.PageControlAt | src/components/PDFSplitView.tsx:96-121 | the control on page i; its contract is stated by SplitView.PageControlToggles |
| SplitView.MarkerToggles | src/components/PDFSplitView.tsx:126-158 | a marker exists only after a page with a page after it; clicking it toggles that position and nothing else, and valid cuts stay valid (no repetition, each before a page) |
| SplitView.PageControlToggles | src/components/PDFSplitView.tsx:96-121 | a page offers delete exactly when it is not deleted; clicking the control toggles that page and nothing else, and deleted pages stay pages of the document |
| SplitView.SegmentNumber | src/components/PDFSplitView.tsx:60-62 | `getSegmentNumber`; its contract is stated by SplitView.SegmentNumberBoundsAndMonotone |
| SplitView.SegmentNumberBoundsAndMonotone | src/components/PDFSplitView.tsx:60-62 | the segment number lies between 1 and one more than the number of cuts, and never decreases as the page grows |
| SplitView.MarkerLabel | src/components/PDFSplitView.tsx:135 | the label as written; its behaviour on adjacent cuts is stated by SplitView.MarkerLabelOverCounts |
| SplitView.MarkerLabelOverCounts | src/components/PDFSplitView.tsx:135 | three pages with cuts after pages 0 and 1: the segments are [0], [1], [2], yet the first cut is labelled 3 where the document after it is the second |
| SplitView.CutsBeforeIsCount | src/components/PDFSplitView.tsx:60-62 | on an undeleted document, the number of cut pages before page j is the number of cut positions below j |
| SplitView.SegmentAfterCut | src/components/PDFSplitter.tsx:79-96 | on an undeleted document, the page after cut i opens the segment whose index is the number of cut positions at or before i |
| SplitView.CorrectedLabelNamesNextDocument | src/components/PDFSplitView.tsx:135 | with valid cuts and no deletions, the corrected label of the cut after page i is the number of the document that begins with page i + 1 |
| Lists.Filter | src/components/ImageToPDF.tsx:20-22 | filtering keeps each item the test accepts with all its occurrences, drops the rest, and keeps the order |
| Lists.FilterMembers | src/components/PDFMerger.tsx:12 | every kept item is an input item that passes the test |
| Lists.RemoveAt | src/components/ImageToPDF.tsx:39 | an in-range index removes exactly that item and keeps the others in order; any other index changes nothing |
| Lists.Move | src/components/ImageToPDF.tsx:50-56 | the copy, removal and re-insertion of a drag-over; its contract is stated by Lists.MoveProperties, Lists.MoveTwice and Lists.MoveInPlace |
| Lists.MoveProperties | src/components/ImageToPDF.tsx:50-56 | a drag relocation keeps length and items, puts the dragged item at the target, and leaves the others in their relative order |
| Lists.MoveTwice | src/components/ImageToPDF.tsx:47-60 | two drag-overs in a row equal one relocation from the first anchor to the last target |
| Lists.MoveInPlace | src/components/ImageToPDF.tsx:49 | relocating an item onto its own position would change nothing |
| Lists.FlattenLength | src/components/PDFMerger.tsx:28-33 | the merged page count is the sum of the files' page counts |
| Lists.FlattenPosition | src/components/PDFMerger.tsx:28-33 | page k of file i is found in the merge right after the pages of the files before file i |
| Documents.PageIndices | src/components/PDFMerger.tsx:31 | the page indices of a document are 0 to n - 1 in order |
| Documents.CopyAllPages | src/components/PDFMerger.tsx:31-32 | copying all page indices of a document reproduces it, so this copy never fails |
| ImageToPdf.FormatOf | src/components/ImageToPDF.tsx:77-80 | on accepted files, PNG files are embedded as PNG and JPEG files as JPEG |
| ImageToPdf.ImageList.constructor | src/components/ImageToPDF.tsx:13-15 | no pictures and no drag |
| ImageToPdf.ImageList.HandleFileSelect | src/components/ImageToPDF.tsx:17-33 | the JPEG and PNG files of the selection are appended in order; only pictures are ever in the list |
| ImageToPdf.ImageList.RemoveImage | src/components/ImageToPDF.tsx:35-41 | the list becomes the list without the picture at the index (unchanged for an index outside it) |
| ImageToPdf.ImageList.HandleDragStart | src/components/ImageToPDF.tsx:43-45 | the anchor becomes the index, whatever it was |
| ImageToPdf.ImageList.HandleDragOver | src/components/ImageToPDF.tsx:47-60 | no drag, or over the anchor: nothing changes; otherwise the anchored picture is relocated to the target and the target becomes the anchor |
| ImageToPdf.ImageList.HandleDrop | src/components/ImageToPDF.tsx:62-64 | the anchor is cleared |
| ImageToPdf.ImageList.HandleConvert | src/components/ImageToPDF.tsx:66-106 | nothing happens exactly when the list is empty; it fails exactly when some picture does not decode; otherwise it always delivers `bilder.pdf` with one page per picture, in list order, each embedded as PNG exactly when its type is image/png and as JPEG exactly when it is image/jpeg |
| PdfMerger.LoadAll | src/components/PDFMerger.tsx:28-30 | all files load exactly when each does, and then document i is file i's document |
| PdfMerger.MergeList.constructor | src/components/PDFMerger.tsx:7 | no files |
| PdfMerger.MergeList.HandleFileSelect | src/components/PDFMerger.tsx:9-16 | the PDF files of the selection are appended in order; only PDF files are ever in the list |
| PdfMerger.MergeList.RemoveFile | src/components/PDFMerger.tsx:18-20 | the list becomes the list without the file at the index (unchanged for an index outside it) |
| PdfMerger.MergeList.MergeEnabled | src/components/PDFMerger.tsx:106 | the button's enabled state; PdfMerger.MergeList.HandleMerge states that nothing happens while it is false |
| PdfMerger.MergeList.HandleMerge | src/components/PDFMerger.tsx:22-50 | with the button disabled (fewer than two files) nothing happens; a file that does not load aborts with no output; otherwise `zusammengefügt.pdf` holds the concatenation, in list order, of all pages of every file |

## Left out

- Thumbnails: the rendering of page previews, the page grid and the unused merge item component are pdf.js rasterisation and canvas drawing. No state of the core depends on them.
- PDF internals: parsing, page copying, saving and picture embedding are not modelled. A document is its page sequence, and the codec is a parameter. Page sizes from `embedded.scale` are floating point and are not modelled.
- The archive is a list of named entries. ZIP encoding is not modelled.
- Browser I/O is not modelled: blobs, object URLs, link clicks, reading a file's bytes, toasts and console logging. The toast texts (such as the "Bild"/"Bilder" count) are left out with them.
- The `isConverting` flag of the converter is left out. It only disables the button while the asynchronous conversion runs.
- Item ids and preview URLs of pictures are left out. They come from the clock and a random source and only serve as React keys and image sources.
- React's scheduling and closure capture are not modelled. Each handler runs to completion on the current state.
- The page layout, the upload widget and the worker configuration are outside the core.
- ImageToPdf.ImageList.HandleDragOver: requires the anchor and the target to be list positions when they differ. A stale anchor left by an abandoned drag (dropped outside every picture, so it is never cleared) can lie outside the list after a removal, and a drag from outside the page then reaches the relocation without a new drag start. The source then inserts an undefined item, which the model excludes.
- Splitter.Splitter.HandleFileSelect: reading the file's bytes is taken to succeed. A failure there is not modelled.
- SplitView.CorrectedLabelNamesNextDocument: proved for a document without deleted pages. The view numbers segments without regard to deletions, so with deletions neither label tracks the downloaded documents.
- Per-segment individual downloads are not offered. The code produces only the single file or the archive, so nothing else is modelled.

## Findings

| source | as written | input that shows it | evidently intended | confidence | as-written member | corrected member |
|---|---|---|---|---|---|---|
| src/components/PDFSplitView.tsx:135 | the active cut after page `i` is labelled `getSegmentNumber(i + 1)`, which also counts a cut after page `i + 1` | three pages with cuts after the first and the second page (positions `[0, 1]`): the first cut is labelled "PDF 3", but the document that begins after it (the second page alone) is the second one | label the cut with `getSegmentNumber(i)`, the number of the document that begins right after it | not executed; follows from the definitions for any two adjacent cuts | SplitView.MarkerLabel, SplitView.MarkerLabelOverCounts | SplitView.CorrectedMarkerLabel, SplitView.CorrectedLabelNamesNextDocument |

Where the behaviour of `handleFileSelect` in `src/components/PDFSplitter.tsx:17-26` differs from a "load first, then update" reading, the model follows the code. The file and its bytes are stored before the document is loaded, so a load failure leaves the old page count, cuts and deletions next to the new file.
