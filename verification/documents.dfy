/** The abstraction of the document codec (pdf-lib) and of what the components
    hand to the browser: a document is its sequence of pages, and an output is
    either one PDF file or one ZIP archive of named PDF files. */
module Documents {
  import opened Wrappers

  type Byte = bv8

  /** A file the user picked: its name, its declared MIME type and its bytes. */
  datatype File = File(name: string, mime: string, content: seq<Byte>)

  datatype ImageFormat = Png | Jpeg

  /** A page object. Pages of a loaded document are known only by identity;
      a page produced from a picture shows that picture. */
  datatype Page =
    | DocumentPage(id: nat)
    | ImagePage(image: File, format: ImageFormat)

  type Document = seq<Page>

  /** `PDFDocument.load`: the parsed document, or None when the bytes are not
      a document the codec accepts. */
  type Codec = seq<Byte> -> Option<Document>

  /** `embedPng`/`embedJpg`: whether the bytes decode as a picture of the
      given format. */
  type ImageDecoder = (seq<Byte>, ImageFormat) -> bool

  /** `getPageIndices()`: the indices 0, 1, ..., n - 1. */
  function PageIndices(n: nat): (r: seq<nat>)
    ensures |r| == n && forall i :: 0 <= i < n ==> r[i] == i
  {
    if n == 0 then [] else PageIndices(n - 1) + [n - 1]
  }

  /** `copyPages(src, indices)` followed by `addPage` for each copy into an
      empty document: the pages at the given indices, in the given order,
      repetitions allowed. An index outside the source makes the codec throw. */
  function CopyPages(src: Document, indices: seq<nat>): Option<Document>
  {
    if forall k :: 0 <= k < |indices| ==> indices[k] < |src| then
      Some(seq(|indices|, k requires 0 <= k < |indices| => src[indices[k]]))
    else
      None
  }

  /** Copying every page index of a document reproduces the document. */
  lemma CopyAllPages(src: Document)
    ensures CopyPages(src, PageIndices(|src|)) == Some(src)
  {
    var all := PageIndices(|src|);
    assert forall k :: 0 <= k < |all| ==> all[k] < |src|;
    assert seq(|all|, k requires 0 <= k < |all| => src[all[k]]) == src;
  }

  datatype ArchiveEntry = ArchiveEntry(name: string, pages: Document)

  /** What is handed to the browser as a download. */
  datatype Deliverable =
    | PdfFile(name: string, pages: Document)
    | ZipArchive(name: string, entries: seq<ArchiveEntry>)

  /** The result of a user-triggered output action. `Skipped` is a silent
      early return, `NothingToDownload` the error notice shown when there are
      no pages, `Failed` a caught codec error (no download happens). */
  datatype Outcome =
    | Skipped
    | NothingToDownload
    | Failed
    | Delivered(deliverable: Deliverable)
}
