/** The merge component: an ordered list of PDF files and their merge into
    one document holding every page of every file, file after file. */
module PdfMerger {
  import opened Wrappers
  import opened Lists
  import opened Documents

  const OutputName := "zusammengefügt.pdf"

  /** The file type the component accepts. */
  predicate IsPdfFile(f: File)
  {
    f.mime == "application/pdf"
  }

  /** Every file loaded with the codec, in list order, or None as soon as
      one of them does not load. */
  function LoadAll(files: seq<File>, load: Codec): (r: Option<seq<Document>>)
    ensures r.Some? <==> forall k :: 0 <= k < |files| ==> load(files[k].content).Some?
    ensures r.Some? ==>
      |r.value| == |files| && forall k :: 0 <= k < |files| ==> load(files[k].content) == Some(r.value[k])
  {
    if files == [] then Some([])
    else
      var first := load(files[0].content);
      var rest := LoadAll(files[1..], load);
      if first.None? || rest.None? then None
      else
        assert forall k :: 1 <= k < |files| ==> files[k] == files[1..][k - 1];
        Some([first.value] + rest.value)
  }

  class MergeList {
    var files: seq<File>

    /** Only PDF files are ever in the list. */
    ghost predicate Valid()
      reads this
    {
      forall k :: 0 <= k < |files| ==> IsPdfFile(files[k])
    }

    constructor ()
      ensures files == [] && Valid()
    {
      files := [];
    }

    /** `handleFileSelect`: the PDF files of the selection are appended in
        selection order. */
    method HandleFileSelect(selected: seq<File>)
      requires Valid()
      modifies this
      ensures files == old(files) + Filter(selected, IsPdfFile)
      ensures Valid()
    {
      FilterMembers(selected, IsPdfFile);
      files := files + Filter(selected, IsPdfFile);
      assert forall k :: |old(files)| <= k < |files| ==> files[k] in Filter(selected, IsPdfFile);
    }

    /** `removeFile`: the file at `index` goes, the others keep their order;
        any other index leaves the list as it is. */
    method RemoveFile(index: int)
      requires Valid()
      modifies this
      ensures files == RemoveAt(old(files), index)
      ensures Valid()
    {
      files := RemoveAt(files, index);
    }

    /** Whether the merge button is enabled. */
    predicate MergeEnabled()
      reads this
    {
      |files| >= 2
    }

    /** `handleMerge`: nothing while the button is disabled; otherwise every
        file is loaded and all its pages are copied, file after file, into one
        document named `zusammengefügt.pdf`. A file that does not load aborts
        the merge with no output. */
    method HandleMerge(load: Codec) returns (outcome: Outcome)
      ensures !MergeEnabled() ==> outcome == Skipped
      ensures MergeEnabled() && LoadAll(files, load).None? ==> outcome == Failed
      ensures MergeEnabled() && LoadAll(files, load).Some? ==>
        outcome == Delivered(PdfFile(OutputName, Flatten(LoadAll(files, load).value)))
    {
      if |files| < 2 {
        return Skipped;
      }
      var merged: Document := [];
      ghost var docs: seq<Document> := [];
      for i := 0 to |files|
        invariant |docs| == i
        invariant forall k :: 0 <= k < i ==> load(files[k].content) == Some(docs[k])
        invariant merged == Flatten(docs)
      {
        var pdf := load(files[i].content);
        if pdf.None? {
          return Failed;
        }
        CopyAllPages(pdf.value);
        var copied := CopyPages(pdf.value, PageIndices(|pdf.value|)).value;
        FlattenAppend(docs, pdf.value);
        merged := merged + copied;
        docs := docs + [pdf.value];
      }
      assert LoadAll(files, load).value == docs;
      return Delivered(PdfFile(OutputName, merged));
    }
  }
}
