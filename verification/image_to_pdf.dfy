/** The picture-to-PDF component: an ordered list of pictures the user picks,
    reorders by dragging and removes, and its conversion into one document
    with one page per picture. */
module ImageToPdf {
  import opened Wrappers
  import opened Lists
  import opened Documents

  const OutputName := "bilder.pdf"

  /** The file types the component accepts. */
  predicate IsImageFile(f: File)
  {
    f.mime == "image/jpeg" || f.mime == "image/png"
  }

  /** The decoder a picture is embedded with: PNG for PNG files, JPEG for
      everything else. */
  function FormatOf(f: File): (r: ImageFormat)
    ensures IsImageFile(f) ==> (r == Png <==> f.mime == "image/png") && (r == Jpeg <==> f.mime == "image/jpeg")
  {
    if f.mime == "image/png" then Png else Jpeg
  }

  class ImageList {
    var images: seq<File>
    /** The list position of the picture being dragged, if a drag is active. */
    var draggedIndex: Option<int>

    /** Only accepted pictures are ever in the list. */
    ghost predicate Valid()
      reads this
    {
      forall k :: 0 <= k < |images| ==> IsImageFile(images[k])
    }

    constructor ()
      ensures images == [] && draggedIndex == None
      ensures Valid()
    {
      images := [];
      draggedIndex := None;
    }

    /** `handleFileSelect`: the accepted pictures of the selection are
        appended in selection order; nothing is deduplicated. */
    method HandleFileSelect(files: seq<File>)
      requires Valid()
      modifies this`images
      ensures images == old(images) + Filter(files, IsImageFile)
      ensures Valid()
    {
      FilterMembers(files, IsImageFile);
      images := images + Filter(files, IsImageFile);
      assert forall k :: |old(images)| <= k < |images| ==> images[k] in Filter(files, IsImageFile);
    }

    /** `removeImage`: the picture at `index` goes, the others keep their
        order; any other index leaves the list as it is. */
    method RemoveImage(index: int)
      requires Valid()
      modifies this`images
      ensures images == RemoveAt(old(images), index)
      ensures Valid()
    {
      images := RemoveAt(images, index);
    }

    /** `handleDragStart`: the picture at `index` becomes the anchor, whatever
        the anchor was before. */
    method HandleDragStart(index: int)
      modifies this`draggedIndex
      ensures draggedIndex == Some(index)
    {
      draggedIndex := Some(index);
    }

    /** `handleDragOver`: with no drag active, or over the anchor itself,
        nothing happens; otherwise the anchored picture is taken out and put
        back in at `index`, and `index` becomes the anchor. */
    method HandleDragOver(index: int)
      requires Valid()
      requires draggedIndex.Some? && draggedIndex.value != index ==>
        0 <= draggedIndex.value < |images| && 0 <= index < |images|
      modifies this
      ensures old(draggedIndex).None? || old(draggedIndex) == Some(index) ==>
        images == old(images) && draggedIndex == old(draggedIndex)
      ensures old(draggedIndex).Some? && old(draggedIndex) != Some(index) ==>
        images == Move(old(images), old(draggedIndex).value, index) && draggedIndex == Some(index)
      ensures Valid()
    {
      if draggedIndex.None? || draggedIndex.value == index {
        return;
      }
      var from := draggedIndex.value;
      var next := images;
      var item := next[from];
      next := next[..from] + next[from + 1..];
      next := next[..index] + [item] + next[index..];
      MoveProperties(images, from, index);
      assert next == Move(images, from, index);
      forall k | 0 <= k < |next| ensures IsImageFile(next[k]) {
        assert next[k] in multiset(images);
      }
      images := next;
      draggedIndex := Some(index);
    }

    /** `handleDrop`: the drag ends. */
    method HandleDrop()
      modifies this`draggedIndex
      ensures draggedIndex == None
    {
      draggedIndex := None;
    }

    /** `handleConvert`: nothing for an empty list; otherwise one page per
        picture, in list order, each showing its picture with the decoder its
        type selects. A picture that does not decode aborts the conversion. */
    method HandleConvert(decodes: ImageDecoder) returns (outcome: Outcome)
      requires Valid()
      ensures outcome == Skipped <==> images == []
      ensures images != [] ==>
        (outcome == Failed <==>
          exists k :: 0 <= k < |images| && !decodes(images[k].content, FormatOf(images[k])))
      ensures outcome != Failed ==> outcome == Skipped || outcome.Delivered?
      ensures outcome.Delivered? ==>
        var pdf := outcome.deliverable;
        && pdf.PdfFile? && pdf.name == OutputName
        && |pdf.pages| == |images|
        && forall k :: 0 <= k < |images| ==> pdf.pages[k] == ImagePage(images[k], FormatOf(images[k]))
      ensures outcome.Delivered? ==>
        forall k :: 0 <= k < |images| ==>
          && (outcome.deliverable.pages[k].format == Png <==> images[k].mime == "image/png")
          && (outcome.deliverable.pages[k].format == Jpeg <==> images[k].mime == "image/jpeg")
    {
      if |images| == 0 {
        return Skipped;
      }
      var pages: Document := [];
      for i := 0 to |images|
        invariant |pages| == i
        invariant forall k :: 0 <= k < i ==> pages[k] == ImagePage(images[k], FormatOf(images[k]))
        invariant forall k :: 0 <= k < i ==> decodes(images[k].content, FormatOf(images[k]))
      {
        var img := images[i];
        var format := if img.mime == "image/png" then Png else Jpeg;
        if !decodes(img.content, format) {
          return Failed;
        }
        pages := pages + [ImagePage(img, format)];
      }
      return Delivered(PdfFile(OutputName, pages));
    }
  }
}
