/** The splitter component's state and its operations: loading a source
    document, the updaters for cut positions and deleted pages, the segment
    computation, the count of active pages and the download, which routes by
    the number of segments to one PDF file or one ZIP archive. */
module Splitter {
  import opened Wrappers
  import opened Lists
  import opened Documents
  import opened Segmentation
  import opened SplitNaming

  // ---------------------------------------------------------------------------
  // The pure updaters handed to the state setters

  /** Puts `x` into an ascending list in front of the first larger-or-equal
      element. */
  function InsertAscending(s: seq<int>, x: int): seq<int>
  {
    if s == [] || x <= s[0] then [x] + s
    else [s[0]] + InsertAscending(s[1..], x)
  }

  lemma AscendingCons(a: int, rest: seq<int>)
    requires Ascending(rest) && forall k :: 0 <= k < |rest| ==> a <= rest[k]
    ensures Ascending([a] + rest)
  {
    var r := [a] + rest;
    forall i, j | 0 <= i < j < |r| ensures r[i] <= r[j] {
      assert r[j] == rest[j - 1];
      if i > 0 {
        assert r[i] == rest[i - 1];
      }
    }
  }

  /** Inserting adds exactly one occurrence of the inserted value. */
  lemma {:induction false} InsertAscendingCount(s: seq<int>, x: int)
    ensures multiset(InsertAscending(s, x)) == multiset(s) + multiset{x}
  {
    if s != [] && x > s[0] {
      InsertAscendingCount(s[1..], x);
      assert s == [s[0]] + s[1..];
    }
  }

  /** Inserting into an ascending list keeps it ascending and adds exactly
      one occurrence of the inserted value. */
  lemma {:induction false} InsertAscendingSpec(s: seq<int>, x: int)
    requires Ascending(s)
    ensures Ascending(InsertAscending(s, x))
    ensures multiset(InsertAscending(s, x)) == multiset(s) + multiset{x}
  {
    InsertAscendingCount(s, x);
    if s == [] || x <= s[0] {
      AscendingCons(x, s);
    } else {
      var rest := InsertAscending(s[1..], x);
      InsertAscendingSpec(s[1..], x);
      assert s == [s[0]] + s[1..];
      forall k | 0 <= k < |rest| ensures s[0] <= rest[k] {
        assert rest[k] in multiset(rest);
        assert rest[k] in multiset(s[1..]) || rest[k] == x;
      }
      AscendingCons(s[0], rest);
    }
  }

  /** `list.sort((a, b) => a - b)`: the numbers in ascending order. */
  function SortAscending(s: seq<int>): (r: seq<int>)
    ensures Ascending(r) && multiset(r) == multiset(s)
  {
    if s == [] then []
    else
      var init := SortAscending(s[..|s| - 1]);
      assert s == s[..|s| - 1] + [Last(s)];
      InsertAscendingSpec(init, Last(s));
      InsertAscending(init, Last(s))
  }

  /** The updater of `addSplitLine`: `[...prev, x].sort((a, b) => a - b)`.
      One more occurrence of `x`, in ascending order; nothing is deduplicated. */
  function WithSplit(prev: seq<int>, x: int): (r: seq<int>)
    ensures Ascending(r)
    ensures multiset(r) == multiset(prev) + multiset{x}
    ensures forall y :: y in r <==> y in prev || y == x
  {
    var r := SortAscending(prev + [x]);
    assert forall y :: y in r <==> y in multiset(prev + [x]);
    r
  }

  /** The updater of `removeSplitLine`: `prev.filter(p => p !== x)`. */
  function WithoutSplit(prev: seq<int>, x: int): (r: seq<int>)
    ensures x !in r
    ensures multiset(r) == multiset(prev)[x := 0]
    ensures IsSubsequence(r, prev)
    ensures forall y :: y in r <==> y in prev && y != x
  {
    var r := Filter(prev, p => p != x);
    assert forall y :: y in r <==> multiset(r)[y] > 0;
    r
  }

  /** The updater of `deletePage`: `new Set(prev).add(i)`. */
  function WithDeleted(prev: set<int>, i: int): (r: set<int>)
    ensures i in r && forall j :: j != i ==> (j in r <==> j in prev)
  {
    prev + {i}
  }

  /** The updater of `undeletePage`: a copy of the set without `i`. */
  function WithoutDeleted(prev: set<int>, i: int): (r: set<int>)
    ensures i !in r && forall j :: j != i ==> (j in r <==> j in prev)
  {
    prev - {i}
  }

  /** On an ascending list the sort inside addSplitLine amounts to inserting
      the new position at its place. */
  lemma {:induction false} SortAscendingKeepsSorted(s: seq<int>)
    requires Ascending(s)
    ensures SortAscending(s) == s
  {
    if s != [] {
      var init := s[..|s| - 1];
      SortAscendingKeepsSorted(init);
      assert s == init + [Last(s)];
      assert init == [] || Last(s) >= Last(init);
      InsertAtEnd(init, Last(s));
    }
  }

  lemma {:induction false} InsertAtEnd(s: seq<int>, x: int)
    requires Ascending(s)
    requires forall y :: y in s ==> y <= x
    ensures InsertAscending(s, x) == s + [x]
  {
    if s != [] && x > s[0] {
      assert forall y :: y in s[1..] ==> y in s;
      InsertAtEnd(s[1..], x);
      assert s == [s[0]] + s[1..];
    } else if s != [] {
      forall k | 0 <= k < |s| ensures s[k] == x {
        assert s[0] <= s[k] && s[k] in s;
      }
      assert [x] + s == s + [x];
    }
  }

  lemma WithSplitIsInsertion(prev: seq<int>, x: int)
    requires Ascending(prev)
    ensures WithSplit(prev, x) == InsertAscending(prev, x)
  {
    assert (prev + [x])[..|prev|] == prev;
    SortAscendingKeepsSorted(prev);
  }

  /** A strictly increasing list stays strictly increasing when a new value
      is inserted at its place. */
  lemma StrictCons(a: int, rest: seq<int>)
    requires StrictlyIncreasing(rest) && forall k :: 0 <= k < |rest| ==> a < rest[k]
    ensures StrictlyIncreasing([a] + rest)
  {
    var r := [a] + rest;
    forall i, j | 0 <= i < j < |r| ensures r[i] < r[j] {
      assert r[j] == rest[j - 1];
      if i > 0 {
        assert r[i] == rest[i - 1];
      }
    }
  }

  lemma {:induction false} InsertKeepsStrict(s: seq<int>, x: int)
    requires StrictlyIncreasing(s) && x !in s
    ensures StrictlyIncreasing(InsertAscending(s, x))
  {
    if s == [] || x <= s[0] {
      forall k | 0 <= k < |s| ensures x < s[k] {
        assert s[0] <= s[k] && s[0] != x;
      }
      StrictCons(x, s);
    } else {
      var rest := InsertAscending(s[1..], x);
      assert s == [s[0]] + s[1..];
      assert StrictlyIncreasing(s[1..]) && x !in s[1..];
      InsertKeepsStrict(s[1..], x);
      InsertAscendingSpec(s[1..], x);
      forall k | 0 <= k < |rest| ensures s[0] < rest[k] {
        assert rest[k] in multiset(rest);
        assert rest[k] in multiset(s[1..]) || rest[k] == x;
      }
      StrictCons(s[0], rest);
    }
  }

  /** Adding a position that is not yet a cut keeps the list free of
      repetitions; removing a position never introduces one. */
  lemma SplitUpdatesKeepStrict(prev: seq<int>, x: int)
    requires StrictlyIncreasing(prev)
    ensures x !in prev ==> StrictlyIncreasing(WithSplit(prev, x))
    ensures StrictlyIncreasing(WithoutSplit(prev, x))
  {
    if x !in prev {
      WithSplitIsInsertion(prev, x);
      InsertKeepsStrict(prev, x);
    }
    FilterStrictlyIncreasing(prev, p => p != x);
  }

  /** Cutting the same position twice gives the segments of cutting it once. */
  lemma CutTwiceSameSegments(pageCount: nat, deleted: set<int>, prev: seq<int>, x: int)
    ensures Segments(pageCount, deleted, WithSplit(WithSplit(prev, x), x))
         == Segments(pageCount, deleted, WithSplit(prev, x))
  {
    SegmentsDependOnActiveCuts(pageCount, deleted, WithSplit(WithSplit(prev, x), x), WithSplit(prev, x));
  }

  /** A cut on a deleted page, on a page outside the document, or after the
      last active page creates no boundary. */
  lemma InertCut(pageCount: nat, deleted: set<int>, prev: seq<int>, x: int)
    requires x in deleted || x < 0 || x >= pageCount ||
      (ActivePages(pageCount, deleted) != [] && x == Last(ActivePages(pageCount, deleted)))
    ensures Segments(pageCount, deleted, WithSplit(prev, x)) == Segments(pageCount, deleted, prev)
  {
    var active := ActivePages(pageCount, deleted);
    forall k | 0 <= k < |active| - 1 ensures active[k] in WithSplit(prev, x) <==> active[k] in prev {
      assert active[k] < Last(active);
    }
    SegmentsDependOnActiveCuts(pageCount, deleted, WithSplit(prev, x), prev);
  }

  /** The cut positions the view can produce: no repetition, and each names a
      page that has a page after it. */
  predicate CutsValid(pageCount: nat, cuts: seq<int>)
  {
    StrictlyIncreasing(cuts) && forall k :: 0 <= k < |cuts| ==> 0 <= cuts[k] && cuts[k] + 1 < pageCount
  }

  /** The deleted pages the view can produce: pages of the document. */
  predicate DeletedValid(pageCount: nat, deleted: set<int>)
  {
    forall p :: p in deleted ==> 0 <= p < pageCount
  }

  /** The size of the deleted set is the number of pages missing from the
      active list: the statistics line's count is the active-page count. */
  lemma {:induction false} ActiveCountMatches(pageCount: nat, deleted: set<int>)
    requires DeletedValid(pageCount, deleted)
    ensures pageCount - |deleted| == |ActivePages(pageCount, deleted)|
  {
    if pageCount == 0 {
      assert forall p :: p !in deleted;
      assert deleted == {};
    } else {
      var n := pageCount - 1;
      var rest := deleted - {n};
      assert DeletedValid(n, rest);
      ActiveCountMatches(n, rest);
      ActivePagesFrame(n, deleted, rest);
      if n in deleted {
        assert |rest| == |deleted| - 1;
        assert ActivePages(pageCount, deleted) == ActivePages(n, deleted);
      } else {
        assert rest == deleted;
        assert ActivePages(pageCount, deleted) == ActivePages(n, deleted) + [n];
      }
    }
  }

  lemma {:induction false} ActivePagesFrame(n: nat, deleted1: set<int>, deleted2: set<int>)
    requires forall p :: 0 <= p < n ==> (p in deleted1 <==> p in deleted2)
    ensures ActivePages(n, deleted1) == ActivePages(n, deleted2)
  {
    if n > 0 {
      ActivePagesFrame(n - 1, deleted1, deleted2);
    }
  }

  /** Some segment names a page the document does not have. */
  predicate CopyFails(source: Document, segments: seq<seq<nat>>)
  {
    exists i, k :: 0 <= i < |segments| && 0 <= k < |segments[i]| && segments[i][k] >= |source|
  }

  /** The single-segment branch of `handleDownload`: load the bytes, copy the
      segment's pages, and deliver `<base>.pdf`. */
  method ExportSingle(load: Codec, buffer: seq<Byte>, segment: seq<nat>, baseName: string) returns (outcome: Outcome)
    ensures outcome == Failed <==> load(buffer).None? || CopyFails(load(buffer).value, [segment])
    ensures outcome != Failed ==>
      var source := load(buffer).value;
      && outcome.Delivered? && outcome.deliverable.PdfFile?
      && outcome.deliverable.name == SingleName(baseName)
      && |outcome.deliverable.pages| == |segment|
      && (forall k :: 0 <= k < |segment| ==> segment[k] < |source|)
      && forall k :: 0 <= k < |segment| ==> outcome.deliverable.pages[k] == source[segment[k]]
  {
    var source := load(buffer);
    if source.None? {
      return Failed;
    }
    var pages := CopyPages(source.value, segment);
    if pages.None? {
      var k :| 0 <= k < |segment| && segment[k] >= |source.value|;
      assert [segment][0] == segment;
      return Failed;
    }
    return Delivered(PdfFile(SingleName(baseName), pages.value));
  }

  /** The archive branch of `handleDownload`: for every segment, in order,
      load the bytes, copy the segment's pages, and add the document as entry
      `<base>_teil-<i+1>.pdf`; deliver `<base>_geteilt.zip`. */
  method ExportArchive(load: Codec, buffer: seq<Byte>, segments: seq<seq<nat>>, baseName: string)
    returns (outcome: Outcome)
    requires |segments| >= 1
    ensures outcome == Failed <==> load(buffer).None? || CopyFails(load(buffer).value, segments)
    ensures outcome != Failed ==>
      var source := load(buffer).value;
      && outcome.Delivered? && outcome.deliverable.ZipArchive?
      && outcome.deliverable.name == ArchiveName(baseName)
      && |outcome.deliverable.entries| == |segments|
      && forall i :: 0 <= i < |segments| ==>
        && outcome.deliverable.entries[i].name == PartName(baseName, i)
        && |outcome.deliverable.entries[i].pages| == |segments[i]|
        && forall k :: 0 <= k < |segments[i]| ==> outcome.deliverable.entries[i].pages[k] == source[segments[i][k]]
  {
    var entries: seq<ArchiveEntry> := [];
    for i := 0 to |segments|
      invariant |entries| == i
      invariant i > 0 ==> load(buffer).Some?
      invariant forall j :: 0 <= j < i ==>
        && CopyPages(load(buffer).value, segments[j]).Some?
        && entries[j] == ArchiveEntry(PartName(baseName, j), CopyPages(load(buffer).value, segments[j]).value)
    {
      var source := load(buffer);
      if source.None? {
        return Failed;
      }
      var pages := CopyPages(source.value, segments[i]);
      if pages.None? {
        return Failed;
      }
      entries := entries + [ArchiveEntry(PartName(baseName, i), pages.value)];
    }
    return Delivered(ZipArchive(ArchiveName(baseName), entries));
  }

  // ---------------------------------------------------------------------------
  // The component's state

  class Splitter {
    var pdfFile: Option<File>
    var pdfArrayBuffer: Option<seq<Byte>>
    var pageCount: nat
    var splitPositions: seq<int>
    var deletedPages: set<int>

    /** What every interaction through the view keeps. */
    ghost predicate Valid()
      reads this
    {
      CutsValid(pageCount, splitPositions) && DeletedValid(pageCount, deletedPages)
    }

    constructor ()
      ensures pdfFile == None && pdfArrayBuffer == None && pageCount == 0
      ensures splitPositions == [] && deletedPages == {}
      ensures Valid()
    {
      pdfFile, pdfArrayBuffer, pageCount := None, None, 0;
      splitPositions, deletedPages := [], {};
    }

    /** `handleFileSelect`: the file and its bytes are stored first; only if
        the codec then loads the bytes are the page count taken over and the
        cuts and deletions reset. A load failure leaves them as they were. */
    method HandleFileSelect(file: File, load: Codec)
      modifies this
      ensures pdfFile == Some(file) && pdfArrayBuffer == Some(file.content)
      ensures load(file.content).Some? ==>
        pageCount == |load(file.content).value| && splitPositions == [] && deletedPages == {}
      ensures load(file.content).None? ==>
        pageCount == old(pageCount) && splitPositions == old(splitPositions) && deletedPages == old(deletedPages)
      ensures old(Valid()) || load(file.content).Some? ==> Valid()
    {
      pdfFile := Some(file);
      pdfArrayBuffer := Some(file.content);
      var document := load(file.content);
      if document.Some? {
        pageCount := |document.value|;
        splitPositions := [];
        deletedPages := {};
      }
    }

    method AddSplitLine(afterPageIndex: int)
      modifies this`splitPositions
      ensures splitPositions == WithSplit(old(splitPositions), afterPageIndex)
    {
      splitPositions := WithSplit(splitPositions, afterPageIndex);
    }

    method RemoveSplitLine(position: int)
      modifies this`splitPositions
      ensures splitPositions == WithoutSplit(old(splitPositions), position)
    {
      splitPositions := WithoutSplit(splitPositions, position);
    }

    method DeletePage(pageIndex: int)
      modifies this`deletedPages
      ensures deletedPages == WithDeleted(old(deletedPages), pageIndex)
    {
      deletedPages := WithDeleted(deletedPages, pageIndex);
    }

    method UndeletePage(pageIndex: int)
      modifies this`deletedPages
      ensures deletedPages == WithoutDeleted(old(deletedPages), pageIndex)
    {
      deletedPages := WithoutDeleted(deletedPages, pageIndex);
    }

    method ClearAllSplits()
      modifies this`splitPositions
      ensures splitPositions == []
      ensures old(Valid()) ==> Valid()
    {
      splitPositions := [];
    }

    method RestoreAllDeleted()
      modifies this`deletedPages
      ensures deletedPages == {}
      ensures old(Valid()) ==> Valid()
    {
      deletedPages := {};
    }

    /** `pageCount - deletedPages.size`, which disables the download button
        when it is 0. */
    function ActivePagesCount(): (r: int)
      reads this
      ensures DeletedValid(pageCount, deletedPages) ==> r == |ActivePages(pageCount, deletedPages)|
      ensures DeletedValid(pageCount, deletedPages) ==>
        (r == 0 <==> Segments(pageCount, deletedPages, splitPositions) == [])
    {
      if DeletedValid(pageCount, deletedPages) then
        ActiveCountMatches(pageCount, deletedPages);
        SegmentsEmptyOrWhole(pageCount, deletedPages, splitPositions);
        pageCount - |deletedPages|
      else
        pageCount - |deletedPages|
    }

    /** `getSegments`: the scan over the active pages with an accumulator for
        the current segment, closed whenever the page just added is a cut. */
    method GetSegments() returns (segments: seq<seq<nat>>)
      ensures segments == Segments(pageCount, deletedPages, splitPositions)
    {
      var activePages := ActivePages(pageCount, deletedPages);
      if |activePages| == 0 {
        return [];
      }
      if |splitPositions| == 0 {
        return [activePages];
      }
      segments := [];
      var currentSegment: seq<nat> := [];
      for j := 0 to |activePages|
        invariant Flatten(segments) + currentSegment == activePages[..j]
        invariant forall i :: 0 <= i < |segments| ==> segments[i] != [] && Last(segments[i]) in splitPositions
        invariant forall i, k :: 0 <= i < |segments| && 0 <= k < |segments[i]| - 1 ==> segments[i][k] !in splitPositions
        invariant forall k :: 0 <= k < |currentSegment| ==> currentSegment[k] !in splitPositions
      {
        var pageIndex := activePages[j];
        currentSegment := currentSegment + [pageIndex];
        if pageIndex in splitPositions {
          FlattenAppend(segments, currentSegment);
          segments := segments + [currentSegment];
          currentSegment := [];
        }
      }
      if |currentSegment| > 0 {
        FlattenAppend(segments, currentSegment);
        segments := segments + [currentSegment];
      }
      assert activePages[..|activePages|] == activePages;
      SegmentationIsSplit(segments, activePages, splitPositions);
    }

    /** The base name derived from the current file. */
    function OutputBaseName(): string
      reads this
    {
      BaseName(if pdfFile.Some? then Some(pdfFile.value.name) else None)
    }

    /** `handleDownload`. Without loaded bytes nothing happens; without
        segments an error notice; with one segment a single PDF file; with
        more, a ZIP archive with one entry per segment, in segment order, each
        holding the segment's pages in order. The bytes are loaded again for
        every document; a codec failure aborts the whole download. */
    method HandleDownload(load: Codec) returns (outcome: Outcome)
      ensures pdfArrayBuffer.None? ==> outcome == Skipped
      ensures pdfArrayBuffer.Some? && Segments(pageCount, deletedPages, splitPositions) == [] ==>
        outcome == NothingToDownload
      ensures pdfArrayBuffer.Some? && Segments(pageCount, deletedPages, splitPositions) != [] && outcome != Failed ==>
        outcome.Delivered?
      ensures outcome == Failed <==>
        pdfArrayBuffer.Some? && Segments(pageCount, deletedPages, splitPositions) != [] &&
        (load(pdfArrayBuffer.value).None? ||
         CopyFails(load(pdfArrayBuffer.value).value, Segments(pageCount, deletedPages, splitPositions)))
      ensures outcome.Delivered? && |Segments(pageCount, deletedPages, splitPositions)| == 1 ==>
        var segment := Segments(pageCount, deletedPages, splitPositions)[0];
        var source := load(pdfArrayBuffer.value).value;
        && outcome.deliverable.PdfFile?
        && outcome.deliverable.name == SingleName(OutputBaseName())
        && |outcome.deliverable.pages| == |segment|
        && forall k :: 0 <= k < |segment| ==> outcome.deliverable.pages[k] == source[segment[k]]
      ensures outcome.Delivered? && |Segments(pageCount, deletedPages, splitPositions)| >= 2 ==>
        var segments := Segments(pageCount, deletedPages, splitPositions);
        var source := load(pdfArrayBuffer.value).value;
        && outcome.deliverable.ZipArchive?
        && outcome.deliverable.name == ArchiveName(OutputBaseName())
        && |outcome.deliverable.entries| == |segments|
        && forall i :: 0 <= i < |segments| ==>
          && outcome.deliverable.entries[i].name == PartName(OutputBaseName(), i)
          && |outcome.deliverable.entries[i].pages| == |segments[i]|
          && forall k :: 0 <= k < |segments[i]| ==> outcome.deliverable.entries[i].pages[k] == source[segments[i][k]]
    {
      if pdfArrayBuffer.None? {
        return Skipped;
      }
      var buffer := pdfArrayBuffer.value;
      var segments := GetSegments();
      if |segments| == 0 {
        return NothingToDownload;
      }
      var baseName := OutputBaseName();
      if |segments| == 1 {
        outcome := ExportSingle(load, buffer, segments[0], baseName);
      } else {
        outcome := ExportArchive(load, buffer, segments, baseName);
      }
    }
  }

  /** When the bytes load to the document whose page count the state holds
      (they are the bytes the page count was read from), a download with at
      least one segment never fails. */
  lemma ConsistentSourceCopies(pageCount: nat, deleted: set<int>, splitPositions: seq<int>, source: Document)
    requires |source| == pageCount
    ensures var segments := Segments(pageCount, deleted, splitPositions);
      forall i :: 0 <= i < |segments| ==> CopyPages(source, segments[i]).Some?
  {
    SegmentPagesInRange(pageCount, deleted, splitPositions);
  }
}
