/** The choices the split view makes for each page: which marker sits
    between a page and the next (add a cut, or an active cut that can be
    removed), whether a page offers "delete" or "restore", and the segment
    number shown on an active cut. These choices are what keep the cut list
    free of repetitions and inside the document. */
module SplitView {
  import opened Wrappers
  import opened Lists
  import opened Segmentation
  import opened Splitter

  datatype MarkerAction = AddCut(position: int) | RemoveCut(position: int)

  datatype PageAction = DeletePage(page: int) | RestorePage(page: int)

  /** The marker rendered after page `i` of the view's loop: none after the
      last page; an active cut (offering removal) when `i` is a cut position,
      a placeholder (offering to add one) otherwise. */
  function MarkerAt(pageCount: nat, splitPositions: seq<int>, i: nat): Option<MarkerAction>
  {
    if i < pageCount - 1 then
      Some(if i in splitPositions then RemoveCut(i) else AddCut(i))
    else
      None
  }

  /** The control on page `i`: the delete button when the page is not
      deleted, the restore overlay when it is. */
  function PageControlAt(deletedPages: set<int>, i: nat): PageAction
  {
    if i in deletedPages then RestorePage(i) else DeletePage(i)
  }

  /** What clicking a marker does to the cut list. */
  function ApplyMarker(splitPositions: seq<int>, action: MarkerAction): seq<int>
  {
    match action
    case AddCut(p) => WithSplit(splitPositions, p)
    case RemoveCut(p) => WithoutSplit(splitPositions, p)
  }

  /** What clicking a page control does to the deleted set. */
  function ApplyPageAction(deletedPages: set<int>, action: PageAction): set<int>
  {
    match action
    case DeletePage(p) => WithDeleted(deletedPages, p)
    case RestorePage(p) => WithoutDeleted(deletedPages, p)
  }

  /** Clicking the marker after page `i` toggles whether `i` is a cut and
      touches no other position; the cut list stays free of repetitions and
      every cut keeps a page after it. Markers exist only between pages. */
  lemma MarkerToggles(pageCount: nat, splitPositions: seq<int>, i: nat)
    requires CutsValid(pageCount, splitPositions)
    ensures MarkerAt(pageCount, splitPositions, i).Some? <==> i + 1 < pageCount
    ensures MarkerAt(pageCount, splitPositions, i).Some? ==>
      var after := ApplyMarker(splitPositions, MarkerAt(pageCount, splitPositions, i).value);
      && (i in after <==> i !in splitPositions)
      && (forall p :: p != i ==> (p in after <==> p in splitPositions))
      && CutsValid(pageCount, after)
  {
    var marker := MarkerAt(pageCount, splitPositions, i);
    if marker.Some? {
      SplitUpdatesKeepStrict(splitPositions, i);
      var after := ApplyMarker(splitPositions, marker.value);
      forall k | 0 <= k < |after| ensures 0 <= after[k] && after[k] + 1 < pageCount {
        assert after[k] in after;
        assert after[k] == i || after[k] in splitPositions;
      }
    }
  }

  /** Clicking the control on page `i` toggles whether `i` is deleted and
      touches no other page; deleted pages stay pages of the document. */
  lemma PageControlToggles(pageCount: nat, deletedPages: set<int>, i: nat)
    requires DeletedValid(pageCount, deletedPages) && i < pageCount
    ensures PageControlAt(deletedPages, i).DeletePage? <==> i !in deletedPages
    ensures
      var after := ApplyPageAction(deletedPages, PageControlAt(deletedPages, i));
      && (i in after <==> i !in deletedPages)
      && (forall p :: p != i ==> (p in after <==> p in deletedPages))
      && DeletedValid(pageCount, after)
  {
  }

  /** The predicate `pos => pos <= k` of getSegmentNumber. */
  function AtMost(k: int): int -> bool
  {
    pos => pos <= k
  }

  /** `getSegmentNumber(k)`: one more than the number of cut positions at or
      before page `k`. */
  function SegmentNumber(splitPositions: seq<int>, k: int): int
  {
    |Filter(splitPositions, AtMost(k))| + 1
  }

  /** The segment number lies between 1 and one more than the number of cuts,
      and never decreases from left to right. */
  lemma SegmentNumberBoundsAndMonotone(splitPositions: seq<int>, k1: int, k2: int)
    requires k1 <= k2
    ensures 1 <= SegmentNumber(splitPositions, k1) <= |splitPositions| + 1
    ensures SegmentNumber(splitPositions, k1) <= SegmentNumber(splitPositions, k2)
  {
    FilterLength(splitPositions, AtMost(k1));
    FilterMonotone(splitPositions, AtMost(k1), AtMost(k2));
  }

  /** The number the view writes on the active cut after page `i`. */
  function MarkerLabel(splitPositions: seq<int>, i: int): int
  {
    SegmentNumber(splitPositions, i + 1)
  }

  /** The label that names the document beginning right after the cut. */
  function CorrectedMarkerLabel(splitPositions: seq<int>, i: int): int
  {
    SegmentNumber(splitPositions, i)
  }

  lemma SplitThreePages()
    ensures Split([0, 1, 2], [0, 1]) == [[0], [1], [2]]
  {
    var pages: seq<nat> := [0, 1, 2];
    var cuts := [0, 1];
    assert pages[1..] == [1, 2] && pages[1..][1..] == [2] && pages[1..][1..][1..] == [];
    assert Split([2], cuts) == [[2]];
    assert Split([1, 2], cuts) == [[1], [2]];
  }

  lemma CountCutsUpToOne()
    ensures |Filter([0, 1], AtMost(1))| == 2
    ensures |Filter([0, 1], AtMost(0))| == 1
  {
    var cuts := [0, 1];
    assert cuts[1..] == [1] && cuts[1..][1..] == [];
    assert Filter([1], AtMost(0)) == [];
  }

  /** Three pages cut after pages 0 and 1: the document after the first cut
      is the second one, but the first cut is labelled 3. */
  lemma MarkerLabelOverCounts()
    ensures Segments(3, {}, [0, 1]) == [[0], [1], [2]]
    ensures MarkerLabel([0, 1], 0) == 3
    ensures CorrectedMarkerLabel([0, 1], 0) == 2
  {
    AllPagesActive(3);
    assert seq(3, i => i) == [0, 1, 2];
    SplitThreePages();
    CountCutsUpToOne();
  }

  /** The number of positions in `s` that are at most `k`, counted one by one. */
  ghost function CountAtMost(s: seq<int>, k: int): nat
  {
    if s == [] then 0 else (if s[0] <= k then 1 else 0) + CountAtMost(s[1..], k)
  }

  lemma {:induction false} FilterAtMostCount(s: seq<int>, k: int)
    ensures |Filter(s, AtMost(k))| == CountAtMost(s, k)
  {
    if s != [] {
      FilterAtMostCount(s[1..], k);
    }
  }

  lemma {:induction false} CountAtMostStep(s: seq<int>, j: int)
    requires StrictlyIncreasing(s)
    ensures CountAtMost(s, j) == CountAtMost(s, j - 1) + if j in s then 1 else 0
  {
    if s != [] {
      assert StrictlyIncreasing(s[1..]);
      CountAtMostStep(s[1..], j);
      if s[0] == j {
        assert j !in s[1..];
      } else {
        assert j in s <==> j in s[1..];
      }
    }
  }

  lemma {:induction false} CountAtMostNone(s: seq<int>, j: int)
    requires forall k :: 0 <= k < |s| ==> s[k] > j
    ensures CountAtMost(s, j) == 0
  {
    if s != [] {
      CountAtMostNone(s[1..], j);
    }
  }

  /** On pages numbered 0, 1, 2, ..., counting the cut pages among the first
      `j` pages is counting the cut positions below `j`. */
  lemma {:induction false} CutsBeforeIsCount(pages: seq<nat>, cuts: seq<int>, j: nat)
    requires forall t :: 0 <= t < |pages| ==> pages[t] == t
    requires StrictlyIncreasing(cuts) && forall k :: 0 <= k < |cuts| ==> 0 <= cuts[k]
    requires j <= |pages|
    ensures CutsBefore(pages, cuts, j) == CountAtMost(cuts, j - 1)
  {
    if j == 0 {
      CountAtMostNone(cuts, -1);
    } else {
      CutsBeforeIsCount(pages, cuts, j - 1);
      CutsBeforeStep(pages, cuts, j - 1);
      CountAtMostStep(cuts, j - 1);
      assert pages[j - 1] == j - 1;
    }
  }

  /** On pages numbered 0, 1, 2, ..., the page after cut `i` opens the
      segment whose index is the number of cuts at or before `i`. */
  lemma SegmentAfterCut(pages: seq<nat>, cuts: seq<int>, i: nat)
    requires forall t :: 0 <= t < |pages| ==> pages[t] == t
    requires StrictlyIncreasing(cuts) && forall k :: 0 <= k < |cuts| ==> 0 <= cuts[k]
    requires i + 1 < |pages| && i in cuts
    ensures CountAtMost(cuts, i) < |Split(pages, cuts)|
    ensures Split(pages, cuts)[CountAtMost(cuts, i)] != []
      && Split(pages, cuts)[CountAtMost(cuts, i)][0] == i + 1
  {
    assert pages[i] == i && pages[i + 1] == i + 1;
    CutsBeforeIsCount(pages, cuts, i + 1);
    SegmentStart(pages, cuts, i + 1);
  }

  lemma UndeletedPages(pageCount: nat)
    ensures var pages := ActivePages(pageCount, {});
      |pages| == pageCount && forall t :: 0 <= t < |pages| ==> pages[t] == t
  {
    AllPagesActive(pageCount);
  }

  /** With the corrected label, the active cut after page `i` is labelled
      with the number of the document that begins with page `i + 1`. */
  lemma CorrectedLabelNamesNextDocument(pageCount: nat, splitPositions: seq<int>, i: nat)
    requires CutsValid(pageCount, splitPositions) && i in splitPositions
    ensures var segments := Segments(pageCount, {}, splitPositions);
      var number := CorrectedMarkerLabel(splitPositions, i);
      && 1 <= number <= |segments|
      && segments[number - 1] != []
      && segments[number - 1][0] == i + 1
  {
    var k :| 0 <= k < |splitPositions| && splitPositions[k] == i;
    assert i + 1 < pageCount;
    var pages := ActivePages(pageCount, {});
    UndeletedPages(pageCount);
    SegmentAfterCut(pages, splitPositions, i);
    FilterAtMostCount(splitPositions, i);
    assert pages != [];
    assert Segments(pageCount, {}, splitPositions) == Split(pages, splitPositions);
  }
}
