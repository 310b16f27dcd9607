/** The segmentation engine of the splitter (`getSegments`): from the page
    count, the set of deleted pages and the list of cut positions it derives
    the output documents, each a list of original page indices. A cut at page
    p means "a new document starts after original page p"; the test is made on
    the original index, so deleted pages never shift a boundary. */
module Segmentation {
  import opened Lists

  /** The pages 0 .. pageCount-1 that are not deleted, ascending. */
  function ActivePages(pageCount: nat, deleted: set<int>): (r: seq<nat>)
    ensures forall p: int :: p in r <==> 0 <= p < pageCount && p !in deleted
    ensures forall k :: 0 <= k < |r| ==> r[k] < pageCount
    ensures StrictlyIncreasing(r)
  {
    if pageCount == 0 then []
    else
      var prefix := ActivePages(pageCount - 1, deleted);
      if pageCount - 1 in deleted then prefix else prefix + [pageCount - 1]
  }

  /** The scan over the active pages, written as a recursion from the front:
      the first page closes a segment of its own when it is a cut position
      (or is the only page left), and otherwise joins the segment that the
      remaining pages begin with. */
  function Split(pages: seq<nat>, cuts: seq<int>): seq<seq<nat>>
  {
    if pages == [] then []
    else
      var rest := Split(pages[1..], cuts);
      if pages[0] in cuts || rest == [] then [[pages[0]]] + rest
      else [[pages[0]] + rest[0]] + rest[1..]
  }

  /** `getSegments()`, with its two early returns: no active page gives no
      segment, no cut position gives the active pages as one segment. */
  function Segments(pageCount: nat, deleted: set<int>, splitPositions: seq<int>): seq<seq<nat>>
  {
    var active := ActivePages(pageCount, deleted);
    if active == [] then []
    else if splitPositions == [] then [active]
    else Split(active, splitPositions)
  }

  /** What a correct segmentation of `pages` along `cuts` is: the segments
      concatenate back to the pages, none is empty, every segment but the last
      ends on a cut page, and no cut page occurs anywhere but at a segment's end. */
  ghost predicate IsSegmentation(segments: seq<seq<nat>>, pages: seq<nat>, cuts: seq<int>)
  {
    && Flatten(segments) == pages
    && (forall i :: 0 <= i < |segments| ==> segments[i] != [])
    && (forall i :: 0 <= i < |segments| - 1 ==> Last(segments[i]) in cuts)
    && (forall i, k :: 0 <= i < |segments| && 0 <= k < |segments[i]| - 1 ==> segments[i][k] !in cuts)
  }

  lemma {:induction false} SplitIsSegmentation(pages: seq<nat>, cuts: seq<int>)
    ensures IsSegmentation(Split(pages, cuts), pages, cuts)
    decreases |pages|
  {
    if pages != [] {
      var p := pages[0];
      var rest := Split(pages[1..], cuts);
      SplitIsSegmentation(pages[1..], cuts);
      var r := Split(pages, cuts);
      assert pages == [p] + pages[1..];
      if p in cuts || rest == [] {
        assert r == [[p]] + rest;
        assert r[1..] == rest;
        assert Flatten(r) == [p] + Flatten(rest);
        forall i, k | 0 <= i < |r| && 0 <= k < |r[i]| - 1 ensures r[i][k] !in cuts {
          assert r[i] == rest[i - 1];
        }
        forall i | 0 <= i < |r| - 1 ensures Last(r[i]) in cuts {
          if i > 0 {
            assert r[i] == rest[i - 1];
          }
        }
      } else {
        var first := [p] + rest[0];
        assert r == [first] + rest[1..];
        assert r[1..] == rest[1..];
        assert Flatten(rest) == rest[0] + Flatten(rest[1..]);
        assert Flatten(r) == first + Flatten(rest[1..]);
        forall i, k | 0 <= i < |r| && 0 <= k < |r[i]| - 1 ensures r[i][k] !in cuts {
          if i == 0 {
            if k > 0 {
              assert r[0][k] == rest[0][k - 1];
            }
          } else {
            assert r[i] == rest[i];
          }
        }
        forall i | 0 <= i < |r| - 1 ensures Last(r[i]) in cuts {
          if i == 0 {
            assert Last(r[0]) == Last(rest[0]);
          } else {
            assert r[i] == rest[i];
          }
        }
      }
    }
  }

  /** There is only one segmentation: any that meets IsSegmentation is Split's. */
  lemma {:induction false} SegmentationIsSplit(segments: seq<seq<nat>>, pages: seq<nat>, cuts: seq<int>)
    requires IsSegmentation(segments, pages, cuts)
    ensures segments == Split(pages, cuts)
    decreases |pages|
  {
    if segments != [] {
      var s0 := segments[0];
      var tail := segments[1..];
      assert Flatten(segments) == s0 + Flatten(tail);
      assert s0 != [];
      var p := pages[0];
      assert p == s0[0];
      var rest := Split(pages[1..], cuts);
      if |s0| == 1 {
        assert pages[1..] == Flatten(tail);
        forall i | 0 <= i < |tail| - 1 ensures Last(tail[i]) in cuts {
          assert tail[i] == segments[i + 1];
        }
        forall i, k | 0 <= i < |tail| && 0 <= k < |tail[i]| - 1 ensures tail[i][k] !in cuts {
          assert tail[i] == segments[i + 1];
        }
        SegmentationIsSplit(tail, pages[1..], cuts);
        if |segments| > 1 {
          assert Last(s0) == p;
        }
        assert s0 == [p];
        assert segments == [[p]] + tail;
      } else {
        assert s0[0] !in cuts;
        var first := s0[1..];
        var segments' := [first] + tail;
        assert segments'[1..] == tail;
        assert s0 == [p] + first;
        assert Flatten(segments') == first + Flatten(tail);
        assert pages[1..] == Flatten(segments');
        forall i | 0 <= i < |segments'| ensures segments'[i] != [] {
          if i > 0 {
            assert segments'[i] == segments[i];
          }
        }
        forall i | 0 <= i < |segments'| - 1 ensures Last(segments'[i]) in cuts {
          if i == 0 {
            assert Last(segments'[0]) == Last(s0);
          } else {
            assert segments'[i] == segments[i];
          }
        }
        forall i, k | 0 <= i < |segments'| && 0 <= k < |segments'[i]| - 1 ensures segments'[i][k] !in cuts {
          if i == 0 {
            assert segments'[0][k] == s0[k + 1];
          } else {
            assert segments'[i] == segments[i];
          }
        }
        SegmentationIsSplit(segments', pages[1..], cuts);
        assert rest == segments';
        assert segments == [[p] + rest[0]] + rest[1..];
      }
    } else if pages != [] {
      assert false;
    }
  }

  /** The early return for an empty cut list gives what the scan would give. */
  lemma SplitWithoutCuts(pages: seq<nat>)
    requires pages != []
    ensures Split(pages, []) == [pages]
  {
    assert Flatten([pages]) == pages + Flatten([pages][1..]);
    SegmentationIsSplit([pages], pages, []);
  }

  /** The segments of getSegments meet IsSegmentation for the active pages. */
  lemma SegmentsAreSegmentation(pageCount: nat, deleted: set<int>, splitPositions: seq<int>)
    ensures IsSegmentation(Segments(pageCount, deleted, splitPositions), ActivePages(pageCount, deleted), splitPositions)
  {
    var active := ActivePages(pageCount, deleted);
    if active != [] && splitPositions == [] {
      assert Flatten([active]) == active + Flatten([active][1..]);
    } else {
      SplitIsSegmentation(active, splitPositions);
    }
  }

  /** No segment at all exactly when every page is deleted; otherwise, without
      cut positions, a single segment holding every active page in order. */
  lemma SegmentsEmptyOrWhole(pageCount: nat, deleted: set<int>, splitPositions: seq<int>)
    ensures Segments(pageCount, deleted, splitPositions) == []
        <==> forall p :: 0 <= p < pageCount ==> p in deleted
    ensures splitPositions == [] && (exists p :: 0 <= p < pageCount && p !in deleted)
        ==> Segments(pageCount, deleted, splitPositions) == [ActivePages(pageCount, deleted)]
  {
    var active := ActivePages(pageCount, deleted);
    if active != [] {
      assert active[0] in active;
    } else {
      forall p | 0 <= p < pageCount ensures p in deleted {
        assert p !in active;
      }
    }
  }

  /** Coverage and disjointness: the segments concatenate to the ascending
      list of the pages that are not deleted, so every such page occurs
      exactly once and no other page occurs. */
  lemma SegmentsPartition(pageCount: nat, deleted: set<int>, splitPositions: seq<int>)
    ensures var all := Flatten(Segments(pageCount, deleted, splitPositions));
      && all == ActivePages(pageCount, deleted)
      && StrictlyIncreasing(all)
      && forall p: int :: p in all <==> 0 <= p < pageCount && p !in deleted
  {
    SegmentsAreSegmentation(pageCount, deleted, splitPositions);
  }

  /** Every segment is non-empty and strictly increasing, and each lies
      wholly below the segments after it. */
  lemma SegmentsOrdered(pageCount: nat, deleted: set<int>, splitPositions: seq<int>)
    ensures var segments := Segments(pageCount, deleted, splitPositions);
      forall i :: 0 <= i < |segments| ==> segments[i] != [] && StrictlyIncreasing(segments[i])
    ensures var segments := Segments(pageCount, deleted, splitPositions);
      forall i, j, x, y :: 0 <= i < j < |segments| && x in segments[i] && y in segments[j] ==> x < y
  {
    var segments := Segments(pageCount, deleted, splitPositions);
    SegmentsAreSegmentation(pageCount, deleted, splitPositions);
    FlattenIncreasing(segments);
  }

  /** Boundaries sit exactly after cut pages: every segment but the last ends
      on a page in the cut list, and a page in the cut list occurs nowhere but
      at the end of a segment. */
  lemma SegmentsBoundaries(pageCount: nat, deleted: set<int>, splitPositions: seq<int>)
    ensures var segments := Segments(pageCount, deleted, splitPositions);
      forall i :: 0 <= i < |segments| - 1 ==> segments[i] != [] && Last(segments[i]) in splitPositions
    ensures var segments := Segments(pageCount, deleted, splitPositions);
      forall i, k :: 0 <= i < |segments| && 0 <= k < |segments[i]| - 1 ==> segments[i][k] !in splitPositions
  {
    SegmentsAreSegmentation(pageCount, deleted, splitPositions);
  }

  lemma {:induction false} SplitDependsOnInnerCuts(pages: seq<nat>, cuts1: seq<int>, cuts2: seq<int>)
    requires forall k :: 0 <= k < |pages| - 1 ==> (pages[k] in cuts1 <==> pages[k] in cuts2)
    ensures Split(pages, cuts1) == Split(pages, cuts2)
    decreases |pages|
  {
    if pages != [] {
      forall k | 0 <= k < |pages[1..]| - 1 ensures pages[1..][k] in cuts1 <==> pages[1..][k] in cuts2 {
        assert pages[1..][k] == pages[k + 1];
      }
      SplitDependsOnInnerCuts(pages[1..], cuts1, cuts2);
    }
  }

  /** The cut positions matter only through which active pages, other than
      the last one, they name: the cut test is membership, so repeated cuts,
      cuts on deleted pages, cuts after the last active page and cuts outside
      the document change nothing. */
  lemma SegmentsDependOnActiveCuts(pageCount: nat, deleted: set<int>, cuts1: seq<int>, cuts2: seq<int>)
    requires forall k :: 0 <= k < |ActivePages(pageCount, deleted)| - 1 ==>
      (ActivePages(pageCount, deleted)[k] in cuts1 <==> ActivePages(pageCount, deleted)[k] in cuts2)
    ensures Segments(pageCount, deleted, cuts1) == Segments(pageCount, deleted, cuts2)
  {
    var active := ActivePages(pageCount, deleted);
    if active != [] {
      if cuts1 == [] && cuts2 != [] {
        SplitDependsOnInnerCuts(active, cuts2, []);
        SplitWithoutCuts(active);
      } else if cuts1 != [] && cuts2 == [] {
        SplitDependsOnInnerCuts(active, cuts1, []);
        SplitWithoutCuts(active);
      } else {
        SplitDependsOnInnerCuts(active, cuts1, cuts2);
      }
    }
  }

  /** A five-page document cut after pages 1 and 3 gives [0, 1], [2, 3], [4]. */
  lemma FivePagesTwoCuts()
    ensures Segments(5, {}, [1, 3]) == [[0, 1], [2, 3], [4]]
  {
    AllPagesActive(5);
    SplitFivePages();
  }

  lemma AllPagesActive(n: nat)
    ensures ActivePages(n, {}) == seq(n, i => i)
  {
    if n > 0 {
      AllPagesActive(n - 1);
      assert seq(n, i => i) == seq(n - 1, i => i) + [n - 1];
    }
  }

  lemma SplitFivePages()
    ensures Split(seq(5, i => i), [1, 3]) == [[0, 1], [2, 3], [4]]
  {
    var cuts := [1, 3];
    var p0: seq<nat> := [0, 1, 2, 3, 4];
    var p1, p2, p3, p4 := p0[1..], p0[2..], p0[3..], p0[4..];
    assert p0 == seq(5, i => i);
    assert p4 == [4] && p4[1..] == [];
    assert Split(p4, cuts) == [[4]];
    assert p3 == [3] + p4 && p3[1..] == p4;
    var r3 := Split(p3, cuts);
    assert r3 == [[3], [4]];
    var s23: seq<nat> := [2, 3];
    var s4: seq<nat> := [4];
    assert r3[1..] == [s4] && [2] + r3[0] == s23;
    assert p2[1..] == p3 && p2[0] == 2;
    assert Split(p2, cuts) == [[2, 3], [4]];
    assert p1[1..] == p2 && p1[0] == 1;
    assert Split(p1, cuts) == [[1], [2, 3], [4]];
    var r1 := Split(p1, cuts);
    var s01: seq<nat> := [0, 1];
    assert r1[1..] == [s23, s4] && [0] + r1[0] == s01;
    assert p0[1..] == p1 && p0[0] == 0;
    assert Split(p0, cuts) == [s01, s23, s4];
  }

  /** Every page a segment names is a page of the document, so copying a
      segment out of a document with `pageCount` pages cannot fail. */
  lemma SegmentPagesInRange(pageCount: nat, deleted: set<int>, splitPositions: seq<int>)
    ensures var segments := Segments(pageCount, deleted, splitPositions);
      forall i, k :: 0 <= i < |segments| && 0 <= k < |segments[i]| ==>
        segments[i][k] < pageCount && segments[i][k] !in deleted
  {
    var segments := Segments(pageCount, deleted, splitPositions);
    SegmentsPartition(pageCount, deleted, splitPositions);
    forall i, k | 0 <= i < |segments| && 0 <= k < |segments[i]|
      ensures segments[i][k] < pageCount && segments[i][k] !in deleted
    {
      FlattenMember(segments, i, segments[i][k]);
    }
  }

  /** How many of the first `j` pages are cut pages: the index of the
      segment that page `pages[j]` falls into. */
  function CutsBefore(pages: seq<nat>, cuts: seq<int>, j: nat): nat
    requires j <= |pages|
  {
    if j == 0 then 0
    else (if pages[0] in cuts then 1 else 0) + CutsBefore(pages[1..], cuts, j - 1)
  }

  lemma {:induction false} CutsBeforeStep(pages: seq<nat>, cuts: seq<int>, j: nat)
    requires j < |pages|
    ensures CutsBefore(pages, cuts, j + 1) == CutsBefore(pages, cuts, j) + if pages[j] in cuts then 1 else 0
  {
    if j > 0 {
      CutsBeforeStep(pages[1..], cuts, j - 1);
    }
  }

  /** A page that follows a cut page (or is the first page) opens a segment,
      and that segment's index is the number of cut pages before it. */
  lemma {:induction false} SegmentStart(pages: seq<nat>, cuts: seq<int>, j: nat)
    requires j < |pages|
    requires j == 0 || pages[j - 1] in cuts
    ensures CutsBefore(pages, cuts, j) < |Split(pages, cuts)|
    ensures Split(pages, cuts)[CutsBefore(pages, cuts, j)] != []
      && Split(pages, cuts)[CutsBefore(pages, cuts, j)][0] == pages[j]
    decreases |pages|
  {
    var p, ps := pages[0], pages[1..];
    var rest := Split(ps, cuts);
    if j == 1 {
      SegmentStart(ps, cuts, 0);
    } else if j >= 2 {
      assert ps[j - 2] == pages[j - 1];
      SegmentStart(ps, cuts, j - 1);
      var b := CutsBefore(ps, cuts, j - 1);
      assert ps[j - 1] == pages[j];
      if p !in cuts {
        CutsBeforeStep(ps, cuts, j - 2);
        assert b >= 1;
        assert Split(pages, cuts)[b] == rest[b];
      }
    }
  }
}
