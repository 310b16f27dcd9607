/** Sequence operations shared by the split, merge and image components:
    flattening a list of lists, `Array.prototype.filter`, removal by position
    and the remove-then-insert relocation performed by a drag gesture. */
module Lists {

  function Last<T>(s: seq<T>): T
    requires s != []
  {
    s[|s| - 1]
  }

  predicate StrictlyIncreasing(s: seq<int>)
  {
    forall i, j :: 0 <= i < j < |s| ==> s[i] < s[j]
  }

  predicate Ascending(s: seq<int>)
  {
    forall i, j :: 0 <= i < j < |s| ==> s[i] <= s[j]
  }

  // ---------------------------------------------------------------------------
  // Flattening

  /** The concatenation, in order, of every list in `ss`. */
  function Flatten<T>(ss: seq<seq<T>>): seq<T>
  {
    if ss == [] then [] else ss[0] + Flatten(ss[1..])
  }

  /** The sum of the lengths of the lists in `ss`. */
  function TotalLength<T>(ss: seq<seq<T>>): nat
  {
    if ss == [] then 0 else |ss[0]| + TotalLength(ss[1..])
  }

  lemma {:induction false} FlattenAppend<T>(ss: seq<seq<T>>, s: seq<T>)
    ensures Flatten(ss + [s]) == Flatten(ss) + s
  {
    if ss == [] {
      assert ss + [s] == [s];
    } else {
      assert (ss + [s])[1..] == ss[1..] + [s];
      FlattenAppend(ss[1..], s);
    }
  }

  lemma {:induction false} FlattenLength<T>(ss: seq<seq<T>>)
    ensures |Flatten(ss)| == TotalLength(ss)
  {
    if ss != [] {
      FlattenLength(ss[1..]);
    }
  }

  /** Item `k` of part `i` sits in the flattening right after the items of
      the parts before part `i`. */
  lemma {:induction false} FlattenPosition<T>(ss: seq<seq<T>>, i: nat, k: nat)
    requires i < |ss| && k < |ss[i]|
    ensures TotalLength(ss[..i]) + k < |Flatten(ss)|
    ensures Flatten(ss)[TotalLength(ss[..i]) + k] == ss[i][k]
  {
    FlattenLength(ss);
    if i > 0 {
      assert ss[1..][..i - 1] == ss[..i][1..];
      FlattenPosition(ss[1..], i - 1, k);
    }
  }

  /** A strictly increasing concatenation splits into strictly increasing
      parts, each lying wholly below the next. */
  lemma IncreasingConcat(a: seq<nat>, b: seq<nat>)
    requires StrictlyIncreasing(a + b)
    ensures StrictlyIncreasing(a) && StrictlyIncreasing(b)
    ensures forall x, y :: x in a && y in b ==> x < y
  {
    forall i, j | 0 <= i < j < |a| ensures a[i] < a[j] {
      assert (a + b)[i] == a[i] && (a + b)[j] == a[j];
    }
    forall i, j | 0 <= i < j < |b| ensures b[i] < b[j] {
      assert (a + b)[|a| + i] == b[i] && (a + b)[|a| + j] == b[j];
    }
    forall x, y | x in a && y in b ensures x < y {
      var i :| 0 <= i < |a| && a[i] == x;
      var j :| 0 <= j < |b| && b[j] == y;
      assert (a + b)[i] == x && (a + b)[|a| + j] == y;
    }
  }

  lemma {:induction false} FlattenMember<T>(ss: seq<seq<T>>, i: nat, x: T)
    requires i < |ss| && x in ss[i]
    ensures x in Flatten(ss)
  {
    if i > 0 {
      FlattenMember(ss[1..], i - 1, x);
    }
  }

  /** When the concatenation of a list of lists is strictly increasing, so is
      every list, and every element of an earlier list is smaller than every
      element of a later one. */
  lemma {:induction false} FlattenIncreasing(ss: seq<seq<nat>>)
    requires StrictlyIncreasing(Flatten(ss))
    ensures forall i :: 0 <= i < |ss| ==> StrictlyIncreasing(ss[i])
    ensures forall i, j, x, y :: 0 <= i < j < |ss| && x in ss[i] && y in ss[j] ==> x < y
  {
    if ss != [] {
      IncreasingConcat(ss[0], Flatten(ss[1..]));
      FlattenIncreasing(ss[1..]);
      forall i, j, x, y | 0 <= i < j < |ss| && x in ss[i] && y in ss[j] ensures x < y {
        if i == 0 {
          FlattenMember(ss[1..], j - 1, y);
        } else {
          assert ss[i] == ss[1..][i - 1] && ss[j] == ss[1..][j - 1];
        }
      }
      forall i | 0 <= i < |ss| ensures StrictlyIncreasing(ss[i]) {
        if i > 0 {
          assert ss[i] == ss[1..][i - 1];
        }
      }
    }
  }

  // ---------------------------------------------------------------------------
  // Filtering

  /** `r` is obtained from `s` by deleting some of its elements. */
  ghost predicate IsSubsequence<T>(r: seq<T>, s: seq<T>)
    decreases |s|
  {
    r == [] || (s != [] && (IsSubsequence(r, s[1..]) || (r[0] == s[0] && IsSubsequence(r[1..], s[1..]))))
  }

  /** `s.filter(keep)`: the elements of `s` that satisfy `keep`, in their
      original order, every occurrence kept. */
  function Filter<T(!new)>(s: seq<T>, keep: T -> bool): (r: seq<T>)
    ensures forall x :: multiset(r)[x] == if keep(x) then multiset(s)[x] else 0
    ensures IsSubsequence(r, s)
  {
    if s == [] then []
    else
      var rest := Filter(s[1..], keep);
      assert s == [s[0]] + s[1..];
      if keep(s[0]) then
        assert ([s[0]] + rest)[1..] == rest;
        [s[0]] + rest
      else rest
  }

  /** The kept items are items of the input that pass the test. */
  lemma FilterMembers<T(!new)>(s: seq<T>, keep: T -> bool)
    ensures forall x :: x in Filter(s, keep) ==> x in s && keep(x)
  {
    var r := Filter(s, keep);
    forall x | x in r ensures x in s && keep(x) {
      assert multiset(r)[x] > 0;
    }
  }

  lemma {:induction false} FilterLength<T(!new)>(s: seq<T>, keep: T -> bool)
    ensures |Filter(s, keep)| <= |s|
  {
    if s != [] {
      FilterLength(s[1..], keep);
    }
  }

  /** A weaker condition keeps at least as many elements. */
  lemma {:induction false} FilterMonotone<T(!new)>(s: seq<T>, keep1: T -> bool, keep2: T -> bool)
    requires forall x :: keep1(x) ==> keep2(x)
    ensures |Filter(s, keep1)| <= |Filter(s, keep2)|
  {
    if s != [] {
      FilterMonotone(s[1..], keep1, keep2);
    }
  }

  lemma {:induction false} FilterStrictlyIncreasing(s: seq<int>, keep: int -> bool)
    requires StrictlyIncreasing(s)
    ensures StrictlyIncreasing(Filter(s, keep))
  {
    if s != [] {
      var rest := Filter(s[1..], keep);
      FilterStrictlyIncreasing(s[1..], keep);
      if keep(s[0]) {
        forall j | 0 < j < |[s[0]] + rest| ensures s[0] < ([s[0]] + rest)[j] {
          var y := rest[j - 1];
          assert multiset(rest)[y] > 0;
          assert y in s[1..];
        }
      }
    }
  }

  // ---------------------------------------------------------------------------
  // Removal by position, insertion, relocation

  /** `s.filter((_, i) => i !== index)`: every element except the one at
      position `index`; an index outside the list removes nothing. */
  function RemoveAt<T>(s: seq<T>, index: int): (r: seq<T>)
    ensures 0 <= index < |s| ==> r == s[..index] + s[index + 1..]
    ensures !(0 <= index < |s|) ==> r == s
  {
    if s == [] then []
    else
      var rest := RemoveAt(s[1..], index - 1);
      assert s == [s[0]] + s[1..];
      if index == 0 then rest else [s[0]] + rest
  }

  /** `s.splice(index, 0, x)` for `0 <= index <= |s|`. */
  function Insert<T>(s: seq<T>, index: nat, x: T): (r: seq<T>)
    requires index <= |s|
    ensures |r| == |s| + 1 && r[index] == x
    ensures r[..index] == s[..index] && r[index + 1..] == s[index..]
  {
    s[..index] + [x] + s[index..]
  }

  /** The element at `from` taken out and put back in at `to`: the two
      `splice` calls of a drag-over step. */
  function Move<T>(s: seq<T>, from: nat, to: nat): seq<T>
    requires from < |s| && to < |s|
  {
    Insert(RemoveAt(s, from), to, s[from])
  }

  /** A move keeps the length and the items, puts the moved item at the target
      position, and leaves the other items in their relative order. */
  lemma MoveProperties<T>(s: seq<T>, from: nat, to: nat)
    requires from < |s| && to < |s|
    ensures |Move(s, from, to)| == |s|
    ensures multiset(Move(s, from, to)) == multiset(s)
    ensures Move(s, from, to)[to] == s[from]
    ensures RemoveAt(Move(s, from, to), to) == RemoveAt(s, from)
  {
    var rest := RemoveAt(s, from);
    var r := Move(s, from, to);
    assert s == s[..from] + [s[from]] + s[from + 1..];
    assert r == rest[..to] + [s[from]] + rest[to..];
    assert rest == rest[..to] + rest[to..];
    calc {
      multiset(r);
      multiset(rest[..to]) + multiset{s[from]} + multiset(rest[to..]);
      multiset(rest) + multiset{s[from]};
      multiset(s[..from]) + multiset(s[from + 1..]) + multiset{s[from]};
      multiset(s);
    }
    assert r[..to] + r[to + 1..] == rest;
  }

  /** A second drag-over step continues to move the same item: two steps
      compose into a single move from the first anchor. */
  lemma MoveTwice<T>(s: seq<T>, a: nat, b: nat, c: nat)
    requires a < |s| && b < |s| && c < |s|
    ensures Move(Move(s, a, b), b, c) == Move(s, a, c)
  {
    MoveProperties(s, a, b);
  }

  /** Moving an item onto its own position changes nothing. */
  lemma MoveInPlace<T>(s: seq<T>, i: nat)
    requires i < |s|
    ensures Move(s, i, i) == s
  {
    assert s == s[..i] + [s[i]] + s[i + 1..];
  }
}
