/** The dirty-rectangle list of the canvas: regions to redraw, kept as a list in which a new region is
    folded into the first one it touches, and a merge pass that joins regions whose bounding box is not
    much larger than they are. Coordinates are integers. */
module DirtyRects {

  /** A rectangle: its corner and its extent. */
  datatype Rect = Rect(x: int, y: int, width: int, height: int)

  function Right(r: Rect): int { r.x + r.width }

  function Bottom(r: Rect): int { r.y + r.height }

  /** `outer` covers `inner`: the span of `inner` lies within the span of `outer` on both axes. */
  predicate Contains(outer: Rect, inner: Rect) {
    outer.x <= inner.x && Right(inner) <= Right(outer) &&
    outer.y <= inner.y && Bottom(inner) <= Bottom(outer)
  }

  lemma ContainsTransitive(a: Rect, b: Rect, c: Rect)
    requires Contains(a, b) && Contains(b, c)
    ensures Contains(a, c)
  {
  }

  function Min(a: int, b: int): int { if a <= b then a else b }

  function Max(a: int, b: int): int { if a <= b then b else a }

  /** `isOverlapping`: the two rectangles overlap or touch; only a strict gap on some axis keeps them
      apart. */
  predicate IsOverlapping(r1: Rect, r2: Rect) {
    !(Right(r1) < r2.x || Right(r2) < r1.x || Bottom(r1) < r2.y || Bottom(r2) < r1.y)
  }

  /** Overlap does not depend on the order of the two rectangles. */
  lemma OverlapSymmetric(r1: Rect, r2: Rect)
    ensures IsOverlapping(r1, r2) <==> IsOverlapping(r2, r1)
  {
  }

  /** `mergeRects`: the bounding box of the two rectangles, the smallest rectangle that covers both. */
  function MergeRects(r1: Rect, r2: Rect): (m: Rect)
    ensures Contains(m, r1) && Contains(m, r2)
    ensures forall o: Rect :: Contains(o, r1) && Contains(o, r2) ==> Contains(o, m)
  {
    var x := Min(r1.x, r2.x);
    var y := Min(r1.y, r2.y);
    var right := Max(Right(r1), Right(r2));
    var bottom := Max(Bottom(r1), Bottom(r2));
    Rect(x, y, right - x, bottom - y)
  }

  /** The bounding box does not depend on the order of the two rectangles. */
  lemma MergeCommutative(r1: Rect, r2: Rect)
    ensures MergeRects(r1, r2) == MergeRects(r2, r1)
  {
  }

  function Area(r: Rect): int { r.width * r.height }

  /** `canMerge`: the bounding box is at most one and a half times the two areas together; over the
      integers, twice the merged area is at most three times their sum. */
  predicate CanMerge(r1: Rect, r2: Rect) {
    2 * Area(MergeRects(r1, r2)) <= 3 * (Area(r1) + Area(r2))
  }

  /** Two equal rectangles of non-negative size can always be merged: their bounding box is
      themselves. */
  lemma CanMergeItself(r: Rect)
    requires r.width >= 0 && r.height >= 0
    ensures MergeRects(r, r) == r && CanMerge(r, r)
  {
  }

  /** `findIndex` over the list with `isOverlapping(rect, existing)`: the first rectangle that
      overlaps `r`, or -1 when none does. */
  function FindOverlap(rects: seq<Rect>, r: Rect): (i: int)
    ensures -1 <= i < |rects|
    ensures i == -1 <==> forall k :: 0 <= k < |rects| ==> !IsOverlapping(r, rects[k])
    ensures i >= 0 ==> IsOverlapping(r, rects[i]) && forall k :: 0 <= k < i ==> !IsOverlapping(r, rects[k])
  {
    if rects == [] then -1
    else if IsOverlapping(r, rects[0]) then 0
    else
      var i := FindOverlap(rects[1..], r);
      if i == -1 then -1 else i + 1
  }

  /** The list after `markDirty(r)`: the first overlapping rectangle grows to the bounding box of
      itself and `r`, or, when none overlaps, `r` is appended. */
  function Marked(rects: seq<Rect>, r: Rect): seq<Rect> {
    var i := FindOverlap(rects, r);
    if i >= 0 then rects[i := MergeRects(rects[i], r)] else rects + [r]
  }

  /** Marking keeps the count when `r` overlaps a stored rectangle and adds one otherwise; after it
      some stored rectangle covers `r`, and every rectangle stored before is still covered. */
  lemma MarkedCovers(rects: seq<Rect>, r: Rect)
    ensures |Marked(rects, r)| == if FindOverlap(rects, r) >= 0 then |rects| else |rects| + 1
    ensures exists m :: m in Marked(rects, r) && Contains(m, r)
    ensures forall k :: 0 <= k < |rects| ==> exists m :: m in Marked(rects, r) && Contains(m, rects[k])
  {
    var i := FindOverlap(rects, r);
    var after := Marked(rects, r);
    if i >= 0 {
      assert after[i] in after && Contains(after[i], r);
    } else {
      assert after[|rects|] == r;
      assert after[|rects|] in after && Contains(r, r);
    }
    forall k | 0 <= k < |rects|
      ensures exists m :: m in after && Contains(m, rects[k])
    {
      assert after[k] in after && Contains(after[k], rects[k]);
    }
  }

  /** Whether some rectangle of `out` covers `r`. */
  predicate Covered(out: seq<Rect>, r: Rect) {
    exists m :: m in out && Contains(m, r)
  }

  /** A box being grown by `merge` and the indices processed so far. */
  datatype Group = Group(box: Rect, processed: set<nat>)

  /** The inner loop of `merge` from index `j` on, with `accept` the merge test: each later rectangle
      not yet processed that `accept` takes against the running box grows the box and is marked
      processed. Gives the final box and the processed set. */
  function Absorb(rects: seq<Rect>, current: Rect, j: nat, processed: set<nat>, accept: (Rect, Rect) -> bool): Group
    decreases |rects| - j
  {
    if j >= |rects| then Group(current, processed)
    else if j in processed || !accept(current, rects[j]) then Absorb(rects, current, j + 1, processed, accept)
    else Absorb(rects, MergeRects(current, rects[j]), j + 1, processed + {j}, accept)
  }

  /** The outer loop of `merge` from index `i` on: each rectangle not yet processed starts a box, which
      absorbs the later rectangles it can merge with, and is emitted in order. */
  function MergeFrom(rects: seq<Rect>, i: nat, processed: set<nat>, accept: (Rect, Rect) -> bool): seq<Rect>
    decreases |rects| - i
  {
    if i >= |rects| then []
    else if i in processed then MergeFrom(rects, i + 1, processed, accept)
    else
      var g := Absorb(rects, rects[i], i + 1, processed + {i}, accept);
      [g.box] + MergeFrom(rects, i + 1, g.processed, accept)
  }

  /** What `merge` returns for the stored list `rects`: the passes above with CanMerge as the test. */
  function MergePass(rects: seq<Rect>): seq<Rect> {
    MergeFrom(rects, 0, {}, CanMerge)
  }

  class DirtyRectManager {
    var dirtyRects: seq<Rect>

    /** A new manager holds no rectangles. */
    constructor ()
      ensures dirtyRects == []
    {
      dirtyRects := [];
    }

    /** `markDirty`: fold `rect` into the first stored rectangle it overlaps, or append it. */
    method MarkDirty(rect: Rect)
      modifies this
      ensures dirtyRects == Marked(old(dirtyRects), rect)
    {
      var overlappingIndex := FindOverlap(dirtyRects, rect);
      if overlappingIndex >= 0 {
        dirtyRects := dirtyRects[overlappingIndex := MergeRects(dirtyRects[overlappingIndex], rect)];
      } else {
        dirtyRects := dirtyRects + [rect];
      }
    }

    /** `getDirtyRects`: a copy of the stored list. */
    method GetDirtyRects() returns (rects: seq<Rect>)
      ensures rects == dirtyRects
    {
      rects := dirtyRects;
    }

    /** `clear`: forget every stored rectangle. */
    method Clear()
      modifies this
      ensures dirtyRects == []
    {
      dirtyRects := [];
    }

    /** `merge`: walk the list; each rectangle not yet absorbed starts a group and absorbs, in order,
        every later unabsorbed rectangle it can merge with. The result is MergePass of the stored list;
        it has no more rectangles than are stored, covers every stored rectangle, and each of its
        rectangles covers a stored one; the stored list is left as it is. */
    method Merge() returns (merged: seq<Rect>)
      ensures merged == MergePass(dirtyRects)
      ensures dirtyRects == [] ==> merged == []
      ensures |merged| <= |dirtyRects|
      ensures forall k :: 0 <= k < |dirtyRects| ==> Covered(merged, dirtyRects[k])
      ensures forall m :: m in merged ==> exists k :: 0 <= k < |dirtyRects| && Contains(m, dirtyRects[k])
    {
      var rects := dirtyRects;
      MergePassFacts(rects);
      if |rects| == 0 {
        return [];
      }
      merged := [];
      var processed: set<nat> := {};
      for i := 0 to |rects|
        invariant merged + MergeFrom(rects, i, processed, CanMerge) == MergePass(rects)
      {
        if i in processed {
          continue;
        }
        ghost var before := processed;
        var currentRect;
        currentRect, processed := GrowBox(rects, i, processed);
        assert MergeFrom(rects, i, before, CanMerge) == [currentRect] + MergeFrom(rects, i + 1, processed, CanMerge);
        merged := merged + [currentRect];
      }
    }
  }

  /** One turn of the outer loop of `merge`: the box started at `i` absorbs, in order, every later
      rectangle not yet processed that CanMerge accepts against the running box. */
  method GrowBox(rects: seq<Rect>, i: nat, processed0: set<nat>) returns (box: Rect, processed: set<nat>)
    requires i < |rects|
    ensures Group(box, processed) == Absorb(rects, rects[i], i + 1, processed0 + {i}, CanMerge)
  {
    box := rects[i];
    processed := processed0 + {i};
    for j := i + 1 to |rects|
      invariant Absorb(rects, box, j, processed, CanMerge) == Absorb(rects, rects[i], i + 1, processed0 + {i}, CanMerge)
    {
      if j in processed {
        continue;
      }
      var otherRect := rects[j];
      if CanMerge(box, otherRect) {
        box := MergeRects(box, otherRect);
        processed := processed + {j};
      }
    }
  }

  /** The box the inner loop ends with covers the rectangle it started from and every rectangle it
      marked processed, and it marks only rectangles at `j` or later. */
  lemma {:induction false} AbsorbFacts(rects: seq<Rect>, current: Rect, j: nat, processed: set<nat>, accept: (Rect, Rect) -> bool)
    ensures var g := Absorb(rects, current, j, processed, accept);
      processed <= g.processed && Contains(g.box, current) &&
      forall k :: k in g.processed - processed ==> j <= k < |rects| && Contains(g.box, rects[k])
    decreases |rects| - j
  {
    if j < |rects| {
      if j in processed || !accept(current, rects[j]) {
        AbsorbFacts(rects, current, j + 1, processed, accept);
      } else {
        var m := MergeRects(current, rects[j]);
        AbsorbFacts(rects, m, j + 1, processed + {j}, accept);
        var g := Absorb(rects, m, j + 1, processed + {j}, accept);
        assert Absorb(rects, current, j, processed, accept) == g;
        BoxCoversBoth(g.box, current, rects[j]);
        forall k | k in g.processed - processed
          ensures j <= k < |rects| && Contains(g.box, rects[k])
        {
          if k != j {
            assert k in g.processed - (processed + {j});
          }
        }
      }
    }
  }

  /** A rectangle that covers the bounding box of two rectangles covers each of them. */
  lemma BoxCoversBoth(box: Rect, a: Rect, b: Rect)
    requires Contains(box, MergeRects(a, b))
    ensures Contains(box, a) && Contains(box, b)
  {
    ContainsTransitive(box, MergeRects(a, b), a);
    ContainsTransitive(box, MergeRects(a, b), b);
  }

  /** The boxes emitted from index `i` on are no more than the rectangles from `i` on; they cover every
      rectangle from `i` on that is not yet processed, and each covers some rectangle from `i` on. */
  lemma {:induction false} MergeFromFacts(rects: seq<Rect>, i: nat, processed: set<nat>, accept: (Rect, Rect) -> bool)
    requires i <= |rects|
    ensures |MergeFrom(rects, i, processed, accept)| <= |rects| - i
    ensures forall k :: i <= k < |rects| && k !in processed ==> Covered(MergeFrom(rects, i, processed, accept), rects[k])
    ensures forall m :: m in MergeFrom(rects, i, processed, accept) ==> exists k :: i <= k < |rects| && Contains(m, rects[k])
    decreases |rects| - i
  {
    if i < |rects| {
      if i in processed {
        MergeFromFacts(rects, i + 1, processed, accept);
      } else {
        var g := Absorb(rects, rects[i], i + 1, processed + {i}, accept);
        var box, after := g.box, g.processed;
        AbsorbFacts(rects, rects[i], i + 1, processed + {i}, accept);
        MergeFromFacts(rects, i + 1, after, accept);
        var out := MergeFrom(rects, i, processed, accept);
        var rest := MergeFrom(rects, i + 1, after, accept);
        assert out == [box] + rest;
        assert |out| == 1 + |rest| <= |rects| - i;
        forall k | i <= k < |rects| && k !in processed
          ensures Covered(out, rects[k])
        {
          if k == i || k in after {
            assert box in out && Contains(box, rects[k]);
          } else {
            var m :| m in MergeFrom(rects, i + 1, after, accept) && Contains(m, rects[k]);
            assert m in out;
          }
        }
        forall m | m in out
          ensures exists k :: i <= k < |rects| && Contains(m, rects[k])
        {
          if m == box {
            assert Contains(box, rects[i]);
          } else {
            assert m in MergeFrom(rects, i + 1, after, accept);
          }
        }
      }
    }
  }

  /** `merge` returns no more rectangles than are stored, none for an empty list, covers every stored
      rectangle, and each of its rectangles covers a stored one. */
  lemma MergePassFacts(rects: seq<Rect>)
    ensures rects == [] ==> MergePass(rects) == []
    ensures |MergePass(rects)| <= |rects|
    ensures forall k :: 0 <= k < |rects| ==> Covered(MergePass(rects), rects[k])
    ensures forall m :: m in MergePass(rects) ==> exists k :: 0 <= k < |rects| && Contains(m, rects[k])
  {
    MergeFromFacts(rects, 0, {}, CanMerge);
  }

  /** Two stored rectangles become their bounding box exactly when CanMerge accepts them, and stay
      as they are otherwise. */
  lemma MergePassPair(a: Rect, b: Rect)
    ensures MergePass([a, b]) == if CanMerge(a, b) then [MergeRects(a, b)] else [a, b]
  {
    var rects := [a, b];
    assert rects[0] == a && rects[1] == b && 1 !in {0};
    var g := Absorb(rects, a, 1, {0}, CanMerge);
    assert {} + {0} == {0} && 0 !in {};
    assert MergePass(rects) == MergeFrom(rects, 0, {}, CanMerge);
    assert MergePass(rects) == [g.box] + MergeFrom(rects, 1, g.processed, CanMerge);
    if CanMerge(a, b) {
      assert g == Absorb(rects, MergeRects(a, b), 2, {0} + {1}, CanMerge) == Group(MergeRects(a, b), {0, 1});
      assert 1 in {0, 1};
      assert MergeFrom(rects, 1, {0, 1}, CanMerge) == MergeFrom(rects, 2, {0, 1}, CanMerge) == [];
    } else {
      assert g == Absorb(rects, a, 2, {0}, CanMerge) == Group(a, {0});
      var h := Absorb(rects, b, 2, {0, 1}, CanMerge);
      assert h == Group(b, {0, 1});
      assert MergeFrom(rects, 1, {0}, CanMerge) == [b] + MergeFrom(rects, 2, {0, 1}, CanMerge);
    }
  }
}
