/** The list of screen rectangles waiting to be repainted (kernel/dwm/dwm_aux.c:9-29, 44-121). */
module DirtyRects {
  import opened Basics

  const MAX_DIRTY_RECTS: nat := 32

  datatype Rect = Rect(x: int, y: int, w: int, h: int)

  ghost predicate In(r: Rect, px: int, py: int) {
    r.x <= px < r.x + r.w && r.y <= py < r.y + r.h
  }

  function Min(a: int, b: int): int { if a < b then a else b }

  function Max(a: int, b: int): int { if a > b then a else b }

  function FromCorners(x1: int, y1: int, x2: int, y2: int): Rect {
    Rect(x1, y1, x2 - x1, y2 - y1)
  }

  /** The smallest rectangle around two. */
  function Union(a: Rect, b: Rect): Rect {
    FromCorners(Min(a.x, b.x), Min(a.y, b.y), Max(a.x + a.w, b.x + b.w), Max(a.y + a.h, b.y + b.h))
  }

  function Area(r: Rect): int {
    r.w * r.h
  }

  // ---------------------------------------------------------------- overlap

  predicate RectsIntersect(a: Rect, b: Rect) {
    !(a.x + a.w <= b.x || b.x + b.w <= a.x || a.y + a.h <= b.y || b.y + b.h <= a.y)
  }

  function Intersection(a: Rect, b: Rect): Rect {
    var x1, y1 := Max(a.x, b.x), Max(a.y, b.y);
    var x2, y2 := Min(a.x + a.w, b.x + b.w), Min(a.y + a.h, b.y + b.h);
    if x1 < x2 && y1 < y2 then FromCorners(x1, y1, x2, y2) else Rect(x1, y1, 0, 0)
  }

  /** Two non-empty rectangles intersect exactly when some pixel is in both, and those are the pixels
      of the intersection. */
  lemma IntersectionIsShared(a: Rect, b: Rect)
    requires a.w > 0 && a.h > 0 && b.w > 0 && b.h > 0
    ensures RectsIntersect(a, b) <==> exists px, py :: In(a, px, py) && In(b, px, py)
    ensures RectsIntersect(a, b) <==> Intersection(a, b).w > 0
    ensures forall px, py :: In(Intersection(a, b), px, py) <==> In(a, px, py) && In(b, px, py)
  {
    if RectsIntersect(a, b) {
      assert In(a, Max(a.x, b.x), Max(a.y, b.y)) && In(b, Max(a.x, b.x), Max(a.y, b.y));
    }
  }

  // ---------------------------------------------------------------- lists of rectangles

  ghost predicate OnScreen(r: Rect, width: int, height: int) {
    0 <= r.x && 0 <= r.y && 0 < r.w && 0 < r.h && r.x + r.w <= width && r.y + r.h <= height
  }

  ghost predicate Covered(rs: seq<Rect>, px: int, py: int) {
    exists i :: 0 <= i < |rs| && In(rs[i], px, py)
  }

  ghost function TotalArea(rs: seq<Rect>): int {
    if rs == [] then 0 else TotalArea(rs[..|rs| - 1]) + Area(rs[|rs| - 1])
  }

  /** Overlapping or sharing an edge, with a union no larger than the two together. */
  predicate Mergeable(r: Rect, n: Rect) {
    && !(r.x > n.x + n.w || n.x > r.x + r.w || r.y > n.y + n.h || n.y > r.y + r.h)
    && Area(Union(r, n)) <= Area(n) + Area(r)
  }

  /** The box around a list and one more rectangle. */
  ghost function Box(rs: seq<Rect>, r: Rect): Rect {
    if rs == [] then r else Union(rs[|rs| - 1], Box(rs[..|rs| - 1], r))
  }

  /** rs with entry i dropped and the last one moved into its place. */
  function Dropped(rs: seq<Rect>, i: nat): seq<Rect>
    requires i < |rs|
  {
    rs[i := rs[|rs| - 1]][..|rs| - 1]
  }

  lemma UnionCovers(a: Rect, b: Rect, px: int, py: int)
    ensures In(a, px, py) || In(b, px, py) ==> In(Union(a, b), px, py)
  {
  }

  lemma UnionOnScreen(a: Rect, b: Rect, width: int, height: int)
    requires OnScreen(a, width, height) && OnScreen(b, width, height)
    ensures OnScreen(Union(a, b), width, height)
  {
  }

  lemma AreaOnScreen(r: Rect, width: int, height: int)
    requires OnScreen(r, width, height)
    ensures 0 < Area(r) <= width * height
  {
    assert r.w <= width && r.h <= height;
    assert r.w * r.h <= width * r.h <= width * height;
  }

  lemma {:induction false} TotalAreaUpdate(rs: seq<Rect>, i: nat, r: Rect)
    requires i < |rs|
    ensures TotalArea(rs[i := r]) == TotalArea(rs) - Area(rs[i]) + Area(r)
  {
    var n := |rs| - 1;
    if i < n {
      TotalAreaUpdate(rs[..n], i, r);
      assert rs[i := r][..n] == rs[..n][i := r];
    } else {
      assert rs[i := r][..n] == rs[..n];
    }
    hide Area;
  }

  lemma DroppedArea(rs: seq<Rect>, i: nat)
    requires i < |rs|
    ensures TotalArea(Dropped(rs, i)) == TotalArea(rs) - Area(rs[i])
  {
    var n := |rs| - 1;
    TotalAreaUpdate(rs, i, rs[n]);
    assert rs[i := rs[n]][n] == rs[n];
    hide Area;
  }

  lemma DroppedCovers(rs: seq<Rect>, i: nat, px: int, py: int)
    requires i < |rs|
    ensures Covered(rs, px, py) ==> Covered(Dropped(rs, i), px, py) || In(rs[i], px, py)
  {
    hide In;
    if Covered(rs, px, py) && !In(rs[i], px, py) {
      var j :| 0 <= j < |rs| && In(rs[j], px, py);
      var k := if j == |rs| - 1 then i else j;
      assert Dropped(rs, i)[k] == rs[j];
    }
  }

  lemma {:induction false} BoxCovers(rs: seq<Rect>, r: Rect, px: int, py: int)
    ensures Covered(rs, px, py) || In(r, px, py) ==> In(Box(rs, r), px, py)
  {
    if rs != [] {
      var n := |rs| - 1;
      BoxCovers(rs[..n], r, px, py);
      UnionCovers(rs[n], Box(rs[..n], r), px, py);
      hide In, Union;
      if Covered(rs, px, py) && !In(rs[n], px, py) {
        var j :| 0 <= j < |rs| && In(rs[j], px, py);
        assert rs[..n][j] == rs[j];
      }
    }
  }

  lemma {:induction false} BoxOnScreen(rs: seq<Rect>, r: Rect, width: int, height: int)
    requires OnScreen(r, width, height) && forall i :: 0 <= i < |rs| ==> OnScreen(rs[i], width, height)
    ensures OnScreen(Box(rs, r), width, height)
  {
    if rs != [] {
      BoxOnScreen(rs[..|rs| - 1], r, width, height);
      UnionOnScreen(rs[|rs| - 1], Box(rs[..|rs| - 1], r), width, height);
      hide Union, OnScreen;
    }
  }

  ghost predicate Encloses(a: Rect, b: Rect) {
    a.x <= b.x && a.y <= b.y && b.x + b.w <= a.x + a.w && b.y + b.h <= a.y + a.h
  }

  /** The box is the smallest rectangle around the list and the new one. */
  lemma {:induction false} BoxIsLeast(rs: seq<Rect>, r: Rect, a: Rect)
    ensures Encloses(a, Box(rs, r)) <==> Encloses(a, r) && forall i :: 0 <= i < |rs| ==> Encloses(a, rs[i])
  {
    if rs != [] {
      var n := |rs| - 1;
      BoxIsLeast(rs[..n], r, a);
      UnionIsLeast(rs[n], Box(rs[..n], r), a);
      hide Encloses, Union;
      assert forall i :: 0 <= i < n ==> rs[..n][i] == rs[i];
    }
  }

  lemma UnionIsLeast(a: Rect, b: Rect, c: Rect)
    ensures Encloses(c, Union(a, b)) <==> Encloses(c, a) && Encloses(c, b)
  {
  }

  /** The point, a corner of pixels, is inside the rectangle or on its edge. */
  ghost predicate OnOrIn(r: Rect, px: int, py: int) {
    r.x <= px <= r.x + r.w && r.y <= py <= r.y + r.h
  }

  /** Rectangles merge exactly when their insides or edges meet and the smallest
      rectangle around both is no larger than the two together. */
  lemma MergeableExactly(r: Rect, n: Rect)
    requires r.w > 0 && r.h > 0 && n.w > 0 && n.h > 0
    ensures Mergeable(r, n) <==>
              && (exists px, py :: OnOrIn(r, px, py) && OnOrIn(n, px, py))
              && var u := Union(r, n); u.w * u.h <= r.w * r.h + n.w * n.h
  {
    var x, y := Max(r.x, n.x), Max(r.y, n.y);
    if !(r.x > n.x + n.w || n.x > r.x + r.w || r.y > n.y + n.h || n.y > r.y + r.h) {
      assert OnOrIn(r, x, y) && OnOrIn(n, x, y);
    }
    hide Union;
  }

  // ---------------------------------------------------------------- the list and its operation

  /** What is left of a requested rectangle on the screen. */
  function Clip(x: int, y: int, w: int, h: int, width: int, height: int): Rect {
    FromCorners(Max(x, 0), Max(y, 0), Min(x + w, width), Min(y + h, height))
  }

  /** The pixels asked for and on the screen are those of the clipped rectangle. */
  lemma ClipIsExact(x: int, y: int, w: int, h: int, width: int, height: int, px: int, py: int)
    ensures In(Clip(x, y, w, h, width, height), px, py)
       <==> In(Rect(x, y, w, h), px, py) && 0 <= px < width && 0 <= py < height
  {
  }

  /** Halfway through merging: the rectangles left and the grown one cover what had to be covered,
      with no more area. */
  ghost predicate Merging(before: seq<Rect>, new0: Rect, rs: seq<Rect>, new1: Rect) {
    && (forall px, py :: Covered(before, px, py) || In(new0, px, py) ==> Covered(rs, px, py) || In(new1, px, py))
    && TotalArea(rs) + Area(new1) <= TotalArea(before) + Area(new0)
    && |rs| <= |before|
    && (|rs| == |before| ==> rs == before && new1 == new0)
  }

  lemma MergeStep(before: seq<Rect>, new0: Rect, rs: seq<Rect>, new1: Rect, i: nat)
    requires Merging(before, new0, rs, new1) && i < |rs| && Mergeable(rs[i], new1)
    ensures Merging(before, new0, Dropped(rs, i), Union(rs[i], new1))
  {
    DroppedArea(rs, i);
    forall px, py | Covered(before, px, py) || In(new0, px, py)
      ensures Covered(Dropped(rs, i), px, py) || In(Union(rs[i], new1), px, py)
    {
      DroppedCovers(rs, i, px, py);
      UnionCovers(rs[i], new1, px, py);
    }
    hide Covered, In, Area, Union, TotalArea;
  }

  lemma AppendedArea(rs: seq<Rect>, r: Rect)
    ensures TotalArea(rs + [r]) == TotalArea(rs) + Area(r)
  {
    assert (rs + [r])[..|rs|] == rs;
  }

  lemma AppendedCovers(rs: seq<Rect>, r: Rect, px: int, py: int)
    ensures Covered(rs, px, py) || In(r, px, py) ==> Covered(rs + [r], px, py)
  {
    hide In;
    if In(r, px, py) {
      assert (rs + [r])[|rs|] == r;
    } else if Covered(rs, px, py) {
      var j :| 0 <= j < |rs| && In(rs[j], px, py);
      assert (rs + [r])[j] == rs[j];
    }
  }

  /** A list after a rectangle was added: everything dirty before or in the rectangle is still
      covered, and either the area grew by no more than the rectangle, which can merge with nothing
      else listed, or the list was full and is now the one box around it all. */
  ghost predicate Invalidated(before: seq<Rect>, r: Rect, after: seq<Rect>) {
    && (forall px, py :: Covered(before, px, py) || In(r, px, py) ==> Covered(after, px, py))
    && if |before| == MAX_DIRTY_RECTS && after == [Box(before, r)] then true
       else
         && after != [] && TotalArea(after) <= TotalArea(before) + Area(r)
         && forall i :: 0 <= i < |after| - 1 ==> !Mergeable(after[i], after[|after| - 1])
  }

  lemma MergingStart(rs: seq<Rect>, r: Rect)
    ensures Merging(rs, r, rs, r)
  {
  }

  lemma MergingEnd(before: seq<Rect>, r: Rect, rs: seq<Rect>, n: Rect)
    requires Merging(before, r, rs, n) && forall j :: 0 <= j < |rs| ==> !Mergeable(rs[j], n)
    ensures Invalidated(before, r, rs + [n])
  {
    AppendedArea(rs, n);
    forall px, py | Covered(before, px, py) || In(r, px, py) ensures Covered(rs + [n], px, py) {
      AppendedCovers(rs, n, px, py);
    }
    hide Covered, In, Area, Mergeable, TotalArea, Box;
  }

  lemma MergingFull(before: seq<Rect>, r: Rect, rs: seq<Rect>, n: Rect)
    requires Merging(before, r, rs, n) && |before| <= MAX_DIRTY_RECTS <= |rs|
    ensures rs == before && n == r && |before| == MAX_DIRTY_RECTS
  {
  }

  lemma BoxStep(rs: seq<Rect>, i: nat, r: Rect)
    requires i < |rs|
    ensures Box(rs[..i + 1], r) == Union(rs[i], Box(rs[..i], r))
  {
    assert rs[..i + 1][..i] == rs[..i];
  }

  lemma BoxNone(r: Rect)
    ensures Box([], r) == r
  {
  }

  lemma BoxInvalidates(before: seq<Rect>, r: Rect)
    requires |before| == MAX_DIRTY_RECTS
    ensures Invalidated(before, r, [Box(before, r)])
  {
    forall px, py | Covered(before, px, py) || In(r, px, py) ensures Covered([Box(before, r)], px, py) {
      BoxCovers(before, r, px, py);
      assert In([Box(before, r)][0], px, py);
    }
    hide Covered, In, Area, Mergeable, TotalArea, Box;
  }

  class WindowContext {
    const regions: array<Rect>
    var count: nat
    const width: nat
    const height: nat

    /** Two rectangles' areas together fit the C int they are computed in. */
    ghost predicate Valid()
      reads this, regions
    {
      && regions.Length == MAX_DIRTY_RECTS && count <= MAX_DIRTY_RECTS && width * height < 0x4000_0000
      && forall i :: 0 <= i < count ==> OnScreen(regions[i], width, height)
    }

    ghost function List(): seq<Rect>
      requires Valid()
      reads this, regions
    {
      regions[..count]
    }

    /** The first listed rectangle the new one can merge with, or count. */
    method FindMergeable(n: Rect) returns (i: nat)
      requires Valid() && OnScreen(n, width, height)
      ensures i <= count && (i < count ==> Mergeable(regions[i], n))
      ensures forall j :: 0 <= j < i ==> !Mergeable(regions[j], n)
    {
      i := 0;
      while i < count
        invariant i <= count && forall j :: 0 <= j < i ==> !Mergeable(regions[j], n)
      {
        var r := regions[i];
        AreaOnScreen(r, width, height);
        AreaOnScreen(n, width, height);
        UnionOnScreen(r, n, width, height);
        AreaOnScreen(Union(r, n), width, height);
        assert Area(Union(r, n)) < 0x4000_0000 && Area(n) + Area(r) < 0x8000_0000;
        if Mergeable(r, n) { return; }
        i := i + 1;
      }
    }

    /** Absorbs into n, one by one, every listed rectangle it can merge with. */
    method MergeAll(clip: Rect) returns (n: Rect)
      requires Valid() && OnScreen(clip, width, height)
      modifies this, regions
      ensures Valid() && OnScreen(n, width, height) && Merging(old(List()), clip, List(), n)
      ensures forall j :: 0 <= j < count ==> !Mergeable(regions[j], n)
    {
      hide Covered, In, Area, Mergeable, TotalArea, Merging, Union;
      ghost var before := List();
      n := clip;
      MergingStart(before, n);
      var merged := true;
      while merged
        invariant Valid() && OnScreen(n, width, height) && Merging(before, clip, List(), n)
        invariant !merged ==> forall j :: 0 <= j < count ==> !Mergeable(regions[j], n)
        decreases count, merged
      {
        var i := FindMergeable(n);
        merged := false;
        if i < count {
          ghost var rs := List();
          MergeStep(before, clip, rs, n, i);
          UnionOnScreen(regions[i], n, width, height);
          n := Union(regions[i], n);
          regions[i] := regions[count - 1];
          count := count - 1;
          assert List() == Dropped(rs, i);
          merged := true;
        }
      }
    }

    method InvalidateRegion(x: int, y: int, w: int, h: int)
      requires Valid() && -0x8000 <= x < 0x8000 && -0x8000 <= y < 0x8000 && w < 0x8000 && h < 0x8000
      modifies this, regions
      ensures Valid()
      ensures var clip := Clip(x, y, w, h, width, height);
              if clip.w <= 0 || clip.h <= 0 || w <= 0 || h <= 0 then List() == old(List())
              else Invalidated(old(List()), clip, List())
    {
      if w <= 0 || h <= 0 { return; }
      var n := Clip(x, y, w, h, width, height);
      if n.w <= 0 || n.h <= 0 { return; }
      hide Covered, In, Area, Mergeable, TotalArea, Merging, Invalidated, Union, Box;
      ghost var before, clip := List(), n;
      n := MergeAll(n);
      if count < MAX_DIRTY_RECTS {
        ghost var rs := List();
        regions[count] := n;
        count := count + 1;
        assert List() == rs + [n];
        MergingEnd(before, clip, rs, n);
        return;
      }
      MergingFull(before, clip, List(), n);
      BoxInvalidates(before, clip);
      CollapseAround(n);
    }

    /** The one box around the list and n instead of the list. */
    method CollapseAround(n: Rect)
      requires Valid() && OnScreen(n, width, height)
      modifies this, regions
      ensures Valid() && List() == [Box(old(List()), n)]
    {
      hide Union, Box;
      ghost var before := List();
      assert before[..0] == [];
      var box := n;
      BoxNone(n);
      for i := 0 to count
        invariant Valid() && List() == before && box == Box(before[..i], n)
      {
        BoxStep(before, i, n);
        box := Union(regions[i], box);
      }
      assert before[..count] == before;
      BoxOnScreen(before, n, width, height);
      regions[0] := box;
      count := 1;
      assert List() == [box];
    }
  }
}
