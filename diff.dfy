/** Comparing two pictures pixel by pixel and boxing in where they differ. */
module DiffEngine {
  import opened Pictures
  import opened Results
  import opened Bits

  /** Java's Integer.MIN_VALUE and Integer.MAX_VALUE. */
  const MinInt: int := -0x8000_0000
  const MaxInt: int := 0x7FFF_FFFF

  type Int32 = x: int | MinInt <= x <= MaxInt

  /** java.awt.Point. The differences use x for the row and y for the column. */
  datatype Point = Point(x: Int32, y: Int32)

  /** The box drawn around the differences, by the coordinate it bounds.
      (The source keeps minY, maxY in variables called minRow, maxRow and
      minX, maxX in minCol, maxCol; since the differences store the row in
      x, minY is really the least column.) */
  datatype Box = Box(minY: int, maxY: int, minX: int, maxX: int)

  /** The two pictures have the same size and the same colour everywhere. */
  predicate Same(p1: Picture, p2: Picture)
    reads p1, p2
  {
    Congruent(p1, p2) &&
    forall r, c :: 0 <= r < p1.Length0 && 0 <= c < p1.Length1 ==> p1[r, c] == p2[r, c]
  }

  /** Point a comes strictly before point b in row-major order. */
  predicate Before(a: Point, b: Point)
  {
    a.x < b.x || (a.x == b.x && a.y < b.y)
  }

  /** isSame: false on a size mismatch; otherwise, whether every pixel
      pair has the same colour (it returns at the first pair that differs). */
  method IsSame(p1: Picture, p2: Picture) returns (same: bool)
    ensures same <==> Same(p1, p2)
  {
    if p1.Length1 != p2.Length1 || p1.Length0 != p2.Length0 {
      return false;
    }
    for r := 0 to p1.Length0
      invariant forall i, j :: 0 <= i < r && 0 <= j < p1.Length1 ==> p1[i, j] == p2[i, j]
    {
      for c := 0 to p1.Length1
        invariant forall i, j :: (0 <= i < r && 0 <= j < p1.Length1) || (i == r && 0 <= j < c) ==> p1[i, j] == p2[i, j]
      {
        if p1[r, c] != p2[r, c] {
          return false;
        }
      }
    }
    return true;
  }

  /** Being the same picture is reflexive. */
  lemma SameReflexive(p: Picture)
    ensures Same(p, p)
  {}

  /** Being the same picture is symmetric. */
  lemma SameSymmetric(p1: Picture, p2: Picture)
    ensures Same(p1, p2) <==> Same(p2, p1)
  {}

  /** findDifferences: on a size mismatch, no points. Otherwise exactly the
      positions Point(row, col) where the colours differ, each once, in
      row-major order; so there are none iff the pictures are the same. */
  method FindDifferences(p1: Picture, p2: Picture) returns (diffPoints: seq<Point>)
    requires p1.Length0 <= MaxInt && p1.Length1 <= MaxInt  // Java array lengths are ints
    ensures !Congruent(p1, p2) ==> diffPoints == []
    ensures Congruent(p1, p2) ==>
      forall i :: 0 <= i < |diffPoints| ==>
        var p := diffPoints[i];
        0 <= p.x < p1.Length0 && 0 <= p.y < p1.Length1 && p1[p.x, p.y] != p2[p.x, p.y]
    ensures Congruent(p1, p2) ==>
      forall r, c :: 0 <= r < p1.Length0 && 0 <= c < p1.Length1 && p1[r, c] != p2[r, c] ==>
        Point(r, c) in diffPoints
    ensures forall i, j :: 0 <= i < j < |diffPoints| ==> Before(diffPoints[i], diffPoints[j])
    ensures Congruent(p1, p2) ==> (diffPoints == [] <==> Same(p1, p2))
  {
    diffPoints := [];
    if p1.Length1 != p2.Length1 || p1.Length0 != p2.Length0 {
      return diffPoints;
    }
    for r := 0 to p1.Length0
      invariant forall i :: 0 <= i < |diffPoints| ==>
        var p := diffPoints[i];
        0 <= p.x < r && 0 <= p.y < p1.Length1 && p1[p.x, p.y] != p2[p.x, p.y]
      invariant forall i, j :: 0 <= i < r && 0 <= j < p1.Length1 && p1[i, j] != p2[i, j] ==>
        Point(i, j) in diffPoints
      invariant forall i, j :: 0 <= i < j < |diffPoints| ==> Before(diffPoints[i], diffPoints[j])
    {
      for c := 0 to p1.Length1
        invariant forall i :: 0 <= i < |diffPoints| ==>
          var p := diffPoints[i];
          0 <= p.x <= r && 0 <= p.y < p1.Length1 && (p.x == r ==> p.y < c) && p1[p.x, p.y] != p2[p.x, p.y]
        invariant forall i, j :: ((0 <= i < r && 0 <= j < p1.Length1) || (i == r && 0 <= j < c)) && p1[i, j] != p2[i, j] ==>
          Point(i, j) in diffPoints
        invariant forall i, j :: 0 <= i < j < |diffPoints| ==> Before(diffPoints[i], diffPoints[j])
      {
        if p1[r, c] != p2[r, c] {
          diffPoints := diffPoints + [Point(r, c)];
        }
      }
    }
    if diffPoints != [] {
      var p := diffPoints[0];
      assert p1[p.x, p.y] != p2[p.x, p.y];
    }
  }

  /** The box bounds every point and each of its four sides touches one. */
  ghost predicate IsBoundingBox(points: seq<Point>, box: Box)
  {
    (forall i :: 0 <= i < |points| ==>
       box.minY <= points[i].y <= box.maxY && box.minX <= points[i].x <= box.maxX) &&
    (exists i :: 0 <= i < |points| && points[i].y == box.minY) &&
    (exists i :: 0 <= i < |points| && points[i].y == box.maxY) &&
    (exists i :: 0 <= i < |points| && points[i].x == box.minX) &&
    (exists i :: 0 <= i < |points| && points[i].x == box.maxX)
  }

  /** There is only one bounding box of a list of points. */
  lemma BoundingBoxUnique(points: seq<Point>, b1: Box, b2: Box)
    requires IsBoundingBox(points, b1) && IsBoundingBox(points, b2)
    ensures b1 == b2
  {
    var i1 :| 0 <= i1 < |points| && points[i1].y == b1.minY;
    var i2 :| 0 <= i2 < |points| && points[i2].y == b2.minY;
    var j1 :| 0 <= j1 < |points| && points[j1].y == b1.maxY;
    var j2 :| 0 <= j2 < |points| && points[j2].y == b2.maxY;
    var k1 :| 0 <= k1 < |points| && points[k1].x == b1.minX;
    var k2 :| 0 <= k2 < |points| && points[k2].x == b2.minX;
    var l1 :| 0 <= l1 < |points| && points[l1].x == b1.maxX;
    var l2 :| 0 <= l2 < |points| && points[l2].x == b2.maxX;
    assert b1.minY <= points[i2].y && b2.minY <= points[i1].y;
    assert b1.maxY >= points[j2].y && b2.maxY >= points[j1].y;
    assert b1.minX <= points[k2].x && b2.minX <= points[k1].x;
    assert b1.maxX >= points[l2].x && b2.maxX >= points[l1].x;
  }

  /** The loop of showDifferentArea: nothing for an empty list; otherwise
      the least and greatest y and x over the points, folded into four
      variables that start at Integer.MAX_VALUE and Integer.MIN_VALUE. */
  method BoundingBox(differences: seq<Point>) returns (box: Option<Box>)
    ensures box.None? <==> differences == []
    ensures box.Some? ==> IsBoundingBox(differences, box.value)
  {
    if differences == [] {
      return None;
    }
    var minY, maxY := MaxInt, MinInt;
    var minX, maxX := MaxInt, MinInt;
    ghost var iMinY, iMaxY, iMinX, iMaxX := 0, 0, 0, 0;
    for k := 0 to |differences|
      invariant forall i :: 0 <= i < k ==>
        minY <= differences[i].y <= maxY && minX <= differences[i].x <= maxX
      invariant k > 0 ==>
        iMinY < k && differences[iMinY].y == minY && iMaxY < k && differences[iMaxY].y == maxY &&
        iMinX < k && differences[iMinX].x == minX && iMaxX < k && differences[iMaxX].x == maxX
      invariant 0 <= iMinY < |differences| && 0 <= iMaxY < |differences|
      invariant 0 <= iMinX < |differences| && 0 <= iMaxX < |differences|
      invariant k == 0 ==> minY == MaxInt && maxY == MinInt && minX == MaxInt && maxX == MinInt
    {
      var p := differences[k];
      var row, col := p.y, p.x;
      if row <= minY { iMinY := k; }
      if row >= maxY { iMaxY := k; }
      if col <= minX { iMinX := k; }
      if col >= maxX { iMaxX := k; }
      minY := Min(minY, row);
      maxY := Max(maxY, row);
      minX := Min(minX, col);
      maxX := Max(maxX, col);
    }
    box := Some(Box(minY, maxY, minX, maxX));
  }

  /** showDifferentArea without its drawing: a copy of pic, and the box the
      source then draws as a red rectangle (none when there are no points). */
  method ShowDifferentArea(pic: Picture, differences: seq<Point>) returns (highlighted: Picture, box: Option<Box>)
    ensures fresh(highlighted) && Congruent(highlighted, pic)
    ensures forall r, c :: 0 <= r < pic.Length0 && 0 <= c < pic.Length1 ==> highlighted[r, c] == pic[r, c]
    ensures box.None? <==> differences == []
    ensures box.Some? ==> IsBoundingBox(differences, box.value)
  {
    highlighted := CopyPicture(pic);
    box := BoundingBox(differences);
  }
}
