/** The search skeleton of templateMatchRGB: the origin sentinel, the
    row-major scan over every placement of the template, the skip of flat
    windows and the strict comparison that keeps the first best score. The
    normalised cross-correlation itself is a parameter: `winStd(x, y)` is the
    window's standard deviation and `ncc(x, y)` its score at placement
    (x, y). */
module TemplateMatch {

  datatype Point = Point(x: int, y: int)

  /** The initial best score. */
  const Floor: real := -2.0

  /** No search: the template does not fit, or it is flat. */
  predicate Sentinel(bgW: int, bgH: int, tplW: int, tplH: int, tplStd: real) {
    tplW > bgW || tplH > bgH || tplStd < 1.0
  }

  /** Placement (x, y) keeps the template inside the background. */
  predicate Placement(bgW: int, bgH: int, tplW: int, tplH: int, x: int, y: int) {
    0 <= x <= bgW - tplW && 0 <= y <= bgH - tplH
  }

  /** A placement that is scored: inside the background and not flat. */
  predicate Scored(bgW: int, bgH: int, tplW: int, tplH: int, winStd: (int, int) -> real, x: int, y: int) {
    Placement(bgW, bgH, tplW, tplH, x, y) && winStd(x, y) >= 1.0
  }

  /** Row-major scan order. */
  predicate Before(x: int, y: int, p: Point) {
    y < p.y || (y == p.y && x < p.x)
  }

  /** p is the first scored placement, in scan order, with the highest
      score, and that score beats the floor. */
  ghost predicate FirstBest(bgW: int, bgH: int, tplW: int, tplH: int,
                            winStd: (int, int) -> real, ncc: (int, int) -> real, p: Point)
  {
    && Scored(bgW, bgH, tplW, tplH, winStd, p.x, p.y)
    && ncc(p.x, p.y) > Floor
    && (forall x, y :: Scored(bgW, bgH, tplW, tplH, winStd, x, y) ==> ncc(x, y) <= ncc(p.x, p.y))
    && (forall x, y :: Scored(bgW, bgH, tplW, tplH, winStd, x, y) && Before(x, y, p) ==> ncc(x, y) < ncc(p.x, p.y))
  }

  /** Some scored placement beats the floor. */
  ghost predicate AnyAboveFloor(bgW: int, bgH: int, tplW: int, tplH: int,
                                winStd: (int, int) -> real, ncc: (int, int) -> real)
  {
    exists x, y :: Scored(bgW, bgH, tplW, tplH, winStd, x, y) && ncc(x, y) > Floor
  }

  /** The first best placement is unique. */
  lemma FirstBestUnique(bgW: int, bgH: int, tplW: int, tplH: int,
                        winStd: (int, int) -> real, ncc: (int, int) -> real, p: Point, q: Point)
    requires FirstBest(bgW, bgH, tplW, tplH, winStd, ncc, p)
    requires FirstBest(bgW, bgH, tplW, tplH, winStd, ncc, q)
    ensures p == q
  {
    assert ncc(p.x, p.y) == ncc(q.x, q.y);
    assert !Before(p.x, p.y, q) && !Before(q.x, q.y, p);
  }

  /** The scan of one row of placements. */
  method ScanRow(bgW: int, tplW: int, y: int, bgH: int, tplH: int,
                 winStd: (int, int) -> real, ncc: (int, int) -> real, maxVal0: real, maxLoc0: Point)
    returns (maxVal: real, maxLoc: Point)
    requires 0 <= y <= bgH - tplH
    ensures maxVal >= maxVal0
    ensures maxVal == maxVal0 ==> maxLoc == maxLoc0
    ensures maxVal > maxVal0 ==> maxLoc.y == y && Scored(bgW, bgH, tplW, tplH, winStd, maxLoc.x, maxLoc.y) && ncc(maxLoc.x, maxLoc.y) == maxVal
    ensures forall x :: Scored(bgW, bgH, tplW, tplH, winStd, x, y) ==> ncc(x, y) <= maxVal
    ensures maxVal > maxVal0 ==> forall x :: Scored(bgW, bgH, tplW, tplH, winStd, x, y) && x < maxLoc.x ==> ncc(x, y) < maxVal
  {
    maxVal, maxLoc := maxVal0, maxLoc0;
    var x := 0;
    while x <= bgW - tplW
      invariant 0 <= x && (bgW - tplW >= 0 ==> x <= bgW - tplW + 1)
      invariant maxVal >= maxVal0
      invariant maxVal == maxVal0 ==> maxLoc == maxLoc0
      invariant maxVal > maxVal0 ==> maxLoc.y == y && maxLoc.x < x && Scored(bgW, bgH, tplW, tplH, winStd, maxLoc.x, maxLoc.y) && ncc(maxLoc.x, maxLoc.y) == maxVal
      invariant forall c :: 0 <= c < x && Scored(bgW, bgH, tplW, tplH, winStd, c, y) ==> ncc(c, y) <= maxVal
      invariant maxVal > maxVal0 ==> forall c :: Scored(bgW, bgH, tplW, tplH, winStd, c, y) && c < maxLoc.x ==> ncc(c, y) < maxVal
    {
      if winStd(x, y) < 1.0 {
        x := x + 1;
        continue;
      }
      var score := ncc(x, y);
      if score > maxVal {
        maxVal := score;
        maxLoc := Point(x, y);
      }
      x := x + 1;
    }
  }

  /** templateMatchRGB: the origin when there is no search or no scored
      placement beats the floor, otherwise the first best placement. */
  method TemplateMatchRgb(bgW: nat, bgH: nat, tplW: nat, tplH: nat, tplStd: real,
                          winStd: (int, int) -> real, ncc: (int, int) -> real)
    returns (maxLoc: Point)
    ensures Sentinel(bgW, bgH, tplW, tplH, tplStd) ==> maxLoc == Point(0, 0)
    ensures !Sentinel(bgW, bgH, tplW, tplH, tplStd) && !AnyAboveFloor(bgW, bgH, tplW, tplH, winStd, ncc) ==> maxLoc == Point(0, 0)
    ensures !Sentinel(bgW, bgH, tplW, tplH, tplStd) && AnyAboveFloor(bgW, bgH, tplW, tplH, winStd, ncc) ==>
      FirstBest(bgW, bgH, tplW, tplH, winStd, ncc, maxLoc)
  {
    if tplW > bgW || tplH > bgH {
      return Point(0, 0);
    }
    if tplStd < 1.0 {
      return Point(0, 0);
    }
    var maxVal := Floor;
    maxLoc := Point(0, 0);
    var y := 0;
    while y <= bgH - tplH
      invariant 0 <= y <= bgH - tplH + 1
      invariant maxVal >= Floor
      invariant maxVal == Floor ==> maxLoc == Point(0, 0)
      invariant maxVal > Floor ==> maxLoc.y < y && Scored(bgW, bgH, tplW, tplH, winStd, maxLoc.x, maxLoc.y) && ncc(maxLoc.x, maxLoc.y) == maxVal
      invariant forall c, r :: r < y && Scored(bgW, bgH, tplW, tplH, winStd, c, r) ==> ncc(c, r) <= maxVal
      invariant maxVal > Floor ==> forall c, r :: Scored(bgW, bgH, tplW, tplH, winStd, c, r) && Before(c, r, maxLoc) ==> ncc(c, r) < maxVal
    {
      ghost var prevVal, prevLoc := maxVal, maxLoc;
      maxVal, maxLoc := ScanRow(bgW, tplW, y, bgH, tplH, winStd, ncc, maxVal, maxLoc);
      if maxVal > prevVal {
        forall c, r | Scored(bgW, bgH, tplW, tplH, winStd, c, r) && Before(c, r, maxLoc)
          ensures ncc(c, r) < maxVal
        {
          if r < y {
            assert ncc(c, r) <= prevVal;
          }
        }
      }
      y := y + 1;
    }
  }
}
