/** getTarget: the bounding box of the opaque pixels of a slider piece and
    the crop it yields. Rasters are indexed [y, x]. */
module AlphaCrop {
  import opened Common

  predicate Opaque(img: array2<Rgba>, y: int, x: int)
    reads img
    requires 0 <= y < img.Length0 && 0 <= x < img.Length1
  {
    img[y, x].a > 0
  }

  ghost predicate AnyOpaque(img: array2<Rgba>)
    reads img
  {
    exists y, x :: 0 <= y < img.Length0 && 0 <= x < img.Length1 && Opaque(img, y, x)
  }

  /** (x0, y0) .. (x1, y1) are the extreme columns and rows of the opaque
      pixels, or (w, h) .. (0, 0) when there are none: the running minima and
      maxima of the scan with their initial values. */
  ghost predicate IsExtent(img: array2<Rgba>, x0: int, y0: int, x1: int, y1: int)
    reads img
  {
    && (forall y, x :: 0 <= y < img.Length0 && 0 <= x < img.Length1 && Opaque(img, y, x) ==>
          x0 <= x <= x1 && y0 <= y <= y1)
    && (!AnyOpaque(img) ==> x0 == img.Length1 && y0 == img.Length0 && x1 == 0 && y1 == 0)
    && (AnyOpaque(img) ==>
          && (exists y :: 0 <= y < img.Length0 && 0 <= x0 < img.Length1 && Opaque(img, y, x0))
          && (exists y :: 0 <= y < img.Length0 && 0 <= x1 < img.Length1 && Opaque(img, y, x1))
          && (exists x :: 0 <= x < img.Length1 && 0 <= y0 < img.Length0 && Opaque(img, y0, x))
          && (exists x :: 0 <= x < img.Length1 && 0 <= y1 < img.Length0 && Opaque(img, y1, x)))
  }

  /** The extent is determined by the image. */
  lemma ExtentUnique(img: array2<Rgba>, a0: int, b0: int, a1: int, b1: int, c0: int, d0: int, c1: int, d1: int)
    requires IsExtent(img, a0, b0, a1, b1) && IsExtent(img, c0, d0, c1, d1)
    ensures a0 == c0 && b0 == d0 && a1 == c1 && b1 == d1
  {
    if AnyOpaque(img) {
      var ya :| 0 <= ya < img.Length0 && 0 <= a0 < img.Length1 && Opaque(img, ya, a0);
      var yc :| 0 <= yc < img.Length0 && 0 <= c0 < img.Length1 && Opaque(img, yc, c0);
      var ya1 :| 0 <= ya1 < img.Length0 && 0 <= a1 < img.Length1 && Opaque(img, ya1, a1);
      var yc1 :| 0 <= yc1 < img.Length0 && 0 <= c1 < img.Length1 && Opaque(img, yc1, c1);
      var xb :| 0 <= xb < img.Length1 && 0 <= b0 < img.Length0 && Opaque(img, b0, xb);
      var xd :| 0 <= xd < img.Length1 && 0 <= d0 < img.Length0 && Opaque(img, d0, xd);
      var xb1 :| 0 <= xb1 < img.Length1 && 0 <= b1 < img.Length0 && Opaque(img, b1, xb1);
      var xd1 :| 0 <= xd1 < img.Length1 && 0 <= d1 < img.Length0 && Opaque(img, d1, xd1);
    }
  }

  /** The crop succeeds exactly when the extent spans at least two columns
      and two rows. */
  predicate Cropable(x0: int, y0: int, x1: int, y1: int) {
    x0 < x1 && y0 < y1
  }

  /** A piece with a single opaque pixel has an extent of one column and one
      row and cannot be cropped. */
  lemma SinglePixelFails(img: array2<Rgba>, py: int, px: int, x0: int, y0: int, x1: int, y1: int)
    requires 0 <= py < img.Length0 && 0 <= px < img.Length1 && Opaque(img, py, px)
    requires forall y, x :: 0 <= y < img.Length0 && 0 <= x < img.Length1 && Opaque(img, y, x) ==> y == py && x == px
    requires IsExtent(img, x0, y0, x1, y1)
    ensures x0 == x1 == px && y0 == y1 == py && !Cropable(x0, y0, x1, y1)
  {
    assert AnyOpaque(img);
    var ya :| 0 <= ya < img.Length0 && 0 <= x0 < img.Length1 && Opaque(img, ya, x0);
    var yb :| 0 <= yb < img.Length0 && 0 <= x1 < img.Length1 && Opaque(img, yb, x1);
    var xa :| 0 <= xa < img.Length1 && 0 <= y0 < img.Length0 && Opaque(img, y0, xa);
    var xb :| 0 <= xb < img.Length1 && 0 <= y1 < img.Length0 && Opaque(img, y1, xb);
  }

  /** Column x holds an opaque pixel. */
  ghost predicate ColumnInk(img: array2<Rgba>, x: int)
    reads img
    requires 0 <= x < img.Length1
  {
    exists y :: 0 <= y < img.Length0 && Opaque(img, y, x)
  }

  /** The bounds scan of one column. */
  method ScanColumn(img: array2<Rgba>, x: int, sx0: int, sy0: int, ex0: int, ey0: int)
    returns (sx: int, sy: int, ex: int, ey: int, ghost ry: int)
    requires 0 <= x < img.Length1
    ensures !ColumnInk(img, x) ==> sx == sx0 && sy == sy0 && ex == ex0 && ey == ey0
    ensures ColumnInk(img, x) ==> sx == Min(sx0, x) && ex == Max(ex0, x) && 0 <= ry < img.Length0 && Opaque(img, ry, x)
    ensures sy <= sy0 && ey >= ey0
    ensures forall y :: 0 <= y < img.Length0 && Opaque(img, y, x) ==> sy <= y <= ey
    ensures sy == sy0 || (0 <= sy < img.Length0 && Opaque(img, sy, x))
    ensures ey == ey0 || (0 <= ey < img.Length0 && Opaque(img, ey, x))
  {
    sx, sy, ex, ey := sx0, sy0, ex0, ey0;
    ghost var seen := false;
    ry := 0;
    for y := 0 to img.Length0
      invariant !seen ==> forall r :: 0 <= r < y ==> !Opaque(img, r, x)
      invariant !seen ==> sx == sx0 && sy == sy0 && ex == ex0 && ey == ey0
      invariant seen ==> 0 <= ry < img.Length0 && Opaque(img, ry, x) && sx == Min(sx0, x) && ex == Max(ex0, x)
      invariant sy <= sy0 && ey >= ey0
      invariant forall r :: 0 <= r < y && Opaque(img, r, x) ==> sy <= r <= ey
      invariant sy == sy0 || (0 <= sy < img.Length0 && Opaque(img, sy, x))
      invariant ey == ey0 || (0 <= ey < img.Length0 && Opaque(img, ey, x))
    {
      if img[y, x].a > 0 {
        assert Opaque(img, y, x);
        seen, ry := true, y;
        if x < sx { sx := x; }
        if y < sy { sy := y; }
        if x > ex { ex := x; }
        if y > ey { ey := y; }
      }
    }
  }

  /** The bounds scan of getTarget: columns outer, rows inner. */
  method Extent(img: array2<Rgba>) returns (sx: int, sy: int, ex: int, ey: int)
    ensures IsExtent(img, sx, sy, ex, ey)
  {
    var w, h := img.Length1, img.Length0;
    sx, sy, ex, ey := w, h, 0, 0;
    ghost var wsx, wex, wsy, wey := 0, 0, 0, 0;
    for x := 0 to w
      invariant sx <= w && sy <= h && ex >= 0 && ey >= 0
      invariant forall r, c :: 0 <= r < h && 0 <= c < x && Opaque(img, r, c) ==> sx <= c <= ex && sy <= r <= ey
      invariant sx == w || (0 <= wsx < h && 0 <= sx < x && Opaque(img, wsx, sx))
      invariant ex == 0 || (0 <= wex < h && 0 <= ex < x && Opaque(img, wex, ex))
      invariant sy == h || (0 <= wsy < x && 0 <= sy < h && Opaque(img, sy, wsy))
      invariant ey == 0 || (0 <= wey < x && 0 <= ey < h && Opaque(img, ey, wey))
    {
      ghost var psx, psy, pex, pey := sx, sy, ex, ey;
      ghost var ry;
      sx, sy, ex, ey, ry := ScanColumn(img, x, sx, sy, ex, ey);
      if sx != psx { wsx := ry; }
      if ex != pex { wex := ry; }
      if sy != psy { wsy := x; }
      if ey != pey { wey := x; }
    }
    if AnyOpaque(img) {
      var r, c :| 0 <= r < h && 0 <= c < w && Opaque(img, r, c);
      if ex == 0 {
        assert c == 0;
      }
      if ey == 0 {
        assert r == 0;
      }
    }
  }

  /** getTarget on a decoded raster: null, 0, 0 when there is nothing to
      crop; otherwise the crop of columns [x0, x1) and rows [y0, y1) and its
      offset (x0, y0). The last opaque column and row are not part of the
      crop. */
  method GetTarget(img: array2<Rgba>) returns (cropped: array2?<Rgba>, startX: int, startY: int,
                                                ghost x0: int, ghost y0: int, ghost x1: int, ghost y1: int)
    ensures IsExtent(img, x0, y0, x1, y1)
    ensures cropped == null <==> !Cropable(x0, y0, x1, y1)
    ensures cropped == null ==> startX == 0 && startY == 0
    ensures cropped != null ==> fresh(cropped) && startX == x0 && startY == y0
    ensures cropped != null ==> cropped.Length0 == y1 - y0 && cropped.Length1 == x1 - x0
    ensures cropped != null ==> forall y, x :: 0 <= y < cropped.Length0 && 0 <= x < cropped.Length1 ==>
      cropped[y, x] == img[y + y0, x + x0]
  {
    var sx, sy, ex, ey := Extent(img);
    x0, y0, x1, y1 := sx, sy, ex, ey;
    if sx >= ex || sy >= ey {
      return null, 0, 0, x0, y0, x1, y1;
    }
    assert 0 <= sx && 0 <= sy && ex < img.Length1 && ey < img.Length0 by {
      var ra :| 0 <= ra < img.Length0 && 0 <= sx < img.Length1 && Opaque(img, ra, sx);
      var rb :| 0 <= rb < img.Length0 && 0 <= ex < img.Length1 && Opaque(img, rb, ex);
      var ca :| 0 <= ca < img.Length1 && 0 <= sy < img.Length0 && Opaque(img, sy, ca);
      var cb :| 0 <= cb < img.Length1 && 0 <= ey < img.Length0 && Opaque(img, ey, cb);
    }
    var out := new Rgba[ey - sy, ex - sx]((_, _) => Rgba(0, 0, 0, 0));
    for y := sy to ey
      invariant forall r, c :: 0 <= r < y - sy && 0 <= c < ex - sx ==> out[r, c] == img[r + sy, c + sx]
    {
      for x := sx to ex
        invariant forall r, c :: 0 <= r < ey - sy && 0 <= c < ex - sx && (r < y - sy || (r == y - sy && c < x - sx)) ==>
          out[r, c] == img[r + sy, c + sx]
      {
        out[y - sy, x - sx] := img[y, x];
      }
    }
    return out, sx, sy, x0, y0, x1, y1;
  }
}
