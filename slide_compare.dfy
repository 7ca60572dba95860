/** The differential slide matcher (SlideComparison): per-channel absolute
    difference of two rasters, binarisation, and the column scan that finds
    the gap. Rasters are indexed [y, x]. */
module SlideCompare {
  import opened Common

  /** absDiff on unsigned 8-bit values: never wraps. */
  function AbsDiff(a: byte, b: byte): (r: byte)
    ensures r as int == Abs(a as int - b as int)
  {
    if a > b then a - b else b - a
  }

  /** The difference is symmetric and zero exactly on equal samples. */
  lemma AbsDiffLaws(a: byte, b: byte)
    ensures AbsDiff(a, b) == AbsDiff(b, a)
    ensures AbsDiff(a, b) == 0 <==> a == b
  {
  }

  /** The difference of two pixels: channel differences, opaque. */
  function DiffPixel(p: Rgba, q: Rgba): Rgba {
    Rgba(AbsDiff(p.r, q.r), AbsDiff(p.g, q.g), AbsDiff(p.b, q.b), 255)
  }

  /** A pixel with some non-zero colour channel. */
  predicate NonBlack(p: Rgba) {
    p.r != 0 || p.g != 0 || p.b != 0
  }

  /** Two pixels differ in colour exactly when their difference is not
      black; the order of the images does not matter. */
  lemma DiffPixelLaws(p: Rgba, q: Rgba)
    ensures DiffPixel(p, q) == DiffPixel(q, p)
    ensures !NonBlack(DiffPixel(p, q)) <==> (p.r == q.r && p.g == q.g && p.b == q.b)
  {
    AbsDiffLaws(p.r, q.r);
    AbsDiffLaws(p.g, q.g);
    AbsDiffLaws(p.b, q.b);
  }

  /** imageDifferenceRGB: the overlap of the two rasters, pixel by pixel. */
  method ImageDifferenceRgb(img1: array2<Rgba>, img2: array2<Rgba>) returns (result: array2<Rgba>)
    ensures fresh(result)
    ensures result.Length0 == Min(img1.Length0, img2.Length0) && result.Length1 == Min(img1.Length1, img2.Length1)
    ensures forall y, x :: 0 <= y < result.Length0 && 0 <= x < result.Length1 ==>
      result[y, x] == DiffPixel(img1[y, x], img2[y, x])
  {
    var w := img1.Length1;
    var h := img1.Length0;
    if img2.Length1 < w {
      w := img2.Length1;
    }
    if img2.Length0 < h {
      h := img2.Length0;
    }
    result := new Rgba[h, w]((_, _) => Rgba(0, 0, 0, 0));
    for y := 0 to h
      invariant forall r, c :: 0 <= r < y && 0 <= c < w ==> result[r, c] == DiffPixel(img1[r, c], img2[r, c])
    {
      for x := 0 to w
        invariant forall r, c :: 0 <= r < h && 0 <= c < w && (r < y || (r == y && c < x)) ==>
          result[r, c] == DiffPixel(img1[r, c], img2[r, c])
      {
        result[y, x] := DiffPixel(img1[y, x], img2[y, x]);
      }
    }
  }

  /** One channel of binarizeRGB: 255 strictly above the threshold, else 0. */
  function Bin(c: byte, threshold: byte): byte {
    if c > threshold then 255 else 0
  }

  function BinPixel(p: Rgba, threshold: byte): Rgba {
    Rgba(Bin(p.r, threshold), Bin(p.g, threshold), Bin(p.b, threshold), 255)
  }

  /** The output is two-valued, and binarising again with a threshold below
      255 changes nothing. */
  lemma BinLaws(c: byte, threshold: byte)
    ensures Bin(c, threshold) == 0 || Bin(c, threshold) == 255
    ensures Bin(c, threshold) == 255 <==> c > threshold
    ensures threshold < 255 ==> Bin(Bin(c, threshold), threshold) == Bin(c, threshold)
  {
  }

  /** binarizeRGB. */
  method BinarizeRgb(img: array2<Rgba>, threshold: byte) returns (result: array2<Rgba>)
    ensures fresh(result) && result.Length0 == img.Length0 && result.Length1 == img.Length1
    ensures forall y, x :: 0 <= y < img.Length0 && 0 <= x < img.Length1 ==>
      result[y, x] == BinPixel(img[y, x], threshold)
  {
    result := new Rgba[img.Length0, img.Length1]((_, _) => Rgba(0, 0, 0, 0));
    for y := 0 to img.Length0
      invariant forall r, c :: 0 <= r < y && 0 <= c < img.Length1 ==> result[r, c] == BinPixel(img[r, c], threshold)
    {
      for x := 0 to img.Length1
        invariant forall r, c :: 0 <= r < img.Length0 && 0 <= c < img.Length1 && (r < y || (r == y && c < x)) ==>
          result[r, c] == BinPixel(img[r, c], threshold)
      {
        var p := img[y, x];
        var r8 := if p.r > threshold then 255 else 0;
        var g8 := if p.g > threshold then 255 else 0;
        var b8 := if p.b > threshold then 255 else 0;
        result[y, x] := Rgba(r8, g8, b8, 255);
      }
    }
  }

  // ---------------------------------------------------------------------
  // The gap scan.
  // ---------------------------------------------------------------------

  /** The number of non-black pixels in rows [0, k) of column x. */
  function ColumnCount(img: array2<Rgba>, x: int, k: int): (n: nat)
    reads img
    requires 0 <= x < img.Length1 && 0 <= k <= img.Length0
    ensures n <= k
    ensures n == 0 <==> forall y :: 0 <= y < k ==> !NonBlack(img[y, x])
  {
    if k == 0 then 0 else ColumnCount(img, x, k - 1) + (if NonBlack(img[k - 1, x]) then 1 else 0)
  }

  /** The first non-black row among rows [0, k) of column x, if any. */
  function FirstInk(img: array2<Rgba>, x: int, k: int): (r: Option<nat>)
    reads img
    requires 0 <= x < img.Length1 && 0 <= k <= img.Length0
    ensures r.None? <==> ColumnCount(img, x, k) == 0
    ensures r.Some? ==> r.value < k && NonBlack(img[r.value, x])
    ensures r.Some? ==> forall y :: 0 <= y < r.value ==> !NonBlack(img[y, x])
  {
    if k == 0 then None
    else
      var r := FirstInk(img, x, k - 1);
      if r.Some? then r else if NonBlack(img[k - 1, x]) then Some(k - 1) else None
  }

  /** The leftmost column from x on with at least minCount non-black
      pixels. */
  function FirstGap(img: array2<Rgba>, minCount: int, x: int): (g: Option<nat>)
    reads img
    requires 0 <= x <= img.Length1
    ensures g.Some? ==> x <= g.value < img.Length1 && ColumnCount(img, g.value, img.Length0) >= minCount
    ensures g.Some? ==> forall c :: x <= c < g.value ==> ColumnCount(img, c, img.Length0) < minCount
    ensures g.None? ==> forall c :: x <= c < img.Length1 ==> ColumnCount(img, c, img.Length0) < minCount
    decreases img.Length1 - x
  {
    if x == img.Length1 then None
    else if ColumnCount(img, x, img.Length0) >= minCount then Some(x)
    else FirstGap(img, minCount, x + 1)
  }

  /** startY after scanning columns [0, cols): it is set from a column's
      first non-black row only while it is still 0, so a first hit on row 0
      leaves it open for a later column. */
  function Latch(s: int, f: Option<nat>): int {
    if s == 0 && f.Some? then f.value else s
  }

  function LatchY(img: array2<Rgba>, cols: int): (y: nat)
    reads img
    requires 0 <= cols <= img.Length1
    ensures y == 0 || y < img.Length0
  {
    if cols == 0 then 0
    else
      Latch(LatchY(img, cols - 1), FirstInk(img, cols - 1, img.Length0))
  }

  /** Once a scanned column has latched a non-zero row, later columns leave
      it alone; a latch on row 0 stays open. */
  lemma {:induction false} LatchYSticky(img: array2<Rgba>, c: int, cols: int)
    requires 0 <= c < cols <= img.Length1 && LatchY(img, c + 1) != 0
    ensures LatchY(img, cols) == LatchY(img, c + 1)
    decreases cols
  {
    if cols > c + 1 {
      LatchYSticky(img, c, cols - 1);
    }
  }

  /** The columns findGapPython scans: up to and including the gap, or all. */
  function ScannedColumns(img: array2<Rgba>, minCount: int): int
    reads img
  {
    match FirstGap(img, minCount, 0)
    case Some(g) => g + 1
    case None => img.Length1
  }

  /** The per-column count of the scan. */
  method CountColumn(img: array2<Rgba>, x: int, startY0: int) returns (count: nat, startY: int)
    requires 0 <= x < img.Length1
    ensures count == ColumnCount(img, x, img.Length0)
    ensures startY == Latch(startY0, FirstInk(img, x, img.Length0))
  {
    count := 0;
    startY := startY0;
    for y := 0 to img.Length0
      invariant count == ColumnCount(img, x, y)
      invariant startY == Latch(startY0, FirstInk(img, x, y))
    {
      var p := img[y, x];
      if p.r != 0 || p.g != 0 || p.b != 0 {
        count := count + 1;
        if count == 1 && startY == 0 {
          startY := y;
        }
      }
    }
  }

  /** startX as findGapPython reports it: two right of the gap, or 0. */
  function GapX(img: array2<Rgba>, minCount: int): int
    reads img
  {
    match FirstGap(img, minCount, 0)
    case Some(g) => g + 2
    case None => 0
  }

  lemma GapFound(img: array2<Rgba>, minCount: int, x: int)
    requires 0 <= x < img.Length1 && FirstGap(img, minCount, 0) == FirstGap(img, minCount, x)
    requires ColumnCount(img, x, img.Length0) >= minCount
    ensures GapX(img, minCount) == x + 2 && ScannedColumns(img, minCount) == x + 1
  {
  }

  lemma GapPassed(img: array2<Rgba>, minCount: int, x: int)
    requires 0 <= x < img.Length1 && FirstGap(img, minCount, 0) == FirstGap(img, minCount, x)
    requires ColumnCount(img, x, img.Length0) < minCount
    ensures FirstGap(img, minCount, 0) == FirstGap(img, minCount, x + 1)
  {
  }

  lemma GapMissing(img: array2<Rgba>, minCount: int)
    requires FirstGap(img, minCount, 0) == FirstGap(img, minCount, img.Length1)
    ensures GapX(img, minCount) == 0 && ScannedColumns(img, minCount) == img.Length1
  {
  }

  /** findGapPython: startX is two right of the first column holding at least
      minCount non-black pixels, or 0; startY is latched as LatchY describes
      over the scanned columns. */
  method FindGapPython(img: array2<Rgba>, minCount: int) returns (startX: int, startY: int)
    ensures startX == GapX(img, minCount)
    ensures startY == LatchY(img, ScannedColumns(img, minCount))
  {
    startX := 0;
    startY := 0;
    var x := 0;
    while x < img.Length1
      invariant 0 <= x <= img.Length1
      invariant FirstGap(img, minCount, 0) == FirstGap(img, minCount, x)
      invariant startY == LatchY(img, x)
    {
      var count;
      count, startY := CountColumn(img, x, startY);
      assert startY == LatchY(img, x + 1);
      if count >= minCount {
        GapFound(img, minCount, x);
        startX := x + 2;
        return;
      }
      GapPassed(img, minCount, x);
      x := x + 1;
    }
    GapMissing(img, minCount);
  }

  /** SlideComparison on a target and a background already brought to the
      target's size: difference, binarise at 80, scan with minCount 5. */
  method SlideComparison(target: array2<Rgba>, background: array2<Rgba>) returns (startX: int, startY: int)
    requires background.Length0 == target.Length0 && background.Length1 == target.Length1
    ensures exists binary: array2<Rgba> ::
      binary.Length0 == target.Length0 && binary.Length1 == target.Length1 &&
      (forall y, x :: 0 <= y < target.Length0 && 0 <= x < target.Length1 ==>
         binary[y, x] == BinPixel(DiffPixel(background[y, x], target[y, x]), 80)) &&
      startX == GapX(binary, 5) &&
      startY == LatchY(binary, ScannedColumns(binary, 5))
  {
    var diff := ImageDifferenceRgb(background, target);
    var binary := BinarizeRgb(diff, 80);
    startX, startY := FindGapPython(binary, 5);
  }
}
