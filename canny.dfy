/** The integer stages of cannyEdgeDetect: Sobel gradients over the interior,
    non-maximum suppression along a gradient sector, the double threshold and
    the changed-flag hysteresis loop; plus grayToRGB. Grids are indexed
    [y, x]. */
module Canny {
  import opened Common

  /** A pixel with all eight neighbours inside an h-by-w grid. */
  predicate Interior(h: int, w: int, y: int, x: int) {
    1 <= y < h - 1 && 1 <= x < w - 1
  }

  predicate SameDims(a: array2<int>, b: array2<int>) {
    a.Length0 == b.Length0 && a.Length1 == b.Length1
  }

  // ---------------------------------------------------------------------
  // Integer square root, standing for int(math.Sqrt(float64(n))).
  // ---------------------------------------------------------------------

  lemma ISqrtStep(n: nat, t: nat)
    requires n >= 4 && t * t <= n / 4 < (t + 1) * (t + 1)
    ensures (2 * t) * (2 * t) <= n < (2 * t + 2) * (2 * t + 2)
  {
    var q := n / 4;
    assert n == 4 * q + n % 4;
    assert (2 * t) * (2 * t) == 4 * (t * t);
    assert (2 * t + 2) * (2 * t + 2) == 4 * ((t + 1) * (t + 1));
  }

  /** The floor of the square root of n. */
  function ISqrt(n: nat): (r: nat)
    ensures r * r <= n < (r + 1) * (r + 1)
    decreases n
  {
    if n == 0 then 0
    else if n < 4 then 1
    else
      var t := ISqrt(n / 4);
      ISqrtStep(n, t);
      var s := 2 * t;
      if (s + 1) * (s + 1) <= n then s + 1 else s
  }

  lemma SquareMono(a: nat, b: nat)
    requires a < b
    ensures a * a < b * b
  {
    assert a * a <= a * b;
    assert a * b < b * b;
  }

  lemma SquareOrder(a: nat, b: nat)
    ensures a < b <==> a * a < b * b
  {
    if a < b {
      SquareMono(a, b);
    } else {
      assert b * b <= a * b;
      assert a * b <= a * a;
    }
  }

  /** The square root of a perfect square is exact. */
  lemma ISqrtOfSquare(k: nat)
    ensures ISqrt(k * k) == k
  {
    var r := ISqrt(k * k);
    SquareMono(k, k + 1);
    SquareOrder(r, k + 1);
    SquareOrder(k, r + 1);
  }

  function SqNorm(a: int, b: int): nat {
    Abs(a) * Abs(a) + Abs(b) * Abs(b)
  }

  // ---------------------------------------------------------------------
  // Sobel gradients.
  // ---------------------------------------------------------------------

  /** The horizontal Sobel response at an interior pixel. */
  function Gx(g: array2<int>, y: int, x: int): int
    reads g
    requires Interior(g.Length0, g.Length1, y, x)
  {
    - g[y - 1, x - 1] - 2 * g[y, x - 1] - g[y + 1, x - 1]
    + g[y - 1, x + 1] + 2 * g[y, x + 1] + g[y + 1, x + 1]
  }

  /** The vertical Sobel response at an interior pixel. */
  function Gy(g: array2<int>, y: int, x: int): int
    reads g
    requires Interior(g.Length0, g.Length1, y, x)
  {
    - g[y - 1, x - 1] - 2 * g[y - 1, x] - g[y - 1, x + 1]
    + g[y + 1, x - 1] + 2 * g[y + 1, x] + g[y + 1, x + 1]
  }

  /** The gradients and magnitude are left at 0 on the outer ring. */
  function SobelX(g: array2<int>, y: int, x: int): int
    reads g
  {
    if Interior(g.Length0, g.Length1, y, x) then Gx(g, y, x) else 0
  }

  function SobelY(g: array2<int>, y: int, x: int): int
    reads g
  {
    if Interior(g.Length0, g.Length1, y, x) then Gy(g, y, x) else 0
  }

  function SobelMag(g: array2<int>, y: int, x: int): int
    reads g
  {
    if Interior(g.Length0, g.Length1, y, x) then ISqrt(SqNorm(Gx(g, y, x), Gy(g, y, x))) else 0
  }

  /** A uniform 3x3 window has no gradient and magnitude 0. */
  lemma SobelFlat(g: array2<int>, y: int, x: int)
    requires Interior(g.Length0, g.Length1, y, x)
    requires forall r, c :: y - 1 <= r <= y + 1 && x - 1 <= c <= x + 1 ==> g[r, c] == g[y, x]
    ensures SobelX(g, y, x) == 0 && SobelY(g, y, x) == 0 && SobelMag(g, y, x) == 0
  {
    assert g[y - 1, x - 1] == g[y, x] && g[y, x - 1] == g[y, x] && g[y + 1, x - 1] == g[y, x];
    assert g[y - 1, x + 1] == g[y, x] && g[y, x + 1] == g[y, x] && g[y + 1, x + 1] == g[y, x];
    assert g[y - 1, x] == g[y, x] && g[y + 1, x] == g[y, x];
  }

  /** One row of the Sobel stage: the interior pixels of row y get their
      gradients and magnitude; nothing else changes. */
  method SobelRow(gray: array2<int>, gradX: array2<int>, gradY: array2<int>, mag: array2<int>, y: int)
    requires SameDims(gradX, gray) && SameDims(gradY, gray) && SameDims(mag, gray)
    requires gray != gradX && gray != gradY && gray != mag && gradX != gradY && gradX != mag && gradY != mag
    requires 1 <= y < gray.Length0 - 1
    modifies gradX, gradY, mag
    ensures forall r, c :: 0 <= r < gray.Length0 && 0 <= c < gray.Length1 ==>
      gradX[r, c] == (if r == y && 0 < c < gray.Length1 - 1 then Gx(gray, r, c) else old(gradX[r, c]))
    ensures forall r, c :: 0 <= r < gray.Length0 && 0 <= c < gray.Length1 ==>
      gradY[r, c] == (if r == y && 0 < c < gray.Length1 - 1 then Gy(gray, r, c) else old(gradY[r, c]))
    ensures forall r, c :: 0 <= r < gray.Length0 && 0 <= c < gray.Length1 ==>
      mag[r, c] == (if r == y && 0 < c < gray.Length1 - 1 then SobelMag(gray, r, c) else old(mag[r, c]))
  {
    var w := gray.Length1;
    var x := 1;
    while x < w - 1
      invariant 1 <= x && (w >= 2 ==> x <= w - 1)
      invariant forall r, c :: 0 <= r < gray.Length0 && 0 <= c < w ==>
        gradX[r, c] == (if r == y && 0 < c < x then Gx(gray, r, c) else old(gradX[r, c]))
      invariant forall r, c :: 0 <= r < gray.Length0 && 0 <= c < w ==>
        gradY[r, c] == (if r == y && 0 < c < x then Gy(gray, r, c) else old(gradY[r, c]))
      invariant forall r, c :: 0 <= r < gray.Length0 && 0 <= c < w ==>
        mag[r, c] == (if r == y && 0 < c < x then SobelMag(gray, r, c) else old(mag[r, c]))
    {
      var gx := Gx(gray, y, x);
      var gy := Gy(gray, y, x);
      gradX[y, x] := gx;
      gradY[y, x] := gy;
      mag[y, x] := ISqrt(SqNorm(gx, gy));
      x := x + 1;
    }
  }

  /** The Sobel stage: gradX, gradY and the truncated magnitude for every
      interior pixel, 0 on the outer ring. */
  method Sobel(gray: array2<int>) returns (gradX: array2<int>, gradY: array2<int>, mag: array2<int>)
    ensures fresh(gradX) && fresh(gradY) && fresh(mag)
    ensures SameDims(gradX, gray) && SameDims(gradY, gray) && SameDims(mag, gray)
    ensures forall y, x :: 0 <= y < gray.Length0 && 0 <= x < gray.Length1 ==> gradX[y, x] == SobelX(gray, y, x)
    ensures forall y, x :: 0 <= y < gray.Length0 && 0 <= x < gray.Length1 ==> gradY[y, x] == SobelY(gray, y, x)
    ensures forall y, x :: 0 <= y < gray.Length0 && 0 <= x < gray.Length1 ==> mag[y, x] == SobelMag(gray, y, x)
  {
    var h, w := gray.Length0, gray.Length1;
    gradX := new int[h, w]((_, _) => 0);
    gradY := new int[h, w]((_, _) => 0);
    mag := new int[h, w]((_, _) => 0);
    var y := 1;
    while y < h - 1
      invariant 1 <= y && (h >= 2 ==> y <= h - 1)
      invariant forall r, c :: 0 <= r < h && 0 <= c < w ==> gradX[r, c] == (if r < y then SobelX(gray, r, c) else 0)
      invariant forall r, c :: 0 <= r < h && 0 <= c < w ==> gradY[r, c] == (if r < y then SobelY(gray, r, c) else 0)
      invariant forall r, c :: 0 <= r < h && 0 <= c < w ==> mag[r, c] == (if r < y then SobelMag(gray, r, c) else 0)
    {
      SobelRow(gray, gradX, gradY, mag, y);
      y := y + 1;
    }
  }

  // ---------------------------------------------------------------------
  // Non-maximum suppression.
  // ---------------------------------------------------------------------

  /** The gradient direction folded into [0, 180) degrees and quantised:
      around 0/180, around 45, around 90, around 135. */
  datatype Sector = Horizontal | Rising | Vertical | Falling

  /** The offsets (dy, dx) of the neighbour q compared in a sector; the
      neighbour r lies opposite, at (-dy, -dx). */
  function QOffset(s: Sector): (int, int) {
    match s
    case Horizontal => (0, 1)
    case Rising => (-1, 1)
    case Vertical => (-1, 0)
    case Falling => (-1, -1)
  }

  /** A magnitude survives when it is at least both neighbours along the
      gradient; a zero magnitude is skipped. */
  function Keep(m: int, q: int, r: int): int {
    if m == 0 then 0 else if m >= q && m >= r then m else 0
  }

  /** Keep yields either the magnitude or 0, and a non-zero result means a
      local maximum along the gradient. */
  lemma KeepLocalMaximum(m: int, q: int, r: int)
    ensures Keep(m, q, r) == m || Keep(m, q, r) == 0
    ensures Keep(m, q, r) != 0 <==> m != 0 && m >= q && m >= r
  {
  }

  /** The suppressed value at a pixel; `dir` maps (gx, gy) to the sector the
      source obtains from atan2. */
  function SupAt(mag: array2<int>, gradX: array2<int>, gradY: array2<int>,
                 dir: (int, int) -> Sector, y: int, x: int): int
    reads mag, gradX, gradY
    requires SameDims(gradX, mag) && SameDims(gradY, mag)
  {
    if !Interior(mag.Length0, mag.Length1, y, x) then 0
    else
      var (dy, dx) := QOffset(dir(gradX[y, x], gradY[y, x]));
      Keep(mag[y, x], mag[y + dy, x + dx], mag[y - dy, x - dx])
  }

  /** SupAt with the Sobel stage's values read off the gray grid. */
  function GraySup(gray: array2<int>, dir: (int, int) -> Sector, y: int, x: int): int
    reads gray
  {
    if !Interior(gray.Length0, gray.Length1, y, x) then 0
    else
      var (dy, dx) := QOffset(dir(SobelX(gray, y, x), SobelY(gray, y, x)));
      Keep(SobelMag(gray, y, x), SobelMag(gray, y + dy, x + dx), SobelMag(gray, y - dy, x - dx))
  }

  /** The non-maximum suppression stage. */
  method NonMaxSuppress(mag: array2<int>, gradX: array2<int>, gradY: array2<int>, dir: (int, int) -> Sector)
    returns (sup: array2<int>)
    requires SameDims(gradX, mag) && SameDims(gradY, mag)
    ensures fresh(sup) && SameDims(sup, mag)
    ensures forall y, x :: 0 <= y < mag.Length0 && 0 <= x < mag.Length1 ==>
      sup[y, x] == SupAt(mag, gradX, gradY, dir, y, x)
  {
    var h, w := mag.Length0, mag.Length1;
    sup := new int[h, w]((_, _) => 0);
    var y := 1;
    while y < h - 1
      invariant 1 <= y && (h >= 2 ==> y <= h - 1)
      invariant forall r, c :: 0 <= r < h && 0 <= c < w ==>
        sup[r, c] == (if r < y then SupAt(mag, gradX, gradY, dir, r, c) else 0)
    {
      var x := 1;
      while x < w - 1
        invariant 1 <= x && (w >= 2 ==> x <= w - 1)
        invariant forall r, c :: 0 <= r < h && 0 <= c < w ==>
          sup[r, c] == (if r < y || (r == y && c < x) then SupAt(mag, gradX, gradY, dir, r, c) else 0)
      {
        var m := mag[y, x];
        if m == 0 {
          x := x + 1;
          continue;
        }
        var (dy, dx) := QOffset(dir(gradX[y, x], gradY[y, x]));
        var q := mag[y + dy, x + dx];
        var r := mag[y - dy, x - dx];
        if m >= q && m >= r {
          sup[y, x] := m;
        }
        x := x + 1;
      }
      y := y + 1;
    }
  }

  // ---------------------------------------------------------------------
  // Double threshold.
  // ---------------------------------------------------------------------

  /** Edge labels: 2 strong, 1 weak, 0 none. */
  function Label(v: int, low: int, high: int): int {
    if v >= high then 2 else if v >= low then 1 else 0
  }

  function Ink(lab: int): byte {
    if lab == 2 then 255 else 0
  }

  /** The double threshold stage: interior labels from the suppressed values,
      0 on the ring, and the output map white exactly at strong pixels. */
  method DoubleThreshold(sup: array2<int>, low: int, high: int) returns (edge: array2<int>, result: array2<byte>)
    ensures fresh(edge) && fresh(result) && SameDims(edge, sup)
    ensures result.Length0 == sup.Length0 && result.Length1 == sup.Length1
    ensures forall y, x :: 0 <= y < sup.Length0 && 0 <= x < sup.Length1 ==>
      edge[y, x] == (if Interior(sup.Length0, sup.Length1, y, x) then Label(sup[y, x], low, high) else 0)
    ensures forall y, x :: 0 <= y < sup.Length0 && 0 <= x < sup.Length1 ==> result[y, x] == Ink(edge[y, x])
  {
    var h, w := sup.Length0, sup.Length1;
    edge := new int[h, w]((_, _) => 0);
    result := new byte[h, w]((_, _) => 0);
    var y := 1;
    while y < h - 1
      invariant 1 <= y && (h >= 2 ==> y <= h - 1)
      invariant forall r, c :: 0 <= r < h && 0 <= c < w ==>
        edge[r, c] == (if r < y && Interior(h, w, r, c) then Label(sup[r, c], low, high) else 0)
      invariant forall r, c :: 0 <= r < h && 0 <= c < w ==> result[r, c] == Ink(edge[r, c])
    {
      var x := 1;
      while x < w - 1
        invariant 1 <= x && (w >= 2 ==> x <= w - 1)
        invariant forall r, c :: 0 <= r < h && 0 <= c < w ==>
          edge[r, c] == (if (r < y || (r == y && c < x)) && Interior(h, w, r, c) then Label(sup[r, c], low, high) else 0)
        invariant forall r, c :: 0 <= r < h && 0 <= c < w ==> result[r, c] == Ink(edge[r, c])
      {
        if sup[y, x] >= high {
          edge[y, x] := 2;
          result[y, x] := 255;
        } else if sup[y, x] >= low {
          edge[y, x] := 1;
        }
        x := x + 1;
      }
      y := y + 1;
    }
  }

  // ---------------------------------------------------------------------
  // Hysteresis.
  // ---------------------------------------------------------------------

  /** An h-by-w label grid with labels 0, 1, 2 and a zero outer ring, as the
      double threshold produces. */
  ghost predicate WellLabelled(e: seq<seq<int>>, h: int, w: int) {
    && |e| == h
    && (forall y :: 0 <= y < h ==> |e[y]| == w)
    && (forall y, x :: 0 <= y < h && 0 <= x < w ==> 0 <= e[y][x] <= 2)
    && (forall y, x :: 0 <= y < h && 0 <= x < w && !Interior(h, w, y, x) ==> e[y][x] == 0)
  }

  ghost function Labels(a: array2<int>): seq<seq<int>>
    reads a
  {
    seq(a.Length0, y requires 0 <= y < a.Length0 reads a =>
      seq(a.Length1, x requires 0 <= x < a.Length1 reads a => a[y, x]))
  }

  predicate Adjacent(y: int, x: int, ny: int, nx: int) {
    -1 <= ny - y <= 1 && -1 <= nx - x <= 1
  }

  predicate InGrid(e: seq<seq<int>>, y: int, x: int) {
    0 <= y < |e| && 0 <= x < |e[y]|
  }

  /** Pixel (y, x) is strong, or weak with an 8-neighbour that reaches a
      strong pixel through weak pixels in fewer than n steps. */
  ghost predicate Reach(e: seq<seq<int>>, y: int, x: int, n: nat)
    decreases n
  {
    InGrid(e, y, x) &&
    (e[y][x] == 2 ||
     (e[y][x] == 1 && n > 0 &&
      exists ny, nx :: Adjacent(y, x, ny, nx) && Reach(e, ny, nx, n - 1)))
  }

  /** Pixel (y, x) is strong or 8-connected through weak pixels to a strong
      one. */
  ghost predicate Connected(e: seq<seq<int>>, y: int, x: int) {
    exists n: nat :: Reach(e, y, x, n)
  }

  /** A weak pixel next to a connected one is connected. */
  lemma ConnectedStep(e: seq<seq<int>>, y: int, x: int, ny: int, nx: int)
    requires InGrid(e, y, x) && e[y][x] == 1 && Adjacent(y, x, ny, nx) && Connected(e, ny, nx)
    ensures Connected(e, y, x)
  {
    var n: nat :| Reach(e, ny, nx, n);
    assert Reach(e, y, x, n + 1);
  }

  /** Pixels on the outer ring are never connected, strong pixels always are. */
  lemma ConnectedBasics(e: seq<seq<int>>, h: int, w: int, y: int, x: int)
    requires WellLabelled(e, h, w) && 0 <= y < h && 0 <= x < w
    ensures !Interior(h, w, y, x) ==> !Connected(e, y, x)
    ensures e[y][x] == 2 ==> Connected(e, y, x)
  {
    if e[y][x] == 2 {
      assert Reach(e, y, x, 0);
    }
  }

  /** Some pixel of the 3x3 window around (y, x) is strong. */
  predicate StrongNear(edge: array2<int>, y: int, x: int)
    reads edge
  {
    exists ny, nx :: 0 <= ny < edge.Length0 && 0 <= nx < edge.Length1 && Adjacent(y, x, ny, nx) && edge[ny, nx] == 2
  }

  /** No weak pixel has a strong neighbour: the fixpoint of hysteresis. */
  predicate Closed(edge: array2<int>)
    reads edge
  {
    forall y, x :: 0 <= y < edge.Length0 && 0 <= x < edge.Length1 && edge[y, x] == 1 ==> !StrongNear(edge, y, x)
  }

  /** The state hysteresis keeps relative to the initial labels e0: every
      label is the initial one, or a weak pixel promoted to strong that is
      connected; the output map is white exactly at strong pixels. */
  ghost predicate Inv(e0: seq<seq<int>>, edge: array2<int>, result: array2<byte>)
    reads edge, result
  {
    && WellLabelled(e0, edge.Length0, edge.Length1)
    && result.Length0 == edge.Length0 && result.Length1 == edge.Length1
    && (forall y, x :: 0 <= y < edge.Length0 && 0 <= x < edge.Length1 ==>
          edge[y, x] == e0[y][x] || (e0[y][x] == 1 && edge[y, x] == 2 && Connected(e0, y, x)))
    && (forall y, x :: 0 <= y < edge.Length0 && 0 <= x < edge.Length1 ==> result[y, x] == Ink(edge[y, x]))
  }

  ghost function WeakSet(edge: array2<int>): set<(int, int)>
    reads edge
  {
    set y, x | 0 <= y < edge.Length0 && 0 <= x < edge.Length1 && edge[y, x] == 1 :: (y, x)
  }

  /** At a fixpoint every connected pixel is strong. */
  lemma {:induction false} ClosedReachIsStrong(e0: seq<seq<int>>, edge: array2<int>, y: int, x: int, n: nat)
    requires WellLabelled(e0, edge.Length0, edge.Length1)
    requires forall r, c :: 0 <= r < edge.Length0 && 0 <= c < edge.Length1 ==>
      (e0[r][c] == 2 ==> edge[r, c] == 2) && (e0[r][c] == 1 ==> 1 <= edge[r, c] <= 2)
    requires Closed(edge) && Reach(e0, y, x, n)
    ensures edge[y, x] == 2
    decreases n
  {
    if e0[y][x] != 2 {
      var ny, nx :| Adjacent(y, x, ny, nx) && Reach(e0, ny, nx, n - 1);
      ClosedReachIsStrong(e0, edge, ny, nx, n - 1);
      assert StrongNear(edge, y, x);
    }
  }

  /** The neighbour search of one weak pixel, with its two early exits. */
  method StrongNeighbour(edge: array2<int>, y: int, x: int) returns (found: bool)
    requires Interior(edge.Length0, edge.Length1, y, x)
    ensures found <==> StrongNear(edge, y, x)
  {
    found := false;
    var dy := -1;
    while dy <= 1
      invariant -1 <= dy <= 2
      invariant found ==> StrongNear(edge, y, x)
      invariant !found ==> forall ny, nx :: ny < y + dy && Adjacent(y, x, ny, nx) ==> edge[ny, nx] != 2
    {
      var dx := -1;
      while dx <= 1
        invariant -1 <= dx <= 2
        invariant found ==> StrongNear(edge, y, x)
        invariant !found ==> forall ny, nx :: (ny < y + dy || (ny == y + dy && nx < x + dx)) && Adjacent(y, x, ny, nx) ==> edge[ny, nx] != 2
      {
        if edge[y + dy, x + dx] == 2 {
          found := true;
          break;
        }
        dx := dx + 1;
      }
      if found {
        break;
      }
      dy := dy + 1;
    }
  }

  /** One pixel of a hysteresis pass: a weak pixel with a strong neighbour
      becomes strong and white. */
  method Promote(edge: array2<int>, result: array2<byte>, y: int, x: int, ghost e0: seq<seq<int>>)
    returns (promoted: bool)
    requires Inv(e0, edge, result) && Interior(edge.Length0, edge.Length1, y, x)
    modifies edge, result
    ensures Inv(e0, edge, result)
    ensures promoted ==> (y, x) in old(WeakSet(edge)) && WeakSet(edge) == old(WeakSet(edge)) - {(y, x)}
    ensures !promoted ==> unchanged(edge) && unchanged(result) && (edge[y, x] == 1 ==> !StrongNear(edge, y, x))
  {
    promoted := false;
    if edge[y, x] == 1 {
      var found := StrongNeighbour(edge, y, x);
      if found {
        ghost var ny, nx :| 0 <= ny < edge.Length0 && 0 <= nx < edge.Length1 && Adjacent(y, x, ny, nx) && edge[ny, nx] == 2;
        ConnectedBasics(e0, edge.Length0, edge.Length1, ny, nx);
        ConnectedStep(e0, y, x, ny, nx);
        ghost var before := WeakSet(edge);
        assert (y, x) in before;
        edge[y, x] := 2;
        result[y, x] := 255;
        promoted := true;
        assert WeakSet(edge) == before - {(y, x)};
      }
    }
  }

  /** One sweep over the interior. If nothing changed the labels are at the
      fixpoint; otherwise the set of weak pixels shrank. */
  method HysteresisPass(edge: array2<int>, result: array2<byte>, ghost e0: seq<seq<int>>) returns (changed: bool)
    requires Inv(e0, edge, result)
    modifies edge, result
    ensures Inv(e0, edge, result)
    ensures changed ==> WeakSet(edge) < old(WeakSet(edge))
    ensures !changed ==> WeakSet(edge) == old(WeakSet(edge)) && Closed(edge)
  {
    var h, w := edge.Length0, edge.Length1;
    changed := false;
    var y := 1;
    while y < h - 1
      invariant 1 <= y && (h >= 2 ==> y <= h - 1)
      invariant Inv(e0, edge, result)
      invariant WeakSet(edge) <= old(WeakSet(edge))
      invariant changed ==> WeakSet(edge) < old(WeakSet(edge))
      invariant !changed ==> unchanged(edge)
      invariant !changed ==> forall r, c :: 1 <= r < y && r < h - 1 && 1 <= c < w - 1 && edge[r, c] == 1 ==> !StrongNear(edge, r, c)
    {
      var x := 1;
      while x < w - 1
        invariant 1 <= x && (w >= 2 ==> x <= w - 1)
        invariant Inv(e0, edge, result)
        invariant WeakSet(edge) <= old(WeakSet(edge))
        invariant changed ==> WeakSet(edge) < old(WeakSet(edge))
        invariant !changed ==> unchanged(edge)
        invariant !changed ==> forall r, c :: (1 <= r < y || (r == y && c < x)) && 1 <= c < w - 1 && edge[r, c] == 1 ==> !StrongNear(edge, r, c)
      {
        var p := Promote(edge, result, y, x, e0);
        if p {
          changed := true;
        }
        x := x + 1;
      }
      y := y + 1;
    }
    if !changed {
      forall r, c | 0 <= r < h && 0 <= c < w && edge[r, c] == 1
        ensures !StrongNear(edge, r, c)
      {
        assert Interior(h, w, r, c);
      }
    }
  }

  /** The changed-flag loop: sweeps until a sweep promotes nothing. A pixel
      ends strong, and white, exactly when it is connected in the initial
      labels. */
  method Hysteresis(edge: array2<int>, result: array2<byte>, ghost e0: seq<seq<int>>)
    requires Inv(e0, edge, result)
    modifies edge, result
    ensures forall y, x :: 0 <= y < edge.Length0 && 0 <= x < edge.Length1 ==>
      (edge[y, x] == 2 <==> Connected(e0, y, x)) && result[y, x] == (if Connected(e0, y, x) then 255 else 0)
  {
    var changed := true;
    while changed
      invariant Inv(e0, edge, result)
      invariant !changed ==> Closed(edge)
      decreases WeakSet(edge), changed
    {
      changed := HysteresisPass(edge, result, e0);
    }
    forall y, x | 0 <= y < edge.Length0 && 0 <= x < edge.Length1
      ensures edge[y, x] == 2 <==> Connected(e0, y, x)
    {
      ConnectedBasics(e0, edge.Length0, edge.Length1, y, x);
      if Connected(e0, y, x) {
        var n: nat :| Reach(e0, y, x, n);
        ClosedReachIsStrong(e0, edge, y, x, n);
      }
    }
  }

  /** The suppression stage read back onto the gray grid. */
  lemma SupIsGraySup(gray: array2<int>, gradX: array2<int>, gradY: array2<int>, mag: array2<int>,
                     sup: array2<int>, dir: (int, int) -> Sector)
    requires SameDims(gradX, gray) && SameDims(gradY, gray) && SameDims(mag, gray) && SameDims(sup, gray)
    requires forall y, x :: 0 <= y < gray.Length0 && 0 <= x < gray.Length1 ==> gradX[y, x] == SobelX(gray, y, x)
    requires forall y, x :: 0 <= y < gray.Length0 && 0 <= x < gray.Length1 ==> gradY[y, x] == SobelY(gray, y, x)
    requires forall y, x :: 0 <= y < gray.Length0 && 0 <= x < gray.Length1 ==> mag[y, x] == SobelMag(gray, y, x)
    requires forall y, x :: 0 <= y < gray.Length0 && 0 <= x < gray.Length1 ==>
      sup[y, x] == SupAt(mag, gradX, gradY, dir, y, x)
    ensures forall y, x :: 0 <= y < gray.Length0 && 0 <= x < gray.Length1 ==> sup[y, x] == GraySup(gray, dir, y, x)
  {
    forall y, x | 0 <= y < gray.Length0 && 0 <= x < gray.Length1
      ensures sup[y, x] == GraySup(gray, dir, y, x)
    {
      if Interior(gray.Length0, gray.Length1, y, x) {
        var (dy, dx) := QOffset(dir(gradX[y, x], gradY[y, x]));
        assert mag[y + dy, x + dx] == SobelMag(gray, y + dy, x + dx);
        assert mag[y - dy, x - dx] == SobelMag(gray, y - dy, x - dx);
      }
    }
  }

  /** The double threshold's labels, taken as the initial labels of
      hysteresis, satisfy its invariant. */
  lemma ThresholdLabels(gray: array2<int>, sup: array2<int>, edge: array2<int>, result: array2<byte>,
                        low: int, high: int, dir: (int, int) -> Sector)
    requires SameDims(sup, gray) && SameDims(edge, gray)
    requires result.Length0 == gray.Length0 && result.Length1 == gray.Length1
    requires forall y, x :: 0 <= y < gray.Length0 && 0 <= x < gray.Length1 ==> sup[y, x] == GraySup(gray, dir, y, x)
    requires forall y, x :: 0 <= y < gray.Length0 && 0 <= x < gray.Length1 ==>
      edge[y, x] == (if Interior(gray.Length0, gray.Length1, y, x) then Label(sup[y, x], low, high) else 0)
    requires forall y, x :: 0 <= y < gray.Length0 && 0 <= x < gray.Length1 ==> result[y, x] == Ink(edge[y, x])
    ensures Inv(Labels(edge), edge, result)
    ensures forall y, x :: 0 <= y < gray.Length0 && 0 <= x < gray.Length1 ==>
      Labels(edge)[y][x] == (if Interior(gray.Length0, gray.Length1, y, x) then Label(GraySup(gray, dir, y, x), low, high) else 0)
  {
  }

  /** cannyEdgeDetect on a gray grid (the luma conversion is not modelled).
      `labels` are the double-threshold labels of the suppressed Sobel
      magnitudes; the map is white exactly at pixels connected through weak
      labels to a strong one. */
  method CannyEdgeDetect(gray: array2<int>, low: int, high: int, dir: (int, int) -> Sector)
    returns (result: array2<byte>, ghost labels: seq<seq<int>>)
    ensures fresh(result) && result.Length0 == gray.Length0 && result.Length1 == gray.Length1
    ensures WellLabelled(labels, gray.Length0, gray.Length1)
    ensures forall y, x :: 0 <= y < gray.Length0 && 0 <= x < gray.Length1 ==>
      labels[y][x] == (if Interior(gray.Length0, gray.Length1, y, x) then Label(GraySup(gray, dir, y, x), low, high) else 0)
    ensures forall y, x :: 0 <= y < gray.Length0 && 0 <= x < gray.Length1 ==>
      result[y, x] == (if Connected(labels, y, x) then 255 else 0)
  {
    var gradX, gradY, mag := Sobel(gray);
    var sup := NonMaxSuppress(mag, gradX, gradY, dir);
    SupIsGraySup(gray, gradX, gradY, mag, sup, dir);
    var edge;
    edge, result := DoubleThreshold(sup, low, high);
    ThresholdLabels(gray, sup, edge, result, low, high, dir);
    labels := Labels(edge);
    Hysteresis(edge, result, labels);
  }

  /** grayToRGB: every gray sample becomes an opaque pixel with three equal
      channels. */
  method GrayToRgb(gray: array2<byte>) returns (rgb: array2<Rgba>)
    ensures fresh(rgb) && rgb.Length0 == gray.Length0 && rgb.Length1 == gray.Length1
    ensures forall y, x :: 0 <= y < gray.Length0 && 0 <= x < gray.Length1 ==>
      rgb[y, x] == Rgba(gray[y, x], gray[y, x], gray[y, x], 255)
  {
    rgb := new Rgba[gray.Length0, gray.Length1]((_, _) => Rgba(0, 0, 0, 0));
    for y := 0 to gray.Length0
      invariant forall r, c :: 0 <= r < y && 0 <= c < gray.Length1 ==>
        rgb[r, c] == Rgba(gray[r, c], gray[r, c], gray[r, c], 255)
    {
      for x := 0 to gray.Length1
        invariant forall r, c :: 0 <= r < gray.Length0 && 0 <= c < gray.Length1 && (r < y || (r == y && c < x)) ==>
          rgb[r, c] == Rgba(gray[r, c], gray[r, c], gray[r, c], 255)
      {
        var g := gray[y, x];
        rgb[y, x] := Rgba(g, g, g, 255);
      }
    }
  }
}
