/** Grid decoding of the detector's output (demoPostprocess): the anchor
    grid over the strides 8, 16 and 32, the class count derived from the
    tensor length, and the per-anchor prediction rows. */
module DetectionGrid {

  /** One grid cell of one stride level. */
  datatype Anchor = Anchor(gx: nat, gy: nat, stride: nat)

  const Strides: seq<nat> := [8, 16, 32]

  /** Row y of a stride level: the cells x = 0 .. ws-1 left to right. */
  function GridRow(y: nat, ws: nat, stride: nat): seq<Anchor> {
    seq(ws, x requires 0 <= x => Anchor(x, y, stride))
  }

  /** The first `rows` rows of a stride level, top to bottom. */
  function LevelRows(rows: nat, ws: nat, stride: nat): seq<Anchor> {
    if rows == 0 then [] else LevelRows(rows - 1, ws, stride) + GridRow(rows - 1, ws, stride)
  }

  /** One stride level of an input of height h and width w. */
  function Level(h: nat, w: nat, stride: nat): seq<Anchor>
    requires stride > 0
  {
    LevelRows(h / stride, w / stride, stride)
  }

  /** The levels of the first k strides, concatenated. */
  function Levels(h: nat, w: nat, k: nat): seq<Anchor>
    requires k <= |Strides|
  {
    if k == 0 then [] else Levels(h, w, k - 1) + Level(h, w, Strides[k - 1])
  }

  /** The whole anchor grid, in the flattening order of the detector output. */
  function Grid(h: nat, w: nat): seq<Anchor> {
    Levels(h, w, |Strides|)
  }

  /** The anchor-grid loops of demoPostprocess: strides ascending, then rows,
      then columns. */
  method AnchorGrid(h: nat, w: nat) returns (grids: seq<Anchor>)
    ensures grids == Grid(h, w)
  {
    grids := [];
    for si := 0 to |Strides|
      invariant grids == Levels(h, w, si)
    {
      var stride := Strides[si];
      var hsize := h / stride;
      var wsize := w / stride;
      for y := 0 to hsize
        invariant grids == Levels(h, w, si) + LevelRows(y, wsize, stride)
      {
        for x := 0 to wsize
          invariant grids == Levels(h, w, si) + LevelRows(y, wsize, stride) + GridRow(y, wsize, stride)[..x]
        {
          assert GridRow(y, wsize, stride)[..x + 1] == GridRow(y, wsize, stride)[..x] + [Anchor(x, y, stride)];
          grids := grids + [Anchor(x, y, stride)];
        }
        assert GridRow(y, wsize, stride)[..wsize] == GridRow(y, wsize, stride);
      }
    }
  }

  // ---------------------------------------------------------------------
  // Shape and order of the grid.
  // ---------------------------------------------------------------------

  lemma MulLe(a: nat, b: nat, c: nat)
    requires a <= b
    ensures a * c <= b * c
  {
  }

  /** A level of `rows` rows has rows * ws cells. */
  lemma {:induction false} LevelRowsLength(rows: nat, ws: nat, stride: nat)
    ensures |LevelRows(rows, ws, stride)| == rows * ws
  {
    if rows > 0 {
      LevelRowsLength(rows - 1, ws, stride);
      assert (rows - 1) * ws + ws == rows * ws;
    }
  }

  /** Cell y * ws + x of a level is the anchor (x, y). */
  lemma {:induction false} LevelRowsAt(rows: nat, ws: nat, stride: nat, y: nat, x: nat)
    requires y < rows && x < ws
    ensures y * ws + x < |LevelRows(rows, ws, stride)|
    ensures LevelRows(rows, ws, stride)[y * ws + x] == Anchor(x, y, stride)
  {
    LevelRowsLength(rows - 1, ws, stride);
    var prev := LevelRows(rows - 1, ws, stride);
    assert |prev| == (rows - 1) * ws;
    if y < rows - 1 {
      LevelRowsAt(rows - 1, ws, stride, y, x);
    } else {
      assert y * ws + x == |prev| + x;
    }
  }

  /** Row-major order: cell p comes before cell q. */
  predicate Before(p: Anchor, q: Anchor) {
    p.stride < q.stride
    || (p.stride == q.stride && (p.gy < q.gy || (p.gy == q.gy && p.gx < q.gx)))
  }

  predicate Increasing(s: seq<Anchor>) {
    forall i, j :: 0 <= i < j < |s| ==> Before(s[i], s[j])
  }

  /** Every cell of a level has that level's stride. */
  lemma {:induction false} LevelRowsStride(rows: nat, ws: nat, stride: nat)
    ensures forall a :: a in LevelRows(rows, ws, stride) ==> a.stride == stride && a.gy < rows
  {
    if rows > 0 {
      LevelRowsStride(rows - 1, ws, stride);
    }
  }

  /** Inside a level the cells are ordered y outer, x inner. */
  lemma {:induction false} LevelRowsIncreasing(rows: nat, ws: nat, stride: nat)
    ensures Increasing(LevelRows(rows, ws, stride))
  {
    if rows > 0 {
      LevelRowsIncreasing(rows - 1, ws, stride);
      LevelRowsStride(rows - 1, ws, stride);
      var a := LevelRows(rows - 1, ws, stride);
      var b := GridRow(rows - 1, ws, stride);
      var s := a + b;
      forall i, j | 0 <= i < j < |s|
        ensures Before(s[i], s[j])
      {
        if j < |a| {
        } else if i < |a| {
          assert s[i] in a;
        }
      }
    }
  }

  /** The whole grid is strictly increasing in (stride, y, x): strides come in
      ascending order and each level is row-major. */
  lemma {:induction false} LevelsIncreasing(h: nat, w: nat, k: nat)
    requires k <= |Strides|
    ensures Increasing(Levels(h, w, k))
    ensures forall a :: a in Levels(h, w, k) ==> k > 0 && a.stride <= Strides[k - 1]
  {
    if k > 0 {
      LevelsIncreasing(h, w, k - 1);
      var stride := Strides[k - 1];
      LevelRowsIncreasing(h / stride, w / stride, stride);
      LevelRowsStride(h / stride, w / stride, stride);
      var a := Levels(h, w, k - 1);
      var b := Level(h, w, stride);
      var s := a + b;
      forall i, j | 0 <= i < j < |s|
        ensures Before(s[i], s[j])
      {
        if j < |a| {
        } else if i < |a| {
          assert s[i] in a && s[j] in b;
        }
      }
    }
  }

  /** A 416 x 416 input has 52*52 + 26*26 + 13*13 = 3549 anchors. */
  lemma GridSize416()
    ensures |Grid(416, 416)| == 3549
  {
    LevelRowsLength(52, 52, 8);
    LevelRowsLength(26, 26, 16);
    LevelRowsLength(13, 13, 32);
    assert Level(416, 416, 8) == LevelRows(52, 52, 8);
    assert Level(416, 416, 16) == LevelRows(26, 26, 16);
    assert Level(416, 416, 32) == LevelRows(13, 13, 32);
    assert Levels(416, 416, 1) == Level(416, 416, 8);
    assert Levels(416, 416, 2) == Level(416, 416, 8) + Level(416, 416, 16);
    assert Grid(416, 416) == Levels(416, 416, 2) + Level(416, 416, 32);
  }

  // ---------------------------------------------------------------------
  // Class count and prediction rows.
  // ---------------------------------------------------------------------

  /** numClasses: the row width implied by the tensor length, minus the five
      box and objectness entries (an unchecked truncating division). */
  function NumClasses(outputLen: nat, numAnchors: nat): int
    requires numAnchors > 0
  {
    outputLen / numAnchors - 5
  }

  /** The division truncates: the rows of width 5 + numClasses fit in the
      tensor and the leftover (fewer than numAnchors values) is ignored. */
  lemma NumClassesTruncates(outputLen: nat, numAnchors: nat)
    requires numAnchors > 0
    ensures (5 + NumClasses(outputLen, numAnchors)) * numAnchors <= outputLen
    ensures outputLen < (6 + NumClasses(outputLen, numAnchors)) * numAnchors
  {
    var q := outputLen / numAnchors;
    assert q * numAnchors + outputLen % numAnchors == outputLen;
    assert (q + 1) * numAnchors == q * numAnchors + numAnchors;
  }

  /** A tensor of exactly numAnchors * (5 + K) values gives K classes. */
  lemma NumClassesExact(outputLen: nat, numAnchors: nat, k: nat)
    requires numAnchors > 0 && outputLen == numAnchors * (5 + k)
    ensures NumClasses(outputLen, numAnchors) == k
  {
    var q := outputLen / numAnchors;
    NumClassesTruncates(outputLen, numAnchors);
    if q < 5 + k {
      MulLe(q + 1, 5 + k, numAnchors);
    } else if q > 5 + k {
      MulLe(6 + k, q, numAnchors);
    }
  }

  /** Anchor i's row read from the flat tensor of n rows of width k: centre
      offsets shifted by the cell and scaled by the stride, sizes through exp
      and scaled, objectness and class scores passed through. */
  function Prediction(outputs: seq<real>, i: nat, n: nat, k: nat, a: Anchor, exp: real -> real): (row: seq<real>)
    requires 4 <= k && i < n && n * k <= |outputs|
    ensures |row| == k
  {
    RowFits(i, n, k, |outputs|);
    var base := i * k;
    seq(k, j requires 0 <= j < k && base + k <= |outputs| =>
      if j == 0 then (outputs[base] + a.gx as real) * a.stride as real
      else if j == 1 then (outputs[base + 1] + a.gy as real) * a.stride as real
      else if j == 2 then exp(outputs[base + 2]) * a.stride as real
      else if j == 3 then exp(outputs[base + 3]) * a.stride as real
      else outputs[base + j])
  }

  lemma RowFits(i: nat, n: nat, k: nat, len: nat)
    requires i < n && n * k <= len
    ensures i * k + k <= len
  {
    MulLe(i + 1, n, k);
  }

  /** The row of one anchor (the body of demoPostprocess's anchor loop). */
  method PredictionRow(outputs: seq<real>, i: nat, n: nat, k: nat, a: Anchor, exp: real -> real) returns (pred: seq<real>)
    requires 4 <= k && i < n && n * k <= |outputs|
    ensures pred == Prediction(outputs, i, n, k, a, exp)
  {
    RowFits(i, n, k, |outputs|);
    var base := i * k;
    pred := [];
    pred := pred + [(outputs[base] + a.gx as real) * a.stride as real];
    pred := pred + [(outputs[base + 1] + a.gy as real) * a.stride as real];
    pred := pred + [exp(outputs[base + 2]) * a.stride as real];
    pred := pred + [exp(outputs[base + 3]) * a.stride as real];
    for j := 4 to k
      invariant |pred| == j
      invariant forall j' :: 0 <= j' < j ==> pred[j'] == Prediction(outputs, i, n, k, a, exp)[j']
    {
      pred := pred + [outputs[base + j]];
    }
  }

  /** demoPostprocess: one prediction row per anchor. The grid must be
      non-empty (the class count divides by it) and the rows at least four
      wide (entries 0 to 3 are written). */
  method DemoPostprocess(outputs: seq<real>, h: nat, w: nat, exp: real -> real) returns (preds: seq<seq<real>>)
    requires |Grid(h, w)| > 0
    requires |outputs| / |Grid(h, w)| >= 4
    ensures |preds| == |Grid(h, w)|
    ensures |Grid(h, w)| * (5 + NumClasses(|outputs|, |Grid(h, w)|)) <= |outputs|
    ensures forall i :: 0 <= i < |preds| ==>
      preds[i] == Prediction(outputs, i, |Grid(h, w)|, 5 + NumClasses(|outputs|, |Grid(h, w)|), Grid(h, w)[i], exp)
  {
    var grids := AnchorGrid(h, w);
    var numAnchors := |grids|;
    var numClasses := |outputs| / numAnchors - 5;
    var k := 5 + numClasses;
    assert k == 5 + NumClasses(|outputs|, numAnchors) && k >= 4;
    NumClassesTruncates(|outputs|, numAnchors);
    assert numAnchors * k <= |outputs| by {
      assert numAnchors * k == k * numAnchors;
    }
    preds := [];
    for i := 0 to numAnchors
      invariant |preds| == i
      invariant forall i' :: 0 <= i' < i ==> preds[i'] == Prediction(outputs, i', numAnchors, k, grids[i'], exp)
    {
      var pred := PredictionRow(outputs, i, numAnchors, k, grids[i], exp);
      preds := preds + [pred];
    }
  }
}
