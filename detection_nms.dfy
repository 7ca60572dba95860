/** Suppression stage of the detector (multiclassNMS, computeIoU): score
    filtering, corner conversion with clipping, ranking by score and the
    greedy class-agnostic suppression pass. */
module DetectionNms {
  import opened Common

  /** An integer box with corners (x1, y1) and (x2, y2). */
  datatype Box = Box(x1: int, y1: int, x2: int, y2: int)

  /** A box with its score, alive only during suppression. */
  datatype Det = Det(box: Box, score: real)

  function Area(b: Box): int { (b.x2 - b.x1) * (b.y2 - b.y1) }

  /** The two boxes overlap in a region of positive area. */
  predicate Overlap(a: Box, b: Box) {
    Min(a.x2, b.x2) > Max(a.x1, b.x1) && Min(a.y2, b.y2) > Max(a.y1, b.y1)
  }

  function InterArea(a: Box, b: Box): int {
    (Min(a.x2, b.x2) - Max(a.x1, b.x1)) * (Min(a.y2, b.y2) - Max(a.y1, b.y1))
  }

  lemma MulMono(p: int, q: int, pp: int, qq: int)
    requires 0 < p <= pp && 0 < q <= qq
    ensures 0 < p * q <= pp * qq
  {
    assert p * q <= pp * q;
    assert pp * q <= pp * qq;
  }

  /** An overlap is no larger than either box, and both boxes then have
      positive area. */
  lemma OverlapBounds(a: Box, b: Box)
    requires Overlap(a, b)
    ensures 0 < InterArea(a, b) <= Area(a) && InterArea(a, b) <= Area(b)
  {
    var w := Min(a.x2, b.x2) - Max(a.x1, b.x1);
    var h := Min(a.y2, b.y2) - Max(a.y1, b.y1);
    MulMono(w, h, a.x2 - a.x1, a.y2 - a.y1);
    MulMono(w, h, b.x2 - b.x1, b.y2 - b.y1);
  }

  /** computeIoU: intersection over union, 0 when the boxes do not overlap. */
  function IoU(a: Box, b: Box): (r: real)
    ensures 0.0 <= r <= 1.0
  {
    if !Overlap(a, b) then 0.0
    else
      OverlapBounds(a, b);
      var inter := InterArea(a, b);
      var union := Area(a) + Area(b) - inter;
      assert 0 < inter <= union;
      (inter as real) / (union as real)
  }

  /** IoU is 0 exactly when the boxes do not overlap. */
  lemma IoUZeroIffDisjoint(a: Box, b: Box)
    ensures IoU(a, b) == 0.0 <==> !Overlap(a, b)
  {
    if Overlap(a, b) {
      OverlapBounds(a, b);
      var union := Area(a) + Area(b) - InterArea(a, b);
      assert InterArea(a, b) as real > 0.0 && union as real > 0.0;
    }
  }

  /** IoU does not depend on the order of its arguments. */
  lemma IoUSymmetric(a: Box, b: Box)
    ensures IoU(a, b) == IoU(b, a)
  {
    assert InterArea(a, b) == InterArea(b, a);
  }

  /** A box of positive area has IoU 1 with itself. */
  lemma IoUSelf(a: Box)
    requires a.x1 < a.x2 && a.y1 < a.y2
    ensures IoU(a, a) == 1.0
  {
    assert Overlap(a, a);
    assert InterArea(a, a) == Area(a);
    OverlapBounds(a, a);
  }

  // ---------------------------------------------------------------------
  // From prediction rows to detections.
  // ---------------------------------------------------------------------

  /** The best class score among pred[5 .. k-1], starting from 0. */
  function MaxClassScore(pred: seq<real>, k: nat): (m: real)
    requires 5 <= k <= |pred|
    ensures m >= 0.0
    ensures forall j :: 5 <= j < k ==> pred[j] <= m
    ensures m == 0.0 || exists j :: 5 <= j < k && m == pred[j]
  {
    if k == 5 then 0.0
    else
      var p := MaxClassScore(pred, k - 1);
      if pred[k - 1] > p then pred[k - 1] else p
  }

  /** Objectness times the best class score. */
  function Score(pred: seq<real>): real
    requires |pred| >= 5
  {
    pred[4] * MaxClassScore(pred, |pred|)
  }

  /** The corners of a prediction, clipped below at 0 (x1, y1) and above at
      the image size (x2, y2). toPixel stands for the division by the
      letterbox ratio and the truncation to int. */
  function Corners(pred: seq<real>, toPixel: real -> int, origW: int, origH: int): Box
    requires |pred| >= 4
  {
    var cx, cy, w, h := pred[0], pred[1], pred[2], pred[3];
    Box(Max(toPixel(cx - w / 2.0), 0), Max(toPixel(cy - h / 2.0), 0),
        Min(toPixel(cx + w / 2.0), origW), Min(toPixel(cy + h / 2.0), origH))
  }

  function ToDet(pred: seq<real>, toPixel: real -> int, origW: int, origH: int): Det
    requires |pred| >= 5
  {
    Det(Corners(pred, toPixel, origW, origH), Score(pred))
  }

  predicate RowsWide(preds: seq<seq<real>>) {
    forall i :: 0 <= i < |preds| ==> |preds[i]| >= 5
  }

  /** The detections kept by the score filter, in prediction order. */
  function Detections(preds: seq<seq<real>>, toPixel: real -> int, origW: int, origH: int, scoreThr: real): seq<Det>
    requires RowsWide(preds)
  {
    if |preds| == 0 then []
    else
      var pred := preds[|preds| - 1];
      Detections(preds[..|preds| - 1], toPixel, origW, origH, scoreThr)
      + (if Score(pred) < scoreThr then [] else [ToDet(pred, toPixel, origW, origH)])
  }

  /** Clipping keeps (x1, y1) at or above the origin and (x2, y2) inside the
      image; x1 <= x2 is not implied. */
  predicate Clipped(b: Box, origW: int, origH: int) {
    b.x1 >= 0 && b.y1 >= 0 && b.x2 <= origW && b.y2 <= origH
  }

  /** Every detection comes from a prediction row, has score at least the
      threshold and a clipped box; every row scoring at least the threshold
      yields one. */
  lemma {:induction false} DetectionsSound(preds: seq<seq<real>>, toPixel: real -> int, origW: int, origH: int, scoreThr: real)
    requires RowsWide(preds)
    ensures forall d :: d in Detections(preds, toPixel, origW, origH, scoreThr) ==>
      d.score >= scoreThr && Clipped(d.box, origW, origH) &&
      exists i :: 0 <= i < |preds| && d == ToDet(preds[i], toPixel, origW, origH)
    ensures forall i :: 0 <= i < |preds| && Score(preds[i]) >= scoreThr ==>
      ToDet(preds[i], toPixel, origW, origH) in Detections(preds, toPixel, origW, origH, scoreThr)
  {
    if |preds| > 0 {
      var pre := preds[..|preds| - 1];
      DetectionsSound(pre, toPixel, origW, origH, scoreThr);
      forall d | d in Detections(preds, toPixel, origW, origH, scoreThr)
        ensures exists i :: 0 <= i < |preds| && d == ToDet(preds[i], toPixel, origW, origH)
      {
        if d in Detections(pre, toPixel, origW, origH, scoreThr) {
          var i :| 0 <= i < |pre| && d == ToDet(pre[i], toPixel, origW, origH);
          assert pre[i] == preds[i];
        }
      }
      forall i | 0 <= i < |preds| && Score(preds[i]) >= scoreThr
        ensures ToDet(preds[i], toPixel, origW, origH) in Detections(preds, toPixel, origW, origH, scoreThr)
      {
        if i < |preds| - 1 {
          assert pre[i] == preds[i];
        }
      }
    }
  }

  /** The clipping of multiclassNMS does not order the corners: a prediction
      lying right of the image gets x1 > x2. */
  lemma ClippedBoxMayBeInverted()
    ensures var pred := [2000.0, 100.0, 10.0, 10.0, 1.0, 1.0];
      var b := Corners(pred, (v: real) => v.Floor, 640, 480);
      b.x1 == 1995 && b.x2 == 640 && b.x1 > b.x2
  {
  }

  /** The score of one prediction row: objectness times the best class
      score found by a running maximum. */
  method RowScore(pred: seq<real>) returns (score: real)
    requires |pred| >= 5
    ensures score == Score(pred)
  {
    var objScore := pred[4];
    var maxClassScore := 0.0;
    for j := 5 to |pred|
      invariant maxClassScore == MaxClassScore(pred, j)
    {
      if pred[j] > maxClassScore {
        maxClassScore := pred[j];
      }
    }
    score := objScore * maxClassScore;
  }

  /** One more prediction row of the filter. */
  lemma DetectionsAppend(preds: seq<seq<real>>, i: nat, toPixel: real -> int, origW: int, origH: int, scoreThr: real)
    requires RowsWide(preds) && i < |preds|
    ensures Detections(preds[..i + 1], toPixel, origW, origH, scoreThr) ==
      Detections(preds[..i], toPixel, origW, origH, scoreThr)
      + (if Score(preds[i]) < scoreThr then [] else [ToDet(preds[i], toPixel, origW, origH)])
  {
    assert preds[..i + 1][..i] == preds[..i];
  }

  /** The score and corner loop of multiclassNMS. */
  method BuildDetections(preds: seq<seq<real>>, toPixel: real -> int, origW: int, origH: int, scoreThr: real)
    returns (dets: seq<Det>)
    requires RowsWide(preds)
    ensures dets == Detections(preds, toPixel, origW, origH, scoreThr)
  {
    dets := [];
    for i := 0 to |preds|
      invariant dets == Detections(preds[..i], toPixel, origW, origH, scoreThr)
    {
      var pred := preds[i];
      DetectionsAppend(preds, i, toPixel, origW, origH, scoreThr);
      var score := RowScore(pred);
      if score < scoreThr {
        assert dets + [] == dets;
        continue;
      }
      var cx, cy, w, h := pred[0], pred[1], pred[2], pred[3];
      var x1 := toPixel(cx - w / 2.0);
      var y1 := toPixel(cy - h / 2.0);
      var x2 := toPixel(cx + w / 2.0);
      var y2 := toPixel(cy + h / 2.0);
      if x1 < 0 { x1 := 0; }
      if y1 < 0 { y1 := 0; }
      if x2 > origW { x2 := origW; }
      if y2 > origH { y2 := origH; }
      assert Box(x1, y1, x2, y2) == Corners(pred, toPixel, origW, origH);
      dets := dets + [Det(Box(x1, y1, x2, y2), score)];
    }
    assert preds[..|preds|] == preds;
  }

  // ---------------------------------------------------------------------
  // Ranking.
  // ---------------------------------------------------------------------

  /** Non-increasing score order. */
  predicate SortedDesc(s: seq<Det>) {
    forall i, j :: 0 <= i < j < |s| ==> s[i].score >= s[j].score
  }

  /** A head scoring at least every element of a sorted tail keeps it sorted. */
  lemma ConsSorted(x: Det, t: seq<Det>)
    requires SortedDesc(t) && forall k :: 0 <= k < |t| ==> t[k].score <= x.score
    ensures SortedDesc([x] + t)
  {
    assert forall k :: 0 < k <= |t| ==> ([x] + t)[k] == t[k - 1];
  }

  /** What Insert puts after a head it keeps in front: the tail and d,
      all scoring at most that head. */
  lemma InsertTailBound(x: Det, d: Det, tail: seq<Det>, t: seq<Det>)
    requires forall k :: 0 <= k < |tail| ==> tail[k].score <= x.score
    requires d.score <= x.score
    requires multiset(t) == multiset(tail) + multiset{d}
    ensures forall k :: 0 <= k < |t| ==> t[k].score <= x.score
  {
    forall k | 0 <= k < |t|
      ensures t[k].score <= x.score
    {
      assert t[k] in multiset(t);
      if t[k] != d {
        assert t[k] in multiset(tail);
      }
    }
  }

  function Insert(d: Det, s: seq<Det>): (r: seq<Det>)
    requires SortedDesc(s)
    ensures SortedDesc(r) && multiset(r) == multiset(s) + multiset{d}
  {
    if |s| == 0 then [d]
    else if d.score >= s[0].score then
      ConsSorted(d, s);
      [d] + s
    else
      var tail := s[1..];
      assert s == [s[0]] + tail;
      var t := Insert(d, tail);
      InsertTailBound(s[0], d, tail, t);
      ConsSorted(s[0], t);
      [s[0]] + t
  }

  /** The ranking step (sort.Slice by descending score). sort.Slice is not
      stable, so only "a permutation in non-increasing score order" is
      relied on below. */
  function SortByScore(s: seq<Det>): (r: seq<Det>)
    ensures SortedDesc(r) && multiset(r) == multiset(s)
  {
    if |s| == 0 then []
    else
      assert s == [s[0]] + s[1..];
      Insert(s[0], SortByScore(s[1..]))
  }

  // ---------------------------------------------------------------------
  // Greedy suppression.
  // ---------------------------------------------------------------------

  /** Detection p suppresses detection q. */
  predicate Suppresses(ds: seq<Det>, p: int, q: int, nmsThr: real)
    requires 0 <= p < |ds| && 0 <= q < |ds|
  {
    IoU(ds[p].box, ds[q].box) > nmsThr
  }

  /** The kept flags of greedy suppression over a ranked list: no kept
      detection suppresses a later kept one, and every discarded detection is
      suppressed by a kept one ranked earlier. */
  ghost predicate IsGreedy(ds: seq<Det>, kept: seq<bool>, nmsThr: real)
    requires |kept| == |ds|
  {
    && (forall p, q :: 0 <= p < q < |ds| && kept[p] && kept[q] ==> !Suppresses(ds, p, q, nmsThr))
    && (forall q :: 0 <= q < |ds| && !kept[q] ==>
          exists p :: 0 <= p < q && kept[p] && Suppresses(ds, p, q, nmsThr))
  }

  /** The boxes of the kept detections, in rank order. */
  function KeptBoxes(ds: seq<Det>, kept: seq<bool>): seq<Box>
    requires |kept| == |ds|
  {
    if |ds| == 0 then []
    else
      KeptBoxes(ds[..|ds| - 1], kept[..|ds| - 1])
      + (if kept[|ds| - 1] then [ds[|ds| - 1].box] else [])
  }

  /** Every reported box is the box of a kept detection. */
  lemma {:induction false} KeptBoxesFrom(ds: seq<Det>, kept: seq<bool>)
    requires |kept| == |ds|
    ensures forall b :: b in KeptBoxes(ds, kept) ==> exists p :: 0 <= p < |ds| && kept[p] && ds[p].box == b
  {
    if |ds| > 0 {
      var n := |ds| - 1;
      KeptBoxesFrom(ds[..n], kept[..n]);
      forall b | b in KeptBoxes(ds, kept)
        ensures exists p :: 0 <= p < |ds| && kept[p] && ds[p].box == b
      {
        if b in KeptBoxes(ds[..n], kept[..n]) {
          var p :| 0 <= p < n && kept[..n][p] && ds[..n][p].box == b;
          assert kept[p] && ds[p].box == b;
        } else {
          assert kept[n] && ds[n].box == b;
        }
      }
    }
  }

  lemma {:induction false} GreedyAgreeBelow(ds: seq<Det>, k1: seq<bool>, k2: seq<bool>, nmsThr: real, n: nat)
    requires |k1| == |ds| && |k2| == |ds| && n <= |ds|
    requires IsGreedy(ds, k1, nmsThr) && IsGreedy(ds, k2, nmsThr)
    ensures forall q :: 0 <= q < n ==> k1[q] == k2[q]
  {
    if n > 0 {
      GreedyAgreeBelow(ds, k1, k2, nmsThr, n - 1);
      var q := n - 1;
      if !k2[q] {
        var p :| 0 <= p < q && k2[p] && Suppresses(ds, p, q, nmsThr);
        assert k1[p];
        assert !k1[q];
      }
      if !k1[q] {
        var p :| 0 <= p < q && k1[p] && Suppresses(ds, p, q, nmsThr);
        assert k2[p];
        assert !k2[q];
      }
    }
  }

  /** Greedy suppression is determined by the ranking: two flag vectors that
      both satisfy the greedy conditions are equal. */
  lemma GreedyUnique(ds: seq<Det>, k1: seq<bool>, k2: seq<bool>, nmsThr: real)
    requires |k1| == |ds| && |k2| == |ds|
    requires IsGreedy(ds, k1, nmsThr) && IsGreedy(ds, k2, nmsThr)
    ensures k1 == k2
  {
    GreedyAgreeBelow(ds, k1, k2, nmsThr, |ds|);
  }

  /** The inner loop of the suppression pass: detection i marks every later
      unused detection it suppresses. */
  method SuppressBy(ds: seq<Det>, i: nat, nmsThr: real, used: array<bool>)
    requires i < |ds| == used.Length
    modifies used
    ensures forall q :: 0 <= q < used.Length ==>
      (used[q] <==> old(used[q]) || (i < q && Suppresses(ds, i, q, nmsThr)))
  {
    for j := i + 1 to used.Length
      invariant forall q :: 0 <= q < used.Length ==>
        (used[q] <==> old(used[q]) || (i < q < j && Suppresses(ds, i, q, nmsThr)))
    {
      if used[j] {
        continue;
      }
      var iou := IoU(ds[i].box, ds[j].box);
      if iou > nmsThr {
        used[j] := true;
      }
    }
  }

  /** After the first i outer steps: no unused detection before i
      suppresses a later unused one. */
  predicate NoneSuppressed(ds: seq<Det>, used: seq<bool>, i: int, nmsThr: real)
    requires |used| == |ds|
  {
    forall p, q :: 0 <= p < i && p < q < |ds| && !used[p] && !used[q] ==> !Suppresses(ds, p, q, nmsThr)
  }

  /** Every used detection is suppressed by an unused one before it, among
      the first i. */
  ghost predicate Justified(ds: seq<Det>, used: seq<bool>, i: int, nmsThr: real)
    requires |used| == |ds|
  {
    forall q :: 0 <= q < |ds| && used[q] ==>
      exists p :: 0 <= p < i && p < q && !used[p] && Suppresses(ds, p, q, nmsThr)
  }

  /** One outer step on an unused detection i keeps both invariants. */
  lemma SuppressStep(ds: seq<Det>, u0: seq<bool>, u1: seq<bool>, i: nat, nmsThr: real)
    requires |u0| == |ds| && |u1| == |ds| && i < |ds| && !u0[i]
    requires forall q :: 0 <= q < |ds| ==> (u1[q] <==> u0[q] || (i < q && Suppresses(ds, i, q, nmsThr)))
    requires NoneSuppressed(ds, u0, i, nmsThr) && Justified(ds, u0, i, nmsThr)
    ensures NoneSuppressed(ds, u1, i + 1, nmsThr) && Justified(ds, u1, i + 1, nmsThr)
  {
    forall q | 0 <= q < |ds| && u1[q]
      ensures exists p :: 0 <= p < i + 1 && p < q && !u1[p] && Suppresses(ds, p, q, nmsThr)
    {
      if u0[q] {
        var p :| 0 <= p < i && p < q && !u0[p] && Suppresses(ds, p, q, nmsThr);
        assert !u1[p];
      } else {
        assert !u1[i] && Suppresses(ds, i, q, nmsThr);
      }
    }
  }

  /** Skipping a used detection keeps both invariants. */
  lemma SkipStep(ds: seq<Det>, u: seq<bool>, i: nat, nmsThr: real)
    requires |u| == |ds| && i < |ds| && u[i]
    requires NoneSuppressed(ds, u, i, nmsThr) && Justified(ds, u, i, nmsThr)
    ensures NoneSuppressed(ds, u, i + 1, nmsThr) && Justified(ds, u, i + 1, nmsThr)
  {
    forall q | 0 <= q < |ds| && u[q]
      ensures exists p :: 0 <= p < i + 1 && p < q && !u[p] && Suppresses(ds, p, q, nmsThr)
    {
      var p :| 0 <= p < i && p < q && !u[p] && Suppresses(ds, p, q, nmsThr);
    }
  }

  /** At the end of the pass the unused flags are greedy. */
  lemma GreedyFromUsed(ds: seq<Det>, u: seq<bool>, kept: seq<bool>, nmsThr: real)
    requires |u| == |ds| && |kept| == |ds|
    requires forall p :: 0 <= p < |ds| ==> kept[p] == !u[p]
    requires NoneSuppressed(ds, u, |ds|, nmsThr) && Justified(ds, u, |ds|, nmsThr)
    ensures IsGreedy(ds, kept, nmsThr)
  {
    forall q | 0 <= q < |ds| && !kept[q]
      ensures exists p :: 0 <= p < q && kept[p] && Suppresses(ds, p, q, nmsThr)
    {
      var p :| 0 <= p < |ds| && p < q && !u[p] && Suppresses(ds, p, q, nmsThr);
      assert kept[p];
    }
  }

  /** The suppression pass of multiclassNMS with its used flags. */
  method GreedySuppress(ds: seq<Det>, nmsThr: real) returns (result: seq<Box>, ghost kept: seq<bool>)
    ensures |kept| == |ds| && IsGreedy(ds, kept, nmsThr)
    ensures |ds| > 0 ==> kept[0]
    ensures result == KeptBoxes(ds, kept)
  {
    var n := |ds|;
    var used := new bool[n](_ => false);
    result := [];
    kept := [];
    for i := 0 to n
      invariant |kept| == i && forall p :: 0 <= p < i ==> kept[p] == !used[p]
      invariant result == KeptBoxes(ds[..i], kept)
      invariant NoneSuppressed(ds, used[..], i, nmsThr)
      invariant Justified(ds, used[..], i, nmsThr)
    {
      assert ds[..i + 1][..i] == ds[..i];
      if used[i] {
        SkipStep(ds, used[..], i, nmsThr);
        assert (kept + [false])[..i] == kept;
        kept := kept + [false];
        continue;
      }
      result := result + [ds[i].box];
      ghost var u0 := used[..];
      SuppressBy(ds, i, nmsThr, used);
      SuppressStep(ds, u0, used[..], i, nmsThr);
      assert (kept + [true])[..i] == kept;
      kept := kept + [true];
    }
    assert ds[..n] == ds;
    GreedyFromUsed(ds, used[..], kept, nmsThr);
  }

  /** multiclassNMS: filter by score, rank by score, suppress greedily across
      all classes. `ranked` is the order the ranking step produced and `kept`
      the flags of the suppression pass over it. */
  method MulticlassNms(preds: seq<seq<real>>, toPixel: real -> int, origW: int, origH: int,
                       nmsThr: real, scoreThr: real)
    returns (result: seq<Box>, ghost ranked: seq<Det>, ghost kept: seq<bool>)
    requires RowsWide(preds)
    ensures multiset(ranked) == multiset(Detections(preds, toPixel, origW, origH, scoreThr))
    ensures SortedDesc(ranked)
    ensures |kept| == |ranked| && IsGreedy(ranked, kept, nmsThr)
    ensures |ranked| > 0 ==> kept[0]
    ensures result == KeptBoxes(ranked, kept)
    ensures forall b :: b in result ==>
      exists d :: d in ranked && d.box == b && d.score >= scoreThr && Clipped(b, origW, origH)
  {
    var dets := BuildDetections(preds, toPixel, origW, origH, scoreThr);
    var sorted := SortByScore(dets);
    ranked := sorted;
    result, kept := GreedySuppress(sorted, nmsThr);
    DetectionsSound(preds, toPixel, origW, origH, scoreThr);
    KeptBoxesFrom(ranked, kept);
    forall b | b in result
      ensures exists d :: d in ranked && d.box == b && d.score >= scoreThr && Clipped(b, origW, origH)
    {
      var p :| 0 <= p < |ranked| && kept[p] && ranked[p].box == b;
      assert ranked[p] in multiset(dets);
    }
  }
}
