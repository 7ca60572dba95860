/** Greedy CTC-style decoding of a recognizer's score tensor into text
    (decodeOutputFloatFast). Scores are modelled as reals: the decoder only
    compares them. */
module CtcDecoder {
  import opened Common

  /** The running maximum a restricted scan starts from (float32(-1e9)). */
  const Floor: real := -1000000000.0

  /** Timesteps, batch and class count read from a tensor shape. */
  datatype Dims = Dims(timesteps: nat, batch: nat, classes: nat)

  /** A shape of rank 3 is [T, B, C]; rank 2 is [T, C] with batch 1. Any
      other rank is not decodable. */
  function ShapeDims(shape: seq<nat>): Option<Dims> {
    if |shape| == 3 then Some(Dims(shape[0], shape[1], shape[2]))
    else if |shape| == 2 then Some(Dims(shape[0], 1, shape[1]))
    else None
  }

  /** Index of the first score of timestep t in the flat tensor. */
  function Offset(t: nat, d: Dims): nat { t * d.batch * d.classes }

  /** The scores from a given offset on (empty past the end). */
  function Row(output: seq<real>, offset: nat): seq<real> {
    if offset <= |output| then output[offset..] else []
  }

  /** Every score the decoder reads lies inside the tensor: the restricted
      scan reads the allowed indices below the class count, the unrestricted
      scan reads indices 0 .. max(C, 1) - 1. */
  predicate ReadsInBounds(n: nat, d: Dims, allowed: seq<nat>) {
    if |allowed| > 0 then
      forall t, k :: 0 <= t < d.timesteps && 0 <= k < |allowed| && allowed[k] < d.classes ==>
        Offset(t, d) + allowed[k] < n
    else
      forall t :: 0 <= t < d.timesteps ==> Offset(t, d) + Max(d.classes, 1) <= n
  }

  /** Allowed index reads inside one row. */
  predicate AllowedFit(row: seq<real>, classes: nat, allowed: seq<nat>, k: nat)
    requires k <= |allowed|
  {
    forall j :: 0 <= j < k && allowed[j] < classes ==> allowed[j] < |row|
  }

  /** State (index, value) of the unrestricted arg-max after scanning the
      indices 0 .. k-1 of a row, starting from index 0. */
  function ScanAll(row: seq<real>, k: nat): (nat, real)
    requires 1 <= k <= |row|
  {
    if k == 1 then (0, row[0])
    else
      var p := ScanAll(row, k - 1);
      if row[k - 1] > p.1 then (k - 1, row[k - 1]) else p
  }

  /** State (index, value) of the restricted arg-max after scanning the first
      k allowed indices; indices at or above the class count are skipped. */
  function ScanAllowed(row: seq<real>, classes: nat, allowed: seq<nat>, k: nat): (nat, real)
    requires k <= |allowed| && AllowedFit(row, classes, allowed, k)
  {
    if k == 0 then (0, Floor)
    else
      var p := ScanAllowed(row, classes, allowed, k - 1);
      var c := allowed[k - 1];
      if c >= classes then p
      else if row[c] > p.1 then (c, row[c]) else p
  }

  predicate RowFits(row: seq<real>, classes: nat, allowed: seq<nat>) {
    if |allowed| > 0 then AllowedFit(row, classes, allowed, |allowed|)
    else Max(classes, 1) <= |row|
  }

  /** The class index chosen for one timestep. */
  function Choose(row: seq<real>, classes: nat, allowed: seq<nat>): nat
    requires RowFits(row, classes, allowed)
  {
    if |allowed| > 0 then ScanAllowed(row, classes, allowed, |allowed|).0
    else ScanAll(row, Max(classes, 1)).0
  }

  lemma RowFitsAt(output: seq<real>, d: Dims, allowed: seq<nat>, t: nat)
    requires ReadsInBounds(|output|, d, allowed) && t < d.timesteps
    ensures RowFits(Row(output, Offset(t, d)), d.classes, allowed)
  {
    var off := Offset(t, d);
    if |allowed| > 0 {
      forall j | 0 <= j < |allowed| && allowed[j] < d.classes
        ensures allowed[j] < |Row(output, off)|
      {
        assert off + allowed[j] < |output|;
      }
    } else {
      assert off + Max(d.classes, 1) <= |output|;
    }
  }

  /** The arg-max index path, one entry per timestep. */
  function Path(output: seq<real>, d: Dims, allowed: seq<nat>): (p: seq<nat>)
    requires ReadsInBounds(|output|, d, allowed)
    ensures |p| == d.timesteps
  {
    seq(d.timesteps, t requires 0 <= t < d.timesteps && ReadsInBounds(|output|, d, allowed) =>
      RowFitsAt(output, d, allowed, t);
      Choose(Row(output, Offset(t, d)), d.classes, allowed))
  }

  /** Entry t of the path is the choice at timestep t. */
  lemma PathAt(output: seq<real>, d: Dims, allowed: seq<nat>, t: nat)
    requires ReadsInBounds(|output|, d, allowed) && t < d.timesteps
    ensures RowFits(Row(output, Offset(t, d)), d.classes, allowed)
    ensures Path(output, d, allowed)[t] == Choose(Row(output, Offset(t, d)), d.classes, allowed)
  {
    RowFitsAt(output, d, allowed, t);
  }

  /** The index seen at the previous timestep (-1 before the first). */
  function Prev(p: seq<nat>, i: nat): int
    requires i < |p|
  {
    if i == 0 then -1 else p[i - 1]
  }

  /** Timestep i emits a symbol: a new index, not the blank, inside the charset. */
  predicate Emits(p: seq<nat>, i: nat, charsetLen: nat)
    requires i < |p|
  {
    p[i] != Prev(p, i) && p[i] != 0 && p[i] < charsetLen
  }

  /** The text the decoder builds from an index path, one timestep at a time. */
  function Collapse(p: seq<nat>, charsets: seq<string>, charsetLen: nat): string
    requires charsetLen <= |charsets|
  {
    if |p| == 0 then ""
    else
      Collapse(p[..|p| - 1], charsets, charsetLen)
      + (if Emits(p, |p| - 1, charsetLen) then charsets[p[|p| - 1]] else "")
  }

  // ---------------------------------------------------------------------
  // Reference definition of the collapse: merge runs, then drop blanks.
  // ---------------------------------------------------------------------

  /** The path with every run of equal adjacent indices merged into one. */
  function Dedup(p: seq<nat>): seq<nat> {
    if |p| == 0 then []
    else if |p| >= 2 && p[|p| - 1] == p[|p| - 2] then Dedup(p[..|p| - 1])
    else Dedup(p[..|p| - 1]) + [p[|p| - 1]]
  }

  /** The indices that name a symbol: not the blank and inside the charset. */
  function Keep(p: seq<nat>, charsetLen: nat): (q: seq<nat>)
    ensures forall i :: 0 <= i < |q| ==> q[i] != 0 && q[i] < charsetLen
    ensures |q| <= |p|
  {
    if |p| == 0 then []
    else
      var x := p[|p| - 1];
      Keep(p[..|p| - 1], charsetLen) + (if x != 0 && x < charsetLen then [x] else [])
  }

  /** The concatenation of the symbols an index list names. */
  function Spell(q: seq<nat>, charsets: seq<string>): string
    requires forall i :: 0 <= i < |q| ==> q[i] < |charsets|
  {
    if |q| == 0 then "" else Spell(q[..|q| - 1], charsets) + charsets[q[|q| - 1]]
  }

  lemma {:induction false} KeepAppend(p: seq<nat>, x: nat, charsetLen: nat)
    ensures Keep(p + [x], charsetLen) == Keep(p, charsetLen) + (if x != 0 && x < charsetLen then [x] else [])
  {
    assert (p + [x])[..|p|] == p;
  }

  lemma {:induction false} SpellAppend(q: seq<nat>, x: nat, charsets: seq<string>)
    requires forall i :: 0 <= i < |q| ==> q[i] < |charsets|
    requires x < |charsets|
    ensures Spell(q + [x], charsets) == Spell(q, charsets) + charsets[x]
  {
    assert (q + [x])[..|q|] == q;
  }

  /** One more timestep of the decoder's loop. */
  lemma CollapseAppend(q: seq<nat>, x: nat, charsets: seq<string>, charsetLen: nat)
    requires charsetLen <= |charsets|
    ensures Collapse(q + [x], charsets, charsetLen) == Collapse(q, charsets, charsetLen) +
      (if (|q| == 0 || x != q[|q| - 1]) && x != 0 && x < charsetLen then charsets[x] else "")
  {
    var p := q + [x];
    assert p[..|q|] == q;
    assert Prev(p, |q|) == if |q| == 0 then -1 else q[|q| - 1];
  }

  /** One more index of the run-merged path. */
  lemma DedupAppend(q: seq<nat>, x: nat)
    ensures Dedup(q + [x]) == if |q| > 0 && x == q[|q| - 1] then Dedup(q) else Dedup(q) + [x]
  {
    var p := q + [x];
    assert p[..|q|] == q;
    if |q| > 0 {
      assert p[|p| - 2] == q[|q| - 1];
    }
  }

  /** The single-pass decoder with its lastIdx agrees with the textbook CTC
      collapse: merge repeated indices, drop blanks and out-of-charset
      indices, then spell the rest. */
  lemma {:induction false} CollapseIsCtc(p: seq<nat>, charsets: seq<string>, charsetLen: nat)
    requires charsetLen <= |charsets|
    ensures Collapse(p, charsets, charsetLen) == Spell(Keep(Dedup(p), charsetLen), charsets)
  {
    if |p| > 0 {
      var q := p[..|p| - 1];
      var x := p[|p| - 1];
      assert p == q + [x];
      CollapseIsCtc(q, charsets, charsetLen);
      CollapseAppend(q, x, charsets, charsetLen);
      DedupAppend(q, x);
      if |q| == 0 || x != q[|q| - 1] {
        KeepAppend(Dedup(q), x, charsetLen);
        if x != 0 && x < charsetLen {
          SpellAppend(Keep(Dedup(q), charsetLen), x, charsets);
        } else {
          var kq := Keep(Dedup(q), charsetLen);
          assert kq + [] == kq;
          var cq := Collapse(q, charsets, charsetLen);
          assert cq + "" == cq;
        }
      } else {
        var cq := Collapse(q, charsets, charsetLen);
        assert cq + "" == cq;
      }
    }
  }

  /** The collapse law: a blank between two equal symbols lets the symbol be
      emitted twice, while a plain run is emitted once. */
  lemma CollapseLaw(a: nat, charsets: seq<string>, charsetLen: nat)
    requires charsetLen <= |charsets| && 0 < a < charsetLen
    ensures Collapse([a, a, 0, a], charsets, charsetLen) == charsets[a] + charsets[a]
    ensures Collapse([a, a, a], charsets, charsetLen) == charsets[a]
  {
    var p1, p2, p3, p4 := [a], [a, a], [a, a, 0], [a, a, 0, a];
    assert p1[..0] == [] && p2[..1] == p1 && p3[..2] == p2 && p4[..3] == p3;
    assert Collapse(p1, charsets, charsetLen) == charsets[a];
    assert Collapse(p2, charsets, charsetLen) == charsets[a];
    assert Collapse(p3, charsets, charsetLen) == charsets[a];
    var r := [a, a, a];
    assert r[..2] == p2;
  }

  // ---------------------------------------------------------------------
  // What the arg-max scans choose.
  // ---------------------------------------------------------------------

  /** The unrestricted scan returns the FIRST maximal index: no score is
      larger, and every earlier score is strictly smaller. */
  lemma {:induction false} ScanAllIsFirstMax(row: seq<real>, k: nat)
    requires 1 <= k <= |row|
    ensures ScanAll(row, k).0 < k && ScanAll(row, k).1 == row[ScanAll(row, k).0]
    ensures forall j :: 0 <= j < k ==> row[j] <= ScanAll(row, k).1
    ensures forall j :: 0 <= j < ScanAll(row, k).0 ==> row[j] < ScanAll(row, k).1
  {
    if k > 1 {
      ScanAllIsFirstMax(row, k - 1);
    }
  }

  /** Position j of the allowed list holds the first maximal eligible score,
      and that score beats the starting floor. */
  ghost predicate FirstMaxAt(row: seq<real>, classes: nat, allowed: seq<nat>, k: nat, j: int)
    requires k <= |allowed| && AllowedFit(row, classes, allowed, k)
  {
    && 0 <= j < k && allowed[j] < classes
    && row[allowed[j]] > Floor
    && (forall i :: 0 <= i < k && allowed[i] < classes ==> row[allowed[i]] <= row[allowed[j]])
    && (forall i :: 0 <= i < j && allowed[i] < classes ==> row[allowed[i]] < row[allowed[j]])
  }

  /** The restricted scan's value bounds every eligible score and is the
      floor or one of them. */
  lemma {:induction false} ScanAllowedBound(row: seq<real>, classes: nat, allowed: seq<nat>, k: nat)
    requires k <= |allowed| && AllowedFit(row, classes, allowed, k)
    ensures forall i :: 0 <= i < k && allowed[i] < classes ==> row[allowed[i]] <= ScanAllowed(row, classes, allowed, k).1
    ensures ScanAllowed(row, classes, allowed, k).1 >= Floor
    ensures ScanAllowed(row, classes, allowed, k).1 == Floor ==> ScanAllowed(row, classes, allowed, k).0 == 0
  {
    if k > 0 {
      ScanAllowedBound(row, classes, allowed, k - 1);
    }
  }

  /** The restricted scan keeps index 0 when no eligible score beats the
      floor (all skipped, or all too low) and otherwise returns the index at
      the first position of the allowed list holding the maximum. */
  lemma {:induction false} ScanAllowedIsFirstMax(row: seq<real>, classes: nat, allowed: seq<nat>, k: nat)
    requires k <= |allowed| && AllowedFit(row, classes, allowed, k)
    ensures forall i :: 0 <= i < k && allowed[i] < classes ==> row[allowed[i]] <= ScanAllowed(row, classes, allowed, k).1
    ensures (forall i :: 0 <= i < k && allowed[i] < classes ==> row[allowed[i]] <= Floor) ==>
      ScanAllowed(row, classes, allowed, k) == (0, Floor)
    ensures (exists i :: 0 <= i < k && allowed[i] < classes && row[allowed[i]] > Floor) ==>
      exists j :: FirstMaxAt(row, classes, allowed, k, j) &&
        ScanAllowed(row, classes, allowed, k) == (allowed[j], row[allowed[j]])
  {
    ScanAllowedBound(row, classes, allowed, k);
    if k > 0 {
      ScanAllowedIsFirstMax(row, classes, allowed, k - 1);
      ScanAllowedBound(row, classes, allowed, k - 1);
      var p := ScanAllowed(row, classes, allowed, k - 1);
      var c := allowed[k - 1];
      if c < classes && row[c] > p.1 {
        assert FirstMaxAt(row, classes, allowed, k, k - 1);
      } else if p.1 > Floor {
        var i :| 0 <= i < k - 1 && allowed[i] < classes && row[allowed[i]] > Floor;
        var j :| FirstMaxAt(row, classes, allowed, k - 1, j) && p == (allowed[j], row[allowed[j]]);
        assert FirstMaxAt(row, classes, allowed, k, j);
      }
    }
  }

  /** The chosen index is the blank or an allowed index below the class
      count; unrestricted, it is below max(C, 1). */
  lemma ChooseRange(row: seq<real>, classes: nat, allowed: seq<nat>)
    requires RowFits(row, classes, allowed)
    ensures |allowed| == 0 ==> Choose(row, classes, allowed) < Max(classes, 1)
    ensures |allowed| > 0 ==> var c := Choose(row, classes, allowed);
      c == 0 || (c in allowed && c < classes)
  {
    if |allowed| > 0 {
      var k := |allowed|;
      ScanAllowedIsFirstMax(row, classes, allowed, k);
      if exists i :: 0 <= i < k && allowed[i] < classes && row[allowed[i]] > Floor {
        var j :| FirstMaxAt(row, classes, allowed, k, j) &&
          ScanAllowed(row, classes, allowed, k) == (allowed[j], row[allowed[j]]);
        assert allowed[j] in allowed;
      }
    } else {
      ScanAllIsFirstMax(row, Max(classes, 1));
    }
  }

  // ---------------------------------------------------------------------
  // The decoder.
  // ---------------------------------------------------------------------

  /** The arg-max of one timestep (the inner loops of decodeOutputFloatFast). */
  method ArgMaxAt(output: seq<real>, offset: nat, numClasses: nat, allowed: seq<nat>) returns (maxIdx: nat)
    requires RowFits(Row(output, offset), numClasses, allowed)
    ensures maxIdx == Choose(Row(output, offset), numClasses, allowed)
  {
    ghost var row := Row(output, offset);
    maxIdx := 0;
    var maxVal: real := Floor;
    if |allowed| > 0 {
      for k := 0 to |allowed|
        invariant (maxIdx, maxVal) == ScanAllowed(row, numClasses, allowed, k)
      {
        var c := allowed[k];
        if c >= numClasses {
          continue;
        }
        var val := output[offset + c];
        if val > maxVal {
          maxVal := val;
          maxIdx := c;
        }
      }
    } else {
      maxVal := output[offset];
      var c := 1;
      while c < numClasses
        invariant 1 <= c <= Max(numClasses, 1)
        invariant (maxIdx, maxVal) == ScanAll(row, c)
      {
        if output[offset + c] > maxVal {
          maxVal := output[offset + c];
          maxIdx := c;
        }
        c := c + 1;
      }
    }
  }

  /** The decoder's state after t timesteps determines the text after t + 1. */
  lemma EmitStep(path: seq<nat>, t: nat, lastIdx: int, text: string, charsets: seq<string>, charsetLen: nat)
    requires charsetLen <= |charsets| && t < |path|
    requires text == Collapse(path[..t], charsets, charsetLen)
    requires lastIdx == if t == 0 then -1 else path[t - 1]
    ensures Collapse(path[..t + 1], charsets, charsetLen) ==
      text + (if path[t] != lastIdx && path[t] != 0 && path[t] < charsetLen then charsets[path[t]] else "")
  {
    var done := path[..t];
    assert path[..t + 1] == done + [path[t]];
    CollapseAppend(done, path[t], charsets, charsetLen);
  }

  /** The timestep loop of decodeOutputFloatFast, with lastIdx. */
  method DecodeSteps(output: seq<real>, d: Dims, charsets: seq<string>, charsetLen: nat, allowed: seq<nat>)
    returns (text: string)
    requires charsetLen <= |charsets| && ReadsInBounds(|output|, d, allowed)
    ensures text == Collapse(Path(output, d, allowed), charsets, charsetLen)
  {
    ghost var path := Path(output, d, allowed);
    text := "";
    var lastIdx: int := -1;
    for t := 0 to d.timesteps
      invariant text == Collapse(path[..t], charsets, charsetLen)
      invariant lastIdx == if t == 0 then -1 else path[t - 1]
    {
      var offset := Offset(t, d);
      PathAt(output, d, allowed, t);
      var maxIdx := ArgMaxAt(output, offset, d.classes, allowed);
      EmitStep(path, t, lastIdx, text, charsets, charsetLen);
      if maxIdx != lastIdx && maxIdx != 0 && maxIdx < charsetLen {
        text := text + charsets[maxIdx];
      } else {
        assert text + "" == text;
      }
      lastIdx := maxIdx;
    }
    assert path[..d.timesteps] == path;
  }

  /** decodeOutputFloatFast: for each timestep pick the arg-max (restricted
      to the allowed indices when there are any) and emit its symbol when it
      differs from the previous pick, is not the blank and lies inside the
      charset. A shape of rank other than 2 or 3 yields the empty text. */
  method DecodeOutputFast(output: seq<real>, shape: seq<nat>, charsets: seq<string>,
                          charsetLen: nat, allowed: seq<nat>) returns (text: string)
    requires charsetLen <= |charsets|
    requires ShapeDims(shape).Some? ==> ReadsInBounds(|output|, ShapeDims(shape).value, allowed)
    ensures ShapeDims(shape).None? ==> text == ""
    ensures ShapeDims(shape).Some? ==>
      text == Collapse(Path(output, ShapeDims(shape).value, allowed), charsets, charsetLen)
  {
    var timesteps, batchSize, numClasses;
    if |shape| == 3 {
      timesteps, batchSize, numClasses := shape[0], shape[1], shape[2];
    } else if |shape| == 2 {
      timesteps, numClasses := shape[0], shape[1];
      batchSize := 1;
    } else {
      return "";
    }
    var d := Dims(timesteps, batchSize, numClasses);
    assert ShapeDims(shape) == Some(d);
    text := DecodeSteps(output, d, charsets, charsetLen, allowed);
  }
}
