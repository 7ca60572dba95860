/** The colour filter of filterByColors: the HSV range table, the membership
    test with the second red band, and the per-pixel filter over a white
    background. The RGB to HSV conversion is a parameter. */
module ColorFilter {
  import opened Common

  /** Inclusive bounds on hue, saturation and value. */
  datatype HsvRange = HsvRange(lowH: byte, lowS: byte, lowV: byte, highH: byte, highS: byte, highV: byte)

  /** The predefined colour ranges (hue in OpenCV's 0..180 scale). */
  const DefaultColorRanges: map<string, HsvRange> := map[
    "red" := HsvRange(0, 100, 100, 10, 255, 255),
    "red2" := HsvRange(160, 100, 100, 180, 255, 255),
    "green" := HsvRange(35, 100, 100, 85, 255, 255),
    "blue" := HsvRange(100, 100, 100, 130, 255, 255),
    "yellow" := HsvRange(20, 100, 100, 35, 255, 255),
    "orange" := HsvRange(10, 100, 100, 20, 255, 255),
    "purple" := HsvRange(130, 100, 100, 160, 255, 255),
    "pink" := HsvRange(140, 50, 100, 170, 255, 255),
    "brown" := HsvRange(10, 100, 50, 20, 255, 150)
  ]

  predicate InRange(h: byte, s: byte, v: byte, rg: HsvRange) {
    rg.lowH <= h <= rg.highH && rg.lowS <= s <= rg.highS && rg.lowV <= v <= rg.highV
  }

  /** The range of a colour name: a custom range wins over the predefined
      one; an unknown name has none. */
  function Resolve(name: string, custom: map<string, HsvRange>): Option<HsvRange> {
    if name in custom then Some(custom[name])
    else if name in DefaultColorRanges then Some(DefaultColorRanges[name])
    else None
  }

  /** Colour `name` accepts (h, s, v): its range holds it, or the name is
      "red" and the predefined second red band holds it. */
  predicate Hit(name: string, custom: map<string, HsvRange>, h: byte, s: byte, v: byte) {
    match Resolve(name, custom)
    case None => false
    case Some(rg) => InRange(h, s, v, rg) || (name == "red" && InRange(h, s, v, DefaultColorRanges["red2"]))
  }

  /** The colour loop of one pixel, stopping at the first accepting colour. */
  method MatchesAny(colors: seq<string>, custom: map<string, HsvRange>, h: byte, s: byte, v: byte)
    returns (found: bool)
    ensures found <==> exists i :: 0 <= i < |colors| && Hit(colors[i], custom, h, s, v)
  {
    found := false;
    for i := 0 to |colors|
      invariant forall j :: 0 <= j < i ==> !Hit(colors[j], custom, h, s, v)
    {
      var name := colors[i];
      var rg: HsvRange;
      var ok := false;
      if name in custom {
        rg, ok := custom[name], true;
      }
      if !ok && name in DefaultColorRanges {
        rg, ok := DefaultColorRanges[name], true;
      }
      if !ok {
        continue;
      }
      if rg.lowH <= h <= rg.highH && rg.lowS <= s <= rg.highS && rg.lowV <= v <= rg.highV {
        found := true;
        break;
      }
      if name == "red" && "red2" in DefaultColorRanges {
        var rg2 := DefaultColorRanges["red2"];
        if rg2.lowH <= h <= rg2.highH && rg2.lowS <= s <= rg2.highS && rg2.lowV <= v <= rg2.highV {
          found := true;
          break;
        }
      }
    }
  }

  /** Without a custom "red", red accepts hue up to 10 or from 160 to 180,
      with saturation and value at least 100. */
  lemma DefaultRedBands(custom: map<string, HsvRange>, h: byte, s: byte, v: byte)
    requires "red" !in custom
    ensures Hit("red", custom, h, s, v) <==> s >= 100 && v >= 100 && (h <= 10 || 160 <= h <= 180)
  {
  }

  /** Even a custom "red" keeps the predefined second band. */
  lemma CustomRedKeepsSecondBand(custom: map<string, HsvRange>, h: byte, s: byte, v: byte)
    requires "red" in custom && 160 <= h <= 180 && s >= 100 && v >= 100
    ensures Hit("red", custom, h, s, v)
  {
  }

  /** A name that is neither custom nor predefined accepts nothing; any other
      name except "red" accepts exactly its resolved range. */
  lemma HitOtherNames(name: string, custom: map<string, HsvRange>, h: byte, s: byte, v: byte)
    requires name != "red"
    ensures name !in custom && name !in DefaultColorRanges ==> !Hit(name, custom, h, s, v)
    ensures name in custom ==> (Hit(name, custom, h, s, v) <==> InRange(h, s, v, custom[name]))
    ensures name !in custom && name in DefaultColorRanges ==>
      (Hit(name, custom, h, s, v) <==> InRange(h, s, v, DefaultColorRanges[name]))
  {
  }

  const White: Rgba := Rgba(255, 255, 255, 255)

  /** The filtered value of one pixel, given the HSV of its colour. */
  ghost function FilterPixel(p: Rgba, hsv: (byte, byte, byte) -> (byte, byte, byte),
                             colors: seq<string>, custom: map<string, HsvRange>): Rgba
  {
    var (h, s, v) := hsv(p.r, p.g, p.b);
    if exists i :: 0 <= i < |colors| && Hit(colors[i], custom, h, s, v) then Rgba(p.r, p.g, p.b, 255) else White
  }

  /** filterByColors: matching pixels keep their colour, made opaque; all
      others are white. A nil custom map behaves as an empty one. */
  method FilterByColors(img: array2<Rgba>, colors: seq<string>, custom: map<string, HsvRange>,
                        hsv: (byte, byte, byte) -> (byte, byte, byte))
    returns (result: array2<Rgba>)
    ensures fresh(result) && result.Length0 == img.Length0 && result.Length1 == img.Length1
    ensures forall y, x :: 0 <= y < img.Length0 && 0 <= x < img.Length1 ==>
      result[y, x] == FilterPixel(img[y, x], hsv, colors, custom)
  {
    result := new Rgba[img.Length0, img.Length1]((_, _) => White);
    for y := 0 to img.Length0
      invariant forall r, c :: 0 <= r < y && 0 <= c < img.Length1 ==> result[r, c] == FilterPixel(img[r, c], hsv, colors, custom)
      invariant forall r, c :: y <= r < img.Length0 && 0 <= c < img.Length1 ==> result[r, c] == White
    {
      for x := 0 to img.Length1
        invariant forall r, c :: 0 <= r < img.Length0 && 0 <= c < img.Length1 && (r < y || (r == y && c < x)) ==>
          result[r, c] == FilterPixel(img[r, c], hsv, colors, custom)
        invariant forall r, c :: 0 <= r < img.Length0 && 0 <= c < img.Length1 && !(r < y || (r == y && c < x)) ==>
          result[r, c] == White
      {
        var p := img[y, x];
        var (h, s, v) := hsv(p.r, p.g, p.b);
        var m := MatchesAny(colors, custom, h, s, v);
        if m {
          result[y, x] := Rgba(p.r, p.g, p.b, 255);
        }
      }
    }
  }
}
