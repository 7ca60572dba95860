/** The recognizer's character range selector: SetRanges / ClearRanges build
    the list of class indices the decoder may choose from, and the charset
    projection reports the symbols those indices stand for. Only the
    recognizer state these operations touch is modelled. */
module CharRanges {
  import opened Common

  // Preset codes (RangeDigit .. RangeNonAlphaNum).
  const RangeDigit := 0
  const RangeLowercase := 1
  const RangeUppercase := 2
  const RangeLowerUpper := 3
  const RangeLowerDigit := 4
  const RangeUpperDigit := 5
  const RangeLowerUpperDigit := 6
  const RangeNonAlphaNum := 7

  const Digits := "0123456789"
  const Lower := "abcdefghijklmnopqrstuvwxyz"
  const Upper := "ABCDEFGHIJKLMNOPQRSTUVWXYZ"
  const AlphaNum := Lower + Upper + Digits

  /** The dynamically typed argument of SetRanges: a string, an int preset,
      or a value of any other type. */
  datatype RangeValue = Text(chars: string) | Preset(code: int) | OtherValue

  /** The characters of a fixed preset (codes 0 to 6). */
  function FixedPreset(code: int): string
    requires RangeDigit <= code <= RangeLowerUpperDigit
  {
    if code == RangeDigit then Digits
    else if code == RangeLowercase then Lower
    else if code == RangeUppercase then Upper
    else if code == RangeLowerUpper then Lower + Upper
    else if code == RangeLowerDigit then Lower + Digits
    else if code == RangeUpperDigit then Upper + Digits
    else AlphaNum
  }

  /** Substring test (strings.Contains). */
  predicate Contains(s: string, sub: string) {
    exists i | 0 <= i <= |s| - |sub| :: OccursAt(s, sub, i)
  }

  predicate OccursAt(s: string, sub: string, i: int) {
    0 <= i && i + |sub| <= |s| && s[i..i + |sub|] == sub
  }

  /** A charset entry the non-alphanumeric preset takes: neither empty nor a
      substring of the alphanumeric alphabet. */
  predicate NonAlphaNumEntry(c: string) {
    !Contains(AlphaNum, c) && c != ""
  }

  /** The entries NonAlphaNumEntry accepts, concatenated in charset order. */
  function NonAlphaNumChars(charsets: seq<string>): string {
    if |charsets| == 0 then ""
    else
      var c := charsets[|charsets| - 1];
      NonAlphaNumChars(charsets[..|charsets| - 1]) + (if NonAlphaNumEntry(c) then c else "")
  }

  /** The range string a value selects, or None when the selection is cleared. */
  function RangeChars(v: RangeValue, charsets: seq<string>): Option<string> {
    match v
    case Text(s) => Some(s)
    case Preset(code) =>
      if RangeDigit <= code <= RangeLowerUpperDigit then Some(FixedPreset(code))
      else if code == RangeNonAlphaNum then Some(NonAlphaNumChars(charsets))
      else None
    case OtherValue => None
  }

  /** The indices of the characters of chars that the map knows, in string
      order; unknown characters are dropped. */
  function Lookup(chars: string, m: map<string, nat>): seq<nat> {
    if |chars| == 0 then []
    else
      var key := [chars[|chars| - 1]];
      Lookup(chars[..|chars| - 1], m) + (if key in m then [m[key]] else [])
  }

  /** The allowed index list SetRanges stores: nil (empty) for an unknown
      preset or a value of another type, else the blank 0 followed by the
      looked-up indices. */
  function RangeIndices(v: RangeValue, charsets: seq<string>, m: map<string, nat>): seq<nat> {
    match RangeChars(v, charsets)
    case None => []
    case Some(chars) => [0] + Lookup(chars, m)
  }

  /** m is the reverse lookup of charsets built by the constructor: every
      entry maps to its last position. */
  ghost predicate IsIndexMap(m: map<string, nat>, charsets: seq<string>) {
    && (forall c :: c in m <==> c in charsets)
    && (forall c :: c in m ==> m[c] < |charsets| && charsets[m[c]] == c)
    && (forall c, j :: c in m && m[c] < j < |charsets| ==> charsets[j] != c)
  }

  /** The symbol an allowed index stands for in the reported charset, "" when
      the index is past the end. */
  function Project(charsets: seq<string>, idx: nat): string {
    if idx < |charsets| then charsets[idx] else ""
  }

  class Recognizer {
    var charsets: seq<string>
    var charIndexMap: map<string, nat>
    var allowedIndices: seq<nat>

    ghost predicate Valid()
      reads this
    {
      IsIndexMap(charIndexMap, charsets)
    }

    /** Loads a charset and builds its reverse map; no range is selected. */
    constructor (charsets: seq<string>)
      ensures Valid() && this.charsets == charsets && allowedIndices == []
    {
      var m: map<string, nat> := map[];
      for i := 0 to |charsets|
        invariant IsIndexMap(m, charsets[..i])
      {
        assert charsets[..i + 1] == charsets[..i] + [charsets[i]];
        m := m[charsets[i] := i];
      }
      assert charsets[..|charsets|] == charsets;
      this.charsets := charsets;
      charIndexMap := m;
      allowedIndices := [];
    }

    /** The range string SetRanges resolves its argument to (None: clear). */
    method ResolveRange(val: RangeValue) returns (chars: Option<string>)
      ensures chars == RangeChars(val, charsets)
    {
      match val {
        case Text(s) =>
          chars := Some(s);
        case Preset(code) =>
          if code == RangeDigit {
            chars := Some(Digits);
          } else if code == RangeLowercase {
            chars := Some(Lower);
          } else if code == RangeUppercase {
            chars := Some(Upper);
          } else if code == RangeLowerUpper {
            chars := Some(Lower + Upper);
          } else if code == RangeLowerDigit {
            chars := Some(Lower + Digits);
          } else if code == RangeUpperDigit {
            chars := Some(Upper + Digits);
          } else if code == RangeLowerUpperDigit {
            chars := Some(AlphaNum);
          } else if code == RangeNonAlphaNum {
            var acc := "";
            for i := 0 to |charsets|
              invariant acc == NonAlphaNumChars(charsets[..i])
            {
              var c := charsets[i];
              assert charsets[..i + 1][..i] == charsets[..i];
              if !Contains(AlphaNum, c) && c != "" {
                acc := acc + c;
              }
            }
            assert charsets[..|charsets|] == charsets;
            chars := Some(acc);
          } else {
            chars := None;
          }
        case OtherValue =>
          chars := None;
      }
    }

    /** The index list for a range string: the blank, then the index of each
        known character in string order. */
    method IndicesFor(chars: string) returns (indices: seq<nat>)
      ensures indices == [0] + Lookup(chars, charIndexMap)
    {
      indices := [0];
      for i := 0 to |chars|
        invariant indices == [0] + Lookup(chars[..i], charIndexMap)
      {
        var key := [chars[i]];
        assert chars[..i + 1][..i] == chars[..i];
        if key in charIndexMap {
          indices := indices + [charIndexMap[key]];
        }
      }
      assert chars[..|chars|] == chars;
    }

    /** SetRanges: select the allowed indices from a preset or a string. */
    method SetRanges(val: RangeValue)
      requires Valid()
      modifies this`allowedIndices
      ensures Valid()
      ensures allowedIndices == RangeIndices(val, charsets, charIndexMap)
    {
      var chars := ResolveRange(val);
      if chars.None? {
        allowedIndices := [];
        return;
      }
      allowedIndices := IndicesFor(chars.value);
    }

    /** ClearRanges: drop any range restriction. */
    method ClearRanges()
      requires Valid()
      modifies this`allowedIndices
      ensures Valid()
      ensures allowedIndices == []
    {
      allowedIndices := [];
    }

    /** The charset reported with probabilities: the projection of the
        allowed indices when a range is set, the whole charset otherwise. */
    method ReportedCharsets() returns (r: seq<string>)
      requires Valid()
      ensures |allowedIndices| == 0 ==> r == charsets
      ensures |allowedIndices| > 0 ==> |r| == |allowedIndices|
      ensures |allowedIndices| > 0 ==>
        forall i :: 0 <= i < |r| ==> r[i] == Project(charsets, allowedIndices[i])
    {
      if |allowedIndices| > 0 {
        r := [];
        for i := 0 to |allowedIndices|
          invariant |r| == i
          invariant forall k :: 0 <= k < i ==> r[k] == Project(charsets, allowedIndices[k])
        {
          var idx := allowedIndices[i];
          var sym := "";
          if idx < |charsets| {
            sym := charsets[idx];
          }
          r := r + [sym];
        }
      } else {
        r := charsets;
      }
    }
  }

  // ---------------------------------------------------------------------
  // Properties of the range selection.
  // ---------------------------------------------------------------------

  /** Looking up a concatenation looks up each part in turn: indices come out
      in string order. */
  lemma {:induction false} LookupConcat(a: string, b: string, m: map<string, nat>)
    ensures Lookup(a + b, m) == Lookup(a, m) + Lookup(b, m)
  {
    if |b| > 0 {
      var b' := b[..|b| - 1];
      assert (a + b)[..|a + b| - 1] == a + b';
      LookupConcat(a, b', m);
    } else {
      assert a + b == a;
    }
  }

  /** Every looked-up index names a charset entry that is a single character
      of the range string. */
  lemma {:induction false} LookupSound(chars: string, m: map<string, nat>, charsets: seq<string>)
    requires IsIndexMap(m, charsets)
    ensures forall k :: 0 <= k < |Lookup(chars, m)| ==>
      var idx := Lookup(chars, m)[k];
      idx < |charsets| && |charsets[idx]| == 1 && charsets[idx][0] in chars
  {
    if |chars| > 0 {
      var pre := chars[..|chars| - 1];
      LookupSound(pre, m, charsets);
      forall k | 0 <= k < |Lookup(chars, m)|
        ensures var idx := Lookup(chars, m)[k];
          idx < |charsets| && |charsets[idx]| == 1 && charsets[idx][0] in chars
      {
        if k < |Lookup(pre, m)| {
          var idx := Lookup(pre, m)[k];
          assert charsets[idx][0] in pre;
        } else {
          var key := [chars[|chars| - 1]];
          assert charsets[m[key]] == key;
        }
      }
    }
  }

  /** Every character of the range string that is a charset entry has its
      index in the lookup; characters not in the charset contribute nothing. */
  lemma {:induction false} LookupComplete(chars: string, m: map<string, nat>, charsets: seq<string>)
    requires IsIndexMap(m, charsets)
    ensures forall i :: 0 <= i < |chars| && [chars[i]] in charsets ==>
      m[[chars[i]]] in Lookup(chars, m) && charsets[m[[chars[i]]]] == [chars[i]]
    ensures |Lookup(chars, m)| <= |chars|
  {
    if |chars| > 0 {
      var pre := chars[..|chars| - 1];
      LookupComplete(pre, m, charsets);
      forall i | 0 <= i < |chars| && [chars[i]] in charsets
        ensures m[[chars[i]]] in Lookup(chars, m)
      {
        if i < |chars| - 1 {
          assert chars[i] == pre[i];
        }
      }
    }
  }

  /** x is a character of an entry NonAlphaNumEntry accepts. */
  ghost predicate InAcceptedEntry(x: char, charsets: seq<string>) {
    exists k :: 0 <= k < |charsets| && NonAlphaNumEntry(charsets[k]) && x in charsets[k]
  }

  /** Every character of s lies in an accepted entry. */
  ghost predicate FromAcceptedEntries(s: string, charsets: seq<string>) {
    forall j :: 0 <= j < |s| ==> InAcceptedEntry(s[j], charsets)
  }

  /** Every character the non-alphanumeric preset allows comes from an
      entry the preset accepts. */
  lemma {:induction false} NonAlphaNumSound(charsets: seq<string>)
    ensures FromAcceptedEntries(NonAlphaNumChars(charsets), charsets)
  {
    if |charsets| > 0 {
      var init, c := charsets[..|charsets| - 1], charsets[|charsets| - 1];
      NonAlphaNumSound(init);
      var r, ri := NonAlphaNumChars(charsets), NonAlphaNumChars(init);
      forall j | 0 <= j < |r|
        ensures InAcceptedEntry(r[j], charsets)
      {
        var k: int;
        if j < |ri| {
          assert r[j] == ri[j];
          k :| 0 <= k < |init| && NonAlphaNumEntry(init[k]) && ri[j] in init[k];
          assert init[k] == charsets[k];
        } else {
          assert NonAlphaNumEntry(c) && r[j] == c[j - |ri|];
          k := |charsets| - 1;
        }
        assert 0 <= k < |charsets| && NonAlphaNumEntry(charsets[k]) && r[j] in charsets[k];
      }
    } else {
      assert NonAlphaNumChars(charsets) == "";
    }
  }

  /** Every character of every entry the preset accepts is allowed. */
  lemma {:induction false} NonAlphaNumComplete(charsets: seq<string>)
    ensures forall k, p :: 0 <= k < |charsets| && NonAlphaNumEntry(charsets[k]) && 0 <= p < |charsets[k]| ==>
      charsets[k][p] in NonAlphaNumChars(charsets)
  {
    if |charsets| > 0 {
      var init, c := charsets[..|charsets| - 1], charsets[|charsets| - 1];
      NonAlphaNumComplete(init);
      var r, ri := NonAlphaNumChars(charsets), NonAlphaNumChars(init);
      forall k, p | 0 <= k < |charsets| && NonAlphaNumEntry(charsets[k]) && 0 <= p < |charsets[k]|
        ensures charsets[k][p] in r
      {
        if k < |charsets| - 1 {
          assert charsets[k] == init[k];
          var q :| 0 <= q < |ri| && ri[q] == charsets[k][p];
          assert r[q] == ri[q];
        } else {
          assert r[|ri| + p] == c[p];
        }
      }
    }
  }

  const LowerTail := "bcdefghijklmnopqrstuvwxyz"

  lemma LowerSplitsAtA()
    ensures Lower == "a" + LowerTail
  {
  }

  lemma NoAInTail()
    ensures 'a' !in LowerTail && 'a' !in Upper && 'a' !in Digits
  {
  }

  /** 'a' opens the alphanumeric alphabet and occurs nowhere else in it. */
  lemma AlphaNumSplitsAtA()
    ensures AlphaNum[0] == 'a' && 'a' !in AlphaNum[1..]
  {
    LowerSplitsAtA();
    NoAInTail();
    var rest := LowerTail + Upper + Digits;
    assert AlphaNum == "a" + rest;
    assert AlphaNum[1..] == rest;
  }

  /** strings.Contains tests whole entries: a two-character entry such as
      "ba" is not a substring of the alphabet, so the preset lets its
      alphanumeric characters through, while the entry "a" is dropped. */
  lemma MultiCharEntryAdmitsAlphaNum()
    ensures NonAlphaNumChars(["ba"]) == "ba"
    ensures NonAlphaNumChars(["a"]) == ""
  {
    assert OccursAt(AlphaNum, "a", 0);
    assert !Contains(AlphaNum, "ba") by {
      AlphaNumSplitsAtA();
      forall i | 0 <= i <= |AlphaNum| - 2
        ensures !OccursAt(AlphaNum, "ba", i)
      {
        assert AlphaNum[i + 1] == AlphaNum[1..][i] && AlphaNum[1..][i] in AlphaNum[1..];
        assert AlphaNum[i..i + 2][1] == AlphaNum[i + 1] != "ba"[1];
      }
    }
    assert ["ba"][..0] == [];
    assert ["a"][..0] == [];
  }

  /** SetRanges stores nil exactly for an unknown preset or a value of another
      type; otherwise the list starts with the blank and has at most one more
      entry than the range string has characters. */
  lemma RangeIndicesShape(v: RangeValue, charsets: seq<string>, m: map<string, nat>)
    requires IsIndexMap(m, charsets)
    ensures RangeIndices(v, charsets, m) == [] <==>
      (v.OtherValue? || (v.Preset? && !(RangeDigit <= v.code <= RangeNonAlphaNum)))
    ensures RangeChars(v, charsets).Some? ==>
      RangeIndices(v, charsets, m)[0] == 0 &&
      |RangeIndices(v, charsets, m)| <= |RangeChars(v, charsets).value| + 1
  {
    if RangeChars(v, charsets).Some? {
      LookupComplete(RangeChars(v, charsets).value, m, charsets);
    }
  }

  /** After selecting a range string, every entry of the reported charset but
      the first is one character of that string. */
  lemma {:induction false} ProjectedSymbolsComeFromRange(s: string, charsets: seq<string>, m: map<string, nat>)
    requires IsIndexMap(m, charsets)
    ensures var idx := RangeIndices(Text(s), charsets, m);
      forall k :: 1 <= k < |idx| ==>
        |Project(charsets, idx[k])| == 1 && Project(charsets, idx[k])[0] in s
  {
    LookupSound(s, m, charsets);
    var idx := RangeIndices(Text(s), charsets, m);
    forall k | 1 <= k < |idx|
      ensures |Project(charsets, idx[k])| == 1 && Project(charsets, idx[k])[0] in s
    {
      assert idx[k] == Lookup(s, m)[k - 1];
    }
  }

  /** After selecting the non-alphanumeric preset, every entry of the
      reported charset but the first is one character taken from an entry
      the preset accepts. */
  lemma {:induction false} NonAlphaNumPresetSymbols(charsets: seq<string>, m: map<string, nat>)
    requires IsIndexMap(m, charsets)
    ensures var idx := RangeIndices(Preset(RangeNonAlphaNum), charsets, m);
      forall i :: 1 <= i < |idx| ==>
        |Project(charsets, idx[i])| == 1 && InAcceptedEntry(Project(charsets, idx[i])[0], charsets)
  {
    var chars := NonAlphaNumChars(charsets);
    LookupSound(chars, m, charsets);
    NonAlphaNumSound(charsets);
    assert FromAcceptedEntries(chars, charsets);
    var idx := RangeIndices(Preset(RangeNonAlphaNum), charsets, m);
    forall i | 1 <= i < |idx|
      ensures |Project(charsets, idx[i])| == 1 && InAcceptedEntry(Project(charsets, idx[i])[0], charsets)
    {
      assert idx[i] == Lookup(chars, m)[i - 1];
      var sym := Project(charsets, idx[i])[0];
      var j :| 0 <= j < |chars| && chars[j] == sym;
    }
  }
}
