/**
 `parse_selection` of `download-manager.py`: the numbered multi-select of the
 interactive browser. The user's text is split on commas; each part is either
 a range `A-B` (both ends read with `int()`) or a bare digit string. Indices
 are 1-based; anything out of range or malformed contributes nothing, and
 nothing is deduplicated.
 */
module Selection {
  import opened Text
  import opened RemoteListing

  /** The integers `a, a+1, ..., b`; empty when `a > b` (Python's `range(a, b + 1)`). */
  function Range(a: int, b: int): (r: seq<int>)
    ensures |r| == if a > b then 0 else b - a + 1
    ensures forall k :: 0 <= k < |r| ==> r[k] == a + k
    decreases b - a
  {
    if a > b then [] else [a] + Range(a + 1, b)
  }

  /**
   The 1-based indices one comma-separated part asks for. A part holding a
   `-` must split into exactly two `int()`-readable pieces, otherwise the
   `except: continue` drops it; a part without `-` counts only when
   `isdigit()` holds.
   */
  function PartIndices(part: string): seq<int> {
    var p := Strip(part);
    if '-' in p then
      var pieces := Split(p, '-');
      if |pieces| == 2 && ParseInt(pieces[0]).Some? && ParseInt(pieces[1]).Some? then
        Range(ParseInt(pieces[0]).value, ParseInt(pieces[1]).value)
      else []
    else if IsDigits(p) then [DigitsValue(p) as int]
    else []
  }

  /** `files[i - 1]` for every requested `i` with `1 <= i <= len(files)`, in request order. */
  function Pick(indices: seq<int>, files: seq<Entry>): (r: seq<Entry>)
    ensures |r| <= |indices|
    ensures forall k :: 0 <= k < |r| ==> r[k] in files
  {
    if |indices| == 0 then []
    else
      var i := indices[0];
      (if 1 <= i <= |files| then [files[i - 1]] else []) + Pick(indices[1..], files)
  }

  function PickParts(parts: seq<string>, files: seq<Entry>): (r: seq<Entry>)
    ensures forall k :: 0 <= k < |r| ==> r[k] in files
  {
    if |parts| == 0 then []
    else Pick(PartIndices(parts[0]), files) + PickParts(parts[1..], files)
  }

  /** `parse_selection(choice, files)`. */
  function ParseSelection(choice: string, files: seq<Entry>): (r: seq<Entry>)
    ensures forall k :: 0 <= k < |r| ==> r[k] in files
  {
    PickParts(Split(choice, ','), files)
  }

  // ---------------------------------------------------------------------------
  // Properties
  // ---------------------------------------------------------------------------

  lemma {:induction false} PickAppend(xs: seq<int>, ys: seq<int>, files: seq<Entry>)
    ensures Pick(xs + ys, files) == Pick(xs, files) + Pick(ys, files)
    decreases |xs|
  {
    if |xs| == 0 {
      assert xs + ys == ys;
    } else {
      assert (xs + ys)[0] == xs[0];
      assert (xs + ys)[1..] == xs[1..] + ys;
      PickAppend(xs[1..], ys, files);
    }
  }

  lemma {:induction false} PickPartsAppend(xs: seq<string>, ys: seq<string>, files: seq<Entry>)
    ensures PickParts(xs + ys, files) == PickParts(xs, files) + PickParts(ys, files)
    decreases |xs|
  {
    if |xs| == 0 {
      assert xs + ys == ys;
    } else {
      assert (xs + ys)[0] == xs[0];
      assert (xs + ys)[1..] == xs[1..] + ys;
      PickPartsAppend(xs[1..], ys, files);
    }
  }

  /**
   The selection is the concatenation of what each part selects, in the order
   written: no deduplication and no reordering across parts.
   */
  lemma ParseSelectionConcat(a: string, b: string, files: seq<Entry>)
    ensures ParseSelection(a + "," + b, files) == ParseSelection(a, files) + ParseSelection(b, files)
  {
    SplitAround(a, b, ',');
    assert a + "," + b == a + [','] + b;
    PickPartsAppend(Split(a, ','), Split(b, ','), files);
  }

  /** A range of indices picks the contiguous slice of the listing it overlaps. */
  lemma {:induction false} PickRange(a: int, b: int, files: seq<Entry>)
    ensures var lo := if a < 1 then 1 else a;
            var hi := if b > |files| then |files| else b;
            Pick(Range(a, b), files) == if lo <= hi then files[lo - 1..hi] else []
    decreases b - a
  {
    if a <= b {
      PickRange(a + 1, b, files);
      var hi := if b > |files| then |files| else b;
      if 1 <= a <= |files| && a < hi {
        assert files[a - 1..hi] == [files[a - 1]] + files[a..hi];
      }
    }
  }

  /** A digit string holds no separator character. */
  lemma DigitsFree(s: string, c: char)
    requires IsDigits(s)
    requires !IsDigit(c)
    ensures c !in s
  {
    forall k | 0 <= k < |s|
      ensures s[k] != c
    {
      assert IsDigit(s[k]);
    }
  }

  /** Text without a comma is one part. */
  lemma OnePart(s: string, files: seq<Entry>)
    requires ',' !in s
    ensures ParseSelection(s, files) == Pick(PartIndices(s), files)
  {
    SplitFree(s, ',');
    assert PickParts([s], files) == Pick(PartIndices(s), files) + PickParts([], files);
  }

  lemma PartIndicesDigits(s: string)
    requires IsDigits(s)
    ensures PartIndices(s) == [DigitsValue(s) as int]
  {
    StripNoSpaceEnds(s);
    DigitsFree(s, '-');
  }

  /** Two separator-free texts joined by the separator split back into the two. */
  lemma SplitPair(a: string, b: string, c: char)
    requires c !in a && c !in b
    ensures Split(a + [c] + b, c) == [a, b]
  {
    SplitAround(a, b, c);
    SplitFree(a, c);
    SplitFree(b, c);
  }

  lemma PartIndicesRange(sa: string, sb: string)
    requires IsDigits(sa) && IsDigits(sb)
    ensures PartIndices(sa + "-" + sb) == Range(DigitsValue(sa) as int, DigitsValue(sb) as int)
  {
    var s := sa + "-" + sb;
    RangeText(sa, sb);
    ParseIntDigits(sa);
    ParseIntDigits(sb);
    RangePart(s, sa, sb, DigitsValue(sa) as int, DigitsValue(sb) as int);
  }

  lemma RangeText(sa: string, sb: string)
    requires IsDigits(sa) && IsDigits(sb)
    ensures var s := sa + "-" + sb;
            Strip(s) == s && '-' in s && Split(s, '-') == [sa, sb]
  {
    var s := sa + "-" + sb;
    assert s == sa + ['-'] + sb;
    assert s[0] == sa[0] && s[|s| - 1] == sb[|sb| - 1];
    StripNoSpaceEnds(s);
    assert s[|sa|] == '-';
    DigitsFree(sa, '-');
    DigitsFree(sb, '-');
    SplitPair(sa, sb, '-');
  }

  lemma RangePart(s: string, sa: string, sb: string, a: int, b: int)
    requires Strip(s) == s && '-' in s && Split(s, '-') == [sa, sb]
    requires ParseInt(sa) == Some(a) && ParseInt(sb) == Some(b)
    ensures PartIndices(s) == Range(a, b)
  {
  }

  /** The bare index `i` selects `files[i - 1]` when it is in range and nothing otherwise. */
  lemma SingleIndex(i: nat, files: seq<Entry>)
    ensures ParseSelection(NatToString(i), files)
         == if 1 <= i <= |files| then [files[i - 1]] else []
  {
    var s := NatToString(i);
    DigitsFree(s, ',');
    DigitPart(s, i, files);
  }

  lemma DigitPart(s: string, i: nat, files: seq<Entry>)
    requires ',' !in s && IsDigits(s) && DigitsValue(s) == i
    ensures ParseSelection(s, files) == if 1 <= i <= |files| then [files[i - 1]] else []
  {
    OnePart(s, files);
    PartIndicesDigits(s);
    PickOne(i, files);
  }

  lemma PickOne(i: int, files: seq<Entry>)
    ensures Pick([i], files) == if 1 <= i <= |files| then [files[i - 1]] else []
  {
    assert Pick([i], files) == (if 1 <= i <= |files| then [files[i - 1]] else []) + Pick([], files);
  }

  /**
   The range part `A-B` selects the slice of the listing between `max(A, 1)`
   and `min(B, len(files))`; when `A > B` it selects nothing.
   */
  lemma RangeSelection(a: nat, b: nat, files: seq<Entry>)
    ensures var lo := if a < 1 then 1 else a;
            var hi := if b > |files| then |files| else b;
            ParseSelection(NatToString(a) + "-" + NatToString(b), files)
              == if lo <= hi then files[lo - 1..hi] else []
    ensures a > b ==> ParseSelection(NatToString(a) + "-" + NatToString(b), files) == []
  {
    var sa, sb := NatToString(a), NatToString(b);
    DigitsFree(sa, ',');
    DigitsFree(sb, ',');
    assert ',' !in sa + "-" + sb;
    OnePart(sa + "-" + sb, files);
    PartIndicesRange(sa, sb);
    PickRange(a, b, files);
  }

  /** Repeating an index repeats the entry: `1,1` selects the first entry twice. */
  lemma DuplicatesKept(i: nat, files: seq<Entry>)
    requires 1 <= i <= |files|
    ensures ParseSelection(NatToString(i) + "," + NatToString(i), files) == [files[i - 1], files[i - 1]]
  {
    ParseSelectionConcat(NatToString(i), NatToString(i), files);
    SingleIndex(i, files);
  }

  /**
   A part is malformed when its stripped text holds a `-` without being two
   `int()`-readable pieces, or holds no `-` and is not a digit string.
   */
  predicate Malformed(part: string) {
    var p := Strip(part);
    if '-' in p then
      var pieces := Split(p, '-');
      !(|pieces| == 2 && ParseInt(pieces[0]).Some? && ParseInt(pieces[1]).Some?)
    else !IsDigits(p)
  }

  /** A malformed part selects nothing and does not stop the parts after it. */
  lemma MalformedSkipped(bad: string, rest: string, files: seq<Entry>)
    requires ',' !in bad
    requires Malformed(bad)
    ensures ParseSelection(bad, files) == []
    ensures ParseSelection(bad + "," + rest, files) == ParseSelection(rest, files)
  {
    SplitFree(bad, ',');
    assert PartIndices(bad) == [];
    assert PickParts([bad], files) == Pick([], files) + PickParts([], files);
    ParseSelectionConcat(bad, rest, files);
  }

  /** An input made only of malformed parts selects nothing. */
  lemma {:induction false} OnlyMalformedSelectsNothing(parts: seq<string>, files: seq<Entry>)
    requires forall k :: 0 <= k < |parts| ==> Malformed(parts[k])
    ensures PickParts(parts, files) == []
    decreases |parts|
  {
    if |parts| > 0 {
      assert PartIndices(parts[0]) == [];
      OnlyMalformedSelectsNothing(parts[1..], files);
    }
  }

  /** A range with a second dash, such as `1-2-3`, is malformed: unpacking raises. */
  lemma TwoDashesMalformed(a: string, b: string, c: string)
    requires IsDigits(a) && IsDigits(b) && IsDigits(c)
    ensures Malformed(a + "-" + b + "-" + c)
  {
    var bc := b + ['-'] + c;
    var s := a + ['-'] + bc;
    assert a + "-" + b + "-" + c == s;
    assert s[0] == a[0] && s[|s| - 1] == c[|c| - 1];
    StripNoSpaceEnds(s);
    assert s[|a|] == '-';
    DigitsFree(a, '-');
    DigitsFree(b, '-');
    DigitsFree(c, '-');
    SplitPair(b, c, '-');
    SplitAround(a, bc, '-');
    SplitFree(a, '-');
    assert |Split(s, '-')| == 3;
  }

  /** A negative-looking index, such as `-3`, is malformed: `int('')` raises. */
  lemma LeadingDashMalformed(b: string)
    requires IsDigits(b)
    ensures Malformed("-" + b)
  {
    var s := [] + ['-'] + b;
    assert "-" + b == s;
    assert s[|s| - 1] == b[|b| - 1];
    StripNoSpaceEnds(s);
    assert s[0] == '-';
    DigitsFree(b, '-');
    SplitPair([], b, '-');
    StripNoSpaceEnds([]);
    assert ParseInt([]) == None;
  }

  /** A dash-free part holding a non-digit, such as `abc`, is malformed. */
  lemma NonDigitMalformed(s: string, k: nat)
    requires k < |s| && !IsDigit(s[k]) && !IsSpace(s[k])
    requires '-' !in s
    ensures Malformed(s)
  {
    var p := Strip(s);
    var left := |s| - |TrimLeft(s)|;
    StripWithin(s);
    StripDropsSpaces(s);
    assert left <= k < left + |p|;
    assert p[k - left] == s[k];
  }
}
