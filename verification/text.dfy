/**
 String helpers shared by every parser of the model.

 The tool is written in Python and leans on `str.strip`, `str.split`,
 `str.isdigit`, `str.lower`, `int()` and `str()` of an integer. This module
 gives each of them an explicit ASCII definition, together with the facts the
 other modules need: splitting on a separator and joining back are inverse,
 splitting distributes over a separator, and `int(str(n)) == n`.
 */
module Text {

  datatype Option<T> = None | Some(value: T)

  // ---------------------------------------------------------------------------
  // Characters
  // ---------------------------------------------------------------------------

  /** The ASCII characters Python's `str.isspace` accepts. */
  predicate IsSpace(c: char) {
    c == ' ' || ('\t' <= c <= '\r') || ('\U{1C}' <= c <= '\U{1F}')
  }

  predicate IsDigit(c: char) {
    '0' <= c <= '9'
  }

  predicate IsUpper(c: char) {
    'A' <= c <= 'Z'
  }

  function LowerChar(c: char): (r: char)
    ensures IsUpper(c) ==> r as int == c as int + 32
    ensures !IsUpper(c) ==> r == c
  {
    if IsUpper(c) then (c as int + 32) as char else c
  }

  /** `str.lower` restricted to ASCII letters. */
  function Lower(s: string): (r: string)
    ensures |r| == |s|
    ensures forall i :: 0 <= i < |s| ==> r[i] == LowerChar(s[i])
  {
    seq(|s|, i requires 0 <= i < |s| => LowerChar(s[i]))
  }

  // ---------------------------------------------------------------------------
  // Stripping
  // ---------------------------------------------------------------------------

  function TrimLeft(s: string): (r: string)
    ensures |r| <= |s| && r == s[|s| - |r|..]
    ensures |r| > 0 ==> !IsSpace(r[0])
    ensures forall i :: 0 <= i < |s| - |r| ==> IsSpace(s[i])
  {
    if |s| > 0 && IsSpace(s[0]) then TrimLeft(s[1..]) else s
  }

  function TrimRight(s: string): (r: string)
    ensures |r| <= |s| && r == s[..|r|]
    ensures |r| > 0 ==> !IsSpace(r[|r| - 1])
    ensures forall i :: |r| <= i < |s| ==> IsSpace(s[i])
  {
    if |s| > 0 && IsSpace(s[|s| - 1]) then TrimRight(s[..|s| - 1]) else s
  }

  /** `str.strip()` with no argument. */
  function Strip(s: string): string {
    TrimRight(TrimLeft(s))
  }

  /** What `Strip` keeps is a run of the text, starting where `TrimLeft` starts. */
  lemma StripWithin(s: string)
    ensures |s| - |TrimLeft(s)| + |Strip(s)| <= |s|
    ensures Strip(s) == s[|s| - |TrimLeft(s)|..|s| - |TrimLeft(s)| + |Strip(s)|]
  {
    PrefixOfSuffix(s, TrimLeft(s), Strip(s));
  }

  lemma PrefixOfSuffix<T>(s: seq<T>, t: seq<T>, r: seq<T>)
    requires |t| <= |s| && t == s[|s| - |t|..]
    requires |r| <= |t| && r == t[..|r|]
    ensures r == s[|s| - |t|..|s| - |t| + |r|]
  {
  }

  /** Everything around the run `Strip` keeps is whitespace. */
  lemma StripDropsSpaces(s: string)
    ensures forall i :: 0 <= i < |s| - |TrimLeft(s)| ==> IsSpace(s[i])
    ensures forall i :: |s| - |TrimLeft(s)| + |Strip(s)| <= i < |s| ==> IsSpace(s[i])
  {
    SpacesAfterPrefix(s, TrimLeft(s), Strip(s));
  }

  lemma SpacesAfterPrefix(s: string, t: string, r: string)
    requires |t| <= |s| && t == s[|s| - |t|..]
    requires |r| <= |t| && forall i :: |r| <= i < |t| ==> IsSpace(t[i])
    ensures forall i :: |s| - |t| + |r| <= i < |s| ==> IsSpace(s[i])
  {
    forall i | |s| - |t| + |r| <= i < |s|
      ensures IsSpace(s[i])
    {
      assert s[i] == t[i - (|s| - |t|)];
    }
  }

  lemma StripNoSpaceEnds(s: string)
    requires |s| > 0 ==> !IsSpace(s[0]) && !IsSpace(s[|s| - 1])
    ensures Strip(s) == s
  {
  }

  lemma {:induction false} TrimLeftAppend(x: string, c: char)
    ensures TrimLeft(x + [c]) == if |TrimLeft(x)| == 0 then TrimLeft([c]) else TrimLeft(x) + [c]
    decreases |x|
  {
    if |x| > 0 {
      assert (x + [c])[0] == x[0];
      assert (x + [c])[1..] == x[1..] + [c];
      if IsSpace(x[0]) {
        TrimLeftAppend(x[1..], c);
      }
    } else {
      assert x + [c] == [c];
    }
  }

  /** A trailing whitespace character, such as the `\n` of a line, does not change `strip()`. */
  lemma StripAppendSpace(x: string, c: char)
    requires IsSpace(c)
    ensures Strip(x + [c]) == Strip(x)
  {
    TrimLeftAppend(x, c);
    var t := TrimLeft(x);
    if |t| == 0 {
      assert TrimLeft([c]) == TrimLeft([c][1..]);
    } else {
      assert (t + [c])[..|t|] == t;
    }
  }

  /** Every character of `s` is `c`. */
  predicate AllAre(s: string, c: char) {
    forall k :: 0 <= k < |s| ==> s[k] == c
  }

  /** `r` is `s` without a run of `c` at its start and a run of `c` at its end. */
  predicate Trims(s: string, r: string, c: char) {
    exists i, j :: 0 <= i <= j <= |s| && r == s[i..j] && AllAre(s[..i], c) && AllAre(s[j..], c)
  }

  /** `str.strip(c)`: removes every leading and trailing copy of `c`, and nothing else. */
  function StripChar(s: string, c: char): (r: string)
    ensures |r| <= |s|
    ensures |r| > 0 ==> r[0] != c && r[|r| - 1] != c
    ensures Trims(s, r, c)
    decreases |s|
  {
    if |s| > 0 && s[0] == c then
      var r := StripChar(s[1..], c);
      TrimsFront(s, r, c);
      r
    else if |s| > 0 && s[|s| - 1] == c then
      var r := StripChar(s[..|s| - 1], c);
      TrimsBack(s, r, c);
      r
    else
      assert s[0..|s|] == s && s[..0] == [] && s[|s|..] == [];
      s
  }

  lemma TrimsFront(s: string, r: string, c: char)
    requires |s| > 0 && s[0] == c && Trims(s[1..], r, c)
    ensures Trims(s, r, c)
  {
    var t := s[1..];
    var i, j :| 0 <= i <= j <= |t| && r == t[i..j] && AllAre(t[..i], c) && AllAre(t[j..], c);
    assert r == s[i + 1..j + 1];
    assert s[j + 1..] == t[j..];
    assert s[..i + 1] == [c] + t[..i];
    AllAreCons(t[..i], c);
    TrimsAt(s, r, c, i + 1, j + 1);
  }

  lemma AllAreCons(x: string, c: char)
    requires AllAre(x, c)
    ensures AllAre([c] + x, c)
  {
    var y := [c] + x;
    forall k | 0 < k < |y|
      ensures y[k] == c
    {
      assert y[k] == x[k - 1];
    }
  }

  lemma TrimsBack(s: string, r: string, c: char)
    requires |s| > 0 && s[|s| - 1] == c && Trims(s[..|s| - 1], r, c)
    ensures Trims(s, r, c)
  {
    var t := s[..|s| - 1];
    var i, j :| 0 <= i <= j <= |t| && r == t[i..j] && AllAre(t[..i], c) && AllAre(t[j..], c);
    assert r == s[i..j];
    assert s[..i] == t[..i];
    assert s[j..] == t[j..] + [c];
    TrimsAt(s, r, c, i, j);
  }

  lemma TrimsAt(s: string, r: string, c: char, i: nat, j: nat)
    requires i <= j <= |s| && r == s[i..j] && AllAre(s[..i], c) && AllAre(s[j..], c)
    ensures Trims(s, r, c)
  {
  }

  // ---------------------------------------------------------------------------
  // Prefixes and searching
  // ---------------------------------------------------------------------------

  predicate StartsWith(s: string, prefix: string) {
    |prefix| <= |s| && s[..|prefix|] == prefix
  }

  /** Position of the first `c` in `s`, if any. */
  function IndexOf(s: string, c: char): (r: Option<nat>)
    ensures r.None? <==> c !in s
    ensures r.Some? ==> r.value < |s| && s[r.value] == c && c !in s[..r.value]
  {
    if |s| == 0 then None
    else if s[0] == c then Some(0)
    else match IndexOf(s[1..], c)
      case None => None
      case Some(i) => assert s[1..][..i] == s[1..i + 1]; Some(i + 1)
  }

  /** The first `c` of `a + b` is the first `c` of `a` when `a` holds one. */
  lemma {:induction false} IndexOfAppend(a: string, b: string, c: char)
    requires c in a
    ensures IndexOf(a + b, c) == IndexOf(a, c)
    decreases |a|
  {
    assert (a + b)[0] == a[0];
    if a[0] != c {
      assert (a + b)[1..] == a[1..] + b;
      assert c in a[1..] by {
        var k :| 0 <= k < |a| && a[k] == c;
        assert a[1..][k - 1] == c;
      }
      IndexOfAppend(a[1..], b, c);
    }
  }

  /** Position of the last `c` in `s`, if any (Python's `str.rfind`). */
  function LastIndexOf(s: string, c: char): (r: Option<nat>)
    ensures r.None? <==> c !in s
    ensures r.Some? ==> r.value < |s| && s[r.value] == c && c !in s[r.value + 1..]
  {
    if |s| == 0 then None
    else if s[|s| - 1] == c then Some(|s| - 1)
    else match LastIndexOf(s[..|s| - 1], c)
      case None => None
      case Some(i) => assert s[i + 1..] == s[..|s| - 1][i + 1..] + [s[|s| - 1]]; Some(i)
  }

  // ---------------------------------------------------------------------------
  // Splitting on one separator character
  // ---------------------------------------------------------------------------

  /** `s.split(sep)`: always at least one part; an empty string gives `[""]`. */
  function Split(s: string, sep: char): (parts: seq<string>)
    ensures |parts| >= 1
    ensures forall i :: 0 <= i < |parts| ==> sep !in parts[i]
    decreases |s|
  {
    if |s| == 0 then [""]
    else if s[0] == sep then [""] + Split(s[1..], sep)
    else
      var rest := Split(s[1..], sep);
      [[s[0]] + rest[0]] + rest[1..]
  }

  /** `sep.join(parts)`. */
  function Join(parts: seq<string>, sep: char): string
    requires |parts| >= 1
  {
    if |parts| == 1 then parts[0] else parts[0] + [sep] + Join(parts[1..], sep)
  }

  /** Splitting and joining back give the original text. */
  lemma {:induction false} JoinSplit(s: string, sep: char)
    ensures Join(Split(s, sep), sep) == s
    decreases |s|
  {
    if |s| == 0 {
    } else if s[0] == sep {
      JoinSplit(s[1..], sep);
      assert [sep] + s[1..] == s;
    } else {
      JoinSplit(s[1..], sep);
      var rest := Split(s[1..], sep);
      if |rest| == 1 {
      } else {
        assert ([s[0]] + rest[0]) + [sep] + Join(rest[1..], sep)
            == [s[0]] + (rest[0] + [sep] + Join(rest[1..], sep));
      }
    }
  }

  /** Joining parts that are free of the separator and splitting again gives the parts. */
  lemma {:induction false} SplitJoin(parts: seq<string>, sep: char)
    requires |parts| >= 1
    requires forall i :: 0 <= i < |parts| ==> sep !in parts[i]
    ensures Split(Join(parts, sep), sep) == parts
    decreases |parts|
  {
    if |parts| == 1 {
      SplitFree(parts[0], sep);
    } else {
      SplitJoin(parts[1..], sep);
      SplitAround(parts[0], Join(parts[1..], sep), sep);
      SplitFree(parts[0], sep);
    }
  }

  /** A text free of the separator is one part. */
  lemma {:induction false} SplitFree(s: string, sep: char)
    requires sep !in s
    ensures Split(s, sep) == [s]
    decreases |s|
  {
    if |s| > 0 {
      SplitFree(s[1..], sep);
      assert [s[0]] + s[1..] == s;
    }
  }

  /** Splitting distributes over one separator occurrence. */
  lemma {:induction false} SplitAround(a: string, b: string, sep: char)
    ensures Split(a + [sep] + b, sep) == Split(a, sep) + Split(b, sep)
    decreases |a|
  {
    var s := a + [sep] + b;
    if |a| == 0 {
      assert s == [sep] + b;
      assert s[1..] == b;
    } else {
      assert s[0] == a[0];
      assert s[1..] == a[1..] + [sep] + b;
      SplitAround(a[1..], b, sep);
      if a[0] != sep {
        MergeHead(a[0], Split(a[1..], sep), Split(b, sep));
      }
    }
  }

  lemma MergeHead(c: char, ra: seq<string>, rb: seq<string>)
    requires |ra| >= 1
    ensures [[c] + (ra + rb)[0]] + (ra + rb)[1..] == ([[c] + ra[0]] + ra[1..]) + rb
  {
    assert (ra + rb)[1..] == ra[1..] + rb;
  }

  // ---------------------------------------------------------------------------
  // Integers: `str.isdigit`, `int()` and `str()`
  // ---------------------------------------------------------------------------

  /** `str.isdigit()` over ASCII: non-empty and all digits. */
  predicate IsDigits(s: string) {
    |s| > 0 && forall i :: 0 <= i < |s| ==> IsDigit(s[i])
  }

  function DigitValue(c: char): (r: nat)
    requires IsDigit(c)
    ensures r < 10
  {
    c as int - '0' as int
  }

  function DigitChar(d: nat): (r: char)
    requires d < 10
    ensures IsDigit(r) && DigitValue(r) == d
  {
    ('0' as int + d) as char
  }

  /** Decimal value of a digit string, most significant digit first. */
  function DigitsValue(s: string): nat
    requires forall i :: 0 <= i < |s| ==> IsDigit(s[i])
  {
    if |s| == 0 then 0 else DigitsValue(s[..|s| - 1]) * 10 + DigitValue(s[|s| - 1])
  }

  /** `str(n)` for a natural number. */
  function NatToString(n: nat): (r: string)
    ensures IsDigits(r)
    ensures DigitsValue(r) == n
    ensures n < 10 <==> |r| == 1
  {
    if n < 10 then [DigitChar(n)]
    else
      var prefix := NatToString(n / 10);
      var r := prefix + [DigitChar(n % 10)];
      assert r[..|r| - 1] == prefix;
      r
  }

  /** `str(i)` for any integer. */
  function IntToString(i: int): (r: string)
    ensures |r| > 0 && !IsSpace(r[0]) && !IsSpace(r[|r| - 1])
    ensures i >= 0 ==> IsDigits(r)
    ensures i < 0 ==> r[0] == '-' && IsDigits(r[1..])
  {
    if i < 0 then "-" + NatToString(-i) else NatToString(i)
  }

  /** A sign followed by at least one digit. */
  predicate SignedLiteral(t: string, sign: char) {
    |t| > 1 && t[0] == sign && IsDigits(t[1..])
  }

  /** The text `int()` accepts once stripped: digits, optionally after one `+` or `-`. */
  predicate IntLiteral(t: string) {
    IsDigits(t) || SignedLiteral(t, '+') || SignedLiteral(t, '-')
  }

  /**
   Python's `int(s)` on text: surrounding whitespace is ignored, an optional
   sign, then at least one ASCII digit. Anything else raises `ValueError`,
   modelled as `None`.
   */
  function ParseInt(s: string): (r: Option<int>)
    ensures r.Some? <==> IntLiteral(Strip(s))
    ensures IsDigits(Strip(s)) ==> r == Some(DigitsValue(Strip(s)) as int)
    ensures SignedLiteral(Strip(s), '+') ==> r == Some(DigitsValue(Strip(s)[1..]) as int)
    ensures SignedLiteral(Strip(s), '-') ==> r == Some(-(DigitsValue(Strip(s)[1..]) as int))
  {
    var t := Strip(s);
    if IsDigits(t) then Some(DigitsValue(t) as int)
    else if SignedLiteral(t, '+') then Some(DigitsValue(t[1..]) as int)
    else if SignedLiteral(t, '-') then Some(-(DigitsValue(t[1..]) as int))
    else None
  }

  /** `int(str(i)) == i`. */
  lemma ParseIntToString(i: int)
    ensures ParseInt(IntToString(i)) == Some(i)
  {
    var r := IntToString(i);
    StripNoSpaceEnds(r);
    if i < 0 {
      assert !IsDigits(r) by { assert !IsDigit(r[0]); }
    }
  }

  /** A digit string's value is read back by `int()`. */
  lemma ParseIntDigits(s: string)
    requires IsDigits(s)
    ensures ParseInt(s) == Some(DigitsValue(s) as int)
  {
    StripNoSpaceEnds(s);
  }
}
