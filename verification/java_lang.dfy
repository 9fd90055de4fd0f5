/**
 * The parts of java.lang the modelled code relies on, with Java's own
 * semantics written out: null as `Option`, `String.split` with a
 * one-character separator, `trim`, `replace`, `indexOf`, `compareTo`,
 * fixed-width integer wrap-around, truncating division and the decimal
 * conversions of `Long`.
 */
module JavaLang {

  /** A Java reference that may be null. */
  datatype Option<T> = None | Some(value: T)
  {
    function GetOr(default: T): T
    {
      if Some? then value else default
    }
  }

  // ---------------------------------------------------------------------
  // Substrings and searching
  // ---------------------------------------------------------------------

  predicate StartsWith(s: string, prefix: string)
  {
    |prefix| <= |s| && s[..|prefix|] == prefix
  }

  predicate EndsWith(s: string, suffix: string)
  {
    |suffix| <= |s| && s[|s| - |suffix|..] == suffix
  }

  /** `p` occurs in `s` starting at index `i`. */
  predicate OccursAt(s: string, p: string, i: int)
  {
    0 <= i && i + |p| <= |s| && s[i..i + |p|] == p
  }

  /** First occurrence of `p` in `s` at or after `from`, or -1. */
  function IndexOfFrom(s: string, p: string, from: nat): (r: int)
    ensures r == -1 || (from <= r && OccursAt(s, p, r))
    ensures r == -1 ==> forall i :: from <= i ==> !OccursAt(s, p, i)
    ensures r != -1 ==> forall i :: from <= i < r ==> !OccursAt(s, p, i)
    decreases |s| - from
  {
    if from + |p| > |s| then -1
    else if s[from..from + |p|] == p then from
    else IndexOfFrom(s, p, from + 1)
  }

  /** `String.indexOf(String)`: the first occurrence, or -1. */
  function IndexOf(s: string, p: string): (r: int)
    ensures r == -1 || OccursAt(s, p, r)
    ensures r == -1 <==> forall i :: !OccursAt(s, p, i)
    ensures r != -1 ==> forall i :: 0 <= i < r ==> !OccursAt(s, p, i)
  {
    IndexOfFrom(s, p, 0)
  }

  /** `String.contains`. */
  predicate Contains(s: string, p: string)
  {
    IndexOf(s, p) != -1
  }

  /** A one-character string is contained exactly when the character occurs. */
  lemma ContainsChar(s: string, c: char)
    ensures Contains(s, [c]) <==> c in s
  {
    if c in s {
      var k :| 0 <= k < |s| && s[k] == c;
      assert OccursAt(s, [c], k);
    } else {
      forall i | 0 <= i < |s|
        ensures !OccursAt(s, [c], i)
      {
        assert s[i..i + 1][0] == s[i];
      }
    }
  }

  /** `String.indexOf(char)`: the first index holding `c`, or -1. */
  function IndexOfChar(s: string, c: char): (r: int)
    ensures -1 <= r < |s|
    ensures r == -1 <==> c !in s
    ensures r != -1 ==> s[r] == c && c !in s[..r]
  {
    if |s| == 0 then -1
    else if s[0] == c then 0
    else
      var k := IndexOfChar(s[1..], c);
      if k == -1 then -1 else k + 1
  }

  /** `String.lastIndexOf(String)`: the last occurrence, or -1. */
  function LastIndexOf(s: string, p: string): (r: int)
    ensures r == -1 || OccursAt(s, p, r)
    ensures r == -1 <==> forall i :: !OccursAt(s, p, i)
    ensures r != -1 ==> forall i :: r < i ==> !OccursAt(s, p, i)
  {
    LastIndexOfBelow(s, p, |s| - |p|)
  }

  /** Last occurrence of `p` in `s` at or below `upTo`, or -1. */
  function LastIndexOfBelow(s: string, p: string, upTo: int): (r: int)
    requires upTo <= |s| - |p|
    ensures r == -1 || (r <= upTo && OccursAt(s, p, r))
    ensures r == -1 ==> forall i :: i <= upTo ==> !OccursAt(s, p, i)
    ensures r != -1 ==> forall i :: r < i <= upTo ==> !OccursAt(s, p, i)
    decreases upTo + 1
  {
    if upTo < 0 then -1
    else if s[upTo..upTo + |p|] == p then upTo
    else LastIndexOfBelow(s, p, upTo - 1)
  }

  // ---------------------------------------------------------------------
  // String.replace(CharSequence, CharSequence): every non-overlapping
  // occurrence, scanning left to right.
  // ---------------------------------------------------------------------

  function Replace(s: string, target: string, replacement: string): string
    requires |target| > 0
    decreases |s|
  {
    if |s| < |target| then s
    else if s[..|target|] == target then
      replacement + Replace(s[|target|..], target, replacement)
    else [s[0]] + Replace(s[1..], target, replacement)
  }

  /** Every character of the result comes from the input or the replacement. */
  lemma {:induction false} ReplaceChars(s: string, target: string, replacement: string)
    requires |target| > 0
    ensures forall c :: c in Replace(s, target, replacement) ==> c in s || c in replacement
    decreases |s|
  {
    if |s| >= |target| {
      if s[..|target|] == target {
        ReplaceChars(s[|target|..], target, replacement);
      } else {
        ReplaceChars(s[1..], target, replacement);
      }
    }
  }

  /** Without an occurrence of the target nothing is replaced. */
  lemma {:induction false} ReplaceAbsent(s: string, target: string, replacement: string)
    requires |target| > 0
    requires forall i :: !OccursAt(s, target, i)
    ensures Replace(s, target, replacement) == s
    decreases |s|
  {
    if |s| >= |target| {
      assert !OccursAt(s, target, 0);
      forall i ensures !OccursAt(s[1..], target, i) {
        assert !OccursAt(s, target, i + 1);
      }
      ReplaceAbsent(s[1..], target, replacement);
    }
  }

  // ---------------------------------------------------------------------
  // String.split(String) with a one-character, non-metacharacter regex
  // and the default limit 0.
  // ---------------------------------------------------------------------

  /** Concatenation of `parts` with `sep` between neighbours. */
  function Join(parts: seq<string>, sep: string): string
  {
    if |parts| == 0 then ""
    else if |parts| == 1 then parts[0]
    else parts[0] + sep + Join(parts[1..], sep)
  }

  /** Joining a part in front of at least one more adds it and a separator. */
  lemma JoinFront(first: string, rest: seq<string>, sep: string)
    requires |rest| >= 1
    ensures Join([first] + rest, sep) == first + sep + Join(rest, sep)
  {
    assert ([first] + rest)[1..] == rest;
  }

  /** All fields of `s` between occurrences of `c`, empty ones included. */
  function Fields(s: string, c: char): (r: seq<string>)
    ensures |r| >= 1
    ensures forall k :: 0 <= k < |r| ==> c !in r[k]
    ensures Join(r, [c]) == s
    decreases |s|
  {
    var i := IndexOfChar(s, c);
    if i == -1 then [s]
    else
      var rest := Fields(s[i + 1..], c);
      var r := [s[..i]] + rest;
      assert r[0] == s[..i] && r[1..] == rest;
      assert Join(r, [c]) == s[..i] + [c] + Join(rest, [c]);
      assert s == s[..i] + [c] + s[i + 1..];
      assert forall k :: 1 <= k < |r| ==> r[k] == rest[k - 1];
      r
  }

  /** Drops empty strings from the end, as `split` does with limit 0. */
  function DropTrailingEmpty(parts: seq<string>): (r: seq<string>)
    ensures |r| <= |parts| && r == parts[..|r|]
    ensures |r| == 0 || r[|r| - 1] != ""
    ensures forall k :: |r| <= k < |parts| ==> parts[k] == ""
  {
    if |parts| == 0 then []
    else if parts[|parts| - 1] == "" then DropTrailingEmpty(parts[..|parts| - 1])
    else parts
  }

  /**
   * `s.split(String.valueOf(c))`. With no match the result is `[s]`, even
   * for the empty string; otherwise trailing empty fields are removed,
   * which leaves nothing at all when `s` is made of separators only.
   */
  function Split(s: string, c: char): (r: seq<string>)
    ensures c !in s ==> r == [s]
    ensures forall k :: 0 <= k < |r| ==> c !in r[k]
  {
    if c !in s then [s] else DropTrailingEmpty(Fields(s, c))
  }

  lemma {:induction false} FieldsOfJoin(parts: seq<string>, c: char)
    requires |parts| >= 1
    requires forall k :: 0 <= k < |parts| ==> c !in parts[k]
    ensures Fields(Join(parts, [c]), c) == parts
    decreases |parts|
  {
    if |parts| == 1 {
      assert IndexOfChar(parts[0], c) == -1;
    } else {
      var s := Join(parts, [c]);
      var tail := Join(parts[1..], [c]);
      assert s == parts[0] + [c] + tail;
      FirstSeparator(parts[0], tail, c);
      FieldsOfJoin(parts[1..], c);
      assert Fields(s, c) == [parts[0]] + Fields(tail, c);
      assert [parts[0]] + parts[1..] == parts;
    }
  }

  /** In `first + [c] + tail` with no `c` in `first`, the first `c` ends `first`. */
  lemma FirstSeparator(first: string, tail: string, c: char)
    requires c !in first
    ensures var s := first + [c] + tail;
            IndexOfChar(s, c) == |first| && s[..|first|] == first && s[|first| + 1..] == tail
  {
    var s := first + [c] + tail;
    assert s[|first|] == c;
    assert s[..|first|] == first;
  }

  /**
   * Splitting the separator-joined fields gives the fields back, provided
   * the last one is not empty (the one case Java's split loses) and there
   * are at least two of them (a single field containing no separator
   * comes back as itself anyway).
   */
  lemma SplitOfJoin(parts: seq<string>, c: char)
    requires |parts| >= 1 && parts[|parts| - 1] != ""
    requires forall k :: 0 <= k < |parts| ==> c !in parts[k]
    ensures Split(Join(parts, [c]), c) == parts
  {
    FieldsOfJoin(parts, c);
    var s := Join(parts, [c]);
    if c in s {
      assert Split(s, c) == DropTrailingEmpty(parts);
    } else {
      if |parts| > 1 {
        JoinContainsSeparator(parts, c);
      }
    }
  }

  lemma JoinContainsSeparator(parts: seq<string>, c: char)
    requires |parts| > 1
    ensures c in Join(parts, [c])
  {
    var s := Join(parts, [c]);
    assert s == parts[0] + [c] + Join(parts[1..], [c]);
    assert s[|parts[0]|] == c;
  }

  // ---------------------------------------------------------------------
  // trim, equalsIgnoreCase, compareTo
  // ---------------------------------------------------------------------

  /** Characters `String.trim` removes: every code unit up to U+0020. */
  predicate IsTrimmable(c: char)
  {
    c <= ' '
  }

  function TrimStart(s: string): (r: string)
    ensures |r| <= |s| && r == s[|s| - |r|..]
    ensures |r| == 0 || !IsTrimmable(r[0])
    ensures forall k :: 0 <= k < |s| - |r| ==> IsTrimmable(s[k])
  {
    if |s| == 0 then s
    else if IsTrimmable(s[0]) then TrimStart(s[1..])
    else s
  }

  function TrimEnd(s: string): (r: string)
    ensures |r| <= |s| && r == s[..|r|]
    ensures |r| == 0 || !IsTrimmable(r[|r| - 1])
    ensures forall k :: |r| <= k < |s| ==> IsTrimmable(s[k])
  {
    if |s| == 0 then s
    else if IsTrimmable(s[|s| - 1]) then TrimEnd(s[..|s| - 1])
    else s
  }

  /** `String.trim`. */
  function Trim(s: string): string
  {
    TrimEnd(TrimStart(s))
  }

  lemma TrimEmptyIff(s: string)
    ensures Trim(s) == "" <==> forall k :: 0 <= k < |s| ==> IsTrimmable(s[k])
  {
  }

  /** ASCII case folding; the model does not fold other scripts. */
  function ToLowerAscii(c: char): char
  {
    if 'A' <= c <= 'Z' then (c as int + 32) as char else c
  }

  function ToLowerAsciiString(s: string): (r: string)
    ensures |r| == |s|
    ensures forall k :: 0 <= k < |s| ==> r[k] == ToLowerAscii(s[k])
  {
    if |s| == 0 then "" else [ToLowerAscii(s[0])] + ToLowerAsciiString(s[1..])
  }

  /** `String.equalsIgnoreCase`, restricted to ASCII letters. */
  predicate EqualsIgnoreCase(a: string, b: string)
  {
    ToLowerAsciiString(a) == ToLowerAsciiString(b)
  }

  /** Strings equal letter by letter up to case are equal ignoring case. */
  lemma EqualsIgnoreCaseByChar(a: string, b: string)
    requires |a| == |b|
    requires forall k :: 0 <= k < |a| ==> ToLowerAscii(a[k]) == ToLowerAscii(b[k])
    ensures EqualsIgnoreCase(a, b)
  {
    var x, y := ToLowerAsciiString(a), ToLowerAsciiString(b);
    assert forall k :: 0 <= k < |x| ==> x[k] == y[k];
  }

  /**
   * `String.compareTo`: the difference of the first differing code
   * units, or of the lengths when one string is a prefix of the other.
   */
  function CompareTo(a: string, b: string): (r: int)
    ensures r == 0 <==> a == b
  {
    if |a| == 0 || |b| == 0 then |a| - |b|
    else if a[0] != b[0] then a[0] as int - b[0] as int
    else
      var r := CompareTo(a[1..], b[1..]);
      assert a == [a[0]] + a[1..] && b == [b[0]] + b[1..];
      r
  }

  lemma {:induction false} CompareToAntisymmetric(a: string, b: string)
    ensures CompareTo(a, b) == -CompareTo(b, a)
    decreases |a|
  {
    if |a| > 0 && |b| > 0 && a[0] == b[0] {
      CompareToAntisymmetric(a[1..], b[1..]);
    }
  }

  lemma {:induction false} CompareToTransitive(a: string, b: string, c: string)
    requires CompareTo(a, b) < 0 && CompareTo(b, c) < 0
    ensures CompareTo(a, c) < 0
    decreases |a|
  {
    if |a| == 0 || |b| == 0 || |c| == 0 {
    } else if a[0] == b[0] && b[0] == c[0] {
      CompareToTransitive(a[1..], b[1..], c[1..]);
    }
  }

  lemma CompareToEmptyLast(s: string)
    ensures CompareTo(s, "") > 0 <==> s != ""
  {
  }

  // ---------------------------------------------------------------------
  // Fixed-width integers
  // ---------------------------------------------------------------------

  const INT_MIN: int := -0x8000_0000
  const INT_MAX: int := 0x7fff_ffff
  const LONG_MIN: int := -0x8000_0000_0000_0000
  const LONG_MAX: int := 0x7fff_ffff_ffff_ffff

  predicate IsInt(x: int) { INT_MIN <= x <= INT_MAX }
  predicate IsLong(x: int) { LONG_MIN <= x <= LONG_MAX }

  /** Two's-complement narrowing to 32 bits (`(int)` of a wider value). */
  function ToInt(x: int): (r: int)
    ensures IsInt(r)
    ensures (x - r) % 0x1_0000_0000 == 0
    ensures IsInt(x) ==> r == x
  {
    var m := x % 0x1_0000_0000;
    if m > INT_MAX then m - 0x1_0000_0000 else m
  }

  /** Two's-complement narrowing to 64 bits. */
  function ToLong(x: int): (r: int)
    ensures IsLong(r)
    ensures (x - r) % 0x1_0000_0000_0000_0000 == 0
    ensures IsLong(x) ==> r == x
  {
    var m := x % 0x1_0000_0000_0000_0000;
    if m > LONG_MAX then m - 0x1_0000_0000_0000_0000 else m
  }

  function Abs(x: int): nat { if x < 0 then -x else x }

  /** Java's `/`: the quotient rounded toward zero. */
  function JavaDiv(a: int, b: int): (q: int)
    requires b != 0
  {
    var m := Abs(a) / Abs(b);
    if (a < 0) != (b < 0) then -m else m
  }

  lemma MulNegations(x: int, y: int)
    ensures (-x) * (-y) == x * y && (-x) * y == -(x * y) && x * (-y) == -(x * y)
  {
  }

  /**
   * The defining property of Java's integer division (JLS 15.17.2): the
   * remainder `a - q * b` is smaller than the divisor in magnitude and is
   * never of the opposite sign to the dividend.
   */
  lemma JavaDivTruncates(a: int, b: int)
    requires b != 0
    ensures var r := a - JavaDiv(a, b) * b;
            Abs(r) < Abs(b) && (r == 0 || ((r < 0) <==> (a < 0)))
  {
    var x: int, y: int := Abs(a), Abs(b);
    var m: int, e: int := x / y, x % y;
    assert x == m * y + e && 0 <= e < y;
    var q := JavaDiv(a, b);
    if a >= 0 && b > 0 {
      assert q == m && a == x && b == y;
    } else if a >= 0 && b < 0 {
      assert q == -m && a == x && b == -y;
      MulNegations(m, y);
    } else if a < 0 && b > 0 {
      assert q == -m && a == -x && b == y;
      MulNegations(m, y);
    } else {
      assert q == m && a == -x && b == -y;
      MulNegations(m, y);
    }
  }

  // ---------------------------------------------------------------------
  // Decimal text of integers
  // ---------------------------------------------------------------------

  predicate IsDigit(c: char) { '0' <= c <= '9' }

  function DigitValue(c: char): nat
    requires IsDigit(c)
  {
    c as int - '0' as int
  }

  function DigitChar(d: nat): (c: char)
    requires d < 10
    ensures IsDigit(c) && DigitValue(c) == d
  {
    ('0' as int + d) as char
  }

  /** Decimal digits of `n` without leading zeros (`"0"` for zero). */
  function NatToString(n: nat): (s: string)
    ensures |s| >= 1
    ensures forall k :: 0 <= k < |s| ==> IsDigit(s[k])
    decreases n
  {
    if n < 10 then [DigitChar(n)] else NatToString(n / 10) + [DigitChar(n % 10)]
  }

  /** `String.valueOf(int)` / `Long.toString`. */
  function IntToString(x: int): string
  {
    if x < 0 then "-" + NatToString(-x) else NatToString(x)
  }

  /** Value of a non-empty run of decimal digits. */
  function DigitsValue(s: string): nat
    requires forall k :: 0 <= k < |s| ==> IsDigit(s[k])
  {
    if |s| == 0 then 0 else DigitsValue(s[..|s| - 1]) * 10 + DigitValue(s[|s| - 1])
  }

  predicate AllDigits(s: string)
  {
    forall k :: 0 <= k < |s| ==> IsDigit(s[k])
  }

  /**
   * `Long.valueOf(String)` / `Long.parseLong`: an optional sign followed by
   * at least one decimal digit, within the range of a long; anything else
   * is a `NumberFormatException`, modelled as `None`.
   */
  function ParseLong(s: string): (r: Option<int>)
    ensures r.Some? ==> IsLong(r.value)
  {
    var neg := |s| > 0 && s[0] == '-';
    var body := if |s| > 0 && (s[0] == '-' || s[0] == '+') then s[1..] else s;
    if |body| == 0 || !AllDigits(body) then None
    else
      var v := if neg then -(DigitsValue(body) as int) else DigitsValue(body);
      if IsLong(v) then Some(v) else None
  }

  lemma {:induction false} DigitsOfNat(n: nat)
    ensures DigitsValue(NatToString(n)) == n
    decreases n
  {
    if n >= 10 {
      var s := NatToString(n);
      assert s[..|s| - 1] == NatToString(n / 10);
      DigitsOfNat(n / 10);
    }
  }

  /** Rendering a long in decimal and parsing it back gives the value. */
  lemma ParseLongOfIntToString(x: int)
    requires IsLong(x)
    ensures ParseLong(IntToString(x)) == Some(x)
  {
    if x < 0 {
      ParseNegative(-x);
    } else {
      ParseNonNegative(x);
    }
  }

  lemma ParseNonNegative(n: nat)
    requires n <= LONG_MAX
    ensures ParseLong(NatToString(n)) == Some(n)
  {
    var s := NatToString(n);
    assert IsDigit(s[0]);
    assert AllDigits(s);
    DigitsOfNat(n);
  }

  lemma ParseNegative(n: nat)
    requires 0 < n <= -LONG_MIN
    ensures ParseLong("-" + NatToString(n)) == Some(-(n as int))
  {
    var s := "-" + NatToString(n);
    assert s[1..] == NatToString(n);
    assert AllDigits(s[1..]);
    DigitsOfNat(n);
  }
}
