/**
 String helpers shared by the model: decimal rendering and parsing of integers,
 zero padding (Python's `{n:04d}`, JavaScript's `padStart`), repetition
 (Python's `str * n`), joining and splitting on a separator, ASCII case mapping
 and substring search (`in` / `includes`).
 */
module Text {

  predicate IsDigit(c: char) {
    '0' <= c <= '9'
  }

  predicate AllDigits(s: string) {
    forall i :: 0 <= i < |s| ==> IsDigit(s[i])
  }

  function DigitChar(d: nat): (c: char)
    requires d < 10
    ensures IsDigit(c)
  {
    ('0' as int + d) as char
  }

  function DigitValue(c: char): (d: nat)
    requires IsDigit(c)
    ensures d < 10 && DigitChar(d) == c
  {
    c as int - '0' as int
  }

  /** Decimal text of a natural number, without leading zeros (`str(n)`, `String(n)`). */
  function NatToString(n: nat): (r: string)
    ensures |r| >= 1 && AllDigits(r)
    ensures |r| > 1 ==> r[0] != '0'
    ensures r[0] == '0' <==> n == 0
    ensures n < 10 <==> |r| == 1
  {
    if n < 10 then [DigitChar(n)] else NatToString(n / 10) + [DigitChar(n % 10)]
  }

  /** Value of a string of decimal digits; leading zeros are allowed and the empty string reads as 0. */
  function ParseNat(s: string): nat
    requires AllDigits(s)
  {
    if |s| == 0 then 0 else ParseNat(s[..|s| - 1]) * 10 + DigitValue(s[|s| - 1])
  }

  lemma {:induction false} ParseNatToString(n: nat)
    ensures ParseNat(NatToString(n)) == n
  {
    if n >= 10 {
      var s := NatToString(n / 10);
      var r := NatToString(n);
      assert r == s + [DigitChar(n % 10)];
      assert r[..|r| - 1] == s;
      ParseNatToString(n / 10);
    }
  }

  function Pow10(k: nat): (p: nat)
    ensures p >= 1
  {
    if k == 0 then 1 else 10 * Pow10(k - 1)
  }

  lemma {:induction false} NatToStringLength(n: nat, k: nat)
    requires k >= 1 && n < Pow10(k)
    ensures |NatToString(n)| <= k
  {
    if n >= 10 {
      assert k >= 2;
      NatToStringLength(n / 10, k - 1);
    }
  }

  /** Python `str(i)` / JavaScript `String(i)` of an integer. */
  function IntToString(i: int): (r: string)
    ensures CanonicalIntText(r)
    ensures i >= 0 <==> r[0] != '-'
  {
    if i < 0 then
      var digits := NatToString(-i);
      assert ("-" + digits)[1..] == digits;
      "-" + digits
    else NatToString(i)
  }

  predicate IsIntText(s: string) {
    || (|s| >= 1 && AllDigits(s))
    || (|s| >= 2 && s[0] == '-' && AllDigits(s[1..]))
  }

  /** Integer text as `str` writes it: no leading zero, and no "-0". */
  predicate CanonicalIntText(s: string) {
    && IsIntText(s)
    && (s[0] == '-' ==> s[1] != '0')
    && (s[0] != '-' && |s| > 1 ==> s[0] != '0')
  }

  function ParseInt(s: string): int
    requires IsIntText(s)
  {
    if s[0] == '-' then -(ParseNat(s[1..]) as int) else ParseNat(s)
  }

  lemma IntToStringRoundTrip(i: int)
    ensures ParseInt(IntToString(i)) == i
  {
    var r := IntToString(i);
    if i < 0 {
      var digits := NatToString(-i);
      assert r == "-" + digits;
      assert r[0] == '-' && r[1..] == digits;
      ParseNatToString(-i);
      assert ParseInt(r) == -(ParseNat(digits) as int);
    } else {
      assert r == NatToString(i) && r[0] != '-';
      ParseNatToString(i);
      assert ParseInt(r) == ParseNat(r);
    }
  }

  /** Digits without a leading zero denote a positive number when there is more than one of them, or start with a non-zero digit. */
  lemma {:induction false} ParseNatLeadingDigit(s: string)
    requires |s| >= 1 && AllDigits(s) && s[0] != '0'
    ensures ParseNat(s) >= 1
    decreases |s|
  {
    if |s| > 1 {
      ParseNatLeadingDigit(s[..|s| - 1]);
    }
  }

  /** Canonical digits are exactly what `NatToString` writes for their value. */
  lemma {:induction false} NatToStringOfParse(s: string)
    requires |s| >= 1 && AllDigits(s) && (|s| > 1 ==> s[0] != '0')
    ensures NatToString(ParseNat(s)) == s
    decreases |s|
  {
    var t := s[..|s| - 1];
    var d := DigitValue(s[|s| - 1]);
    if |s| == 1 {
      assert ParseNat(t) == 0;
      assert NatToString(ParseNat(s)) == [DigitChar(d)];
    } else {
      assert t[0] == s[0];
      ParseNatLeadingDigit(t);
      NatToStringOfParse(t);
      var n := ParseNat(s);
      assert n == ParseNat(t) * 10 + d && n >= 10;
      assert n / 10 == ParseNat(t) && n % 10 == d;
      assert s == t + [s[|s| - 1]];
    }
  }

  /** The converse round trip: canonical integer text is the rendering of the value it denotes, so it is unique. */
  lemma CanonicalIntTextRoundTrip(s: string)
    requires CanonicalIntText(s)
    ensures IntToString(ParseInt(s)) == s
  {
    if s[0] == '-' {
      var digits := s[1..];
      assert digits[0] == s[1];
      NatToStringOfParse(digits);
      ParseNatLeadingDigit(digits);
      assert s == "-" + digits;
    } else {
      NatToStringOfParse(s);
    }
  }

  /** Python's `c * n`: `n` copies of `c`, and the empty string when `n <= 0`. */
  function Repeat(c: char, n: int): (r: string)
    ensures |r| == if n <= 0 then 0 else n
    ensures forall i :: 0 <= i < |r| ==> r[i] == c
  {
    if n <= 0 then [] else [c] + Repeat(c, n - 1)
  }

  /** Left padding with `c` up to `width` characters; longer strings are left as they are. */
  function PadStart(s: string, width: int, c: char): (r: string)
    ensures |r| == if |s| >= width then |s| else width
    ensures r[|r| - |s|..] == s
    ensures forall i :: 0 <= i < |r| - |s| ==> r[i] == c
  {
    if |s| >= width then s else Repeat(c, width - |s|) + s
  }

  lemma {:induction false} ParseNatLeadingZeros(z: string, s: string)
    requires forall i :: 0 <= i < |z| ==> z[i] == '0'
    requires AllDigits(s)
    ensures AllDigits(z + s)
    ensures ParseNat(z + s) == ParseNat(s)
    decreases |s|
  {
    if |s| == 0 {
      assert z + s == z;
      ParseNatAllZeros(z);
    } else {
      var t := z + s;
      assert t[..|t| - 1] == z + s[..|s| - 1];
      assert t[|t| - 1] == s[|s| - 1];
      ParseNatLeadingZeros(z, s[..|s| - 1]);
    }
  }

  lemma {:induction false} ParseNatAllZeros(z: string)
    requires forall i :: 0 <= i < |z| ==> z[i] == '0'
    ensures AllDigits(z) && ParseNat(z) == 0
  {
    if |z| > 0 {
      ParseNatAllZeros(z[..|z| - 1]);
    }
  }

  lemma AllDigitsAppend(a: string, b: string)
    requires AllDigits(a) && AllDigits(b)
    ensures AllDigits(a + b)
  {
    forall i | 0 <= i < |a + b| ensures IsDigit((a + b)[i]) {
      if i >= |a| {
        assert (a + b)[i] == b[i - |a|];
      }
    }
  }

  /** The pieces of a three-part concatenation are its slices at the piece boundaries. */
  lemma SlicesOfConcat(a: string, b: string, c: string)
    ensures var s := a + b + c;
      && s[..|a|] == a
      && s[|a|..|a| + |b|] == b
      && s[|a| + |b|..] == c
  {
  }

  /** Length of `n`'s zero-padded text: the width, or the number of digits when that is larger. */
  function PaddedWidth(n: nat, width: int): nat {
    var digits := |NatToString(n)|;
    if digits >= width then digits else width
  }

  lemma PaddedWidthFits(n: nat, width: int)
    ensures width >= 1 && n < Pow10(width) ==> PaddedWidth(n, width) == width
  {
    if width >= 1 && n < Pow10(width) {
      NatToStringLength(n, width);
    }
  }

  /**
   Zero-padded decimal text of `n` (`{n:0<width>d}`, `String(n).padStart(width, '0')`):
   exactly `width` digits when `n` fits, otherwise the plain digits, never more.
   */
  function ZeroPadded(n: nat, width: int): (r: string)
    ensures AllDigits(r) && ParseNat(r) == n
    ensures |r| == PaddedWidth(n, width) && |r| >= width
    ensures width >= 1 && n < Pow10(width) ==> |r| == width
  {
    PaddedWidthFits(n, width);
    var digits := NatToString(n);
    var r := PadStart(digits, width, '0');
    assert r == r[..|r| - |digits|] + digits;
    ParseNatLeadingZeros(r[..|r| - |digits|], digits);
    ParseNatToString(n);
    r
  }

  /** Python `sep.join(xs)` and JavaScript `xs.join(sep)`. */
  function Join(xs: seq<string>, sep: string): string
  {
    if |xs| == 0 then ""
    else if |xs| == 1 then xs[0]
    else xs[0] + sep + Join(xs[1..], sep)
  }

  /** Joining one more piece adds the separator and that piece at the end. */
  lemma {:induction false} JoinSnoc(xs: seq<string>, x: string, sep: string)
    requires |xs| >= 1
    ensures Join(xs + [x], sep) == Join(xs, sep) + sep + x
    decreases |xs|
  {
    if |xs| > 1 {
      assert (xs + [x])[1..] == xs[1..] + [x];
      JoinSnoc(xs[1..], x, sep);
    }
  }

  /** Python `s.split(c)` / JavaScript `s.split(c)`: always at least one piece. */
  function Split(s: string, c: char): (r: seq<string>)
    ensures |r| >= 1
  {
    if |s| == 0 then [""]
    else
      var rest := Split(s[1..], c);
      if s[0] == c then [""] + rest else [[s[0]] + rest[0]] + rest[1..]
  }

  lemma {:induction false} SplitWithoutSeparator(a: string, c: char)
    requires c !in a
    ensures Split(a, c) == [a]
  {
    if |a| > 0 {
      SplitWithoutSeparator(a[1..], c);
      assert [a[0]] + a[1..] == a;
    }
  }

  lemma {:induction false} SplitAtSeparator(a: string, c: char, b: string)
    requires c !in a
    ensures Split(a + [c] + b, c) == [a] + Split(b, c)
  {
    var s := a + [c] + b;
    if |a| == 0 {
      assert s[1..] == b;
    } else {
      assert s[1..] == a[1..] + [c] + b;
      SplitAtSeparator(a[1..], c, b);
      assert [a[0]] + a[1..] == a;
    }
  }

  /** Splitting a join on a one-character separator recovers the pieces when no piece contains it. */
  lemma {:induction false} SplitJoin(xs: seq<string>, c: char)
    requires |xs| >= 1
    requires forall i :: 0 <= i < |xs| ==> c !in xs[i]
    ensures Split(Join(xs, [c]), c) == xs
  {
    if |xs| == 1 {
      SplitWithoutSeparator(xs[0], c);
    } else {
      SplitJoin(xs[1..], c);
      SplitAtSeparator(xs[0], c, Join(xs[1..], [c]));
    }
  }

  function LowerChar(c: char): char {
    if 'A' <= c <= 'Z' then (c as int + 32) as char else c
  }

  function UpperChar(c: char): char {
    if 'a' <= c <= 'z' then (c as int - 32) as char else c
  }

  /** ASCII `toLowerCase` / `lower()`. */
  function ToLower(s: string): (r: string)
    ensures |r| == |s|
    ensures forall i :: 0 <= i < |s| ==> r[i] == LowerChar(s[i])
  {
    seq(|s|, i requires 0 <= i < |s| => LowerChar(s[i]))
  }

  /** ASCII `toUpperCase` / `upper()`. */
  function ToUpper(s: string): (r: string)
    ensures |r| == |s|
    ensures forall i :: 0 <= i < |s| ==> r[i] == UpperChar(s[i])
  {
    seq(|s|, i requires 0 <= i < |s| => UpperChar(s[i]))
  }

  /** After lowering, no upper-case ASCII letter is left, so lowering twice changes nothing. */
  lemma ToLowerIdempotent(s: string)
    ensures ToLower(ToLower(s)) == ToLower(s)
    ensures forall i :: 0 <= i < |s| ==> !('A' <= ToLower(s)[i] <= 'Z')
  {
  }

  predicate IsPrefix(p: string, s: string) {
    |p| <= |s| && s[..|p|] == p
  }

  /** `needle in hay` (Python) / `hay.includes(needle)` (JavaScript). */
  predicate Contains(hay: string, needle: string)
    decreases |hay|
  {
    IsPrefix(needle, hay) || (|hay| > 0 && Contains(hay[1..], needle))
  }

  /** `needle` occurs in `hay` starting at position `i`. */
  predicate OccursAt(hay: string, needle: string, i: int) {
    0 <= i <= |hay| - |needle| && hay[i..i + |needle|] == needle
  }

  /** `Contains` holds exactly when the needle occurs at some position of the haystack. */
  lemma {:induction false} ContainsOccurs(hay: string, needle: string)
    ensures Contains(hay, needle) <==> exists i :: OccursAt(hay, needle, i)
    decreases |hay|
  {
    if IsPrefix(needle, hay) {
      assert OccursAt(hay, needle, 0);
    } else if |hay| > 0 {
      ContainsOccurs(hay[1..], needle);
      if Contains(hay[1..], needle) {
        var i :| OccursAt(hay[1..], needle, i);
        assert OccursAt(hay, needle, i + 1);
      }
      if exists i :: OccursAt(hay, needle, i) {
        var i :| OccursAt(hay, needle, i);
        assert i != 0;
        assert OccursAt(hay[1..], needle, i - 1);
      }
    }
  }

  /** A literal occurrence is also an occurrence once both sides are lower-cased. */
  lemma {:induction false} ContainsLowered(hay: string, needle: string)
    requires Contains(hay, needle)
    ensures Contains(ToLower(hay), ToLower(needle))
  {
    ContainsOccurs(hay, needle);
    var i :| OccursAt(hay, needle, i);
    assert ToLower(hay)[i..i + |needle|] == ToLower(needle);
    assert OccursAt(ToLower(hay), ToLower(needle), i);
    ContainsOccurs(ToLower(hay), ToLower(needle));
  }
}
