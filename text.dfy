/** Characters and strings as the script's Python sees them: whitespace,
    decimal digits, `str.split`, the numeric conversions `int()` and
    `float()` with the whitespace they skip, and the `%d` / `%f` renderings
    of numbers. */
module Text {
  import opened Wrappers

  /** `str.isspace()`; a `\s` in a regex over `str` matches exactly these. */
  predicate IsSpace(c: char) {
    || c == ' '
    || '\t' <= c <= '\r'
    || '\U{1C}' <= c <= '\U{1F}'
    || c == '\U{85}' || c == '\U{A0}' || c == '\U{1680}'
    || '\U{2000}' <= c <= '\U{200A}'
    || c == '\U{2028}' || c == '\U{2029}' || c == '\U{202F}'
    || c == '\U{205F}' || c == '\U{3000}'
  }

  /** An ASCII decimal digit (what `\d`, `int()` and `float()` accept here). */
  predicate IsDigit(c: char) {
    '0' <= c <= '9'
  }

  predicate AllDigits(s: string) {
    forall i | 0 <= i < |s| :: IsDigit(s[i])
  }

  /** `s` does not contain `c`. */
  predicate Free(s: string, c: char) {
    forall i | 0 <= i < |s| :: s[i] != c
  }

  function DigitValue(c: char): nat
    requires IsDigit(c)
  {
    c as int - '0' as int
  }

  function DigitChar(d: nat): (c: char)
    requires d < 10
    ensures IsDigit(c) && DigitValue(c) == d
  {
    ('0' as int + d) as char
  }

  /** The number a run of decimal digits denotes, most significant first. */
  function DigitsValue(s: string): nat
    requires AllDigits(s)
  {
    if s == [] then 0 else DigitsValue(s[..|s| - 1]) * 10 + DigitValue(s[|s| - 1])
  }

  /** x * 10^p, one factor of ten at a time. */
  function Scale(x: int, p: nat): int {
    if p == 0 then x else 10 * Scale(x, p - 1)
  }

  /** `str(n)` for a non-negative integer: its shortest decimal digits. */
  function Decimal(n: nat): string {
    if n < 10 then [DigitChar(n)] else Decimal(n / 10) + [DigitChar(n % 10)]
  }

  /** `str(n)` is a non-empty run of digits denoting n. */
  lemma {:induction false} DecimalDigits(n: nat)
    ensures |Decimal(n)| >= 1 && AllDigits(Decimal(n))
    ensures DigitsValue(Decimal(n)) == n
  {
    if n >= 10 {
      DecimalDigits(n / 10);
      var r := Decimal(n);
      assert r[..|r| - 1] == Decimal(n / 10);
    }
  }

  function Zeros(k: nat): (r: string)
    ensures |r| == k && AllDigits(r)
  {
    seq(k, _ => '0')
  }

  lemma {:induction false} ZerosThenDigits(k: nat, s: string)
    requires AllDigits(s)
    ensures AllDigits(Zeros(k) + s)
    ensures DigitsValue(Zeros(k) + s) == DigitsValue(s)
  {
    var t := Zeros(k) + s;
    if s == [] {
      assert t == Zeros(k);
      if k > 0 {
        assert t[..k - 1] == Zeros(k - 1);
        ZerosThenDigits(k - 1, []);
        assert Zeros(k - 1) + [] == Zeros(k - 1);
      }
    } else {
      ZerosThenDigits(k, s[..|s| - 1]);
      assert t[..|t| - 1] == Zeros(k) + s[..|s| - 1];
    }
  }

  /** `s` padded on the left with '0' up to width `w` (the `0` flag of `%`). */
  function ZeroPad(s: string, w: nat): (r: string)
    ensures |r| >= w && |r| >= |s|
  {
    if |s| >= w then s else Zeros(w - |s|) + s
  }

  lemma {:induction false} ZeroPadDigits(s: string, w: nat)
    requires AllDigits(s)
    ensures AllDigits(ZeroPad(s, w)) && |ZeroPad(s, w)| >= |s| && |ZeroPad(s, w)| >= w
    ensures DigitsValue(ZeroPad(s, w)) == DigitsValue(s)
  {
    if |s| < w {
      ZerosThenDigits(w - |s|, s);
    }
  }

  /** The `0` flag with a sign: a '-' in front of negative numbers, zero
      padding between the sign and the digits, `w` the minimum total width. */
  function SignedPad(neg: bool, digits: string, w: nat): string {
    if neg then "-" + ZeroPad(digits, if w > 0 then w - 1 else 0) else ZeroPad(digits, w)
  }

  /** Python's `'%0{w}d' % n`: the decimal digits of |n| after a '-' for a
      negative n, zero-padded so that the whole text is at least `w` long.
      The width is a minimum only: `'%02d' % 100` is "100". */
  function FormatInt(n: int, w: nat): string {
    SignedPad(n < 0, Decimal(if n < 0 then -n else n), w)
  }

  /** What `%0wd` writes: at least `w` and at least one character, all
      digits but for a leading '-' exactly when n is negative, and a digit
      last. */
  lemma {:induction false} FormatIntShape(n: int, w: nat)
    ensures var r := FormatInt(n, w);
      && |r| >= w && |r| >= 1
      && (forall i | 0 <= i < |r| :: IsDigit(r[i]) || (i == 0 && r[i] == '-'))
      && IsDigit(r[|r| - 1])
      && (n >= 0 <==> IsDigit(r[0]))
  {
    var a: nat := if n < 0 then -n else n;
    var pad := if n < 0 then (if w > 0 then w - 1 else 0) else w;
    var s := ZeroPad(Decimal(a), pad);
    DecimalDigits(a);
    ZeroPadDigits(Decimal(a), pad);
    if n < 0 {
      var r := "-" + s;
      assert forall i | 1 <= i < |r| :: r[i] == s[i - 1];
    }
  }

  /** `str(n)` for any integer. */
  function Str(n: int): string {
    FormatInt(n, 0)
  }

  function LowerChar(c: char): char {
    if 'A' <= c <= 'Z' then (c as int + 32) as char else c
  }

  /** `str.lower()`, for the ASCII letters. */
  function Lower(s: string): string {
    seq(|s|, i requires 0 <= i < |s| => LowerChar(s[i]))
  }

  /** `sep.join(parts)` for a one-character separator. */
  function Join(parts: seq<string>, sep: char): string
    requires |parts| >= 1
  {
    if |parts| == 1 then parts[0] else parts[0] + [sep] + Join(parts[1..], sep)
  }

  /** `s.split(sep)` for a one-character separator: the pieces between the
      separators, empty pieces included. */
  function Split(s: string, sep: char): (r: seq<string>)
    ensures |r| >= 1
  {
    if s == [] then [""]
    else
      var rest := Split(s[1..], sep);
      if s[0] == sep then [""] + rest
      else [[s[0]] + rest[0]] + rest[1..]
  }

  /** `split` never returns an empty list, no piece holds the separator, and
      joining the pieces gives back `s`. */
  lemma {:induction false} SplitSpec(s: string, sep: char)
    ensures var r := Split(s, sep);
      && (forall k | 0 <= k < |r| :: Free(r[k], sep))
      && Join(r, sep) == s
  {
    if s != [] {
      SplitSpec(s[1..], sep);
      var rest := Split(s[1..], sep);
      var r := Split(s, sep);
      if s[0] == sep {
        assert r[1..] == rest;
      } else {
        assert r[1..] == rest[1..];
        assert forall i | 1 <= i < |r[0]| :: r[0][i] == rest[0][i - 1];
        if |rest| > 1 {
          assert rest == [rest[0]] + rest[1..];
        }
      }
    }
  }

  /** Splitting a piece free of the separator, followed by a separator, peels
      that piece off. */
  lemma {:induction false} SplitPiece(a: string, sep: char, t: string)
    requires Free(a, sep)
    ensures Split(a + [sep] + t, sep) == [a] + Split(t, sep)
  {
    var s := a + [sep] + t;
    if a == [] {
      assert s[0] == sep && s[1..] == t;
    } else {
      assert s[0] == a[0] && s[1..] == a[1..] + [sep] + t;
      SplitPiece(a[1..], sep, t);
      assert [a[0]] + a[1..] == a;
    }
  }

  lemma {:induction false} SplitFree(a: string, sep: char)
    requires Free(a, sep)
    ensures Split(a, sep) == [a]
  {
    if a != [] {
      SplitFree(a[1..], sep);
      assert [a[0]] + a[1..] == a;
    }
  }

  /** `split` undoes `join` when no piece holds the separator. */
  lemma {:induction false} SplitJoin(parts: seq<string>, sep: char)
    requires |parts| >= 1
    requires forall k | 0 <= k < |parts| :: Free(parts[k], sep)
    ensures Split(Join(parts, sep), sep) == parts
  {
    if |parts| == 1 {
      SplitFree(parts[0], sep);
    } else {
      SplitJoin(parts[1..], sep);
      SplitPiece(parts[0], sep, Join(parts[1..], sep));
      assert [parts[0]] + parts[1..] == parts;
    }
  }

  /** The end of the run of whitespace that starts at `i`. */
  function SpaceRunEnd(s: string, i: nat): (j: nat)
    requires i <= |s|
    ensures i <= j <= |s|
    decreases |s| - i
  {
    if i < |s| && IsSpace(s[i]) then SpaceRunEnd(s, i + 1) else i
  }

  /** The start of the run of whitespace that ends at `j`. */
  function SpaceRunStart(s: string, j: nat): (i: nat)
    requires j <= |s|
    ensures i <= j
  {
    if j > 0 && IsSpace(s[j - 1]) then SpaceRunStart(s, j - 1) else j
  }

  /** `s` without its leading whitespace. */
  function TrimStart(s: string): string {
    s[SpaceRunEnd(s, 0)..]
  }

  /** `s` without its trailing whitespace. */
  function TrimEnd(s: string): string {
    s[..SpaceRunStart(s, |s|)]
  }

  /** The text that `int()` and `float()` read: `s` without the whitespace
      they skip around it. */
  function Strip(s: string): string {
    TrimEnd(TrimStart(s))
  }

  lemma {:induction false} SpaceRunEndSpec(s: string, i: nat)
    requires i <= |s|
    ensures var j := SpaceRunEnd(s, i);
      (forall k | i <= k < j :: IsSpace(s[k])) && (j < |s| ==> !IsSpace(s[j]))
    decreases |s| - i
  {
    if i < |s| && IsSpace(s[i]) {
      SpaceRunEndSpec(s, i + 1);
    }
  }

  lemma {:induction false} SpaceRunStartSpec(s: string, j: nat)
    requires j <= |s|
    ensures var i := SpaceRunStart(s, j);
      (forall k | i <= k < j :: IsSpace(s[k])) && (i > 0 ==> !IsSpace(s[i - 1]))
  {
    if j > 0 && IsSpace(s[j - 1]) {
      SpaceRunStartSpec(s, j - 1);
    }
  }

  /** `TrimStart` removes exactly the leading whitespace: what remains is a
      suffix, everything cut was whitespace, and it starts with none. */
  lemma {:induction false} TrimStartSpec(s: string)
    ensures var r := TrimStart(s);
      && |r| <= |s| && r == s[|s| - |r|..]
      && (forall i | 0 <= i < |s| - |r| :: IsSpace(s[i]))
      && (r != [] ==> !IsSpace(r[0]))
  {
    SpaceRunEndSpec(s, 0);
  }

  /** `TrimEnd` removes exactly the trailing whitespace. */
  lemma {:induction false} TrimEndSpec(s: string)
    ensures var r := TrimEnd(s);
      && |r| <= |s| && r == s[..|r|]
      && (forall i | |r| <= i < |s| :: IsSpace(s[i]))
      && (r != [] ==> !IsSpace(r[|r| - 1]))
  {
    SpaceRunStartSpec(s, |s|);
  }

  lemma {:induction false} StripUnpadded(s: string)
    requires s != [] && !IsSpace(s[0]) && !IsSpace(s[|s| - 1])
    ensures Strip(s) == s
  {
    assert TrimStart(s) == s;
  }

  /** The index of the first `c` in `s` at or after `i`, or |s|. */
  function IndexFrom(s: string, c: char, i: nat): (j: nat)
    requires i <= |s|
    ensures i <= j <= |s|
    decreases |s| - i
  {
    if i == |s| || s[i] == c then i else IndexFrom(s, c, i + 1)
  }

  /** The index of the first `c` in `s`, or |s| when there is none. */
  function IndexOf(s: string, c: char): (i: nat)
    ensures i <= |s|
  {
    IndexFrom(s, c, 0)
  }

  lemma {:induction false} IndexFromSpec(s: string, c: char, i: nat)
    requires i <= |s|
    ensures var j := IndexFrom(s, c, i);
      (forall k | i <= k < j :: s[k] != c) && (j < |s| ==> s[j] == c)
    decreases |s| - i
  {
    if i < |s| && s[i] != c {
      IndexFromSpec(s, c, i + 1);
    }
  }

  /** `IndexOf` finds the first `c`: none before it, `c` at it. */
  lemma {:induction false} IndexOfSpec(s: string, c: char)
    ensures var i := IndexOf(s, c);
      Free(s[..i], c) && (i < |s| ==> s[i] == c)
  {
    IndexFromSpec(s, c, 0);
  }

  /** `int(s)` for a `str`: optional surrounding whitespace, an optional sign,
      then one or more decimal digits. `None` where `int` raises. */
  function ParseInt(s: string): Option<int> {
    var t := Strip(s);
    if t != [] && (t[0] == '+' || t[0] == '-') then
      var d := t[1..];
      if d != [] && AllDigits(d) then
        Some(if t[0] == '-' then -(DigitsValue(d) as int) else DigitsValue(d))
      else None
    else if t != [] && AllDigits(t) then Some(DigitsValue(t))
    else None
  }

  /** The number k / 10^p. */
  function Shifted(k: int, p: nat): real {
    if p == 0 then k as real else Shifted(k, p - 1) / 10.0
  }

  /** The real x * 10^p. */
  function Unshift(x: real, p: nat): (r: real)
    ensures x >= 0.0 ==> r >= 0.0
  {
    if p == 0 then x else 10.0 * Unshift(x, p - 1)
  }

  /** Shifting k right by p places and back gives k; the shift keeps the sign
      and commutes with negation. */
  lemma {:induction false} ShiftedBack(k: int, p: nat)
    ensures Unshift(Shifted(k, p), p) == k as real
    ensures k >= 0 <==> Shifted(k, p) >= 0.0
    ensures -Shifted(k, p) == Shifted(-k, p)
  {
    if p > 0 {
      ShiftedBack(k, p - 1);
      UnshiftDivided(Shifted(k, p - 1), p - 1);
    }
  }

  lemma {:induction false} UnshiftDivided(x: real, p: nat)
    ensures Unshift(x / 10.0, p) * 10.0 == Unshift(x, p)
  {
    if p > 0 {
      UnshiftDivided(x, p - 1);
    }
  }

  /** The number written `whole.frac` in decimal: all its digits read as one
      whole number, shifted right by the length of the fraction. */
  function DecimalValue(whole: string, frac: string): real
    requires AllDigits(whole) && AllDigits(frac)
  {
    assert AllDigits(whole + frac) by {
      assert forall i | |whole| <= i < |whole + frac| :: (whole + frac)[i] == frac[i - |whole|];
    }
    Shifted(DigitsValue(whole + frac), |frac|)
  }

  /** Digits written after other digits multiply those by a power of ten. */
  lemma {:induction false} DigitsConcat(a: string, b: string)
    requires AllDigits(a) && AllDigits(b)
    ensures AllDigits(a + b)
    ensures DigitsValue(a + b) == Scale(DigitsValue(a), |b|) + DigitsValue(b)
  {
    assert forall i | |a| <= i < |a + b| :: (a + b)[i] == b[i - |a|];
    if b == [] {
      assert a + b == a;
    } else {
      var b' := b[..|b| - 1];
      DigitsConcat(a, b');
      assert (a + b)[..|a + b| - 1] == a + b';
      assert DigitsValue(a + b) == (Scale(DigitsValue(a), |b'|) + DigitsValue(b')) * 10 + DigitValue(b[|b| - 1]);
    }
  }

  /** The unsigned part of a `float()` literal: digits with at most one '.',
      and at least one digit. */
  function ParseUnsigned(s: string): Option<real> {
    var i := IndexOf(s, '.');
    var whole := s[..i];
    var frac := if i < |s| then s[i + 1..] else "";
    if AllDigits(whole) && AllDigits(frac) && |whole| + |frac| > 0 then
      Some(DecimalValue(whole, frac))
    else None
  }

  /** `float(s)` for a `str`: optional surrounding whitespace, an optional
      sign, then a decimal number. `None` where `float` raises. */
  function ParseFloat(s: string): Option<real> {
    var t := Strip(s);
    if t != [] && (t[0] == '+' || t[0] == '-') then
      match ParseUnsigned(t[1..])
      case None => None
      case Some(v) => Some(if t[0] == '-' then -v else v)
    else ParseUnsigned(t)
  }

  lemma {:induction false} UnsignedDigits(s: string)
    requires s != [] && AllDigits(s)
    ensures ParseUnsigned(s) == Some(DigitsValue(s) as real)
  {
    var i := IndexOf(s, '.');
    IndexOfSpec(s, '.');
    assert i == |s| by {
      assert forall j | 0 <= j < |s| :: s[j] != '.';
    }
    assert s[..i] == s;
    assert s + "" == s;
  }

  /** `s` padded to width `w` is some zeros and then `s`. */
  lemma {:induction false} ZeroPadIsZeros(s: string, w: nat)
    ensures ZeroPad(s, w) == Zeros(if |s| >= w then 0 else w - |s|) + s
  {
    if |s| >= w {
      assert Zeros(0) + s == s;
    }
  }

  /** `int()` of a run of digits is their value. */
  lemma {:induction false} IntOfDigits(s: string)
    requires s != [] && AllDigits(s)
    ensures ParseInt(s) == Some(DigitsValue(s) as int)
  {
    StripUnpadded(s);
  }

  /** `int()` of '-' and a run of digits is minus their value. */
  lemma {:induction false} IntOfNegatedDigits(s: string)
    requires s != [] && AllDigits(s)
    ensures ParseInt("-" + s) == Some(-(DigitsValue(s) as int))
  {
    var r := "-" + s;
    assert r[1..] == s;
    assert r[|r| - 1] == s[|s| - 1];
    StripUnpadded(r);
  }

  /** `int()` reads a sign-padded `str(a)` back as a or -a. */
  lemma {:induction false} IntOfSignedDecimal(neg: bool, a: nat, w: nat)
    ensures ParseInt(SignedPad(neg, Decimal(a), w)) == Some(if neg then -(a as int) else a as int)
  {
    var pad := if neg then (if w > 0 then w - 1 else 0) else w;
    var s := ZeroPad(Decimal(a), pad);
    assert s != [] && AllDigits(s) && DigitsValue(s) == a by {
      PaddedDecimal(a, pad);
    }
    assert SignedPad(neg, Decimal(a), w) == if neg then "-" + s else s;
    IntOfSignedPad(neg, s);
  }

  lemma {:induction false} IntOfSignedPad(neg: bool, s: string)
    requires s != [] && AllDigits(s)
    ensures ParseInt(if neg then "-" + s else s) == Some(if neg then -(DigitsValue(s) as int) else DigitsValue(s) as int)
  {
    if neg {
      IntOfNegatedDigits(s);
    } else {
      IntOfDigits(s);
    }
  }

  /** `str(a)`, zero-padded, is a non-empty run of digits denoting a. */
  lemma {:induction false} PaddedDecimal(a: nat, w: nat)
    ensures var s := ZeroPad(Decimal(a), w);
      s != [] && AllDigits(s) && DigitsValue(s) == a
  {
    DecimalDigits(a);
    ZeroPadDigits(Decimal(a), w);
  }

  /** `int()` reads back what `%0wd` writes. */
  lemma {:induction false} IntRoundTrip(n: int, w: nat)
    ensures ParseInt(FormatInt(n, w)) == Some(n)
  {
    IntOfSignedDecimal(n < 0, if n < 0 then -n else n, w);
  }

  /** A text starting and ending with a digit is read by `float()` as an
      unsigned number. */
  lemma {:induction false} FloatOfUnsigned(s: string)
    requires s != [] && IsDigit(s[0]) && IsDigit(s[|s| - 1])
    ensures ParseFloat(s) == ParseUnsigned(s)
  {
    StripUnpadded(s);
  }

  /** Rounding to the nearest integer, ties to the even one: how `%f` rounds
      the exact value of a float to the requested number of places. */
  function RoundHalfEven(x: real): (r: int)
    ensures -0.5 <= r as real - x <= 0.5
    ensures (r as real - x == 0.5 || x - r as real == 0.5) ==> r % 2 == 0
  {
    var f := x.Floor;
    var d := x - f as real;
    if d < 0.5 then f
    else if d > 0.5 then f + 1
    else if f % 2 == 0 then f
    else f + 1
  }

  lemma {:induction false} RoundWhole(n: int)
    ensures RoundHalfEven(n as real) == n
  {
  }

  /** The magnitude k / 10^p written with `p` places: the digits of `k`,
      padded to more than `p` digits, with a '.' before the last `p`. */
  function FixedDigits(k: nat, p: nat): string {
    Point(ZeroPad(Decimal(k), p + 1), p)
  }

  /** `d` with a '.' before its last `p` characters (none when `p` is 0). */
  function Point(d: string, p: nat): string
    requires |d| > p
  {
    if p == 0 then d else d[..|d| - p] + "." + d[|d| - p..]
  }

  /** |x| as a whole number of 10^-p units, rounded half-to-even. */
  function FixedUnits(x: real, p: nat): nat {
    RoundHalfEven(Unshift(if x < 0.0 then -x else x, p))
  }

  /** Python's `'%0{w}.{p}f' % x`: `x` rounded half-to-even to `p` places,
      a '-' for a negative `x`, zero-padded to at least `w` characters. */
  function FormatFixed(x: real, p: nat, w: nat): string {
    SignedPad(x < 0.0, FixedDigits(FixedUnits(x, p), p), w)
  }

  /** Digits and '.' only. */
  predicate FixedChars(s: string) {
    forall i | 0 <= i < |s| :: IsDigit(s[i]) || s[i] == '.'
  }

  /** Starts and ends with a digit, with digits and '.' between. */
  predicate FixedShape(s: string) {
    s != [] && IsDigit(s[0]) && IsDigit(s[|s| - 1]) && FixedChars(s)
  }

  lemma {:induction false} PointedShape(whole: string, frac: string)
    requires whole != [] && frac != [] && AllDigits(whole) && AllDigits(frac)
    ensures FixedShape(whole + "." + frac)
  {
    var s := whole + "." + frac;
    assert s[|s| - 1] == frac[|frac| - 1];
    forall i | 0 <= i < |s| ensures IsDigit(s[i]) || s[i] == '.' {
      if i < |whole| {
        assert s[i] == whole[i];
      } else if i > |whole| {
        assert s[i] == frac[i - |whole| - 1];
      }
    }
  }

  lemma {:induction false} PaddedShape(s: string, w: nat)
    requires FixedShape(s)
    ensures FixedShape(ZeroPad(s, w))
  {
    if |s| < w {
      var t := ZeroPad(s, w);
      assert t == Zeros(w - |s|) + s;
      assert t[|t| - 1] == s[|s| - 1];
      forall i | 0 <= i < |t| ensures IsDigit(t[i]) || t[i] == '.' {
        if i >= w - |s| {
          assert t[i] == s[i - (w - |s|)];
        }
      }
    }
  }

  /** A padded fixed-point body starts and ends with a digit and holds only
      digits and '.'. */
  lemma {:induction false} FixedDigitsShape(k: nat, p: nat)
    ensures FixedShape(FixedDigits(k, p))
  {
    PaddedDecimal(k, p + 1);
    PointShape(ZeroPad(Decimal(k), p + 1), p);
  }

  lemma {:induction false} PointShape(d: string, p: nat)
    requires |d| > p && AllDigits(d)
    ensures FixedShape(Point(d, p))
  {
    if p > 0 {
      var whole, frac := d[..|d| - p], d[|d| - p..];
      assert AllDigits(whole) && AllDigits(frac) by {
        assert forall i | 0 <= i < |whole| :: whole[i] == d[i];
        assert forall i | 0 <= i < |frac| :: frac[i] == d[|d| - p + i];
      }
      PointedShape(whole, frac);
    }
  }

  /** A sign-padded body holds digits and '.', after a '-' when negative. */
  lemma {:induction false} SignedPadChars(neg: bool, body: string, w: nat)
    requires FixedShape(body)
    ensures var r := SignedPad(neg, body, w);
      |r| >= w && forall i | 0 <= i < |r| :: IsDigit(r[i]) || r[i] == '.' || (i == 0 && r[i] == '-')
  {
    var s := ZeroPad(body, if neg then (if w > 0 then w - 1 else 0) else w);
    PaddedShape(body, if neg then (if w > 0 then w - 1 else 0) else w);
    if neg {
      var r := "-" + s;
      assert forall i | 1 <= i < |r| :: r[i] == s[i - 1];
    }
  }

  /** What `%0w.pf` writes is digits and a '.', after a '-' when negative. */
  lemma {:induction false} FormatFixedChars(x: real, p: nat, w: nat)
    ensures var r := FormatFixed(x, p, w);
      |r| >= w && forall i | 0 <= i < |r| :: IsDigit(r[i]) || r[i] == '.' || (i == 0 && r[i] == '-')
  {
    var body := FixedDigits(FixedUnits(x, p), p);
    FixedDigitsShape(FixedUnits(x, p), p);
    SignedPadChars(x < 0.0, body, w);
  }

  lemma {:induction false} IndexAfterDigits(whole: string, frac: string)
    requires AllDigits(whole)
    ensures IndexOf(whole + "." + frac, '.') == |whole|
  {
    var s := whole + "." + frac;
    IndexOfSpec(s, '.');
    assert forall j | 0 <= j < |whole| :: s[j] != '.';
    assert s[|whole|] == '.';
  }

  /** A run of digits, a '.', and a run of digits is read as the whole part
      plus the fraction. */
  lemma {:induction false} UnsignedOfParts(whole: string, frac: string)
    requires whole != [] && AllDigits(whole) && AllDigits(frac)
    ensures ParseUnsigned(whole + "." + frac) == Some(DecimalValue(whole, frac))
  {
    var s := whole + "." + frac;
    IndexAfterDigits(whole, frac);
    assert s[..|whole|] == whole;
    assert s[|whole| + 1..] == frac;
  }

  /** Regrouping a prefix, a text cut `p` from its end and a '.' put in the cut. */
  lemma {:induction false} PointRegroup(z: string, d: string, p: nat)
    requires |d| >= p
    ensures z + (d[..|d| - p] + "." + d[|d| - p..]) == (z + d[..|d| - p]) + "." + d[|d| - p..]
    ensures (z + d[..|d| - p]) + d[|d| - p..] == z + d
  {
    assert d[..|d| - p] + d[|d| - p..] == d;
  }

  /** Reading zeros, then digits with a '.' before the last `p`, gives the
      digits' value shifted right by `p` places. */
  lemma {:induction false} PointParse(d: string, p: nat, z: nat)
    requires |d| > p && AllDigits(d)
    ensures ParseUnsigned(Zeros(z) + Point(d, p)) == Some(Shifted(DigitsValue(d), p))
  {
    assert AllDigits(Zeros(z) + d) && DigitsValue(Zeros(z) + d) == DigitsValue(d) by {
      ZerosThenDigits(z, d);
    }
    if p == 0 {
      UnsignedDigits(Zeros(z) + d);
    } else {
      var whole, frac := Zeros(z) + d[..|d| - p], d[|d| - p..];
      PointRegroup(Zeros(z), d, p);
      assert AllDigits(whole) && AllDigits(frac) by {
        assert forall i | 0 <= i < |whole| :: whole[i] == (Zeros(z) + d)[i];
        assert forall i | 0 <= i < |frac| :: frac[i] == d[|d| - p + i];
      }
      UnsignedOfParts(whole, frac);
    }
  }

  /** Reading a zero-padded k / 10^p back gives k / 10^p. */
  lemma {:induction false} FixedDigitsParse(k: nat, p: nat, z: nat)
    ensures ParseUnsigned(Zeros(z) + FixedDigits(k, p)) == Some(Shifted(k, p))
  {
    DecimalDigits(k);
    ZeroPadDigits(Decimal(k), p + 1);
    PointParse(ZeroPad(Decimal(k), p + 1), p, z);
  }

  /** `%f` at `p` places leaves a multiple of 10^-p as it is. */
  lemma {:induction false} UnitsOfShifted(n: int, p: nat)
    ensures FixedUnits(Shifted(n, p), p) == if n < 0 then -n else n
  {
    ShiftedBack(n, p);
    var a := if n < 0 then -n else n;
    ShiftedBack(a, p);
    RoundWhole(a);
  }

  /** `float()` reads a sign-padded body back as the body's value, negated
      when the sign is there. */
  lemma {:induction false} SignedPadParse(neg: bool, body: string, w: nat, v: real)
    requires FixedShape(body)
    requires ParseUnsigned(ZeroPad(body, if neg then (if w > 0 then w - 1 else 0) else w)) == Some(v)
    ensures ParseFloat(SignedPad(neg, body, w)) == Some(if neg then -v else v)
  {
    var s := ZeroPad(body, if neg then (if w > 0 then w - 1 else 0) else w);
    PaddedShape(body, if neg then (if w > 0 then w - 1 else 0) else w);
    if neg {
      FloatOfNegated(s, v);
    } else {
      FloatOfUnsigned(s);
    }
  }

  /** `float()` reads '-' and a fixed-point text as the negated value. */
  lemma {:induction false} FloatOfNegated(s: string, v: real)
    requires FixedShape(s) && ParseUnsigned(s) == Some(v)
    ensures ParseFloat("-" + s) == Some(-v)
  {
    var r := "-" + s;
    assert r[|r| - 1] == s[|s| - 1];
    StripUnpadded(r);
    assert r[1..] == s;
  }

  /** k / 10 and k / 100. */
  lemma {:induction false} ShiftedOneTwo(k: int)
    ensures Shifted(k, 1) == k as real / 10.0
    ensures Shifted(k, 2) == k as real / 100.0
  {
    assert Shifted(k, 0) == k as real;
  }

  /** `float()` reads k / 10^p written without padding back as that number. */
  lemma {:induction false} FloatOfFixedDigits(k: nat, p: nat, v: real)
    requires v == Shifted(k, p)
    ensures ParseFloat(FixedDigits(k, p)) == Some(v)
  {
    FloatOfSignedFixed(false, k, p, 0, v);
    assert SignedPad(false, FixedDigits(k, p), 0) == FixedDigits(k, p);
  }

  /** `float()` reads a sign-padded k / 10^p back as that number or its
      negation. */
  lemma {:induction false} FloatOfSignedFixed(neg: bool, k: nat, p: nat, w: nat, v: real)
    requires v == Shifted(k, p)
    ensures ParseFloat(SignedPad(neg, FixedDigits(k, p), w)) == Some(if neg then -v else v)
  {
    if neg {
      NegatedFixedParse(k, p, w, v);
    } else {
      FixedParse(k, p, w);
      SignedPadParse(false, FixedDigits(k, p), w, v);
    }
  }

  /** `float()` reads '-' and a zero-padded k / 10^p back as -k / 10^p. */
  lemma {:induction false} NegatedFixedParse(k: nat, p: nat, w: nat, v: real)
    requires v == Shifted(k, p)
    ensures ParseFloat(SignedPad(true, FixedDigits(k, p), w)) == Some(-v)
  {
    FixedParse(k, p, if w > 0 then w - 1 else 0);
    SignedPadParse(true, FixedDigits(k, p), w, v);
  }

  /** k / 10^p written with `p` places and zero-padded reads back as
      k / 10^p. */
  lemma {:induction false} FixedParse(k: nat, p: nat, w: nat)
    ensures FixedShape(FixedDigits(k, p))
    ensures ParseUnsigned(ZeroPad(FixedDigits(k, p), w)) == Some(Shifted(k, p))
  {
    var body := FixedDigits(k, p);
    ZeroPadIsZeros(body, w);
    FixedDigitsParse(k, p, if |body| >= w then 0 else w - |body|);
    FixedDigitsShape(k, p);
  }

  /** `float()` reads back what `%0w.pf` writes, for a number with at most
      `p` decimal places. */
  lemma {:induction false} FloatOfFormatFixed(n: int, p: nat, w: nat)
    ensures ParseFloat(FormatFixed(Shifted(n, p), p, w)) == Some(Shifted(n, p))
  {
    var a: nat := if n < 0 then -n else n;
    FormatFixedShifted(n, p, w, a);
    FloatOfFixedText(n < 0, a, p, w, Shifted(a, p), FormatFixed(Shifted(n, p), p, w), Shifted(n, p));
  }

  /** `%0w.pf` of k / 10^p is the sign-padded digits of |k| / 10^p. */
  lemma {:induction false} FormatFixedShifted(n: int, p: nat, w: nat, a: nat)
    requires a == if n < 0 then -n else n
    ensures FormatFixed(Shifted(n, p), p, w) == SignedPad(n < 0, FixedDigits(a, p), w)
    ensures Shifted(n, p) == if n < 0 then -Shifted(a, p) else Shifted(a, p)
  {
    UnitsOfShifted(n, p);
    ShiftedBack(n, p);
    ShiftedBack(a, p);
  }

  /** `float()` reads a text that is a sign-padded k / 10^p back. */
  lemma {:induction false} FloatOfFixedText(neg: bool, k: nat, p: nat, w: nat, v: real, s: string, x: real)
    requires v == Shifted(k, p)
    requires s == SignedPad(neg, FixedDigits(k, p), w)
    requires x == if neg then -v else v
    ensures ParseFloat(s) == Some(x)
  {
    FloatOfSignedFixed(neg, k, p, w, v);
  }

  /** Padded digits read back as their value. */
  lemma {:induction false} PaddedDigitsParse(d: string, w: nat)
    requires d != [] && AllDigits(d)
    ensures FixedShape(d)
    ensures ParseUnsigned(ZeroPad(d, w)) == Some(DigitsValue(d) as real)
  {
    ZeroPadDigits(d, w);
    UnsignedDigits(ZeroPad(d, w));
  }

  /** `float()` reads a sign-padded `str(a)` back as a or -a. */
  lemma {:induction false} FloatOfSignedDecimal(neg: bool, a: nat, w: nat)
    ensures ParseFloat(SignedPad(neg, Decimal(a), w)) == Some(if neg then -(a as real) else a as real)
  {
    var pad := if neg then (if w > 0 then w - 1 else 0) else w;
    DecimalParse(a, pad);
    SignedPadParse(neg, Decimal(a), w, a as real);
  }

  /** `str(a)`, zero-padded, reads back as a. */
  lemma {:induction false} DecimalParse(a: nat, w: nat)
    ensures FixedShape(Decimal(a))
    ensures ParseUnsigned(ZeroPad(Decimal(a), w)) == Some(a as real)
  {
    DecimalDigits(a);
    PaddedDigitsParse(Decimal(a), w);
  }

  /** `float()` reads back what `%0wd` writes. */
  lemma {:induction false} FloatOfFormatInt(n: int, w: nat)
    ensures ParseFloat(FormatInt(n, w)) == Some(n as real)
  {
    FloatOfSignedDecimal(n < 0, if n < 0 then -n else n, w);
  }

  // Sequence facts shared by the modules.

  lemma {:induction false} Associative<T>(a: seq<T>, b: seq<T>, c: seq<T>)
    ensures a + (b + c) == (a + b) + c
  {
  }

  lemma {:induction false} SliceOfConcat<T>(a: seq<T>, b: seq<T>, lo: nat, hi: nat)
    requires lo <= hi <= |a|
    ensures (a + b)[lo..hi] == a[lo..hi]
  {
  }

  /** An item inside a block of a sequence. */
  lemma {:induction false} BlockItem<T>(s: seq<T>, block: seq<T>, at: nat, k: nat)
    requires at + |block| <= |s| && s[at..at + |block|] == block && k < |block|
    ensures s[at + k] == block[k]
  {
    assert s[at..at + |block|][k] == s[at + k];
  }

  /** An item of the middle part of a concatenation. */
  lemma {:induction false} ConcatItem<T>(head: seq<T>, mid: seq<T>, tail: seq<T>, k: nat)
    requires k < |mid|
    ensures |head| + k < |head + mid + tail| && (head + mid + tail)[|head| + k] == mid[k]
  {
  }

  /** The running results of a filter: `outs[i]` is what the first `i`
      elements give, and each step keeps or skips one element. */
  ghost predicate FilterRun<T>(s: seq<T>, keep: seq<bool>, outs: seq<seq<T>>) {
    && |keep| == |s| && |outs| == |s| + 1 && outs[0] == []
    && forall i | 0 <= i < |s| :: outs[i + 1] == if keep[i] then outs[i] + [s[i]] else outs[i]
  }

  /** Every kept element lands at the position its prefix had reached,
      positions only grow, strictly past a kept element, and every output
      position holds a kept element placed this way: the output is the
      kept elements in their order. */
  lemma {:induction false} FilterPlaces<T>(s: seq<T>, keep: seq<bool>, outs: seq<seq<T>>)
    requires FilterRun(s, keep, outs)
    ensures forall i, j | 0 <= i < j <= |s| :: |outs[i]| + (if keep[i] then 1 else 0) <= |outs[j]|
    ensures forall i | 0 <= i < |s| && keep[i] :: |outs[i]| < |outs[|s|]| && outs[|s|][|outs[i]|] == s[i]
    ensures forall k | 0 <= k < |outs[|s|]| :: FilterPlaced(s, keep, outs, |s|, k)
  {
    forall i, j | 0 <= i < j <= |s|
      ensures |outs[i]| + (if keep[i] then 1 else 0) <= |outs[j]|
    {
      FilterPrefix(s, keep, outs, i + 1, j);
    }
    forall i | 0 <= i < |s| && keep[i]
      ensures |outs[i]| < |outs[|s|]| && outs[|s|][|outs[i]|] == s[i]
    {
      FilterPrefix(s, keep, outs, i + 1, |s|);
      assert outs[i + 1][|outs[i]|] == s[i];
    }
    forall k | 0 <= k < |outs[|s|]|
      ensures FilterPlaced(s, keep, outs, |s|, k)
    {
      FilterCover(s, keep, outs, |s|, k);
    }
  }

  /** Position `k` of the result after `j` elements holds a kept element
      `s[i]`, placed there when the first `i` elements had given `k`. */
  ghost predicate FilterPlaced<T>(s: seq<T>, keep: seq<bool>, outs: seq<seq<T>>, j: nat, k: nat)
    requires FilterRun(s, keep, outs) && j <= |s| && k < |outs[j]|
  {
    exists i | 0 <= i < j && keep[i] :: |outs[i]| == k && outs[j][k] == s[i]
  }

  /** An earlier result is a prefix of a later one. */
  lemma {:induction false} FilterPrefix<T>(s: seq<T>, keep: seq<bool>, outs: seq<seq<T>>, i: nat, j: nat)
    requires FilterRun(s, keep, outs)
    requires i <= j <= |s|
    ensures outs[i] <= outs[j]
    decreases j - i
  {
    if i < j {
      FilterPrefix(s, keep, outs, i, j - 1);
      assert outs[j - 1] <= outs[j];
    }
  }

  /** Every position of a result holds a kept element that was placed there. */
  lemma {:induction false} FilterCover<T>(s: seq<T>, keep: seq<bool>, outs: seq<seq<T>>, j: nat, k: nat)
    requires FilterRun(s, keep, outs)
    requires j <= |s| && k < |outs[j]|
    ensures FilterPlaced(s, keep, outs, j, k)
  {
    if k < |outs[j - 1]| {
      FilterCover(s, keep, outs, j - 1, k);
      var i :| 0 <= i < j - 1 && keep[i] && |outs[i]| == k && outs[j - 1][k] == s[i];
      assert outs[j][k] == outs[j - 1][k];
    } else {
      assert keep[j - 1] && |outs[j - 1]| == k && outs[j][k] == s[j - 1];
    }
  }
}
