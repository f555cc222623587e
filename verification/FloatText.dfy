/**
 The text of a scaled float: the decimal number `n * 10^x` for integers `n` and `x`, as the integer
 half of Unity's float printer lays it out, and what such texts denote.
 */
module FloatText {
  import opened Decimal
  import opened Arith

  const SIG_DIGITS := 7
  const MIN_SCALED := 1_000_000
  const MAX_SCALED := 10_000_000

  /** The number `mantissa * 10^scale`. */
  datatype Number = Number(mantissa: nat, scale: int)

  /** The same rational number: equal after scaling both to the smaller power of ten. */
  ghost predicate Same(a: Number, b: Number) {
    if a.scale <= b.scale then a.mantissa == b.mantissa * Pow(10, b.scale - a.scale)
    else a.mantissa * Pow(10, a.scale - b.scale) == b.mantissa
  }

  // ----- decimal literals -----

  datatype Exponent = Plain | Scaled(negative: bool, digits: string)

  function WithFraction(whole: string, fraction: string): string {
    if fraction == "" then whole else whole + "." + fraction
  }

  function ExponentText(e: Exponent): string {
    match e
    case Plain => ""
    case Scaled(negative, digits) => (if negative then "e-" else "e+") + digits
  }

  function ExponentValue(e: Exponent): int
    requires e.Scaled? ==> IsDigits(e.digits)
  {
    match e
    case Plain => 0
    case Scaled(negative, digits) => if negative then 0 - ParseNat(digits) else ParseNat(digits)
  }

  /** The parts of a literal: digits, an optional fraction after a point, an optional signed exponent. */
  datatype Literal = Literal(whole: string, fraction: string, exponent: Exponent) {
    predicate WellFormed() {
      && whole != "" && IsDigits(whole) && IsDigits(fraction)
      && (exponent.Scaled? ==> |exponent.digits| >= 2 && IsDigits(exponent.digits))
    }

    function Text(): string {
      WithFraction(whole, fraction) + ExponentText(exponent)
    }

    function Value(): Number
      requires WellFormed() && IsDigits(whole + fraction)
    {
      Number(ParseNat(whole + fraction), ExponentValue(exponent) - |fraction|)
    }
  }

  /** Some literal has this text, and denotes the number. */
  ghost predicate Denotes(text: string, v: Number) {
    exists l: Literal :: l.WellFormed() && IsDigits(l.whole + l.fraction) && l.Text() == text && Same(l.Value(), v)
  }

  /** The character of a literal at position `i`, by the part it falls in. */
  lemma TextAt(l: Literal, i: nat)
    requires i < |l.Text()|
    ensures var w, m := |l.whole|, |WithFraction(l.whole, l.fraction)|;
            && w <= m <= |l.Text()|
            && (i < w ==> l.Text()[i] == l.whole[i])
            && (i == w < m ==> l.Text()[i] == '.')
            && (w < i < m ==> l.Text()[i] == l.fraction[i - w - 1])
            && (i == m ==> l.Text()[i] == 'e')
  {
  }

  /** One of two literals with the same text can not have the longer mantissa, or the longer whole part. */
  lemma NotLonger(a: Literal, b: Literal)
    requires a.WellFormed() && b.WellFormed() && a.Text() == b.Text()
    ensures |a.whole| <= |b.whole|
    ensures |a.whole| == |b.whole| ==>
              |WithFraction(a.whole, a.fraction)| <= |WithFraction(b.whole, b.fraction)|
  {
    var w, m := |b.whole|, |WithFraction(b.whole, b.fraction)|;
    if w < |a.whole| {
      TextAt(a, w);
      TextAt(b, w);
      assert false;
    }
    if |a.whole| == w && m < |WithFraction(a.whole, a.fraction)| {
      TextAt(a, m);
      TextAt(b, m);
      assert false;
    }
  }

  lemma SamePart(a: Literal, b: Literal, w: nat, m: nat)
    requires a.Text() == b.Text()
    requires |a.whole| == |b.whole| == w
    requires |WithFraction(a.whole, a.fraction)| == |WithFraction(b.whole, b.fraction)| == m
    ensures a.fraction == b.fraction
  {
    if w < m {
      assert a.fraction == a.Text()[w + 1..m];
      assert b.fraction == b.Text()[w + 1..m];
    }
  }

  lemma SameExponent(a: Exponent, b: Exponent)
    requires ExponentText(a) == ExponentText(b)
    ensures a == b
  {
    if a.Scaled? {
      assert b.Scaled?;
      assert ExponentText(a)[1] == (if a.negative then '-' else '+');
      assert ExponentText(b)[1] == (if b.negative then '-' else '+');
      assert a.digits == ExponentText(a)[2..];
      assert b.digits == ExponentText(b)[2..];
    }
  }

  /** A text can be read as a literal in one way only, so what it denotes is unambiguous. */
  lemma Unambiguous(a: Literal, b: Literal)
    requires a.WellFormed() && b.WellFormed() && a.Text() == b.Text()
    ensures a == b
  {
    NotLonger(a, b);
    NotLonger(b, a);
    var w, m, t := |a.whole|, |WithFraction(a.whole, a.fraction)|, a.Text();
    assert a.whole == t[..w] == b.whole;
    SamePart(a, b, w, m);
    assert ExponentText(a.exponent) == t[m..] == ExponentText(b.exponent);
    SameExponent(a.exponent, b.exponent);
  }

  // ----- the layout -----

  /** Decimal digits of `n`, padded with zeros to at least `width`; nothing for zero at width zero. */
  function Padded(n: nat, width: nat): (s: string)
    ensures width <= |s|
    decreases n, width
  {
    if n == 0 && width == 0 then ""
    else Padded(n / 10, if width == 0 then 0 else width - 1) + [Digit(n % 10)]
  }

  /** Decimals that are zeros at the end are dropped. */
  function Trim(n: nat, decimals: nat): (nat, nat)
    decreases decimals
  {
    if decimals > 0 && n % 10 == 0 then Trim(n / 10, decimals - 1) else (n, decimals)
  }

  /** How many decimals are laid out before zeros are dropped: all of them for a small exponent, else one digit before the point. */
  function Decimals(x: int): nat {
    if 0 - (SIG_DIGITS + 3) <= x <= 0 then 0 - x else SIG_DIGITS - 1
  }

  function ExponentOf(y: int): Exponent {
    if y == 0 then Plain else Scaled(y < 0, Padded(if y < 0 then 0 - y else y, 2))
  }

  /** The literal with the digits of `m`, the last `d` of them after the point. */
  function LiteralOf(m: nat, d: nat, y: int): Literal {
    var s := Padded(m, d + 1);
    Literal(s[..|s| - d], s[|s| - d..], ExponentOf(y))
  }

  function Layout(n: nat, x: int): Literal {
    var (m, d) := Trim(n, Decimals(x));
    LiteralOf(m, d, x + Decimals(x))
  }

  /** The literal for `n * 10^x`; a rounded-up `n` carries into the exponent first. */
  function ScaledLiteral(n: nat, x: int): Literal {
    if n >= MAX_SCALED then Layout(MIN_SCALED, x + 1) else Layout(n, x)
  }

  lemma {:induction false} PaddedValue(n: nat, width: nat)
    ensures IsDigits(Padded(n, width)) && ParseNat(Padded(n, width)) == n
    decreases n, width
  {
    if n != 0 || width != 0 {
      PaddedValue(n / 10, if width == 0 then 0 else width - 1);
      ParseDigit(Padded(n / 10, if width == 0 then 0 else width - 1), n % 10);
    }
  }

  /** Dropping zeros keeps the number, and leaves none at the end. */
  lemma {:induction false} TrimValue(n: nat, decimals: nat)
    ensures var (m, d) := Trim(n, decimals);
            && d <= decimals && m * Pow(10, decimals - d) == n && (d > 0 ==> m % 10 != 0)
    decreases decimals
  {
    if decimals > 0 && n % 10 == 0 {
      TrimValue(n / 10, decimals - 1);
      var (m, d) := Trim(n / 10, decimals - 1);
      assert Pow(10, decimals - d) == 10 * Pow(10, decimals - 1 - d);
      assert m * Pow(10, decimals - d) == 10 * (m * Pow(10, decimals - 1 - d));
    }
  }

  lemma ExponentOfValue(y: int)
    ensures ExponentOf(y).Scaled? ==> |ExponentOf(y).digits| >= 2 && IsDigits(ExponentOf(y).digits)
    ensures ExponentValue(ExponentOf(y)) == y
  {
    PaddedValue(if y < 0 then 0 - y else y, 2);
  }

  /** The literal is well formed and denotes `m * 10^(y - d)`. */
  lemma LiteralOfValue(m: nat, d: nat, y: int)
    ensures var l := LiteralOf(m, d, y);
            && l.WellFormed() && IsDigits(l.whole + l.fraction) && l.Value() == Number(m, y - d) && |l.fraction| == d
  {
    var s, l := Padded(m, d + 1), LiteralOf(m, d, y);
    PaddedValue(m, d + 1);
    ExponentOfValue(y);
    assert l.whole + l.fraction == s;
  }

  /** Zeros dropped from the number come back through the scale. */
  lemma SameShifted(m: nat, shift: nat, n: nat, x: int)
    requires m * Pow(10, shift) == n
    ensures Same(Number(m, x + shift), Number(n, x))
  {
    if shift == 0 {
      assert Pow(10, 0) == 1;
    }
  }

  /** The carry of a rounded-up number does not change what it denotes. */
  lemma SameCarried(a: Number, x: int)
    requires Same(a, Number(MIN_SCALED, x + 1)) && x + 1 <= a.scale
    ensures Same(a, Number(MAX_SCALED, x))
  {
    var k := a.scale - x - 1;
    assert Pow(10, k + 1) == 10 * Pow(10, k);
    if k == 0 {
      assert Pow(10, 0) == 1;
    }
    assert a.mantissa * Pow(10, k) == MIN_SCALED;
    assert a.mantissa * Pow(10, k + 1) == 10 * (a.mantissa * Pow(10, k));
  }

  lemma TrimmedSame(n: nat, x: int, m: nat, d: nat)
    requires Trim(n, Decimals(x)) == (m, d)
    ensures Same(Number(m, x + Decimals(x) - d), Number(n, x))
    ensures x <= x + Decimals(x) - d
  {
    TrimValue(n, Decimals(x));
    SameShifted(m, Decimals(x) - d, n, x);
    assert x + Decimals(x) - d == x + (Decimals(x) - d);
  }

  /** Without a carry: the layout is well formed, and `a`, what it denotes, is `n * 10^x`. */
  lemma LayoutValue(n: nat, x: int) returns (a: Number)
    ensures var l := Layout(n, x); l.WellFormed() && IsDigits(l.whole + l.fraction) && l.Value() == a
    ensures x <= a.scale && Same(a, Number(n, x))
  {
    var (m, d) := Trim(n, Decimals(x));
    a := Number(m, x + Decimals(x) - d);
    LiteralOfValue(m, d, x + Decimals(x));
    TrimmedSame(n, x, m, d);
  }

  lemma LiteralDenotes(l: Literal, v: Number)
    requires l.WellFormed() && IsDigits(l.whole + l.fraction) && Same(l.Value(), v)
    ensures Denotes(l.Text(), v)
  {
  }

  /**
   The text denotes exactly `n * 10^x`, for every `n` up to the largest scaled value and every
   exponent, whether or not an exponent part is printed; larger values of `n` saturate.
   */
  lemma ScaledLiteralDenotes(n: nat, x: int)
    ensures Denotes(ScaledLiteral(n, x).Text(), Number(if n <= MAX_SCALED then n else MAX_SCALED, x))
  {
    if n >= MAX_SCALED {
      var a := LayoutValue(MIN_SCALED, x + 1);
      SameCarried(a, x);
      LiteralDenotes(Layout(MIN_SCALED, x + 1), Number(MAX_SCALED, x));
    } else {
      var a := LayoutValue(n, x);
      LiteralDenotes(Layout(n, x), Number(n, x));
    }
  }

  /** A printed fraction does not end in a zero, except that a number without decimals has none. */
  lemma NoTrailingZero(n: nat, x: int)
    ensures var f := Layout(n, x).fraction; f != "" ==> f[|f| - 1] != '0'
  {
    var (m, d) := Trim(n, Decimals(x));
    TrimValue(n, Decimals(x));
    LiteralOfValue(m, d, x + Decimals(x));
    var s := Padded(m, d + 1);
    assert s[|s| - 1] == Digit(m % 10);
  }
}
