/** Which of the many texts for a number Unity's float printer chooses, and that it is only that one. */
module FloatLayout {
  import opened Decimal
  import opened Arith
  import opened FloatText

  /**
   The layout of seven significant digits scaled by 10^x. Small scales are written in plain notation,
   the others with one digit before the point, which is not zero, and an exponent of two digits or as
   many as it needs. There are no leading zeros, and no zeros at the end of a fraction.
   */
  ghost predicate Laid(l: Literal, x: int) {
    && l.WellFormed() && IsDigits(l.whole + l.fraction) && Canonical(l.whole)
    && (l.fraction != "" ==> l.fraction[|l.fraction| - 1] != '0')
    && (l.exponent.Plain? <==> -10 <= x <= 0)
    && (l.exponent.Scaled? ==>
          && |l.whole| == 1 && l.whole != "0"
          && (|l.exponent.digits| == 2 || l.exponent.digits[0] != '0'))
  }

  // ----- digits and powers of ten -----

  /** Padding is the only way to write a number with at least `width` digits and no needless zeros. */
  lemma {:induction false} PaddedUnique(s: string, width: nat)
    requires IsDigits(s) && width <= |s| && (|s| > width ==> s[0] != '0')
    ensures Padded(ParseNat(s), width) == s
    ensures s != "" && s[0] != '0' ==> ParseNat(s) > 0
    decreases |s|
  {
    if s != "" {
      var front, d := s[..|s| - 1], (s[|s| - 1] - '0') as nat;
      assert s == front + [Digit(d)];
      PaddedUnique(front, if width == 0 then 0 else width - 1);
      assert (ParseNat(front) * 10 + d) / 10 == ParseNat(front);
    }
  }

  lemma {:induction false} PaddedFirst(n: nat, width: nat)
    ensures |Padded(n, width)| > width ==> Padded(n, width)[0] != '0'
    decreases n, width
  {
    if n != 0 || width != 0 {
      PaddedFirst(n / 10, if width == 0 then 0 else width - 1);
    }
  }

  lemma {:induction false} PowAdd(base: nat, i: nat, j: nat)
    ensures Pow(base, i + j) == Pow(base, i) * Pow(base, j)
    decreases i
  {
    if i != 0 {
      PowAdd(base, i - 1, j);
      MulAssoc(base, Pow(base, i - 1), Pow(base, j));
    }
  }

  /** A number with `k` digits and no leading zero. */
  predicate HasDigits(n: nat, k: nat) {
    1 <= k && Pow(10, k - 1) <= n < Pow(10, k)
  }

  lemma {:induction false} PowMono(i: nat, j: nat)
    requires i <= j
    ensures Pow(10, i) <= Pow(10, j)
    decreases j - i
  {
    if i < j {
      PowMono(i, j - 1);
    }
  }

  lemma DigitsUnique(n: nat, i: nat, j: nat)
    requires HasDigits(n, i) && HasDigits(n, j)
    ensures i == j
  {
    if i < j {
      PowMono(i, j - 1);
    } else if j < i {
      PowMono(j, i - 1);
    }
  }

  lemma DigitsShift(n: nat, k: nat, s: nat)
    requires HasDigits(n, k)
    ensures HasDigits(n * Pow(10, s), k + s)
  {
    PowAdd(10, k - 1, s);
    PowAdd(10, k, s);
    MulMono(Pow(10, k - 1), n, Pow(10, s));
    MulMono(n + 1, Pow(10, k), Pow(10, s));
    MulStep(n, Pow(10, s));
  }

  /** Digits with a nonzero first one are as many as the number has. */
  lemma {:induction false} ParseHasDigits(s: string)
    requires IsDigits(s) && s != "" && s[0] != '0'
    ensures HasDigits(ParseNat(s), |s|)
  {
    if |s| == 1 {
      assert s[..0] == "";
      assert Pow(10, 1) == 10 * Pow(10, 0);
    } else {
      ParseHasDigits(s[..|s| - 1]);
      assert Pow(10, |s| - 1) == 10 * Pow(10, |s| - 2);
      assert Pow(10, |s|) == 10 * Pow(10, |s| - 1);
    }
  }

  lemma SevenDigits(n: nat)
    ensures 1_000_000 <= n < 10_000_000 <==> HasDigits(n, 7)
  {
    assert Pow(10, 3) == 1000;
    assert Pow(10, 6) == 1000 * Pow(10, 3);
    assert Pow(10, 7) == 10 * Pow(10, 6);
  }

  // ----- the printed layout is laid out so -----

  lemma {:induction false} PaddedLength(n: nat, k: nat, width: nat)
    requires n < Pow(10, k) && width <= k
    ensures |Padded(n, width)| <= k
    decreases k
  {
    if n != 0 || width != 0 {
      PaddedLength(n / 10, k - 1, if width == 0 then 0 else width - 1);
    }
  }

  lemma LiteralOfParts(m: nat, d: nat, y: int)
    ensures var l := LiteralOf(m, d, y);
            && l.WellFormed() && Canonical(l.whole) && |l.fraction| == d && l.whole + l.fraction == Padded(m, d + 1)
  {
    LiteralOfValue(m, d, y);
    PaddedFirst(m, d + 1);
    var s := Padded(m, d + 1);
    assert s[..|s| - d] + s[|s| - d..] == s;
  }

  lemma ExponentDigits(y: int)
    requires y != 0
    ensures var e := ExponentOf(y);
            && e.Scaled? && (|e.digits| == 2 || e.digits[0] != '0') && (0 - 100 < y < 100 ==> |e.digits| == 2)
  {
    var n: nat := if y < 0 then 0 - y else y;
    PaddedFirst(n, 2);
    if n < 100 {
      assert Pow(10, 1) == 10 && Pow(10, 2) == 10 * Pow(10, 1);
      PaddedLength(n, 2, 2);
    }
  }

  lemma {:induction false} LeadingZero(s: string)
    requires IsDigits(s) && s != "" && s[0] == '0'
    ensures ParseNat(s) < Pow(10, |s| - 1)
  {
    if |s| == 1 {
      assert s[..0] == "";
    } else {
      LeadingZero(s[..|s| - 1]);
      assert Pow(10, |s| - 1) == 10 * Pow(10, |s| - 2);
    }
  }

  lemma TrimmedFew(n: nat, m: nat, d: nat, shift: nat)
    requires HasDigits(n, 7) && m * Pow(10, shift) == n && d + shift == 6
    ensures HasDigits(m, d + 1)
  {
    PowAdd(10, d, shift);
    PowAdd(10, d + 1, shift);
    if m < Pow(10, d) {
      MulMono(m + 1, Pow(10, d), Pow(10, shift));
      MulStep(m, Pow(10, shift));
    }
    if Pow(10, d + 1) <= m {
      MulMono(Pow(10, d + 1), m, Pow(10, shift));
    }
  }

  /** A number with just enough digits needs no padding. */
  lemma PaddedDigits(m: nat, k: nat)
    requires HasDigits(m, k)
    ensures |Padded(m, k)| == k && Padded(m, k)[0] != '0'
  {
    PaddedLength(m, k, k);
    PaddedValue(m, k);
    if Padded(m, k)[0] == '0' {
      LeadingZero(Padded(m, k));
    }
  }

  /** What is left of seven digits when zeros are dropped still has a digit for each place that is left. */
  lemma TrimmedDigits(n: nat, m: nat, d: nat, y: int)
    requires HasDigits(n, 7) && d <= 6 && m * Pow(10, 6 - d) == n
    ensures |LiteralOf(m, d, y).whole| == 1 && LiteralOf(m, d, y).whole != "0"
  {
    TrimmedFew(n, m, d, 6 - d);
    PaddedDigits(m, d + 1);
    assert LiteralOf(m, d, y).whole[0] == Padded(m, d + 1)[0];
  }

  lemma TrimEnd(n: nat, decimals: nat, m: nat, d: nat, y: int)
    requires Trim(n, decimals) == (m, d)
    ensures var f := LiteralOf(m, d, y).fraction; f != "" ==> f[|f| - 1] != '0'
  {
    TrimValue(n, decimals);
    LiteralOfValue(m, d, y);
    var s := Padded(m, d + 1);
    assert s[|s| - 1] == Digit(m % 10);
  }

  lemma PlainLaid(n: nat, x: int, m: nat, d: nat)
    requires -10 <= x <= 0 && Trim(n, 0 - x) == (m, d)
    ensures Laid(LiteralOf(m, d, 0), x)
  {
    LiteralOfParts(m, d, 0);
    LiteralOfValue(m, d, 0);
    TrimEnd(n, 0 - x, m, d, 0);
  }

  lemma ExponentLaid(n: nat, x: int, m: nat, d: nat)
    requires 1_000_000 <= n < 10_000_000 && !(-10 <= x <= 0) && Trim(n, 6) == (m, d)
    ensures Laid(LiteralOf(m, d, x + 6), x)
    ensures 0 - 100 < x + 6 < 100 ==> |LiteralOf(m, d, x + 6).exponent.digits| == 2
  {
    LiteralOfParts(m, d, x + 6);
    LiteralOfValue(m, d, x + 6);
    TrimEnd(n, 6, m, d, x + 6);
    TrimValue(n, 6);
    SevenDigits(n);
    TrimmedDigits(n, m, d, x + 6);
    ExponentDigits(x + 6);
  }

  /** Plain notation for the scales 10^-10 to 10^0; one digit before the point otherwise. */
  lemma LayoutLaid(n: nat, x: int)
    requires 1_000_000 <= n < 10_000_000
    ensures Laid(ScaledLiteral(n, x), x)
    ensures var e := ScaledLiteral(n, x).exponent;
            e.Scaled? && 0 - 100 < x + 6 < 100 ==> |e.digits| == 2
  {
    var (m, d) := Trim(n, Decimals(x));
    if -10 <= x <= 0 {
      PlainLaid(n, x, m, d);
    } else {
      ExponentLaid(n, x, m, d);
    }
  }

  // ----- and it is the only one -----

  /** Dropping zeros has one result. */
  lemma {:induction false} TrimUnique(n: nat, decimals: nat, m: nat, d: nat)
    requires d <= decimals && m * Pow(10, decimals - d) == n && (d > 0 ==> m % 10 != 0)
    ensures Trim(n, decimals) == (m, d)
    decreases decimals - d
  {
    if d < decimals {
      assert Pow(10, decimals - d) == 10 * Pow(10, decimals - 1 - d);
      assert n == 10 * (m * Pow(10, decimals - 1 - d));
      TrimUnique(n / 10, decimals - 1, m, d);
    }
  }

  /** A literal is determined by its digits, the length of its fraction and its exponent. */
  lemma PartsDetermine(l: Literal, m: nat, d: nat, y: int)
    requires l.WellFormed() && Canonical(l.whole)
    requires |l.fraction| == d && IsDigits(l.whole + l.fraction) && ParseNat(l.whole + l.fraction) == m
    requires l.exponent == ExponentOf(y)
    ensures l == LiteralOf(m, d, y)
  {
    var s := l.whole + l.fraction;
    PaddedUnique(s, d + 1);
    assert s[..|s| - d] == l.whole && s[|s| - d..] == l.fraction;
  }

  lemma ExponentDetermined(e: Exponent)
    requires e.Scaled? ==> |e.digits| >= 2 && IsDigits(e.digits) && (|e.digits| == 2 || e.digits[0] != '0')
    requires e.Scaled? <==> ExponentValue(e) != 0
    ensures e == ExponentOf(ExponentValue(e))
  {
    if e.Scaled? {
      PaddedUnique(e.digits, 2);
    }
  }

  lemma {:induction false} ParseLast(s: string)
    requires IsDigits(s) && s != ""
    ensures ParseNat(s) % 10 == (s[|s| - 1] - '0') as nat
  {
  }

  /** A fraction that ends in no zero ends the digits so. */
  lemma FractionEnd(l: Literal)
    requires IsDigits(l.whole + l.fraction) && l.fraction != "" && l.fraction[|l.fraction| - 1] != '0'
    ensures ParseNat(l.whole + l.fraction) % 10 != 0
  {
    ParseLast(l.whole + l.fraction);
  }

  /** In exponent notation the one digit before the point fixes the exponent. */
  lemma ExponentFixed(n: nat, x: int, m: nat, d: nat, y: int)
    requires HasDigits(n, 7) && HasDigits(m, d + 1) && Same(Number(m, y - d), Number(n, x))
    ensures y == x + 6
  {
    if y - d <= x {
      DigitsShift(n, 7, x - (y - d));
      DigitsUnique(m, d + 1, 7 + (x - (y - d)));
    } else {
      DigitsShift(m, d + 1, y - d - x);
      DigitsUnique(n, 7, d + 1 + (y - d - x));
    }
  }

  lemma ZerosAtEnd(n: nat, k: nat)
    requires 1 <= k
    ensures n * Pow(10, k) % 10 == 0
  {
    assert n * Pow(10, k) == 10 * (n * Pow(10, k - 1));
  }

  /** With the exponent known, the digits are those of `n` without the zeros at the end. */
  lemma DigitsFixed(n: nat, x: int, decimals: nat, m: nat, d: nat)
    requires Same(Number(m, x + decimals - d), Number(n, x)) && (d > 0 ==> m % 10 != 0)
    ensures Trim(n, decimals) == (m, d)
  {
    if d < decimals {
      TrimUnique(n, decimals, m, d);
    } else if d == decimals {
      assert Pow(10, 0) == 1;
      TrimUnique(n, decimals, m, d);
    } else {
      ZerosAtEnd(n, d - decimals);
    }
  }

  /** The exponent of any literal so laid out that denotes `n * 10^x`. */
  lemma LaidExponent(l: Literal, n: nat, x: int)
    requires 1_000_000 <= n < 10_000_000 && Laid(l, x) && Same(l.Value(), Number(n, x))
    ensures ExponentValue(l.exponent) == x + Decimals(x)
    ensures l.exponent.Scaled? <==> ExponentValue(l.exponent) != 0
  {
    if l.exponent.Scaled? {
      var s := l.whole + l.fraction;
      SevenDigits(n);
      ParseHasDigits(s);
      ExponentFixed(n, x, ParseNat(s), |l.fraction|, ExponentValue(l.exponent));
    }
  }

  lemma LaidUnique(l: Literal, n: nat, x: int)
    requires 1_000_000 <= n < 10_000_000 && Laid(l, x) && Same(l.Value(), Number(n, x))
    ensures l == ScaledLiteral(n, x)
  {
    var m, d, y := ParseNat(l.whole + l.fraction), |l.fraction|, x + Decimals(x);
    LaidExponent(l, n, x);
    ExponentDetermined(l.exponent);
    if d > 0 {
      FractionEnd(l);
    }
    DigitsFixed(n, x, Decimals(x), m, d);
    PartsDetermine(l, m, d, y);
  }

  /** `t` is a text for `n * 10^x` that is laid out by the rules above. */
  ghost predicate TextFor(t: string, n: nat, x: int) {
    exists l: Literal :: l.Text() == t && Laid(l, x) && Same(l.Value(), Number(n, x))
  }

  lemma LayoutTextFor(n: nat, x: int)
    requires 1_000_000 <= n < 10_000_000
    ensures TextFor(ScaledLiteral(n, x).Text(), n, x)
  {
    LayoutLaid(n, x);
    var a := LayoutValue(n, x);
  }

  /**
   The printed text is the only one: of all texts, it alone denotes the number and is laid out by the
   rules. Seven digits that were rounded up to eight are one digit and a scale one higher.
   */
  lemma ScaledTextExact(n: nat, x: int, t: string)
    requires 1_000_000 <= n <= 10_000_000
    ensures t == ScaledLiteral(n, x).Text()
            <==> if n < 10_000_000 then TextFor(t, n, x) else TextFor(t, 1_000_000, x + 1)
  {
    var n', x' := if n < 10_000_000 then n else 1_000_000, if n < 10_000_000 then x else x + 1;
    LayoutTextFor(n', x');
    if TextFor(t, n', x') {
      var l: Literal :| l.Text() == t && Laid(l, x') && Same(l.Value(), Number(n', x'));
      LaidUnique(l, n', x');
    }
  }

  /** Numbers with the characters they are printed with. */
  lemma TextOf(l: Literal, n: nat, x: int, t: string)
    requires 1_000_000 <= n < 10_000_000 && Laid(l, x) && Same(l.Value(), Number(n, x)) && l.Text() == t
    ensures ScaledLiteral(n, x).Text() == t
  {
    LaidUnique(l, n, x);
  }

  lemma PlainExample()
    ensures ScaledLiteral(3140000, -5).Text() == "31.4"
  {
    var l := Literal("31", "4", Plain);
    assert "31" + "4" == "314" && "314"[..2] == "31" && "31"[..1] == "3" && "3"[..0] == "";
    assert Pow(10, 4) == 10000;
    TextOf(l, 3140000, -5, "31.4");
  }

  lemma ExponentExample()
    ensures ScaledLiteral(1500000, -13).Text() == "1.5e-07"
  {
    var l := Literal("1", "5", Scaled(true, "07"));
    assert "1" + "5" == "15" && "15"[..1] == "1" && "1"[..0] == "";
    assert "07"[..1] == "0" && "0"[..0] == "";
    assert Pow(10, 5) == 100000;
    TextOf(l, 1500000, -13, "1.5e-07");
  }

  lemma CarryExample()
    ensures ScaledLiteral(10000000, 0).Text() == "1e+07"
  {
    var l := Literal("1", "", Scaled(false, "07"));
    assert "1" + "" == "1" && "1"[..0] == "";
    assert "07"[..1] == "0" && "0"[..0] == "";
    assert Pow(10, 6) == 1000000;
    TextOf(l, 1000000, 1, "1e+07");
  }
}
