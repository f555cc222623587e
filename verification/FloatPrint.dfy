/** The integer half of Unity's float printer: the loops over its 16-byte buffer. */
module FloatPrint {
  import opened Decimal
  import opened Arith
  import opened FloatText
  import opened FloatLayout

  const BUFFER := 16

  /** The first `k` characters of a buffer, last one first. */
  ghost function Backwards(buf: seq<char>, k: nat): (s: string)
    requires k <= |buf|
    ensures |s| == k
  {
    if k == 0 then "" else [buf[k - 1]] + Backwards(buf, k - 1)
  }

  lemma {:induction false} BackwardsAgree(a: seq<char>, b: seq<char>, k: nat)
    requires k <= |a| && k <= |b| && a[..k] == b[..k]
    ensures Backwards(a, k) == Backwards(b, k)
  {
    if k != 0 {
      assert a[..k - 1] == a[..k][..k - 1] && b[..k - 1] == b[..k][..k - 1];
      assert a[k - 1] == a[..k][k - 1] && b[k - 1] == b[..k][k - 1];
      BackwardsAgree(a, b, k - 1);
    }
  }

  lemma BackwardsAppend(a: seq<char>, k: nat, c: char)
    requires k < |a|
    ensures Backwards(a[k := c], k + 1) == [c] + Backwards(a, k)
  {
    assert a[k := c][..k] == a[..k];
    BackwardsAgree(a[k := c], a, k);
  }

  /** `number` digits at most, counted by powers of ten: one digit less after each division. */
  lemma FewerDigits(n: nat, k: nat)
    requires n < Pow(10, k)
    ensures k == 0 ==> n == 0
    ensures k > 0 ==> n / 10 < Pow(10, k - 1)
  {
  }

  /** The digits still to be written when `digits` of them are in the buffer. */
  ghost function Rest(n: nat, width: nat, digits: nat): string {
    Padded(n, if digits < width then width - digits else 0)
  }

  lemma RestNext(n: nat, width: nat, digits: nat)
    requires n != 0 || digits < width
    ensures Rest(n, width, digits) == Rest(n / 10, width, digits + 1) + [Digit(n % 10)]
  {
  }

  lemma FillStep(full: string, buf: seq<char>, n: nat, width: nat, digits: nat)
    requires digits < |buf| && (n != 0 || digits < width)
    requires full == Rest(n, width, digits) + Backwards(buf, digits)
    ensures full == Rest(n / 10, width, digits + 1) + Backwards(buf[digits := Digit(n % 10)], digits + 1)
  {
    RestNext(n, width, digits);
    BackwardsAppend(buf, digits, Digit(n % 10));
  }

  method PutDigit(buf: array<char>, i: nat, d: nat)
    requires i < buf.Length && d < 10
    modifies buf
    ensures buf[..] == old(buf[..])[i := Digit(d)]
  {
    buf[i] := '0' + d as char;
  }

  /**
   Writes the digits of `n0`, at least `width` of them, into the buffer in reverse order. It never
   writes past the buffer, because `n0` has at most `most` digits and the buffer holds as many.
   */
  method FillDigits(buf: array<char>, n0: nat, width: nat, ghost most: nat) returns (digits: nat)
    requires buf.Length == BUFFER
    requires n0 < Pow(10, most) && width <= most <= BUFFER
    modifies buf
    ensures width <= digits <= most
    ensures Backwards(buf[..], digits) == Padded(n0, width)
  {
    var n: nat := n0;
    digits := 0;
    ghost var full := Padded(n0, width);
    assert full == Rest(n, width, 0) + Backwards(buf[..], 0);
    while n != 0 || digits < width
      invariant digits <= most && n < Pow(10, most - digits)
      invariant full == Rest(n, width, digits) + Backwards(buf[..], digits)
      decreases n, width - digits
    {
      FewerDigits(n, most - digits);
      FillStep(full, buf[..], n, width, digits);
      PutDigit(buf, digits, n % 10);
      digits := digits + 1;
      n := n / 10;
    }
    assert Rest(n, width, digits) == "";
  }

  lemma {:induction false} BackwardsAt(a: seq<char>, k: nat, i: nat)
    requires i < k <= |a|
    ensures Backwards(a, k)[i] == a[k - 1 - i]
    decreases k
  {
    if i != 0 {
      BackwardsAt(a, k - 1, i - 1);
    }
  }

  /** The first `shown` digits, with the point once it has been passed. */
  ghost function Pointed(s: string, decimals: nat, shown: nat): string
    requires decimals <= |s| && shown <= |s|
  {
    if decimals == 0 || shown <= |s| - decimals then s[..shown]
    else s[..|s| - decimals] + "." + s[|s| - decimals..shown]
  }

  /** Prints the buffer backwards, with a point before the last `decimals` digits. */
  method PrintBuffer(out: Output, buf: array<char>, count: nat, decimals: nat)
    requires count <= buf.Length && decimals < count
    modifies out
    ensures out.text == old(out.text) + Pointed(Backwards(buf[..], count), decimals, count)
  {
    var digits: nat := count;
    ghost var s := Backwards(buf[..], count);
    while digits > 0
      invariant digits <= count
      invariant out.text == old(out.text) + Pointed(s, decimals, count - digits)
    {
      BackwardsAt(buf[..], count, count - digits);
      if digits == decimals {
        out.Emit('.');
      }
      digits := digits - 1;
      out.Emit(buf[digits]);
    }
  }

  lemma PointedAll(s: string, decimals: nat)
    requires decimals <= |s|
    ensures Pointed(s, decimals, |s|) == WithFraction(s[..|s| - decimals], s[|s| - decimals..])
  {
    assert s[..|s|] == s;
  }

  lemma Assoc(a: string, b: string, c: string)
    ensures (a + b) + c == a + (b + c)
  {
  }

  /** Digits by way of the buffer, with a point before the last `decimals` of them. */
  method PrintPadded(out: Output, buf: array<char>, n: nat, width: nat, decimals: nat, ghost most: nat)
    requires buf.Length == BUFFER && n < Pow(10, most) && decimals < width <= most <= BUFFER
    modifies out, buf
    ensures out.text == old(out.text) + Pointed(Padded(n, width), decimals, |Padded(n, width)|)
  {
    var digits := FillDigits(buf, n, width, most);
    PrintBuffer(out, buf, digits, decimals);
  }

  /** The exponent part, if there is an exponent. */
  method PrintExponent(out: Output, buf: array<char>, exponent: int, ghost most: nat)
    requires buf.Length == BUFFER && 0 - Pow(10, most) < exponent < Pow(10, most) && 2 <= most <= BUFFER
    modifies out, buf
    ensures out.text == old(out.text) + ExponentText(ExponentOf(exponent))
  {
    if exponent != 0 {
      var size: nat := if exponent < 0 then 0 - exponent else exponent;
      ghost var digits, sign := Padded(size, 2), if exponent < 0 then "e-" else "e+";
      Assoc(out.text, sign, digits);
      PointedAll(digits, 0);
      assert digits[..|digits|] == digits && digits[|digits|..] == "";
      out.Emit('e');
      if exponent < 0 {
        out.Emit('-');
      } else {
        out.Emit('+');
      }
      assert out.text == old(out.text) + sign;
      PrintPadded(out, buf, size, 2, 0, most);
    }
  }

  /** Drops the zeros at the end of the decimals. */
  method TrimZeros(n0: nat, decimals0: nat) returns (n: nat, decimals: nat)
    ensures (n, decimals) == Trim(n0, decimals0)
    ensures n <= n0 && decimals <= decimals0
  {
    n, decimals := n0, decimals0;
    while decimals > 0 && n % 10 == 0
      invariant n <= n0 && decimals <= decimals0
      invariant Trim(n, decimals) == Trim(n0, decimals0)
      decreases decimals
    {
      n := n / 10;
      decimals := decimals - 1;
    }
  }

  /** Digits that suffice for a scaled number with its decimals, and for any `int` exponent. */
  lemma Sizes() returns (mantissa: nat, exponent: nat)
    ensures 11 <= mantissa <= BUFFER && MAX_SCALED < Pow(10, mantissa)
    ensures 2 <= exponent <= BUFFER && 0x1_0000_0000 < Pow(10, exponent)
  {
    assert Pow(10, 4) == 10000;
    assert Pow(10, 8) == 10000 * Pow(10, 4);
    assert Pow(10, 11) == 1000 * Pow(10, 8);
    mantissa, exponent := 11, 11;
  }

  /** The text of a literal is its digits with the point, and then its exponent part. */
  lemma PartsText(n: nat, decimals: nat, exponent: int)
    ensures var s := Padded(n, decimals + 1);
            LiteralOf(n, decimals, exponent).Text()
            == Pointed(s, decimals, |s|) + ExponentText(ExponentOf(exponent))
  {
    PointedAll(Padded(n, decimals + 1), decimals);
  }

  /** Prints `mantissa` and then `tail`, which are the texts of the number and of the exponent. */
  method PrintBoth(out: Output, n: nat, decimals: nat, exponent: int, ghost mantissa: string, ghost tail: string)
    requires n < MAX_SCALED && decimals <= 10 && 0 - 0x1_0000_0000 < exponent < 0x1_0000_0000
    requires mantissa == Pointed(Padded(n, decimals + 1), decimals, |Padded(n, decimals + 1)|)
    requires tail == ExponentText(ExponentOf(exponent))
    modifies out
    ensures out.text == old(out.text) + (mantissa + tail)
  {
    var buf := new char[BUFFER](_ => 0 as char);
    ghost var forMantissa, forExponent := Sizes();
    Assoc(out.text, mantissa, tail);
    PrintPadded(out, buf, n, decimals + 1, decimals, forMantissa);
    PrintExponent(out, buf, exponent, forExponent);
  }

  lemma LayoutIs(scaled: nat, x: int, n: nat, decimals: nat, exponent: int)
    requires (n, decimals) == Trim(scaled, Decimals(x)) && exponent == x + Decimals(x)
    ensures Layout(scaled, x) == LiteralOf(n, decimals, exponent)
  {
  }

  /** Prints a scaled number that needs no carry. */
  method PrintLayout(out: Output, scaled: nat, x: int)
    requires scaled < MAX_SCALED && 0 - 0x8000_0000 <= x < 0x8000_0000
    modifies out
    ensures out.text == old(out.text) + Layout(scaled, x).Text()
  {
    var decimals: nat := if x <= 0 && x >= 0 - (SIG_DIGITS + 3) then 0 - x else SIG_DIGITS - 1;
    var exponent: int := x + decimals;
    var n;
    n, decimals := TrimZeros(scaled, decimals);
    LayoutIs(scaled, x, n, decimals, exponent);
    PartsText(n, decimals, exponent);
    ghost var digits := Padded(n, decimals + 1);
    PrintBoth(out, n, decimals, exponent, Pointed(digits, decimals, |digits|), ExponentText(ExponentOf(exponent)));
  }

  /**
   Prints `n * 10^x` from the scaled integer on; `x` is any exponent that leaves room in an `int` for
   the carry and the decimals.
   */
  method PrintScaled(out: Output, scaled: nat, x: int)
    requires 0 - 0x8000_0000 <= x < 0x7FFF_FF00
    modifies out
    ensures out.text == old(out.text) + ScaledLiteral(scaled, x).Text()
    ensures 1_000_000 <= scaled < 10_000_000 ==> TextFor(out.text[|old(out.text)|..], scaled, x)
    ensures scaled == 10_000_000 ==> TextFor(out.text[|old(out.text)|..], 1_000_000, x + 1)
  {
    var n, exponent: int := scaled, x;
    if n >= MAX_SCALED {
      n := MIN_SCALED;
      exponent := exponent + 1;
    }
    PrintLayout(out, n, exponent);
    ghost var text := out.text[|old(out.text)|..];
    assert text == ScaledLiteral(scaled, x).Text();
    if 1_000_000 <= scaled <= 10_000_000 {
      ScaledTextExact(scaled, x, text);
    }
  }
}
