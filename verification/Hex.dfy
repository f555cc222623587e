/** Unity's hexadecimal printer. */
module Hex {
  import opened CArith
  import opened Arith
  import opened Decimal

  const MAX_NIBBLES := 16

  /** `char` as the build's signed 8-bit integer. */
  type Int8 = x: int | -128 <= x < 128

  function HexDigit(d: nat): char
    requires d < 16
  {
    if d <= 9 then '0' + d as char else 'A' + (d - 10) as char
  }

  predicate IsHex(c: char) {
    '0' <= c <= '9' || 'A' <= c <= 'F'
  }

  function HexValue(c: char): (d: nat)
    requires IsHex(c)
    ensures d < 16 && HexDigit(d) == c
  {
    if c <= '9' then (c - '0') as nat else (c - 'A') as nat + 10
  }

  predicate IsHexText(s: string) {
    forall i :: 0 <= i < |s| ==> IsHex(s[i])
  }

  function ParseHex(s: string): nat
    requires IsHexText(s)
  {
    if s == "" then 0 else ParseHex(s[..|s| - 1]) * 16 + HexValue(s[|s| - 1])
  }

  /** The low `k` hexadecimal digits of `n`. */
  function HexText(n: nat, k: nat): string
    decreases k
  {
    if k == 0 then "" else HexText(n / 16, k - 1) + [HexDigit(n % 16)]
  }

  /** The text has exactly `k` digits and denotes the number modulo 16^k. */
  lemma {:induction false} HexRoundTrip(n: nat, k: nat)
    ensures |HexText(n, k)| == k && IsHexText(HexText(n, k))
    ensures ParseHex(HexText(n, k)) == n % Pow(16, k)
    decreases k
  {
    if k != 0 {
      HexRoundTrip(n / 16, k - 1);
      var s := HexText(n, k);
      assert s[..k - 1] == HexText(n / 16, k - 1);
      DivDiv(n, 16, Pow(16, k - 1));
    }
  }

  /** Any upper-case hexadecimal text is what is printed for the number it denotes. */
  lemma {:induction false} HexUnique(s: string)
    requires IsHexText(s)
    ensures HexText(ParseHex(s), |s|) == s
  {
    if s != "" {
      var front := s[..|s| - 1];
      HexUnique(front);
      assert (ParseHex(front) * 16 + HexValue(s[|s| - 1])) / 16 == ParseHex(front);
      assert s == front + [s[|s| - 1]];
    }
  }

  /** How many digits are printed: a count above 16, or a negative one read as unsigned, means 16. */
  function DigitCount(nibbles: Int8): nat {
    if 0 <= nibbles <= MAX_NIBBLES then nibbles else MAX_NIBBLES
  }

  lemma SixteenDigits()
    ensures Pow(16, 16) == TWO_64
  {
    assert Pow(16, 4) == 0x1_0000;
    assert Pow(16, 8) == 0x1_0000 * Pow(16, 4);
    assert Pow(16, 12) == 0x1_0000 * Pow(16, 8);
    assert Pow(16, 16) == 0x1_0000 * Pow(16, 12);
  }

  lemma AllDigits(k: nat)
    ensures k == 16 ==> Pow(16, k) == TWO_64
  {
    SixteenDigits();
  }

  /** `s` shows as many of the low digits as asked for, up to 16; any other count shows all 16, the whole number. */
  ghost predicate Shows(s: string, number: SizeT, nibbles: Int8) {
    && IsHexText(s)
    && if 0 <= nibbles <= 16 then |s| == nibbles && ParseHex(s) == number % Pow(16, nibbles)
       else |s| == 16 && ParseHex(s) == number
  }

  lemma WholeNumber(number: SizeT, k: nat)
    requires Pow(16, k) == TWO_64
    ensures |HexText(number, k)| == k && IsHexText(HexText(number, k)) && ParseHex(HexText(number, k)) == number
  {
    HexRoundTrip(number, k);
  }

  lemma ShownDigits(number: SizeT, nibbles: Int8, k: nat)
    requires k == DigitCount(nibbles)
    ensures Shows(HexText(number, k), number, nibbles)
  {
    if 0 <= nibbles <= 16 {
      HexRoundTrip(number, k);
    } else {
      AllDigits(k);
      WholeNumber(number, k);
    }
  }

  lemma ShownTail(before: string, after: string, s: string)
    requires after == before + s
    ensures after[|before|..] == s
  {
  }

  /** The digits themselves. */
  lemma DigitChars(d: nat)
    requires d < 16
    ensures HexDigit(d) == "0123456789ABCDEF"[d] && IsHex(HexDigit(d)) && HexValue(HexDigit(d)) == d
  {
  }

  /** The conversion to 32-bit `int`, of which only the low four bits are used. */
  function ToInt32(x: nat): int {
    var low := x % 0x1_0000_0000;
    if low < 0x8000_0000 then low else low - 0x1_0000_0000
  }

  lemma LowNibble(x: nat)
    ensures ToInt32(x) % 16 == x % 16
  {
    assert x == (x / 0x1_0000_0000) * 0x1_0000_0000 + x % 0x1_0000_0000;
  }

  /** `number >> (nibbles * 4)`, four bits at a time. */
  function ShiftRight(number: nat, nibbles: nat): nat {
    if nibbles == 0 then number else ShiftRight(number, nibbles - 1) / 16
  }

  /** The text that is out when `left` of `k` digits are still to come. */
  ghost function Shown(number: nat, k: nat, left: nat): string
    requires left <= k
  {
    HexText(ShiftRight(number, left), k - left)
  }

  lemma ShownAll(number: nat, k: nat)
    ensures Shown(number, k, k) == ""
    ensures Shown(number, k, 0) == HexText(number, k)
  {
  }

  lemma HexStep(n: nat, k: nat)
    ensures HexText(n, k + 1) == HexText(n / 16, k) + [HexDigit(n % 16)]
  {
  }

  lemma ShowNext(number: nat, k: nat, left: nat)
    requires 1 <= left <= k
    ensures Shown(number, k, left - 1) == Shown(number, k, left) + [HexDigit(ToInt32(ShiftRight(number, left - 1)) % 16)]
  {
    var n := ShiftRight(number, left - 1);
    LowNibble(n);
    HexStep(n, k - left);
  }

  method EmitNibble(out: Output, nibble: nat)
    requires nibble < 16
    modifies out
    ensures out.text == old(out.text) + [HexDigit(nibble)]
  {
    if nibble <= 9 {
      out.Emit('0' + nibble as char);
    } else {
      out.Emit('A' + (nibble - 10) as char);
    }
  }

  /** The loop over the digits, from the highest. */
  method PrintNibbles(out: Output, number: SizeT, count: nat)
    modifies out
    ensures out.text == old(out.text) + HexText(number, count)
  {
    var nibbles: nat := count;
    ShownAll(number, count);
    while nibbles > 0
      invariant nibbles <= count
      invariant out.text == old(out.text) + Shown(number, count, nibbles)
    {
      ShowNext(number, count, nibbles);
      nibbles := nibbles - 1;
      var nibble := ToInt32(ShiftRight(number, nibbles)) % 16;
      EmitNibble(out, nibble);
    }
  }

  method PrintNumberHex(out: Output, number: SizeT, nibblesToPrint: Int8)
    modifies out
    ensures out.text == old(out.text) + HexText(number, DigitCount(nibblesToPrint))
    ensures Shows(out.text[|old(out.text)|..], number, nibblesToPrint)
  {
    var nibbles: nat := if nibblesToPrint < 0 then nibblesToPrint + 0x1_0000_0000 else nibblesToPrint;
    if nibbles > MAX_NIBBLES {
      nibbles := MAX_NIBBLES;
    }
    PrintNibbles(out, number, nibbles);
    ShownDigits(number, nibblesToPrint, nibbles);
    ShownTail(old(out.text), out.text, HexText(number, nibbles));
  }
}
