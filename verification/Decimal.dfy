/** Unity's decimal printers, and what decimal text means. */
module Decimal {
  import opened CArith
  import opened Arith

  /** The character sink behind `UNITY_OUTPUT_CHAR`. */
  class Output {
    var text: string

    constructor ()
      ensures text == ""
    {
      text := "";
    }

    method Emit(c: char)
      modifies this
      ensures text == old(text) + [c]
    {
      text := text + [c];
    }
  }

  // ----- decimal text -----

  function Digit(d: nat): char
    requires d < 10
  {
    '0' + d as char
  }

  predicate IsDigit(c: char) {
    '0' <= c <= '9'
  }

  predicate IsDigits(s: string) {
    forall i :: 0 <= i < |s| ==> IsDigit(s[i])
  }

  /** The number a string of digits denotes, most significant digit first. */
  function ParseNat(s: string): nat
    requires IsDigits(s)
  {
    if s == "" then 0 else ParseNat(s[..|s| - 1]) * 10 + (s[|s| - 1] - '0') as nat
  }

  /** No leading zeros, and at least one digit. */
  predicate Canonical(s: string) {
    s != "" && IsDigits(s) && (s[0] == '0' ==> |s| == 1)
  }

  function DecimalText(n: nat): string {
    if n < 10 then [Digit(n)] else DecimalText(n / 10) + [Digit(n % 10)]
  }

  function SignedText(n: int): string {
    if n < 0 then "-" + DecimalText(-n) else DecimalText(n)
  }

  /** Decimal text read as a signed number: a minus sign only before a nonzero number. */
  ghost predicate Denotes(s: string, n: int) {
    if s != "" && s[0] == '-' then Canonical(s[1..]) && s[1..] != "0" && n == 0 - ParseNat(s[1..])
    else Canonical(s) && n == ParseNat(s)
  }

  lemma {:induction false} ParseDigit(s: string, d: nat)
    requires IsDigits(s) && d < 10
    ensures IsDigits(s + [Digit(d)]) && ParseNat(s + [Digit(d)]) == ParseNat(s) * 10 + d
  {
    var t := s + [Digit(d)];
    assert t[..|t| - 1] == s;
  }

  /** Printing and reading back gives the number, and the text has no leading zeros. */
  lemma {:induction false} DecimalRoundTrip(n: nat)
    ensures Canonical(DecimalText(n)) && ParseNat(DecimalText(n)) == n
    ensures 10 <= n ==> DecimalText(n)[0] != '0'
  {
    if n < 10 {
      ParseDigit("", n);
      assert "" + [Digit(n)] == [Digit(n)];
    } else {
      DecimalRoundTrip(n / 10);
      ParseDigit(DecimalText(n / 10), n % 10);
    }
  }

  /** The printed text is the only canonical text of the number. */
  lemma {:induction false} DecimalUnique(s: string)
    requires Canonical(s)
    ensures DecimalText(ParseNat(s)) == s
    ensures |s| > 1 ==> ParseNat(s) >= 10
  {
    var last := s[|s| - 1];
    assert Digit((last - '0') as nat) == last;
    assert s == s[..|s| - 1] + [last];
    if |s| == 1 {
      assert s[..0] == "";
    } else {
      assert Canonical(s[..|s| - 1]);
      DecimalUnique(s[..|s| - 1]);
      var front := ParseNat(s[..|s| - 1]);
      if |s| == 2 {
        assert s[..1][..0] == "";
        assert front == (s[0] - '0') as nat;
      }
      assert 1 <= front;
      assert (front * 10 + (last - '0') as nat) / 10 == front;
    }
  }

  lemma NonZero(s: string)
    requires Canonical(s) && s != "0"
    ensures ParseNat(s) > 0
  {
    DecimalUnique(s);
    assert DecimalText(0) == "0";
  }

  /** The signed text is the one text that denotes the number, down to the smallest 64-bit integer. */
  lemma SignedTextExact(n: int, s: string)
    ensures Denotes(s, n) <==> s == SignedText(n)
  {
    var size := if n < 0 then -n else n;
    DecimalRoundTrip(size);
    assert SignedText(n)[0] == '-' <==> n < 0;
    assert n < 0 ==> SignedText(n)[1..] == DecimalText(size);
    if Denotes(s, n) {
      if s[0] == '-' {
        DecimalUnique(s[1..]);
        NonZero(s[1..]);
        assert s == "-" + s[1..];
      } else {
        DecimalUnique(s);
      }
    }
  }

  // ----- the printers -----

  /** The number without its last `k` digits. */
  ghost function Drop(number: nat, k: nat): nat {
    if k == 0 then number else Drop(number, k - 1) / 10
  }

  lemma {:induction false} DropIsQuotient(number: nat, k: nat)
    ensures number / Pow(10, k) == Drop(number, k)
  {
    if k != 0 {
      DropIsQuotient(number, k - 1);
      DivDiv(number, Pow(10, k - 1), 10);
    }
  }

  lemma TimesTen(number: nat, divisor: nat)
    requires 1 <= divisor && number / divisor > 9
    ensures divisor < divisor * 10 <= number
  {
    DivNonNegative(number, divisor);
    MulMono(10, number / divisor, divisor);
  }

  /** The power of ten of the leading digit, which is not above the number unless it is one. */
  method InitialDivisor(number: SizeT) returns (divisor: SizeT, ghost k: nat)
    ensures divisor == Pow(10, k) && (divisor == 1 || divisor <= number)
    ensures Drop(number, k) <= 9
  {
    divisor, k := 1, 0;
    while number / divisor > 9
      invariant divisor == Pow(10, k)
      invariant divisor == 1 || divisor <= number
      decreases number - divisor
    {
      TimesTen(number, divisor);
      divisor := ToSize(divisor * 10);
      k := k + 1;
    }
    DropIsQuotient(number, k);
  }

  /** All digits of `x` but the last; nothing for a single digit. */
  ghost function Front(x: nat): string {
    if x < 10 then "" else DecimalText(x / 10)
  }

  lemma DivPositive(number: nat, divisor: nat)
    requires 1 <= divisor <= number
    ensures number / divisor >= 1
  {
    DivNonNegative(number, divisor);
  }

  /** The digit at 10^k completes the text of what is left of the number there; then 10^(k-1) follows, if any. */
  lemma NextDigit(number: nat, k: nat)
    requires Pow(10, k) == 1 || Pow(10, k) <= number
    ensures number / Pow(10, k) == Drop(number, k)
    ensures Front(Drop(number, k)) + [Digit(Drop(number, k) % 10)] == DecimalText(Drop(number, k))
    ensures k == 0 ==> Pow(10, k) / 10 == 0
    ensures k > 0 ==> 0 < Pow(10, k) / 10 == Pow(10, k - 1) <= number
    ensures k > 0 ==> Front(Drop(number, k - 1)) == DecimalText(Drop(number, k))
  {
    DropIsQuotient(number, k);
    if k > 0 {
      assert Pow(10, k) == 10 * Pow(10, k - 1);
      DivPositive(number, Pow(10, k));
    }
  }

  method PrintNumberUnsigned(out: Output, number: SizeT)
    modifies out
    ensures out.text == old(out.text) + DecimalText(number)
  {
    ghost var k: nat;
    var divisor;
    divisor, k := InitialDivisor(number);
    assert out.text == old(out.text) + Front(Drop(number, k));
    var more := true;
    while more
      invariant more ==> divisor == Pow(10, k) && (divisor == 1 || divisor <= number)
      invariant out.text == old(out.text) + if more then Front(Drop(number, k)) else DecimalText(number)
      decreases more, k
    {
      NextDigit(number, k);
      var digit := number / divisor % 10;
      out.Emit('0' + digit as char);
      divisor := divisor / 10;
      more := divisor > 0;
      if more {
        k := k - 1;
      }
    }
  }

  method PrintNumber(out: Output, numberToPrint: Long)
    modifies out
    ensures out.text == old(out.text) + SignedText(numberToPrint)
  {
    var number := ToSize(numberToPrint);
    if numberToPrint < 0 {
      out.Emit('-');
      number := ToSize((TWO_64 - 1 - number) + 1);
    }
    PrintNumberUnsigned(out, number);
  }
}
