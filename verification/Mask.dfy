/** Unity's mask printer, which shows the low `UNITY_INT_WIDTH` bits of a number under a mask. */
module Mask {
  import opened CArith
  import opened Arith
  import opened Decimal

  const INT_WIDTH := 32

  /** Bitwise `&` of two unsigned numbers. */
  function BitAnd(a: nat, b: nat): nat {
    if a == 0 || b == 0 then 0 else BitAnd(a / 2, b / 2) * 2 + (if a % 2 == 1 && b % 2 == 1 then 1 else 0)
  }

  /** The character of one bit: hidden by the mask, or the bit itself. */
  function BitChar(mask: nat, number: nat): char {
    if mask % 2 == 0 then 'X' else if number % 2 == 1 then '1' else '0'
  }

  /** The low `k` bits, most significant first. */
  function MaskText(mask: nat, number: nat, k: nat): (s: string)
    ensures |s| == k
    decreases k
  {
    if k == 0 then "" else MaskText(mask / 2, number / 2, k - 1) + [BitChar(mask, number)]
  }

  /** The mask and the masked number, read back from the text. */
  function ReadMask(s: string): nat {
    if s == "" then 0 else ReadMask(s[..|s| - 1]) * 2 + (if s[|s| - 1] == 'X' then 0 else 1)
  }

  function ReadNumber(s: string): nat {
    if s == "" then 0 else ReadNumber(s[..|s| - 1]) * 2 + (if s[|s| - 1] == '1' then 1 else 0)
  }

  /** The definition unfolds for zeros as well. */
  lemma AndStep(a: nat, b: nat)
    ensures BitAnd(a, b) == BitAnd(a / 2, b / 2) * 2 + if a % 2 == 1 && b % 2 == 1 then 1 else 0
  {
  }

  lemma HalfAnd(a: nat, b: nat)
    ensures BitAnd(a, b) / 2 == BitAnd(a / 2, b / 2)
    ensures BitAnd(a, b) % 2 == if a % 2 == 1 && b % 2 == 1 then 1 else 0
  {
    AndStep(a, b);
  }

  /** The low `k` bits of `n`. */
  function Low(n: nat, k: nat): nat {
    if k == 0 then 0 else Low(n / 2, k - 1) * 2 + n % 2
  }

  lemma {:induction false} LowIsMod(n: nat, k: nat)
    ensures Low(n, k) == n % Pow(2, k)
    decreases k
  {
    if k != 0 {
      LowIsMod(n / 2, k - 1);
      DivDiv(n, 2, Pow(2, k - 1));
    }
  }

  lemma ReadLast(s: string, c: char)
    ensures ReadMask(s + [c]) == ReadMask(s) * 2 + (if c == 'X' then 0 else 1)
    ensures ReadNumber(s + [c]) == ReadNumber(s) * 2 + (if c == '1' then 1 else 0)
  {
    assert (s + [c])[..|s + [c]| - 1] == s;
  }

  lemma {:induction false} MaskRead(mask: nat, number: nat, k: nat)
    ensures ReadMask(MaskText(mask, number, k)) == Low(mask, k)
    ensures ReadNumber(MaskText(mask, number, k)) == Low(BitAnd(mask, number), k)
    decreases k
  {
    if k != 0 {
      MaskRead(mask / 2, number / 2, k - 1);
      ReadLast(MaskText(mask / 2, number / 2, k - 1), BitChar(mask, number));
      HalfAnd(mask, number);
    }
  }

  /** Exactly the low mask bits, and the number's bits under them, can be read off the text. */
  lemma MaskRoundTrip(mask: nat, number: nat, k: nat)
    ensures ReadMask(MaskText(mask, number, k)) == mask % Pow(2, k)
    ensures ReadNumber(MaskText(mask, number, k)) == BitAnd(mask, number) % Pow(2, k)
  {
    MaskRead(mask, number, k);
    LowIsMod(mask, k);
    LowIsMod(BitAnd(mask, number), k);
  }

  /** `x >> k`, one bit at a time. */
  function ShiftRight(x: nat, k: nat): nat {
    if k == 0 then x else ShiftRight(x, k - 1) / 2
  }

  lemma {:induction false} ShiftHalf(x: nat, k: nat)
    ensures ShiftRight(x / 2, k) == ShiftRight(x, k + 1)
  {
    if k != 0 {
      ShiftHalf(x, k - 1);
    }
  }

  /** Each character shows its own bit: `X` under a zero of the mask, else the bit of the number. */
  lemma {:induction false} MaskChar(mask: nat, number: nat, k: nat, bit: nat)
    requires bit < k
    ensures MaskText(mask, number, k)[k - 1 - bit]
            == if ShiftRight(mask, bit) % 2 == 0 then 'X' else if ShiftRight(number, bit) % 2 == 0 then '0' else '1'
    decreases k
  {
    if bit > 0 {
      MaskChar(mask / 2, number / 2, k - 1, bit - 1);
      ShiftHalf(mask, bit - 1);
      ShiftHalf(number, bit - 1);
    }
  }

  /** `&` with a single bit tests that bit. */
  lemma {:induction false} AndBit(k: nat, x: nat)
    ensures BitAnd(Pow(2, k), x) != 0 <==> ShiftRight(x, k) % 2 == 1
    decreases k
  {
    if k == 0 {
      assert BitAnd(0, x / 2) == 0;
    } else {
      assert Pow(2, k) / 2 == Pow(2, k - 1) && Pow(2, k) % 2 == 0;
      AndBit(k - 1, x / 2);
      ShiftHalf(x, k - 1);
    }
  }

  /** The text that is out when the bits below `left` are still to come. */
  ghost function Shown(mask: nat, number: nat, k: nat, left: nat): string
    requires left <= k
  {
    MaskText(ShiftRight(mask, left), ShiftRight(number, left), k - left)
  }

  lemma ShownAll(mask: nat, number: nat, k: nat)
    ensures Shown(mask, number, k, k) == ""
    ensures Shown(mask, number, k, 0) == MaskText(mask, number, k)
  {
  }

  lemma MaskStep(mask: nat, number: nat, k: nat)
    ensures MaskText(mask, number, k + 1) == MaskText(mask / 2, number / 2, k) + [BitChar(mask, number)]
  {
  }

  lemma ShowNext(mask: nat, number: nat, k: nat, left: nat)
    requires 1 <= left <= k
    ensures var c := if BitAnd(Pow(2, left - 1), mask) == 0 then 'X'
                     else if BitAnd(Pow(2, left - 1), number) == 0 then '0' else '1';
            Shown(mask, number, k, left - 1) == Shown(mask, number, k, left) + [c]
  {
    AndBit(left - 1, mask);
    AndBit(left - 1, number);
    MaskStep(ShiftRight(mask, left - 1), ShiftRight(number, left - 1), k - left);
  }

  /** The loop over `width` bits, starting from the highest. */
  method PrintBits(out: Output, mask: SizeT, number: SizeT, width: nat)
    requires 1 <= width
    modifies out
    ensures out.text == old(out.text) + MaskText(mask, number, width)
  {
    var currentBit: nat := Pow(2, width - 1);
    ShownAll(mask, number, width);
    for i := 0 to width
      invariant i < width ==> currentBit == Pow(2, width - 1 - i)
      invariant out.text == old(out.text) + Shown(mask, number, width, width - i)
    {
      ShowNext(mask, number, width, width - i);
      if BitAnd(currentBit, mask) != 0 {
        if BitAnd(currentBit, number) != 0 {
          out.Emit('1');
        } else {
          out.Emit('0');
        }
      } else {
        out.Emit('X');
      }
      currentBit := currentBit / 2;
    }
  }

  method PrintMask(out: Output, mask: SizeT, number: SizeT)
    modifies out
    ensures |out.text| == |old(out.text)| + 32 && out.text == old(out.text) + MaskText(mask, number, INT_WIDTH)
    ensures forall bit: nat :: bit < 32 ==>
              out.text[|out.text| - 1 - bit]
              == if ShiftRight(mask, bit) % 2 == 0 then 'X' else if ShiftRight(number, bit) % 2 == 0 then '0' else '1'
  {
    PrintBits(out, mask, number, INT_WIDTH);
    forall bit: nat | bit < 32
      ensures out.text[|out.text| - 1 - bit]
              == if ShiftRight(mask, bit) % 2 == 0 then 'X' else if ShiftRight(number, bit) % 2 == 0 then '0' else '1'
    {
      MaskChar(mask, number, INT_WIDTH, bit);
    }
  }
}
