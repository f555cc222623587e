/** The array comparisons in terms of the bytes in memory: which bytes make up an element, and what passing says of them. */
module Elements {
  import opened CArith
  import opened Arith
  import opened Compare

  /** The display styles: signed, unsigned, hexadecimal or character, and the bytes of one element. */
  predicate StyleOf(style: Byte, w: nat, signed: bool) {
    || (w == 1 && if signed then style == 0x11 || style == 0x91 else style == 0x21 || style == 0x41)
    || (w == 2 && if signed then style == 0x12 else style == 0x22 || style == 0x42)
    || (w == 4 && if signed then style == 0x14 else style == 0x24 || style == 0x44)
    || (w == 8 && if signed then style == 0x18 else style == 0x28 || style == 0x48)
  }

  lemma StyleWidth(style: Byte, w: nat, signed: bool)
    requires StyleOf(style, w, signed)
    ensures Width(style) == w && IsSigned(style) == signed
  {
  }

  // ----- the values -----

  function Unsigned2(mem: Memory, p: nat): nat
    requires p + 2 <= |mem|
  {
    var low: nat, high: nat := mem[p], mem[p + 1];
    low + 0x100 * high
  }

  function Unsigned4(mem: Memory, p: nat): nat
    requires p + 4 <= |mem|
  {
    Unsigned2(mem, p) + 0x1_0000 * Unsigned2(mem, p + 2)
  }

  function Unsigned8(mem: Memory, p: nat): nat
    requires p + 8 <= |mem|
  {
    Unsigned4(mem, p) + 0x1_0000_0000 * Unsigned4(mem, p + 4)
  }

  /** Two's complement of `bits` bits. */
  function Signed(v: nat, half: nat): int {
    if v < half then v else v - 2 * half
  }

  lemma LoadTwice(mem: Memory, p: nat, w: nat)
    requires 2 <= w && p + w <= |mem|
    ensures Load(mem, p, w) == Unsigned2(mem, p) + 0x1_0000 * Load(mem, p + 2, w - 2)
  {
    assert Load(mem, p + 1, w - 1) == mem[p + 1] + 256 * Load(mem, p + 2, w - 2);
  }

  lemma LoadNothing(mem: Memory, p: nat)
    requires p <= |mem|
    ensures Load(mem, p, 0) == 0
  {
  }

  lemma LoadValues(mem: Memory, p: nat, w: nat)
    requires p + w <= |mem|
    ensures w == 1 ==> Load(mem, p, w) == mem[p]
    ensures w == 2 ==> Load(mem, p, w) == Unsigned2(mem, p)
    ensures w == 4 ==> Load(mem, p, w) == Unsigned4(mem, p)
    ensures w == 8 ==> Load(mem, p, w) == Unsigned8(mem, p)
    decreases w
  {
    LoadNothing(mem, p + w);
    if w == 2 || w == 4 {
      LoadTwice(mem, p, w);
      LoadValues(mem, p + 2, w - 2);
    } else if w == 8 {
      LoadTwice(mem, p, w);
      LoadTwice(mem, p + 2, 6);
      LoadValues(mem, p + 4, 4);
    }
  }

  /** The value of an element, byte by byte. */
  lemma ElementValue(mem: Memory, p: nat, style: Byte, w: nat, signed: bool)
    requires StyleOf(style, w, signed) && p + w <= |mem|
    ensures Width(style) == w
    ensures w == 1 ==> ValueAt(mem, p, style) == if signed then Signed(mem[p], 0x80) else mem[p]
    ensures w == 2 ==> ValueAt(mem, p, style) == if signed then Signed(Unsigned2(mem, p), 0x8000) else Unsigned2(mem, p)
    ensures w == 4 ==> ValueAt(mem, p, style) == if signed then Signed(Unsigned4(mem, p), 0x8000_0000) else Unsigned4(mem, p)
    ensures w == 8 ==> ValueAt(mem, p, style) == if signed then Signed(Unsigned8(mem, p), TWO_63) else Unsigned8(mem, p)
  {
    StyleWidth(style, w, signed);
    LoadValues(mem, p, w);
    WidthValues();
  }

  /** Within the delta: neither further below the expected value than that, nor further above it. */
  lemma WithinDelta(mem: Memory, expected: nat, actual: nat, n: nat, style: Byte, flags: Flags, delta: nat, i: nat)
    requires InMemory(mem, expected, actual, n, Width(style), flags) && i < n
    ensures var w := Width(style);
            var e := if flags == ArrayToArray then expected + i * w else expected;
            && e + w <= |mem| && actual + i * w + w <= |mem|
            && (Within(mem, expected, actual, n, style, flags, delta, i)
                <==> ValueAt(mem, e, style) - delta <= ValueAt(mem, actual + i * w, style) <= ValueAt(mem, e, style) + delta)
  {
    ElementInMemory(mem, expected, actual, n, Width(style), flags, i);
  }

  /** A mismatch reports the expected value as expected and the actual one as actual. */
  lemma MismatchValues(mem: Memory, expected: nat, actual: nat, n: nat, style: Byte, flags: Flags, delta: nat, o: Outcome)
    requires InMemory(mem, expected, actual, n, Width(style), flags) && o.NumberMismatch?
    requires FirstOutside(mem, expected, actual, n, style, flags, delta, o)
    ensures var w, i := Width(style), o.index;
            var e := if flags == ArrayToArray then expected + i * w else expected;
            && e + w <= |mem| && actual + i * w + w <= |mem|
            && o.expected == ValueAt(mem, e, style) && o.actual == ValueAt(mem, actual + i * w, style)
            && !(o.expected - delta <= o.actual <= o.expected + delta)
  {
    WithinDelta(mem, expected, actual, n, style, flags, delta, o.index);
  }

  // ----- equality -----

  lemma SliceFirst(mem: Memory, p: nat, q: nat, w: nat)
    requires 1 <= w && p + w <= |mem| && q + w <= |mem|
    ensures mem[p..p + w] == mem[q..q + w]
            <==> mem[p] == mem[q] && mem[p + 1..p + 1 + (w - 1)] == mem[q + 1..q + 1 + (w - 1)]
  {
    assert mem[p..p + w] == [mem[p]] + mem[p + 1..p + 1 + (w - 1)];
    assert mem[q..q + w] == [mem[q]] + mem[q + 1..q + 1 + (w - 1)];
  }

  /** Different bytes make different values. */
  lemma {:induction false} LoadExact(mem: Memory, p: nat, q: nat, w: nat)
    requires p + w <= |mem| && q + w <= |mem|
    ensures Load(mem, p, w) == Load(mem, q, w) <==> mem[p..p + w] == mem[q..q + w]
    decreases w
  {
    if w != 0 {
      LoadExact(mem, p + 1, q + 1, w - 1);
      SliceFirst(mem, p, q, w);
    }
  }

  lemma EqualValues(mem: Memory, p: nat, q: nat, style: Byte)
    requires p + Width(style) <= |mem| && q + Width(style) <= |mem|
    ensures ValueAt(mem, p, style) == ValueAt(mem, q, style)
            <==> mem[p..p + Width(style)] == mem[q..q + Width(style)]
  {
    LoadExact(mem, p, q, Width(style));
  }

  lemma EqualAt(mem: Memory, expected: nat, actual: nat, n: nat, style: Byte, flags: Flags, i: nat)
    requires InMemory(mem, expected, actual, n, Width(style), flags) && i < n
    ensures var w := Width(style);
            var e := if flags == ArrayToArray then expected + i * w else expected;
            && e + w <= |mem| && actual + i * w + w <= |mem|
            && (Within(mem, expected, actual, n, style, flags, 0, i)
                <==> mem[e..e + w] == mem[actual + i * w..actual + i * w + w])
  {
    var w := Width(style);
    ElementInMemory(mem, expected, actual, n, w, flags, i);
    EqualValues(mem, ExpectedAt(expected, w, flags, i), actual + i * w, style);
  }

  /** With delta 0 an element is accepted exactly when its `w` bytes are those of the expected element. */
  lemma EqualElement(mem: Memory, expected: nat, actual: nat, n: nat, style: Byte, w: nat, signed: bool, flags: Flags, i: nat)
    requires StyleOf(style, w, signed) && InMemory(mem, expected, actual, n, w, flags) && i < n
    ensures Width(style) == w
    ensures var e := if flags == ArrayToArray then expected + i * w else expected;
            && e + w <= |mem| && actual + i * w + w <= |mem|
            && (Within(mem, expected, actual, n, style, flags, 0, i)
                <==> mem[e..e + w] == mem[actual + i * w..actual + i * w + w])
  {
    StyleWidth(style, w, signed);
    EqualAt(mem, expected, actual, n, style, flags, i);
  }

  // ----- memory -----

  /** Every byte of element `j` is the expected one. */
  ghost predicate SameElement(mem: Memory, expected: nat, actual: nat, length: nat, n: nat, flags: Flags, j: nat)
    requires BytesInMemory(mem, expected, actual, length, n, flags) && j < n
  {
    forall b :: 0 <= b < length ==> SameByte(mem, expected, actual, length, n, flags, j, b)
  }

  lemma ByteAt(mem: Memory, expected: nat, actual: nat, length: nat, n: nat, flags: Flags, j: nat, b: nat, e: nat, a: nat)
    requires BytesInMemory(mem, expected, actual, length, n, flags) && j < n && b < length
    requires e == (if flags == ArrayToVal then expected else expected + j * length) && a == actual + j * length
    requires e + length <= |mem| && a + length <= |mem|
    ensures SameByte(mem, expected, actual, length, n, flags, j, b)
            <==> mem[e..e + length][b] == mem[a..a + length][b]
  {
    ByteInMemory(mem, expected, actual, length, n, flags, j, b);
  }

  /** That is, its bytes are those of the one expected value, or of the expected element with the same number. */
  lemma ElementBytes(mem: Memory, expected: nat, actual: nat, length: nat, n: nat, flags: Flags, j: nat)
    requires BytesInMemory(mem, expected, actual, length, n, flags) && j < n
    ensures var e := if flags == ArrayToVal then expected else expected + j * length;
            && e + length <= |mem| && actual + j * length + length <= |mem|
            && (SameElement(mem, expected, actual, length, n, flags, j)
                <==> mem[e..e + length] == mem[actual + j * length..actual + j * length + length])
  {
    var e, a := if flags == ArrayToVal then expected else expected + j * length, actual + j * length;
    MulMono(j + 1, n, length);
    MulStep(j, length);
    var xs, ys := mem[e..e + length], mem[a..a + length];
    forall b | 0 <= b < length ensures SameByte(mem, expected, actual, length, n, flags, j, b) <==> xs[b] == ys[b] {
      ByteAt(mem, expected, actual, length, n, flags, j, b, e, a);
    }
    assert xs == ys <==> forall b :: 0 <= b < |xs| ==> xs[b] == ys[b];
  }

  lemma AllSameElements(mem: Memory, expected: nat, actual: nat, length: nat, n: nat, flags: Flags)
    requires BytesInMemory(mem, expected, actual, length, n, flags)
    ensures AllSame(mem, expected, actual, length, n, flags)
            <==> forall j :: 0 <= j < n ==> SameElement(mem, expected, actual, length, n, flags, j)
  {
    if AllSame(mem, expected, actual, length, n, flags) {
      forall j | 0 <= j < n ensures SameElement(mem, expected, actual, length, n, flags, j) {
      }
    }
    if forall j :: 0 <= j < n ==> SameElement(mem, expected, actual, length, n, flags, j) {
      forall j, b | 0 <= j < n && 0 <= b < length ensures SameByte(mem, expected, actual, length, n, flags, j, b) {
        assert SameElement(mem, expected, actual, length, n, flags, j);
      }
    }
  }

  /** An array of numbers passes with delta 0 exactly when it passes as an array of bytes. */
  lemma NumbersEqualMemory(mem: Memory, expected: nat, actual: nat, n: nat, style: Byte, w: nat, signed: bool, flags: Flags)
    requires StyleOf(style, w, signed) && flags != ArrayUnknown && InMemory(mem, expected, actual, n, w, flags)
    ensures Width(style) == w && BytesInMemory(mem, expected, actual, w, n, flags)
    ensures AllWithin(mem, expected, actual, n, style, flags, 0) <==> AllSame(mem, expected, actual, w, n, flags)
  {
    StyleWidth(style, w, signed);
    AllSameElements(mem, expected, actual, w, n, flags);
    forall i | 0 <= i < n
      ensures Within(mem, expected, actual, n, style, flags, 0, i) <==> SameElement(mem, expected, actual, w, n, flags, i)
    {
      EqualElement(mem, expected, actual, n, style, w, signed, flags, i);
      ElementBytes(mem, expected, actual, w, n, flags, i);
    }
  }
}
