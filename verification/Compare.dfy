/** Unity's array comparisons: numbers within a delta, and memory for equality. */
module Compare {
  import opened CArith
  import opened Arith

  type Byte = x: int | 0 <= x < 256
  type UInt32 = x: int | 0 <= x < 0x1_0000_0000

  /** Memory as the bytes at each address; address 0 is NULL. */
  type Memory = seq<Byte>
  const NULL := 0

  datatype Flags = ArrayToVal | ArrayToArray | ArrayUnknown

  /** How an assertion ends; every end but `Aborted` and `Passed` fails the test. */
  datatype Outcome =
    | Aborted
    | Pointless
    | NullPointer
    | Passed
    | NumberMismatch(index: nat, expected: int, actual: int)
    | ByteMismatch(element: nat, byte: nat)

  // ----- typed values in memory -----

  /** The number of bytes of an element: the low digit of the display style, 4 unless it is 1, 2 or 8. */
  function Width(style: Byte): nat {
    if style % 16 == 1 || style % 16 == 2 || style % 16 == 8 then style % 16 else 4
  }

  /** The style has the flag `UNITY_DISPLAY_RANGE_INT`. */
  predicate IsSigned(style: Byte) {
    style / 16 % 2 == 1
  }

  /** An unsigned little-endian value of `w` bytes. */
  function Load(mem: Memory, p: nat, w: nat): (v: nat)
    requires p + w <= |mem|
    ensures v < Pow(256, w)
    decreases w
  {
    if w == 0 then 0 else mem[p] + 256 * Load(mem, p + 1, w - 1)
  }

  /** The mathematical value of the element of this style at `p`. */
  function ValueAt(mem: Memory, p: nat, style: Byte): int
    requires p + Width(style) <= |mem|
  {
    var v := Load(mem, p, Width(style));
    if IsSigned(style) && 2 * v >= Pow(256, Width(style)) then v - Pow(256, Width(style)) else v
  }

  function Distance(a: int, b: int): nat {
    if a > b then a - b else b - a
  }

  /** Where element `i` of the expected side is: every element, or one value for all. */
  function ExpectedAt(expected: nat, w: nat, flags: Flags, i: nat): nat {
    if flags == ArrayToArray then expected + i * w else expected
  }

  predicate InMemory(mem: Memory, expected: nat, actual: nat, n: nat, w: nat, flags: Flags) {
    && actual + n * w <= |mem|
    && expected + (if flags == ArrayToArray then n * w else w) <= |mem|
  }

  lemma ElementInMemory(mem: Memory, expected: nat, actual: nat, n: nat, w: nat, flags: Flags, i: nat)
    requires InMemory(mem, expected, actual, n, w, flags) && i < n
    ensures actual + i * w + w <= |mem|
    ensures ExpectedAt(expected, w, flags, i) + w <= |mem|
  {
    assert i * w + w == (i + 1) * w <= n * w;
  }

  /** The true values of the two sides at element `i`. */
  ghost function Element(mem: Memory, expected: nat, actual: nat, n: nat, style: Byte, flags: Flags, i: nat): (int, int)
    requires InMemory(mem, expected, actual, n, Width(style), flags) && i < n
  {
    ElementInMemory(mem, expected, actual, n, Width(style), flags, i);
    (ValueAt(mem, ExpectedAt(expected, Width(style), flags, i), style), ValueAt(mem, actual + i * Width(style), style))
  }

  /** Element `i` is within the delta, in exact arithmetic. */
  ghost predicate Within(mem: Memory, expected: nat, actual: nat, n: nat, style: Byte, flags: Flags, delta: nat, i: nat)
    requires InMemory(mem, expected, actual, n, Width(style), flags) && i < n
  {
    var (e, a) := Element(mem, expected, actual, n, style, flags, i);
    Distance(e, a) <= delta
  }

  /** The outcome names the first element that is not within the delta, and its true values. */
  ghost predicate FirstOutside(mem: Memory, expected: nat, actual: nat, n: nat, style: Byte, flags: Flags, delta: nat,
                               o: Outcome)
    requires InMemory(mem, expected, actual, n, Width(style), flags) && o.NumberMismatch?
  {
    && o.index < n
    && !Within(mem, expected, actual, n, style, flags, delta, o.index)
    && (forall i :: 0 <= i < o.index ==> Within(mem, expected, actual, n, style, flags, delta, i))
    && Element(mem, expected, actual, n, style, flags, o.index) == (o.expected, o.actual)
  }

  // ----- the machine comparison of two 64-bit values -----

  lemma WidthValues()
    ensures Pow(256, 1) == 0x100 && Pow(256, 2) == 0x1_0000 && Pow(256, 4) == 0x1_0000_0000 && Pow(256, 8) == TWO_64
  {
    assert Pow(256, 2) == 256 * Pow(256, 1);
    assert Pow(256, 3) == 256 * Pow(256, 2);
    assert Pow(256, 4) == 256 * Pow(256, 3);
    assert Pow(256, 5) == 256 * Pow(256, 4);
    assert Pow(256, 6) == 256 * Pow(256, 5);
    assert Pow(256, 7) == 256 * Pow(256, 6);
    assert Pow(256, 8) == 256 * Pow(256, 7);
  }

  /** The element as the code holds it, in a signed 64-bit variable; 64-bit unsigned values wrap. */
  function Held(mem: Memory, p: nat, style: Byte): (v: Long)
    requires p + Width(style) <= |mem|
    ensures if IsSigned(style) then v == ValueAt(mem, p, style) else ToSize(v) == ValueAt(mem, p, style)
  {
    WidthValues();
    var v := Load(mem, p, Width(style));
    if IsSigned(style) then ValueAt(mem, p, style) else ToLong(v)
  }

  /** The unsigned difference taken on the side that is larger. */
  method TooFar(signed: bool, expected: Long, actual: Long, delta: SizeT) returns (far: bool)
    ensures signed ==> (far <==> Distance(expected, actual) > delta)
    ensures !signed ==> (far <==> Distance(ToSize(expected), ToSize(actual)) > delta)
  {
    if signed {
      if actual > expected {
        far := ToSize(ToSize(actual) - ToSize(expected)) > delta;
      } else {
        far := ToSize(ToSize(expected) - ToSize(actual)) > delta;
      }
    } else {
      if ToSize(actual) > ToSize(expected) {
        far := ToSize(ToSize(actual) - ToSize(expected)) > delta;
      } else {
        far := ToSize(ToSize(expected) - ToSize(actual)) > delta;
      }
    }
  }

  // ----- memory for equality -----

  function ExpectedByte(expected: nat, length: nat, flags: Flags, element: nat, byte: nat): nat {
    if flags == ArrayToVal then expected + byte else expected + element * length + byte
  }

  predicate BytesInMemory(mem: Memory, expected: nat, actual: nat, length: nat, n: nat, flags: Flags) {
    && actual + n * length <= |mem|
    && expected + (if flags == ArrayToVal then length else n * length) <= |mem|
  }

  lemma ByteInMemory(mem: Memory, expected: nat, actual: nat, length: nat, n: nat, flags: Flags, element: nat, byte: nat)
    requires BytesInMemory(mem, expected, actual, length, n, flags) && element < n && byte < length
    ensures actual + element * length + byte < |mem|
    ensures ExpectedByte(expected, length, flags, element, byte) < |mem|
  {
    assert element * length + length == (element + 1) * length <= n * length;
  }

  ghost predicate SameByte(mem: Memory, expected: nat, actual: nat, length: nat, n: nat, flags: Flags, element: nat, byte: nat)
    requires BytesInMemory(mem, expected, actual, length, n, flags) && element < n && byte < length
  {
    ByteInMemory(mem, expected, actual, length, n, flags, element, byte);
    mem[ExpectedByte(expected, length, flags, element, byte)] == mem[actual + element * length + byte]
  }

  /** Every byte of the elements before `element`, and the first `byte` bytes of `element`, agree. */
  ghost predicate SameBefore(mem: Memory, expected: nat, actual: nat, length: nat, n: nat, flags: Flags, element: nat, byte: nat)
    requires BytesInMemory(mem, expected, actual, length, n, flags)
  {
    forall j, b :: 0 <= j < n && 0 <= b < length && (j < element || (j == element && b < byte)) ==>
                     SameByte(mem, expected, actual, length, n, flags, j, b)
  }

  class Unity {
    var currentTestFailed: bool
    var currentTestIgnored: bool

    /** The loop over the elements of two arrays, or of one array against one value. */
    method CompareNumbers(mem: Memory, delta: SizeT, expected: nat, actual: nat, n: UInt32, style: Byte, flags: Flags)
      returns (o: Outcome)
      requires InMemory(mem, expected, actual, n, Width(style), flags) && !currentTestFailed
      modifies this`currentTestFailed
      ensures o.Passed? || o.NumberMismatch?
      ensures currentTestFailed == (o != Passed)
      ensures o == Passed ==> forall i :: 0 <= i < n ==> Within(mem, expected, actual, n, style, flags, delta, i)
      ensures o.NumberMismatch? ==> FirstOutside(mem, expected, actual, n, style, flags, delta, o)
    {
      var w, elements: nat := Width(style), n;
      var e: nat, a: nat := expected, actual;
      while elements > 0
        invariant elements <= n && !currentTestFailed
        invariant a == actual + (n - elements) * w
        invariant e == ExpectedAt(expected, w, flags, n - elements)
        invariant forall i :: 0 <= i < n - elements ==> Within(mem, expected, actual, n, style, flags, delta, i)
      {
        ghost var i: nat := n - elements;
        ElementInMemory(mem, expected, actual, n, w, flags, i);
        elements := elements - 1;
        var expectVal, actualVal := Held(mem, e, style), Held(mem, a, style);
        currentTestFailed := TooFar(IsSigned(style), expectVal, actualVal, delta);
        assert currentTestFailed <==> !Within(mem, expected, actual, n, style, flags, delta, i);
        if currentTestFailed {
          var shown, shownActual: int := expectVal, actualVal;
          if !IsSigned(style) {
            shown, shownActual := ToSize(expectVal), ToSize(actualVal);
          }
          return NumberMismatch(n - elements - 1, shown, shownActual);
        }
        MulStep(i, w);
        if flags == ArrayToArray {
          e := e + w;
        }
        a := a + w;
      }
      return Passed;
    }

    /**
     Passes exactly when every pair of elements is within the delta in exact arithmetic, or both sides
     are the same pointer; otherwise reports the first element that is not, with both true values.
     */
    method AssertNumbersArrayWithin(mem: Memory, delta: SizeT, expected: nat, actual: nat, n: UInt32, style: Byte,
                                    flags: Flags) returns (o: Outcome)
      requires expected != actual && expected != NULL && actual != NULL ==>
                 InMemory(mem, expected, actual, n, Width(style), flags)
      modifies this
      ensures currentTestIgnored == old(currentTestIgnored)
      ensures currentTestFailed == (old(currentTestFailed) || (o != Passed && o != Aborted))
      ensures o == Aborted <==> old(currentTestFailed || currentTestIgnored)
      ensures o == Pointless <==> !old(currentTestFailed || currentTestIgnored) && n == 0
      ensures o == NullPointer <==> !old(currentTestFailed || currentTestIgnored) && n != 0 && expected != actual
                                    && (expected == NULL || actual == NULL)
      ensures !o.ByteMismatch?
      ensures o == Passed && expected != actual ==>
                forall i :: 0 <= i < n ==> Within(mem, expected, actual, n, style, flags, delta, i)
      ensures o.NumberMismatch? ==>
                && expected != actual && expected != NULL && actual != NULL
                && FirstOutside(mem, expected, actual, n, style, flags, delta, o)
    {
      if currentTestFailed || currentTestIgnored {
        return Aborted;
      }
      if n == 0 {
        currentTestFailed := true;
        return Pointless;
      }
      if expected == actual {
        return Passed;
      }
      if expected == NULL || actual == NULL {
        currentTestFailed := true;
        return NullPointer;
      }
      o := CompareNumbers(mem, delta, expected, actual, n, style, flags);
    }

    /** The loops over elements and bytes. */
    method CompareBytes(mem: Memory, expected: nat, actual: nat, length: UInt32, n: UInt32, flags: Flags)
      returns (o: Outcome)
      requires BytesInMemory(mem, expected, actual, length, n, flags) && !currentTestFailed
      modifies this`currentTestFailed
      ensures o.Passed? || o.ByteMismatch?
      ensures currentTestFailed == (o != Passed)
      ensures o == Passed ==> SameBefore(mem, expected, actual, length, n, flags, n, 0)
      ensures o.ByteMismatch? ==>
                && o.element < n && o.byte < length
                && !SameByte(mem, expected, actual, length, n, flags, o.element, o.byte)
                && SameBefore(mem, expected, actual, length, n, flags, o.element, o.byte)
    {
      var elements: nat := n;
      var e: nat, a: nat := expected, actual;
      while elements > 0
        invariant elements <= n && !currentTestFailed
        invariant a == actual + (n - elements) * length
        invariant e == ExpectedByte(expected, length, flags, n - elements, 0)
        invariant SameBefore(mem, expected, actual, length, n, flags, n - elements, 0)
      {
        ghost var j: nat := n - elements;
        elements := elements - 1;
        var bytes: nat := length;
        while bytes > 0
          invariant bytes <= length && !currentTestFailed
          invariant a == actual + j * length + (length - bytes)
          invariant e == ExpectedByte(expected, length, flags, j, length - bytes)
          invariant SameBefore(mem, expected, actual, length, n, flags, j, length - bytes)
        {
          ByteInMemory(mem, expected, actual, length, n, flags, j, length - bytes);
          bytes := bytes - 1;
          if mem[e] != mem[a] {
            currentTestFailed := true;
            return ByteMismatch(n - elements - 1, length - bytes - 1);
          }
          e := e + 1;
          a := a + 1;
        }
        MulStep(j, length);
        if flags == ArrayToVal {
          e := expected;
        }
      }
      return Passed;
    }

    /** Passes exactly when all bytes agree, or both sides are the same pointer; else reports the first that differs. */
    method AssertEqualMemory(mem: Memory, expected: nat, actual: nat, length: UInt32, n: UInt32, flags: Flags)
      returns (o: Outcome)
      requires expected != actual && expected != NULL && actual != NULL ==>
                 BytesInMemory(mem, expected, actual, length, n, flags)
      modifies this
      ensures currentTestIgnored == old(currentTestIgnored)
      ensures currentTestFailed == (old(currentTestFailed) || (o != Passed && o != Aborted))
      ensures o == Aborted <==> old(currentTestFailed || currentTestIgnored)
      ensures o == Pointless <==> !old(currentTestFailed || currentTestIgnored) && (n == 0 || length == 0)
      ensures o == NullPointer <==> !old(currentTestFailed || currentTestIgnored) && n != 0 && length != 0
                                    && expected != actual && (expected == NULL || actual == NULL)
      ensures !o.NumberMismatch?
      ensures o == Passed && expected != actual ==> SameBefore(mem, expected, actual, length, n, flags, n, 0)
      ensures o.ByteMismatch? ==>
                && expected != actual && expected != NULL && actual != NULL && o.element < n && o.byte < length
                && !SameByte(mem, expected, actual, length, n, flags, o.element, o.byte)
                && SameBefore(mem, expected, actual, length, n, flags, o.element, o.byte)
    {
      if currentTestFailed || currentTestIgnored {
        return Aborted;
      }
      if n == 0 {
        currentTestFailed := true;
        return Pointless;
      }
      if length == 0 {
        currentTestFailed := true;
        return Pointless;
      }
      if expected == actual {
        return Passed;
      }
      if expected == NULL || actual == NULL {
        currentTestFailed := true;
        return NullPointer;
      }
      o := CompareBytes(mem, expected, actual, length, n, flags);
    }
  }

  /** All bytes agree, for two sides that may be the same. */
  ghost predicate AllSame(mem: Memory, expected: nat, actual: nat, length: nat, n: nat, flags: Flags)
    requires BytesInMemory(mem, expected, actual, length, n, flags)
  {
    SameBefore(mem, expected, actual, length, n, flags, n, 0)
  }

  /**
   Comparing equal pointers passes without looking. That is right in every memory exactly when the
   whole array is compared with itself, or a single element is: one value compared with an array that
   starts at the same address passes although later elements may differ.
   */
  lemma SamePointerSound(p: nat, length: nat, n: nat, flags: Flags)
    requires 1 <= length && 1 <= n
    ensures (forall mem: Memory :: BytesInMemory(mem, p, p, length, n, flags) ==> AllSame(mem, p, p, length, n, flags))
            <==> flags != ArrayToVal || n == 1
  {
    if flags != ArrayToVal || n == 1 {
      forall mem: Memory | BytesInMemory(mem, p, p, length, n, flags) ensures AllSame(mem, p, p, length, n, flags) {
        assert n == 1 ==> forall j :: 0 <= j < n ==> j * length == 0;
      }
    } else {
      var mem: Memory := seq(p + n * length, i requires 0 <= i => if i < p + length then 0 else 1);
      assert 2 * length <= n * length;
      assert BytesInMemory(mem, p, p, length, n, flags);
      assert !SameByte(mem, p, p, length, n, flags, 1, 0);
      assert !AllSame(mem, p, p, length, n, flags);
    }
  }

  /** Every element is within the delta, for two sides that may be the same. */
  ghost predicate AllWithin(mem: Memory, expected: nat, actual: nat, n: nat, style: Byte, flags: Flags, delta: nat)
    requires InMemory(mem, expected, actual, n, Width(style), flags)
  {
    forall i :: 0 <= i < n ==> Within(mem, expected, actual, n, style, flags, delta, i)
  }

  /** A value whose low bytes are all `fill`, which is 0 or 255, and whose top byte is `top`. */
  lemma {:induction false} LoadFilled(mem: Memory, p: nat, w: nat, fill: Byte, top: Byte)
    requires 1 <= w && p + w <= |mem| && (fill == 0 || fill == 255)
    requires (forall i :: p <= i < p + w - 1 ==> mem[i] == fill) && mem[p + w - 1] == top
    ensures Load(mem, p, w) == (if fill == 0 then 0 else Pow(256, w - 1) - 1) + top * Pow(256, w - 1)
    decreases w
  {
    if w > 1 {
      LoadFilled(mem, p + 1, w - 1, fill, top);
      assert Pow(256, w - 1) == 256 * Pow(256, w - 2);
      assert top * Pow(256, w - 1) == 256 * (top * Pow(256, w - 2));
    } else {
      assert Load(mem, p + 1, 0) == 0;
    }
  }

  /** The `w` bytes at `p` are `fill`, but for the top one. */
  predicate FilledAt(mem: Memory, p: nat, w: nat, fill: Byte, top: Byte)
    requires 1 <= w && p + w <= |mem|
  {
    mem[p + w - 1] == top && forall i :: p <= i < p + w - 1 ==> mem[i] == fill
  }

  /** The lowest and the highest value of a style are as far apart as two values can be. */
  lemma FarApart(mem: Memory, p: nat, q: nat, style: Byte)
    requires p + Width(style) <= |mem| && q + Width(style) <= |mem|
    requires FilledAt(mem, p, Width(style), 0, if IsSigned(style) then 128 else 0)
    requires FilledAt(mem, q, Width(style), 255, if IsSigned(style) then 127 else 255)
    ensures Distance(ValueAt(mem, p, style), ValueAt(mem, q, style)) == Pow(256, Width(style)) - 1
  {
    var w := Width(style);
    assert Pow(256, w) == 256 * Pow(256, w - 1);
    if IsSigned(style) {
      LoadFilled(mem, p, w, 0, 128);
      LoadFilled(mem, q, w, 255, 127);
    } else {
      LoadFilled(mem, p, w, 0, 0);
      LoadFilled(mem, q, w, 255, 255);
    }
  }

  /** Memory with the lowest value of the style at `p`, and the highest right after it. */
  lemma Extremes(p: nat, n: nat, style: Byte) returns (mem: Memory)
    requires 2 <= n
    ensures |mem| == p + n * Width(style) && p + 2 * Width(style) <= |mem|
    ensures Distance(ValueAt(mem, p, style), ValueAt(mem, p + Width(style), style)) == Pow(256, Width(style)) - 1
  {
    var w := Width(style);
    MulMono(2, n, w);
    var low: Byte, high: Byte := if IsSigned(style) then 128 else 0, if IsSigned(style) then 127 else 255;
    mem := seq(p + n * w, i requires 0 <= i =>
      if i < p + w - 1 then 0 else if i == p + w - 1 then low else if i == p + 2 * w - 1 then high else 255);
    FarApart(mem, p, p + w, style);
  }

  /**
   Equal pointers also pass the number comparison without looking. That is right in every memory
   exactly when the whole array is compared with itself, there is one element, or the delta spans all
   values of the style.
   */
  lemma SamePointerNumbers(p: nat, n: nat, style: Byte, flags: Flags, delta: nat)
    requires 1 <= n
    ensures (forall mem: Memory :: InMemory(mem, p, p, n, Width(style), flags) ==>
                                     AllWithin(mem, p, p, n, style, flags, delta))
            <==> flags == ArrayToArray || n == 1 || Pow(256, Width(style)) - 1 <= delta
  {
    var w := Width(style);
    if flags == ArrayToArray || n == 1 || Pow(256, w) - 1 <= delta {
      forall mem: Memory | InMemory(mem, p, p, n, w, flags) ensures AllWithin(mem, p, p, n, style, flags, delta) {
        forall i | 0 <= i < n ensures Within(mem, p, p, n, style, flags, delta, i) {
          ElementInMemory(mem, p, p, n, w, flags, i);
          assert n == 1 ==> i * w == 0;
        }
      }
    } else {
      var mem := Extremes(p, n, style);
      assert InMemory(mem, p, p, n, w, flags);
      assert 1 * w == w;
      assert !Within(mem, p, p, n, style, flags, delta, 1);
      assert !AllWithin(mem, p, p, n, style, flags, delta);
    }
  }
}
