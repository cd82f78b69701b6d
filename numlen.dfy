/** The six `NumlenClass::numlen` overloads: the number of characters of the base-10 text of a
    value of each of the AVR integer types. */
module Numlen {
  import opened Types
  import opened Decimal

  /** `n = abs(n)`: Arduino's `abs` expands to `n > 0 ? n : -n`, and `-n` of the type's
      minimum does not fit back into the variable, so it wraps to the minimum again. */
  function Abs8(n: i8): (r: i8)
    ensures n > -0x80 ==> r == (if n < 0 then -n else n)
    ensures n == -0x80 ==> r == n
  {
    if n > 0 then n else Wrap8(-(n as int))
  }

  function Abs16(n: i16): (r: i16)
    ensures n > -0x8000 ==> r == (if n < 0 then -n else n)
    ensures n == -0x8000 ==> r == n
  {
    if n > 0 then n else Wrap16(-(n as int))
  }

  function Abs32(n: i32): (r: i32)
    ensures n > -0x8000_0000 ==> r == (if n < 0 then -n else n)
    ensures n == -0x8000_0000 ==> r == n
  {
    if n > 0 then n else Wrap32(-(n as int))
  }

  // ---------------------------------------------------------------------------------------
  // unsigned overloads

  /** `numlen(byte)` */
  function NumlenU8(n: byte): (r: byte)
    ensures r == |DecimalText(n)|
    ensures 1 <= r <= 3
  {
    var k := if n > 99 then 3 else if n > 9 then 2 else 1;
    Pow10Table();
    TextLengthInRange(n, k);
    k
  }

  /** `numlen(unsigned int)` */
  function NumlenU16(n: u16): (r: byte)
    ensures r == |DecimalText(n)|
    ensures 1 <= r <= 5
  {
    var k := if n > 9999 then 5 else if n > 999 then 4 else if n > 99 then 3
             else if n > 9 then 2 else 1;
    Pow10Table();
    TextLengthInRange(n, k);
    k
  }

  /** `numlen(unsigned long)` */
  function NumlenU32(n: u32): (r: byte)
    ensures r == |DecimalText(n)|
    ensures 1 <= r <= 10
  {
    var k := if n > 999999999 then 10 else if n > 99999999 then 9 else if n > 9999999 then 8
             else if n > 999999 then 7 else if n > 99999 then 6 else if n > 9999 then 5
             else if n > 999 then 4 else if n > 99 then 3 else if n > 9 then 2 else 1;
    Pow10Table();
    TextLengthInRange(n, k);
    k
  }

  // ---------------------------------------------------------------------------------------
  // signed overloads, as written: `abs` is taken in place, in the argument's own type

  /** `numlen(int8_t)` */
  function NumlenInt8(n: i8): (r: byte)
    ensures n > -0x80 ==> r == |SignedText(n)|
    ensures n >= 0 ==> r == NumlenU8(n)
    ensures -0x80 < n < 0 ==> r == NumlenU8(-n) + 1
    ensures 1 <= r <= 4
    ensures r == 1 <==> 0 <= n <= 9
  {
    var negative := if n < 0 then 1 else 0;
    var a := Abs8(n);
    var k := if a > 99 then 3 else if a > 9 then 2 else 1;
    assert a >= 0 ==> |DecimalText(a)| == k by {
      if a >= 0 {
        Pow10Table();
        TextLengthInRange(a, k);
      }
    }
    k + negative
  }

  /** `numlen(int)`, with the 16-bit `int` of the AVR target */
  function NumlenInt16(n: i16): (r: byte)
    ensures n > -0x8000 ==> r == |SignedText(n)|
    ensures n >= 0 ==> r == NumlenU16(n)
    ensures -0x8000 < n < 0 ==> r == NumlenU16(-n) + 1
    ensures 1 <= r <= 6
    ensures r == 1 <==> 0 <= n <= 9
  {
    var negative := if n < 0 then 1 else 0;
    var a := Abs16(n);
    var k := if a > 9999 then 5 else if a > 999 then 4 else if a > 99 then 3
             else if a > 9 then 2 else 1;
    assert a >= 0 ==> |DecimalText(a)| == k by {
      if a >= 0 {
        Pow10Table();
        TextLengthInRange(a, k);
      }
    }
    k + negative
  }

  /** `numlen(long)` */
  function NumlenInt32(n: i32): (r: byte)
    ensures n > -0x8000_0000 ==> r == |SignedText(n)|
    ensures n >= 0 ==> r == NumlenU32(n)
    ensures -0x8000_0000 < n < 0 ==> r == NumlenU32(-n) + 1
    ensures 1 <= r <= 11
    ensures r == 1 <==> 0 <= n <= 9
  {
    var negative := if n < 0 then 1 else 0;
    var a := Abs32(n);
    var k := if a > 999999999 then 10 else if a > 99999999 then 9 else if a > 9999999 then 8
             else if a > 999999 then 7 else if a > 99999 then 6 else if a > 9999 then 5
             else if a > 999 then 4 else if a > 99 then 3 else if a > 9 then 2 else 1;
    assert a >= 0 ==> |DecimalText(a)| == k by {
      if a >= 0 {
        Pow10Table();
        TextLengthInRange(a, k);
      }
    }
    k + negative
  }

  // ---------------------------------------------------------------------------------------
  // properties across inputs

  /** For non-negative inputs the count never decreases as the input grows. */
  lemma NumlenMonotone(a: u32, b: u32)
    requires a <= b
    ensures NumlenU32(a) <= NumlenU32(b)
    ensures a < TWO16 && b < TWO16 ==> NumlenU16(a) <= NumlenU16(b)
    ensures a < TWO8 && b < TWO8 ==> NumlenU8(a) <= NumlenU8(b)
    ensures b < 0x8000_0000 ==> NumlenInt32(a) <= NumlenInt32(b)
    ensures b < 0x8000 ==> NumlenInt16(a) <= NumlenInt16(b)
    ensures b < 0x80 ==> NumlenInt8(a) <= NumlenInt8(b)
  {
    TextLengthMonotone(a, b);
  }

  /** All six overloads agree on a value that every type can hold. */
  lemma NumlenOverloadsAgree(n: nat)
    requires n < 0x80
    ensures NumlenU8(n) == NumlenInt8(n) == NumlenU16(n) == NumlenInt16(n)
                        == NumlenU32(n) == NumlenInt32(n) == |DecimalText(n)|
  {
  }

  // ---------------------------------------------------------------------------------------
  // the minimum of each signed type

  /** `abs(-128)` does not fit in `int8_t`, so the count is 2 where "-128" has 4 characters. */
  lemma Int8MinMiscounted()
    ensures NumlenInt8(-0x80) == 2
    ensures |SignedText(-0x80)| == 4
  {
    Pow10Table();
    TextLengthInRange(0x80, 3);
  }

  /** `abs(-32768)` does not fit in a 16-bit `int`: 2 where "-32768" has 6 characters. */
  lemma Int16MinMiscounted()
    ensures NumlenInt16(-0x8000) == 2
    ensures |SignedText(-0x8000)| == 6
  {
    Pow10Table();
    TextLengthInRange(0x8000, 5);
  }

  /** `abs(-2147483648)` does not fit in `long`: 2 where the text has 11 characters. */
  lemma Int32MinMiscounted()
    ensures NumlenInt32(-0x8000_0000) == 2
    ensures |SignedText(-0x8000_0000)| == 11
  {
    Pow10Table();
    TextLengthInRange(0x8000_0000, 10);
  }

  /** `numlen(int8_t)` with the magnitude taken as a `byte` (where 128 fits). */
  function NumlenInt8Fixed(n: i8): (r: byte)
    ensures r == |SignedText(n)|
    ensures 1 <= r <= 4
  {
    (if n < 0 then 1 else 0) + NumlenU8(if n < 0 then -(n as int) else n as int)
  }

  /** `numlen(int)` with the magnitude taken as an `unsigned int` (where 32768 fits). */
  function NumlenInt16Fixed(n: i16): (r: byte)
    ensures r == |SignedText(n)|
    ensures 1 <= r <= 6
  {
    (if n < 0 then 1 else 0) + NumlenU16(if n < 0 then -(n as int) else n as int)
  }

  /** `numlen(long)` with the magnitude taken as an `unsigned long` (where 2^31 fits). */
  function NumlenInt32Fixed(n: i32): (r: byte)
    ensures r == |SignedText(n)|
    ensures 1 <= r <= 11
  {
    (if n < 0 then 1 else 0) + NumlenU32(if n < 0 then -(n as int) else n as int)
  }
}
