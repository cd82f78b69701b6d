/** Machine types of the AVR target and the value types shared by the event queue model. */
module Types {

  const TWO8: int := 0x100
  const TWO16: int := 0x1_0000
  const TWO32: int := 0x1_0000_0000

  /** `byte` / `uint8_t` */
  type byte = x: int | 0 <= x < TWO8
  /** `unsigned int` on AVR (16 bits) */
  type u16 = x: int | 0 <= x < TWO16
  /** `unsigned long` on AVR (32 bits): the type of `millis()` and of every duration */
  type u32 = x: int | 0 <= x < TWO32
  /** `int8_t` */
  type i8 = x: int | -0x80 <= x < 0x80
  /** `int` on AVR (16 bits) */
  type i16 = x: int | -0x8000 <= x < 0x8000
  /** `long` on AVR (32 bits) */
  type i32 = x: int | -0x8000_0000 <= x < 0x8000_0000

  /** Unsigned 32-bit subtraction `a - b`, which wraps modulo 2^32. */
  function Sub32(a: u32, b: u32): (r: u32)
    ensures a >= b ==> r == a - b
    ensures a < b ==> r == a - b + TWO32
  {
    (a - b) % TWO32
  }

  /** Conversion of an `int` to `byte` (keeps the low eight bits, so -1 becomes 255). */
  function ToByte(x: int): (r: byte)
    ensures 0 <= x < TWO8 ==> r == x
    ensures x == -1 ==> r == 255
  {
    x % TWO8
  }

  /** Storing an `int` result into a signed variable keeps it modulo 2^8, 2^16 or 2^32. */
  function Wrap8(x: int): (r: i8)
    ensures -0x80 <= x < 0x80 ==> r == x
  {
    (x + 0x80) % 0x100 - 0x80
  }

  function Wrap16(x: int): (r: i16)
    ensures -0x8000 <= x < 0x8000 ==> r == x
  {
    (x + 0x8000) % 0x1_0000 - 0x8000
  }

  function Wrap32(x: int): (r: i32)
    ensures -0x8000_0000 <= x < 0x8000_0000 ==> r == x
  {
    (x + 0x8000_0000) % 0x1_0000_0000 - 0x8000_0000
  }

  /** A 4-octet IPv4 address, stored as in the source's `byte[4]` arrays. */
  type Address = s: seq<byte> | |s| == 4 witness [0, 0, 0, 0]

  /** The all-zero address marks a node entry that has not been configured. */
  const Unset: Address := [0, 0, 0, 0]

  /** The four event types a queued event may carry (their byte values live in a header
      that is not part of this model). */
  datatype EventType = Once | Repeat | Confirm | OverrideTimeout

  /** The `eventType` byte passed to `queue`: one of the four constants, or any other value. */
  datatype EventTypeCode = Known(t: EventType) | OtherCode

  /** The liveness state recorded per node. */
  datatype NodeState = Unknown | Active | TimedOut

  datatype Option<T> = None | Some(value: T)
}
