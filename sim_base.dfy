/** Option type used wherever the source returns a null pointer or a "not found". */
module Wrappers {
  datatype Option<T> = None | Some(value: T)
}

/** Identifiers, constants and the unsigned 32-bit arithmetic of the simulator
    (`uint` in the source is `unsigned int`). */
module SimBase {

  const U32_LIMIT: int := 0x1_0000_0000

  /** The source's `uint`. */
  type Uint = x: int | 0 <= x < 0x1_0000_0000

  /** A node identifier. */
  type NodeId = Uint

  /** BROCAST_ID = UINT_MAX: "every neighbour"; never a real node or link endpoint. */
  const BROADCAST_ID: NodeId := 0xFFFF_FFFF

  /** ONE_HOP_DELAY, the default latency of a simple link. */
  const ONE_HOP_DELAY: Uint := 10

  /** Reduction modulo 2^32: what an unsigned addition or subtraction stores. */
  function Wrap(x: int): Uint
  {
    x % U32_LIMIT
  }

  /** Unsigned `a + b`. */
  function AddU32(a: Uint, b: Uint): (r: Uint)
    ensures a + b < U32_LIMIT ==> r == a + b
    ensures a + b >= U32_LIMIT ==> r == a + b - U32_LIMIT
  {
    Wrap(a + b)
  }

  /** Unsigned `a - b`: wraps to a large value when b > a. */
  function SubU32(a: Uint, b: Uint): (r: Uint)
    ensures b <= a ==> r == a - b
    ensures a < b ==> r == a - b + U32_LIMIT
  {
    Wrap(a - b)
  }

  /** Decimal rendering of a natural number (std::to_string on an unsigned value). */
  function DecimalString(n: nat): (s: string)
    ensures |s| > 0
    decreases n
  {
    if n < 10 then [DigitChar(n)] else DecimalString(n / 10) + [DigitChar(n % 10)]
  }

  function DigitChar(d: nat): (c: char)
    requires d < 10
    ensures '0' <= c <= '9' && c as int - '0' as int == d
  {
    ('0' as int + d) as char
  }

  /** The number a string of decimal digits denotes. */
  function DecimalValue(s: string): nat
    requires forall i :: 0 <= i < |s| ==> '0' <= s[i] <= '9'
  {
    if s == [] then 0 else DecimalValue(s[..|s| - 1]) * 10 + (s[|s| - 1] as int - '0' as int)
  }

  /** The rendering is made of digits only, and reads back as the number. */
  lemma {:induction false} DecimalRoundTrip(n: nat)
    ensures forall i :: 0 <= i < |DecimalString(n)| ==> '0' <= DecimalString(n)[i] <= '9'
    ensures DecimalValue(DecimalString(n)) == n
    decreases n
  {
    if n >= 10 {
      DecimalRoundTrip(n / 10);
      var s := DecimalString(n);
      assert s[..|s| - 1] == DecimalString(n / 10);
    }
  }
}
