/** The integer arithmetic of the C sources: truncating division and stores into narrow types. */
module CArith {

  type Int16 = x: int | -0x8000 <= x < 0x8000
  type UInt16 = x: int | 0 <= x < 0x1_0000
  type UInt32 = x: int | 0 <= x < 0x1_0000_0000
  type Byte = x: int | 0 <= x < 0x100

  /** C's `/` for a positive divisor: rounds toward zero, unlike Dafny's. */
  function CDiv(a: int, b: int): int
    requires b > 0
  {
    if a >= 0 then a / b else -((-a) / b)
  }

  /** A store into an int16_t: two's-complement wrap-around. */
  function ToInt16(v: int): Int16 {
    var u := v % 0x1_0000;
    if u < 0x8000 then u else u - 0x1_0000
  }

  /** A store into a uint16_t. */
  function ToUInt16(v: int): (u: int)
    ensures 0 <= u < 0x1_0000
  {
    v % 0x1_0000
  }

  /** A store into a uint32_t. */
  function ToUInt32(v: int): UInt32 {
    v % 0x1_0000_0000
  }

  function Min(a: nat, b: nat): nat { if a < b then a else b }

  lemma MulLe(a: nat, b: nat, c: nat)
    requires a <= b
    ensures a * c <= b * c
  {
  }

  /** The quotient of a division by its bracket. */
  lemma DivUnique(a: nat, b: nat, q: nat)
    requires b > 0 && q * b <= a < q * b + b
    ensures a / b == q && a % b == a - q * b
  {
    if a / b > q { MulLe(q + 1, a / b, b); }
    if a / b < q { MulLe(a / b + 1, q, b); }
  }

  /** Storing in between does not change a stored sum. */
  lemma StoreSum(a: nat, b: nat)
    ensures ToUInt32(ToUInt32(a) + b) == ToUInt32(a + b)
  {
  }
}
