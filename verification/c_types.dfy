/**
 * Machine-level vocabulary shared by every module: optional values,
 * fixed-width unsigned truncation, and pointers as plain addresses.
 *
 * C integers are modelled as unbounded `int`/`nat`; wherever the source
 * stores into a narrower type, the truncation is written out with the
 * helpers below.
 */
module CTypes {

  datatype Option<T> = None | Some(value: T)

  /** 2 to the power `k`. */
  function Pow2(k: nat): (r: nat)
    ensures r >= 1
    decreases k
  {
    if k == 0 then 1 else 2 * Pow2(k - 1)
  }

  lemma {:induction false} Pow2Add(a: nat, b: nat)
    ensures Pow2(a + b) == Pow2(a) * Pow2(b)
    decreases a
  {
    if a > 0 {
      Pow2Add(a - 1, b);
    }
  }

  lemma {:induction false} Pow2Monotone(a: nat, b: nat)
    requires a <= b
    ensures Pow2(a) <= Pow2(b)
    decreases b
  {
    if a < b {
      Pow2Monotone(a, b - 1);
    }
  }

  /** The powers of two the fixed widths use. */
  lemma Pow2Widths()
    ensures Pow2(4) == 16 && Pow2(8) == U8_LIMIT && Pow2(16) == U16_LIMIT
    ensures Pow2(32) == U32_LIMIT && Pow2(64) == U64_LIMIT
  {
    assert Pow2(4) == 16 by {
      assert Pow2(1) == 2;
      assert Pow2(2) == 4;
      assert Pow2(3) == 8;
    }
    Pow2Add(4, 4);
    Pow2Add(8, 8);
    Pow2Add(16, 16);
    Pow2Add(32, 32);
  }

  const U8_LIMIT: nat := 0x100
  const U16_LIMIT: nat := 0x1_0000
  const U32_LIMIT: nat := 0x1_0000_0000
  const U64_LIMIT: nat := 0x1_0000_0000_0000_0000

  const U32_MAX: nat := U32_LIMIT - 1
  const U64_MAX: nat := U64_LIMIT - 1

  /** Conversion to `uint8_t`, `uint16_t`, `uint32_t`, `uint64_t`: reduction modulo 2^w. */
  function ToU8(x: int): (r: nat)
    ensures r < U8_LIMIT
    ensures 0 <= x < U8_LIMIT ==> r == x
  {
    x % U8_LIMIT
  }

  function ToU16(x: int): (r: nat)
    ensures r < U16_LIMIT
    ensures 0 <= x < U16_LIMIT ==> r == x
  {
    x % U16_LIMIT
  }

  function ToU32(x: int): (r: nat)
    ensures r < U32_LIMIT
    ensures 0 <= x < U32_LIMIT ==> r == x
  {
    x % U32_LIMIT
  }

  function ToU64(x: int): (r: nat)
    ensures r < U64_LIMIT
    ensures 0 <= x < U64_LIMIT ==> r == x
  {
    x % U64_LIMIT
  }

  /** Reinterpretation of a 32-bit unsigned value as a two's-complement `int`. */
  function AsI32(x: nat): (r: int)
    requires x < U32_LIMIT
    ensures -0x8000_0000 <= r < 0x8000_0000
    ensures ToU32(r) == x
  {
    if x < 0x8000_0000 then x else x - U32_LIMIT
  }

  predicate IsU8(x: int) { 0 <= x < U8_LIMIT }
  predicate IsU16(x: int) { 0 <= x < U16_LIMIT }
  predicate IsU32(x: int) { 0 <= x < U32_LIMIT }
  predicate IsU64(x: int) { 0 <= x < U64_LIMIT }

  /** An address; 0 plays the role of NULL. */
  type Ptr = nat
  const NULL: Ptr := 0
}
