/**
 * The Windows overrides of the common alignment and mask macros:
 * `RTE_MIN`, `RTE_ALIGN_FLOOR` / `RTE_ALIGN_CEIL` / `RTE_ALIGN`, their
 * pointer forms, `RTE_LEN2MASK` and `RTE_ACL_MASKLEN_TO_BITMASK`.
 *
 * The alignment macros cast to `uintptr_t` (64 bits on Windows x64) and
 * clear the low bits with `& ~(align - 1)`. For the power-of-two
 * alignments they are meant for, clearing the bits below `align` is
 * subtracting `v % align`, which is how they are stated here, on naturals
 * below 2^64; the addition inside `RTE_ALIGN_CEIL` wraps modulo 2^64. The
 * mask macros are stated on `bv64`, the `uint64_t` they compute in.
 */
module AlignMacros {
  import opened CTypes
  import opened Arith

  /** `RTE_MIN(a, b)`: `a < b ? a : b`. */
  function Min(a: int, b: int): (r: int)
    ensures r <= a && r <= b
    ensures r == a || r == b
  {
    if a < b then a else b
  }

  /** `a` is 1, 2, 4, 8, ... */
  predicate PowerOfTwo(a: nat)
  {
    if a <= 1 then a == 1 else a % 2 == 0 && PowerOfTwo(a / 2)
  }

  /** `v` is a multiple of `a`. */
  predicate Aligned(v: nat, a: nat)
    requires a > 0
  {
    v % a == 0
  }

  /** `RTE_ALIGN_FLOOR(val, align)`: `val` with the bits below `align` cleared. */
  function AlignFloor(v: nat, a: nat): (r: nat)
    requires IsU64(v) && IsU64(a) && PowerOfTwo(a)
    ensures IsU64(r)
    ensures Aligned(r, a) && r <= v && v - r < a
  {
    MultipleOfQuotient(v, a);
    v - v % a
  }

  /** `RTE_ALIGN_CEIL(val, align)`: the floor of `val + (align - 1)`, where the sum wraps at 2^64. */
  function AlignCeil(v: nat, a: nat): (r: nat)
    requires IsU64(v) && IsU64(a) && PowerOfTwo(a)
    ensures IsU64(r) && Aligned(r, a)
    ensures v + (a - 1) < U64_LIMIT ==> v <= r && r - v < a
    ensures v + (a - 1) >= U64_LIMIT ==> r == 0
  {
    WrapSum(v, a - 1);
    var r := AlignFloor((v + (a - 1)) % U64_LIMIT, a);
    AlignedBelow(r, a);
    r
  }

  /** A sum of two 64-bit values wraps at most once. */
  lemma WrapSum(v: nat, w: nat)
    requires IsU64(v) && IsU64(w)
    ensures (v + w) % U64_LIMIT == if v + w < U64_LIMIT then v + w else v + w - U64_LIMIT
  {
    if v + w < U64_LIMIT {
      DivModUnique(v + w, U64_LIMIT, 0, v + w);
    } else {
      DivModUnique(v + w, U64_LIMIT, 1, v + w - U64_LIMIT);
    }
  }

  /** The only multiple of `a` below `a` is 0. */
  lemma AlignedBelow(r: nat, a: nat)
    requires a > 0 && Aligned(r, a)
    ensures r < a ==> r == 0
  {
    if r < a {
      DivModUnique(r, a, 0, r);
    }
  }

  /** `RTE_ALIGN(val, align)` is `RTE_ALIGN_CEIL`. */
  function Align(v: nat, a: nat): (r: nat)
    requires IsU64(v) && IsU64(a) && PowerOfTwo(a)
    ensures r == AlignCeil(v, a)
  {
    AlignCeil(v, a)
  }

  /** `RTE_PTR_ADD(ptr, x)`: pointer arithmetic on the `uintptr_t` value, wrapping at 2^64. */
  function PtrAdd(p: Ptr, x: nat): (r: Ptr)
    requires IsU64(p) && IsU64(x)
    ensures IsU64(r)
    ensures p + x < U64_LIMIT ==> r == p + x
  {
    (p + x) % U64_LIMIT
  }

  /** `RTE_PTR_ALIGN_FLOOR(ptr, align)`: the integer floor on the address. */
  function PtrAlignFloor(p: Ptr, a: nat): (r: Ptr)
    requires IsU64(p) && IsU64(a) && PowerOfTwo(a)
    ensures IsU64(r)
    ensures Aligned(r, a) && r <= p && p - r < a
  {
    AlignFloor(p, a)
  }

  /** `RTE_PTR_ALIGN_CEIL(ptr, align)`: the pointer floor of `ptr + (align - 1)`. */
  function PtrAlignCeil(p: Ptr, a: nat): (r: Ptr)
    requires IsU64(p) && IsU64(a) && PowerOfTwo(a)
    ensures IsU64(r) && Aligned(r, a)
    ensures p + (a - 1) < U64_LIMIT ==> p <= r && r - p < a
    ensures p + (a - 1) >= U64_LIMIT ==> r == 0
  {
    var r := PtrAlignFloor(PtrAdd(p, a - 1), a);
    assert r == AlignCeil(p, a);
    r
  }

  /** No multiple of `a` lies between the floor and `v` that the floor misses. */
  lemma AlignFloorGreatest(v: nat, a: nat, m: nat)
    requires IsU64(v) && IsU64(a) && PowerOfTwo(a)
    requires Aligned(m, a) && m <= v
    ensures m <= AlignFloor(v, a)
  {
    var r := AlignFloor(v, a);
    if r < m {
      AlignedGap(r, m, a);
    }
  }

  /** Without wrap-around, no multiple of `a` at or above `v` lies below the ceiling. */
  lemma AlignCeilLeast(v: nat, a: nat, m: nat)
    requires IsU64(v) && IsU64(a) && PowerOfTwo(a)
    requires v + (a - 1) < U64_LIMIT
    requires Aligned(m, a) && v <= m
    ensures AlignCeil(v, a) <= m
  {
    var r := AlignCeil(v, a);
    if m < r {
      AlignedGap(m, r, a);
    }
  }

  /** Both roundings leave an aligned value where it is. */
  lemma AlignedFixed(v: nat, a: nat)
    requires IsU64(v) && IsU64(a) && PowerOfTwo(a)
    requires Aligned(v, a) && v + (a - 1) < U64_LIMIT
    ensures AlignFloor(v, a) == v
    ensures AlignCeil(v, a) == v
  {
    AlignFloorGreatest(v, a, v);
    AlignCeilLeast(v, a, v);
  }

  /** Rounding is idempotent: the floor and the ceiling are aligned already. */
  lemma AlignIdempotent(v: nat, a: nat)
    requires IsU64(v) && IsU64(a) && PowerOfTwo(a)
    requires v + (a - 1) < U64_LIMIT
    ensures AlignFloor(AlignFloor(v, a), a) == AlignFloor(v, a)
    ensures AlignCeil(v, a) + (a - 1) < U64_LIMIT ==> AlignCeil(AlignCeil(v, a), a) == AlignCeil(v, a)
  {
    AlignedFixed(AlignFloor(v, a), a);
    if AlignCeil(v, a) + (a - 1) < U64_LIMIT {
      AlignedFixed(AlignCeil(v, a), a);
    }
  }

  /** The pointer ceiling is the integer ceiling of the address. */
  lemma PtrAlignCeilIsAlignCeil(p: Ptr, a: nat)
    requires IsU64(p) && IsU64(a) && PowerOfTwo(a)
    ensures PtrAlignCeil(p, a) == AlignCeil(p, a)
    ensures PtrAlignFloor(p, a) == AlignFloor(p, a)
  {
  }

  /** Two multiples of `a` less than `a` apart are equal. */
  lemma AlignedGap(x: nat, y: nat, a: nat)
    requires a > 0 && Aligned(x, a) && Aligned(y, a)
    requires x <= y < x + a
    ensures x == y
  {
    DivModUnique(x, a, x / a, 0);
    DivModUnique(y, a, y / a, 0);
    var d := y / a - x / a;
    assert y - x == d * a;
    if d >= 1 {
      MulAtLeast(d, a);
    }
  }

  /** `RTE_LEN2MASK(ln, tp)`: all ones shifted right by `64 - ln`; the shift needs `1 <= ln <= 64`. */
  function Len2Mask(ln: bv64): (r: bv64)
    requires 1 <= ln <= 64
  {
    0xffff_ffff_ffff_ffff >> (64 - ln)
  }

  /** The mask has exactly the low `ln` bits set. */
  lemma Len2MaskLowBits(ln: bv64)
    requires 1 <= ln <= 64
    ensures ln < 64 ==> Len2Mask(ln) == (1 << ln) - 1
    ensures ln == 64 ==> Len2Mask(ln) == 0xffff_ffff_ffff_ffff
  {
  }

  /**
   * When the shift of `RTE_ACL_MASKLEN_TO_BITMASK(v, s)` is defined: the
   * amount `s * 8 - v` is neither negative nor 64 or more, and `s` stays
   * below 2^61 so that `8 * s` does not wrap.
   */
  predicate MaskLenDefined(v: bv64, s: bv64) {
    s < 0x2000_0000_0000_0000 && v <= 8 * s && 8 * s - v < 64
  }

  /** `RTE_ACL_MASKLEN_TO_BITMASK(v, s)`: 0 for `v == 0`, else all ones shifted left by `s * 8 - v`. */
  function MaskLenToBitmask(v: bv64, s: bv64): (r: bv64)
    requires v != 0 ==> MaskLenDefined(v, s)
    ensures v == 0 ==> r == 0
  {
    if v == 0 then v else 0xffff_ffff_ffff_ffff << (8 * s - v)
  }

  /** A nonzero length sets every bit from `8 * s - v` up and clears the ones below. */
  lemma MaskLenTopBits(v: bv64, s: bv64)
    requires 0 < v && MaskLenDefined(v, s)
    ensures MaskLenToBitmask(v, s) & ((1 << (8 * s - v)) - 1) == 0
    ensures MaskLenToBitmask(v, s) | ((1 << (8 * s - v)) - 1) == 0xffff_ffff_ffff_ffff
  {
  }

  /** Below the full width, the prefix mask is the complement of the length mask of the rest. */
  lemma MaskLenComplement(v: bv64, s: bv64)
    requires 0 < v < 8 * s && MaskLenDefined(v, s)
    ensures MaskLenToBitmask(v, s) == !Len2Mask(8 * s - v)
  {
    ShiftComplement(8 * s - v);
  }

  /** All ones shifted left by k is the complement of the low-k-bits mask. */
  lemma ShiftComplement(k: bv64)
    requires 1 <= k < 64
    ensures 0xffff_ffff_ffff_ffff << k == !Len2Mask(k)
  {
  }

  lemma MultipleOfQuotient(v: nat, a: nat)
    requires a > 0
    ensures (v - v % a) % a == 0
  {
    DivModUnique(v - v % a, a, v / a, 0);
  }
}
