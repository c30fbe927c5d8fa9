/**
 * The bit helpers the Windows port defines in place of the GCC builtins:
 * the SWAR population count, trailing- and leading-zero counts through the
 * bit-scan intrinsics, byte swaps, and the single-word CPU-set macros.
 *
 * Values are bit-vectors of the C width. On Windows `unsigned long` is 32
 * bits wide, so the `l` variants are the 32-bit ones. Every count is stated
 * against one reference notion: `Bit32(x, j)` / `Bit64(x, j)`, the low bit
 * of `x` after `j` single-bit right shifts.
 */
module WinBits {
  import opened CTypes

  // ---------------------------------------------------------------------
  // Reference: the bits of a 32-bit value
  // ---------------------------------------------------------------------

  /** The lowest bit of `x`, as 0 or 1. */
  function Low32(x: bv32): nat
  {
    if x & 1 == 1 then 1 else 0
  }

  /** `x` shifted right by `j` single-bit steps. */
  function Drop32(x: bv32, j: nat): bv32
  {
    if j == 0 then x else Drop32(x >> 1, j - 1)
  }

  /** Bit `j` of `x` is set. */
  predicate Bit32(x: bv32, j: nat)
  {
    Low32(Drop32(x, j)) == 1
  }

  /** The number of set bits among bits 0 .. n-1 of `x`. */
  function CountBits32(x: bv32, n: nat): (c: nat)
    requires n <= 32
    ensures c <= n
  {
    if n == 0 then 0 else Low32(x) + CountBits32(x >> 1, n - 1)
  }

  lemma {:induction false} DropAdd32(x: bv32, a: nat, b: nat)
    ensures Drop32(x, a + b) == Drop32(Drop32(x, a), b)
  {
    if a > 0 {
      DropAdd32(x >> 1, a - 1, b);
    }
  }

  lemma ShiftEight32(x: bv32)
    ensures (((((((x >> 1) >> 1) >> 1) >> 1) >> 1) >> 1) >> 1) >> 1 == x >> 8
  {
  }

  lemma DropByte32(x: bv32)
    ensures Drop32(x, 8) == x >> 8
  {
    assert Drop32((((((((x >> 1) >> 1) >> 1) >> 1) >> 1) >> 1) >> 1) >> 1, 0) == (((((((x >> 1) >> 1) >> 1) >> 1) >> 1) >> 1) >> 1) >> 1;
    assert Drop32(((((((x >> 1) >> 1) >> 1) >> 1) >> 1) >> 1) >> 1, 1) == (((((((x >> 1) >> 1) >> 1) >> 1) >> 1) >> 1) >> 1) >> 1;
    assert Drop32((((((x >> 1) >> 1) >> 1) >> 1) >> 1) >> 1, 2) == (((((((x >> 1) >> 1) >> 1) >> 1) >> 1) >> 1) >> 1) >> 1;
    assert Drop32(((((x >> 1) >> 1) >> 1) >> 1) >> 1, 3) == (((((((x >> 1) >> 1) >> 1) >> 1) >> 1) >> 1) >> 1) >> 1;
    assert Drop32((((x >> 1) >> 1) >> 1) >> 1, 4) == (((((((x >> 1) >> 1) >> 1) >> 1) >> 1) >> 1) >> 1) >> 1;
    assert Drop32(((x >> 1) >> 1) >> 1, 5) == (((((((x >> 1) >> 1) >> 1) >> 1) >> 1) >> 1) >> 1) >> 1;
    assert Drop32((x >> 1) >> 1, 6) == (((((((x >> 1) >> 1) >> 1) >> 1) >> 1) >> 1) >> 1) >> 1;
    assert Drop32(x >> 1, 7) == (((((((x >> 1) >> 1) >> 1) >> 1) >> 1) >> 1) >> 1) >> 1;
    ShiftEight32(x);
  }

  lemma FourBytesGone32(x: bv32)
    ensures (((x >> 8) >> 8) >> 8) >> 8 == 0
  {
  }

  /** Thirty-two shifts leave nothing. */
  lemma DropAll32(x: bv32)
    ensures Drop32(x, 32) == 0
  {
    DropAdd32(x, 8, 24);
    DropAdd32(Drop32(x, 8), 8, 16);
    DropAdd32(Drop32(Drop32(x, 8), 8), 8, 8);
    DropByte32(x);
    DropByte32(x >> 8);
    DropByte32((x >> 8) >> 8);
    DropByte32(((x >> 8) >> 8) >> 8);
    FourBytesGone32(x);
  }

  lemma {:induction false} DropZero32(j: nat)
    ensures Drop32(0, j) == 0
  {
    if j > 0 {
      assert (0 as bv32) >> 1 == 0;
      DropZero32(j - 1);
    }
  }

  lemma ClearLowAndRest32(y: bv32)
    requires y & 1 != 1 && y >> 1 == 0
    ensures y == 0
  {
  }

  lemma {:induction false} NoBitsFrom32(x: bv32, j: nat)
    requires j <= 32
    requires forall k :: j <= k < 32 ==> !Bit32(x, k)
    ensures Drop32(x, j) == 0
    decreases 32 - j
  {
    if j == 32 {
      DropAll32(x);
    } else {
      NoBitsFrom32(x, j + 1);
      DropAdd32(x, j, 1);
      assert !Bit32(x, j);
      ClearLowAndRest32(Drop32(x, j));
    }
  }

  /** A 32-bit value is zero exactly when none of its 32 bits is set. */
  lemma ZeroIffNoBits32(x: bv32)
    ensures x == 0 <==> forall j :: 0 <= j < 32 ==> !Bit32(x, j)
  {
    if x == 0 {
      forall j | 0 <= j < 32
        ensures !Bit32(x, j)
      {
        DropZero32(j);
      }
    }
    if forall j :: 0 <= j < 32 ==> !Bit32(x, j) {
      NoBitsFrom32(x, 0);
    }
  }

  /** Counting bits 0 .. n-1 finds none exactly when none of them is set. */
  lemma {:induction false} CountZeroIffNoBits32(x: bv32, n: nat)
    requires n <= 32
    ensures CountBits32(x, n) == 0 <==> forall j :: 0 <= j < n ==> !Bit32(x, j)
  {
    if n > 0 {
      CountZeroIffNoBits32(x >> 1, n - 1);
      assert Bit32(x, 0) <==> Low32(x) == 1;
      if CountBits32(x, n) == 0 {
        forall j | 0 <= j < n
          ensures !Bit32(x, j)
        {
          if j > 0 {
            assert !Bit32(x >> 1, j - 1);
          }
        }
      }
      if forall j :: 0 <= j < n ==> !Bit32(x, j) {
        var y := x >> 1;
        forall j | 0 <= j < n - 1
          ensures !Bit32(y, j)
        {
          assert !Bit32(x, j + 1);
        }
      }
    }
  }

  // ---------------------------------------------------------------------
  // __popcount / __builtin_popcount / __builtin_popcountl
  // ---------------------------------------------------------------------

  /** The three shift-and-add stages `__popcount` applies before its multiply: a count per byte. */
  function Stages32(x: bv32): bv32
  {
    (((x - ((x >> 1) & 0x55555555)) & 0x33333333) + (((x - ((x >> 1) & 0x55555555)) >> 2) & 0x33333333)
      + ((((x - ((x >> 1) & 0x55555555)) & 0x33333333) + (((x - ((x >> 1) & 0x55555555)) >> 2) & 0x33333333)) >> 4)) & 0x0f0f0f0f
  }

  /** `(x * h01) >> 24`: the multiply adds every byte into the top one. */
  function TopSum32(y: bv32): nat
  {
    ((y * 0x01010101) >> 24) as nat
  }

  /** `__popcount(x)` and `__builtin_popcount(x)`. */
  function Popcount32(x: bv32): (r: nat)
  {
    TopSum32(Stages32(x))
  }

  /** `__builtin_popcountl`: `unsigned long` is 32 bits on Windows, so this is `__popcount` of the value. */
  function Popcountl(x: bv32): (r: nat)
    ensures r == CountBits32(x, 32)
    ensures r == 0 <==> x == 0
  {
    PopcountCounts32(x);
    PopcountZero32(x);
    Popcount32(x)
  }

  /** Each byte of `Stages32(x)` is at most 15: the high nibbles are masked off. */
  predicate NibbleBytes32(y: bv32)
  {
    y & 0xf0f0f0f0 == 0
  }

  /** The sum of the low `k` bytes of `y`. */
  function ByteSum32(y: bv32, k: nat): nat
  {
    if k == 0 then 0 else (y & 0xff) as nat + ByteSum32(y >> 8, k - 1)
  }

  /** `y`'s low `k` bytes are the stage counts of `x`, `x >> 8`, ... */
  predicate Agree32(y: bv32, x: bv32, k: nat)
  {
    k == 0 || ((y & 0xff) == (Stages32(x) & 0xff) && Agree32(y >> 8, x >> 8, k - 1))
  }

  lemma StagesNibbles32(x: bv32)
    ensures NibbleBytes32(Stages32(x))
  {
  }

  lemma StagesLowByte32(x: bv32)
    ensures Stages32(x) & 0xff == (x & 1) + (((x >> 1) & 1) + ((((x >> 1) >> 1) & 1) + (((((x >> 1) >> 1) >> 1) & 1)
      + ((((((x >> 1) >> 1) >> 1) >> 1) & 1) + (((((((x >> 1) >> 1) >> 1) >> 1) >> 1) & 1)
      + ((((((((x >> 1) >> 1) >> 1) >> 1) >> 1) >> 1) & 1) + (((((((((x >> 1) >> 1) >> 1) >> 1) >> 1) >> 1) >> 1) & 1) + 0)))))))
  {
  }

  lemma CountEight32(x: bv32)
    ensures CountBits32(x, 8) == Low32(x) + Low32((x >> 1)) + Low32(((x >> 1) >> 1)) + Low32((((x >> 1) >> 1) >> 1)) + Low32(((((x >> 1) >> 1) >> 1) >> 1)) + Low32((((((x >> 1) >> 1) >> 1) >> 1) >> 1)) + Low32(((((((x >> 1) >> 1) >> 1) >> 1) >> 1) >> 1)) + Low32((((((((x >> 1) >> 1) >> 1) >> 1) >> 1) >> 1) >> 1))
  {
    assert CountBits32(x, 8) == Low32(x) + CountBits32((x >> 1), 7);
    assert CountBits32((x >> 1), 7) == Low32((x >> 1)) + CountBits32(((x >> 1) >> 1), 6);
    assert CountBits32(((x >> 1) >> 1), 6) == Low32(((x >> 1) >> 1)) + CountBits32((((x >> 1) >> 1) >> 1), 5);
    assert CountBits32((((x >> 1) >> 1) >> 1), 5) == Low32((((x >> 1) >> 1) >> 1)) + CountBits32(((((x >> 1) >> 1) >> 1) >> 1), 4);
    assert CountBits32(((((x >> 1) >> 1) >> 1) >> 1), 4) == Low32(((((x >> 1) >> 1) >> 1) >> 1)) + CountBits32((((((x >> 1) >> 1) >> 1) >> 1) >> 1), 3);
    assert CountBits32((((((x >> 1) >> 1) >> 1) >> 1) >> 1), 3) == Low32((((((x >> 1) >> 1) >> 1) >> 1) >> 1)) + CountBits32(((((((x >> 1) >> 1) >> 1) >> 1) >> 1) >> 1), 2);
    assert CountBits32(((((((x >> 1) >> 1) >> 1) >> 1) >> 1) >> 1), 2) == Low32(((((((x >> 1) >> 1) >> 1) >> 1) >> 1) >> 1)) + CountBits32((((((((x >> 1) >> 1) >> 1) >> 1) >> 1) >> 1) >> 1), 1);
    assert CountBits32((((((((x >> 1) >> 1) >> 1) >> 1) >> 1) >> 1) >> 1), 1) == Low32((((((((x >> 1) >> 1) >> 1) >> 1) >> 1) >> 1) >> 1)) + CountBits32(((((((((x >> 1) >> 1) >> 1) >> 1) >> 1) >> 1) >> 1) >> 1), 0);
  }

  lemma LowBit32(w: bv32)
    ensures w & 1 <= 1 && (w & 1) as int == Low32(w)
  {
  }

  lemma AddBit32(c: bv32, a: bv32)
    requires c <= 1 && a <= 31
    ensures (c + a) as int == c as int + a as int
  {
  }

  lemma SumTwo32(c0: bv32, c1: bv32, a: bv32)
    requires c0 <= 1 && c1 <= 1 && a <= 6
    ensures (c0 + (c1 + a)) as int == c0 as int + c1 as int + a as int
    ensures c0 + (c1 + a) <= 8
  {
    AddBit32(c1, a);
    AddBit32(c0, c1 + a);
  }

  lemma SumFour32(c0: bv32, c1: bv32, c2: bv32, c3: bv32, a: bv32)
    requires c0 <= 1 && c1 <= 1 && c2 <= 1 && c3 <= 1 && a <= 4
    ensures (c0 + (c1 + (c2 + (c3 + a)))) as int == c0 as int + c1 as int + c2 as int + c3 as int + a as int
    ensures c0 + (c1 + (c2 + (c3 + a))) <= 8
  {
    SumTwo32(c2, c3, a);
    SumTwo32(c0, c1, c2 + (c3 + a));
  }

  lemma SumEight32(c0: bv32, c1: bv32, c2: bv32, c3: bv32, c4: bv32, c5: bv32, c6: bv32, c7: bv32)
    requires c0 <= 1 && c1 <= 1 && c2 <= 1 && c3 <= 1 && c4 <= 1 && c5 <= 1 && c6 <= 1 && c7 <= 1
    ensures (c0 + (c1 + (c2 + (c3 + (c4 + (c5 + (c6 + (c7 + 0)))))))) as int == c0 as int + c1 as int + c2 as int + c3 as int + c4 as int + c5 as int + c6 as int + c7 as int
  {
    SumFour32(c4, c5, c6, c7, 0);
    SumFour32(c0, c1, c2, c3, c4 + (c5 + (c6 + (c7 + 0))));
  }

  /** The low byte of the stages holds the number of set bits among bits 0 .. 7. */
  lemma StagesByteCount32(x: bv32)
    ensures (Stages32(x) & 0xff) as nat == CountBits32(x, 8)
  {
    StagesLowByte32(x);
    SumEight32(x & 1, (x >> 1) & 1, ((x >> 1) >> 1) & 1, (((x >> 1) >> 1) >> 1) & 1, ((((x >> 1) >> 1) >> 1) >> 1) & 1, (((((x >> 1) >> 1) >> 1) >> 1) >> 1) & 1, ((((((x >> 1) >> 1) >> 1) >> 1) >> 1) >> 1) & 1, (((((((x >> 1) >> 1) >> 1) >> 1) >> 1) >> 1) >> 1) & 1);
    LowBit32(x);
    LowBit32((x >> 1));
    LowBit32(((x >> 1) >> 1));
    LowBit32((((x >> 1) >> 1) >> 1));
    LowBit32(((((x >> 1) >> 1) >> 1) >> 1));
    LowBit32((((((x >> 1) >> 1) >> 1) >> 1) >> 1));
    LowBit32(((((((x >> 1) >> 1) >> 1) >> 1) >> 1) >> 1));
    LowBit32((((((((x >> 1) >> 1) >> 1) >> 1) >> 1) >> 1) >> 1));
    CountEight32(x);
  }

  lemma {:induction false} CountSplit32(x: bv32, j: nat, m: nat)
    requires j + m <= 32
    ensures CountBits32(x, j + m) == CountBits32(x, j) + CountBits32(Drop32(x, j), m)
  {
    if j > 0 {
      CountSplit32(x >> 1, j - 1, m);
    }
  }

  /** Bytes 1, 2 and 3 of the stages are the low bytes of the stages of `x >> 8`, `x >> 16`, `x >> 24`. */
  lemma StagesByteOne32(x: bv32)
    ensures (Stages32(x) >> 8) & 0xff == Stages32(x >> 8) & 0xff
  {
  }

  lemma StagesByteTwo32(x: bv32)
    ensures ((Stages32(x) >> 8) >> 8) & 0xff == Stages32((x >> 8) >> 8) & 0xff
  {
  }

  lemma StagesByteThree32(x: bv32)
    ensures (((Stages32(x) >> 8) >> 8) >> 8) & 0xff == Stages32(((x >> 8) >> 8) >> 8) & 0xff
  {
  }

  lemma StagesBytes32(x: bv32)
    ensures (Stages32(x) >> 8) & 0xff == Stages32(x >> 8) & 0xff
    ensures ((Stages32(x) >> 8) >> 8) & 0xff == Stages32((x >> 8) >> 8) & 0xff
    ensures (((Stages32(x) >> 8) >> 8) >> 8) & 0xff == Stages32(((x >> 8) >> 8) >> 8) & 0xff
  {
    StagesByteOne32(x);
    StagesByteTwo32(x);
    StagesByteThree32(x);
  }

  lemma AgreeFour32(x: bv32, y: bv32)
    requires y & 0xff == Stages32(x) & 0xff
    requires (y >> 8) & 0xff == Stages32(x >> 8) & 0xff
    requires ((y >> 8) >> 8) & 0xff == Stages32((x >> 8) >> 8) & 0xff
    requires (((y >> 8) >> 8) >> 8) & 0xff == Stages32(((x >> 8) >> 8) >> 8) & 0xff
    ensures Agree32(y, x, 4)
  {
    assert Agree32(((y >> 8) >> 8) >> 8, ((x >> 8) >> 8) >> 8, 1);
    assert Agree32((y >> 8) >> 8, (x >> 8) >> 8, 2);
    assert Agree32(y >> 8, x >> 8, 3);
  }

  lemma StagesAgree32(x: bv32)
    ensures Agree32(Stages32(x), x, 4)
  {
    StagesBytes32(x);
    AgreeFour32(x, Stages32(x));
  }

  /** If the bytes of `y` are the stage counts of `x`, they sum to the number of set bits. */
  lemma {:induction false} AgreeCount32(y: bv32, x: bv32, k: nat)
    requires k <= 4 && Agree32(y, x, k)
    ensures ByteSum32(y, k) == CountBits32(x, 8 * k)
  {
    if k > 0 {
      AgreeCount32(y >> 8, x >> 8, k - 1);
      StagesByteCount32(x);
      CountSplit32(x, 8, 8 * (k - 1));
      DropByte32(x);
    }
  }

  lemma TopBytes32(y: bv32)
    requires NibbleBytes32(y)
    ensures (y * 0x01010101) >> 24 == (y & 0xff) + (((y >> 8) & 0xff) + (((y >> 16) & 0xff) + (y >> 24)))
  {
  }

  lemma NestedBytes32(y: bv32)
    requires NibbleBytes32(y)
    ensures (y >> 8) >> 8 == y >> 16 && ((y >> 8) >> 8) >> 8 == y >> 24
    ensures (((y >> 8) >> 8) >> 8) & 0xff == y >> 24
    ensures y & 0xff <= 15 && (y >> 8) & 0xff <= 15 && (y >> 16) & 0xff <= 15 && y >> 24 <= 15
  {
  }

  lemma AddSmall32(a: bv32, b: bv32)
    requires a <= 15 && b <= 45
    ensures (a + b) as nat == a as nat + b as nat
    ensures a + b <= 60
  {
  }

  /** The multiply by `h01` leaves the sum of the four byte counts in the top byte. */
  lemma TopSumBytes32(y: bv32)
    requires NibbleBytes32(y)
    ensures TopSum32(y) == ByteSum32(y, 4)
  {
    TopBytes32(y);
    NestedBytes32(y);
    AddSmall32((y >> 16) & 0xff, y >> 24);
    AddSmall32((y >> 8) & 0xff, ((y >> 16) & 0xff) + (y >> 24));
    AddSmall32(y & 0xff, ((y >> 8) & 0xff) + (((y >> 16) & 0xff) + (y >> 24)));
    assert ByteSum32(((y >> 8) >> 8) >> 8, 1) == ((((y >> 8) >> 8) >> 8) & 0xff) as nat;
    assert ByteSum32((y >> 8) >> 8, 2) == (((y >> 8) >> 8) & 0xff) as nat + ByteSum32(((y >> 8) >> 8) >> 8, 1);
    assert ByteSum32(y >> 8, 3) == ((y >> 8) & 0xff) as nat + ByteSum32((y >> 8) >> 8, 2);
    assert ByteSum32(y, 4) == (y & 0xff) as nat + ByteSum32(y >> 8, 3);
  }

  /** `__popcount(x)` is the number of set bits of `x`. */
  lemma PopcountCounts32(x: bv32)
    ensures Popcount32(x) == CountBits32(x, 32)
  {
    StagesNibbles32(x);
    TopSumBytes32(Stages32(x));
    StagesAgree32(x);
    AgreeCount32(Stages32(x), x, 4);
  }

  /** The count is zero exactly for zero. */
  lemma PopcountZero32(x: bv32)
    ensures Popcount32(x) == 0 <==> x == 0
  {
    PopcountCounts32(x);
    CountZeroIffNoBits32(x, 32);
    ZeroIffNoBits32(x);
  }

  // ---------------------------------------------------------------------
  // __builtin_ctz / __builtin_ctzl and __builtin_clz / __builtin_clzl
  // ---------------------------------------------------------------------

  /** `_BitScanForward` from bit `i` upwards: the first set bit, if any. */
  function ScanForward32(x: bv32, i: nat): (r: Option<nat>)
    requires i <= 32
    ensures r.Some? ==> i <= r.value < 32 && Bit32(x, r.value)
    ensures r.Some? ==> forall j :: i <= j < r.value ==> !Bit32(x, j)
    ensures r.None? <==> forall j :: i <= j < 32 ==> !Bit32(x, j)
    decreases 32 - i
  {
    if i == 32 then None
    else if Bit32(x, i) then Some(i)
    else ScanForward32(x, i + 1)
  }

  /** `_BitScanReverse` below bit `i`: the highest set bit under `i`, if any. */
  function ScanReverse32(x: bv32, i: nat): (r: Option<nat>)
    requires i <= 32
    ensures r.Some? ==> r.value < i && Bit32(x, r.value)
    ensures r.Some? ==> forall j :: r.value < j < i ==> !Bit32(x, j)
    ensures r.None? <==> forall j :: 0 <= j < i ==> !Bit32(x, j)
  {
    if i == 0 then None
    else if Bit32(x, i - 1) then Some(i - 1)
    else ScanReverse32(x, i - 1)
  }

  /** `__builtin_ctz`: the index of the lowest set bit, or 32 for zero. */
  function Ctz32(x: bv32): (r: nat)
    ensures r <= 32
    ensures r == 32 <==> x == 0
    ensures r < 32 ==> Bit32(x, r) && forall j :: 0 <= j < r ==> !Bit32(x, j)
  {
    ZeroIffNoBits32(x);
    match ScanForward32(x, 0)
    case Some(index) => index
    case None => 32
  }

  /** `__builtin_ctzl` converts to `unsigned int`, the same width on Windows. */
  function Ctzl(x: bv32): (r: nat)
    ensures r == 32 <==> Popcountl(x) == 0
    ensures r < 32 ==> Bit32(x, r) && forall j :: 0 <= j < r ==> !Bit32(x, j)
  {
    Ctz32(x)
  }

  /** `__builtin_clz`: 31 minus the index of the highest set bit, or 32 for zero. */
  function Clz32(x: bv32): (r: nat)
    ensures r <= 32
    ensures r == 32 <==> x == 0
    ensures r < 32 ==> Bit32(x, 31 - r) && forall j :: 31 - r < j < 32 ==> !Bit32(x, j)
  {
    ZeroIffNoBits32(x);
    match ScanReverse32(x, 32)
    case Some(index) => 32 - 1 - index
    case None => 32
  }

  /** `__builtin_clzl` converts to `unsigned int`, the same width on Windows. */
  function Clzl(x: bv32): (r: nat)
    ensures r == 32 <==> Popcountl(x) == 0
    ensures r < 32 ==> Bit32(x, 31 - r) && forall j :: 31 - r < j < 32 ==> !Bit32(x, j)
  {
    Clz32(x)
  }

  /** The trailing-zero count is the only index with a set bit and none below it. */
  lemma CtzUnique32(x: bv32, i: nat)
    requires i < 32
    ensures Ctz32(x) == i <==> (Bit32(x, i) && forall j :: 0 <= j < i ==> !Bit32(x, j))
  {
    ZeroIffNoBits32(x);
  }

  /** A set bit bounds both counts: no more trailing zeros than its index, no more leading zeros than 31 minus it. */
  lemma SetBitBounds32(x: bv32, i: nat)
    requires i < 32 && Bit32(x, i)
    ensures Ctz32(x) <= i
    ensures Clz32(x) <= 31 - i
  {
    ZeroIffNoBits32(x);
  }

  // ---------------------------------------------------------------------
  // __builtin_bswap32
  // ---------------------------------------------------------------------

  /** `_byteswap_ulong`: byte k of the result is byte 3 - k of the argument. */
  function Bswap32(x: bv32): (r: bv32)
    ensures r & 0xff == x >> 24
    ensures (r >> 8) & 0xff == (x >> 16) & 0xff
    ensures (r >> 16) & 0xff == (x >> 8) & 0xff
    ensures r >> 24 == x & 0xff
  {
    (x << 24) | ((x & 0xff00) << 8) | ((x >> 8) & 0xff00) | (x >> 24)
  }

  lemma SwapTwice32(x: bv32)
    ensures var y := (x << 24) | ((x & 0xff00) << 8) | ((x >> 8) & 0xff00) | (x >> 24);
      (y << 24) | ((y & 0xff00) << 8) | ((y >> 8) & 0xff00) | (y >> 24) == x
  {
  }

  /** Swapping twice gives the value back. */
  lemma Bswap32Involution(x: bv32)
    ensures Bswap32(Bswap32(x)) == x
  {
    SwapTwice32(x);
  }

  // ---------------------------------------------------------------------
  // CPU_ZERO / CPU_SET / CPU_ISSET on a 32-bit `rte_cpuset_t`
  // ---------------------------------------------------------------------

  /** The `int` shift `1 << cpucore` stays defined only below bit 31. */
  predicate ValidCore(c: bv32)
  {
    c < 31
  }

  /** The macros' test `set & (1 << c)`. */
  predicate MaskSet32(x: bv32, c: bv32)
    requires c < 32
  {
    (x & (1 << c)) != 0
  }

  /** `CPU_ISSET(c, set)`: 1 when bit `c` is set, else 0. */
  function CpuIsSet(c: bv32, s: bv32): (r: int)
    requires ValidCore(c)
    ensures r == 0 || r == 1
    ensures r == 1 <==> Bit32(s, c as nat)
  {
    MaskBit32(s, c);
    if MaskSet32(s, c) then 1 else 0
  }

  /** `CPU_ZERO(set)`: the empty set. */
  function CpuZero(): (s: bv32)
    ensures forall j :: 0 <= j < 32 ==> !Bit32(s, j)
  {
    ZeroIffNoBits32(0);
    0
  }

  /** `CPU_SET(c, set)`: adds core `c`, keeps the others. */
  function CpuSet(c: bv32, s: bv32): (r: bv32)
    requires ValidCore(c)
    ensures forall d :: ValidCore(d) ==> (CpuIsSet(d, r) == 1 <==> d == c || CpuIsSet(d, s) == 1)
  {
    SetBitAll32(s, c);
    s | (1 << c)
  }

  lemma SetBitAll32(s: bv32, c: bv32)
    requires ValidCore(c)
    ensures forall d :: ValidCore(d) ==> (MaskSet32(s | (1 << c), d) <==> d == c || MaskSet32(s, d))
  {
    forall d | ValidCore(d)
      ensures MaskSet32(s | (1 << c), d) <==> d == c || MaskSet32(s, d)
    {
      SetBit32(s, c, d);
    }
  }

  lemma SetBit32(s: bv32, c: bv32, d: bv32)
    requires c < 31 && d < 31
    ensures MaskSet32(s | (1 << c), d) <==> (c == d || MaskSet32(s, d))
  {
  }

  lemma MaskShift32(x: bv32, c: bv32)
    requires 1 <= c < 32
    ensures MaskSet32(x, c) <==> MaskSet32(x >> 1, c - 1)
    ensures (c - 1) as nat == c as nat - 1
  {
  }

  /** Masking with `1 << c` tests the same bit the reference counts. */
  lemma {:induction false} MaskBit32(x: bv32, c: bv32)
    requires c < 32
    ensures MaskSet32(x, c) <==> Bit32(x, c as nat)
    decreases c as nat
  {
    if c > 0 {
      MaskShift32(x, c);
      MaskBit32(x >> 1, c - 1);
    }
  }

  // ---------------------------------------------------------------------
  // Reference: the bits of a 64-bit value
  // ---------------------------------------------------------------------

  /** The lowest bit of `x`, as 0 or 1. */
  function Low64(x: bv64): nat
  {
    if x & 1 == 1 then 1 else 0
  }

  /** `x` shifted right by `j` single-bit steps. */
  function Drop64(x: bv64, j: nat): bv64
  {
    if j == 0 then x else Drop64(x >> 1, j - 1)
  }

  /** Bit `j` of `x` is set. */
  predicate Bit64(x: bv64, j: nat)
  {
    Low64(Drop64(x, j)) == 1
  }

  /** The number of set bits among bits 0 .. n-1 of `x`. */
  function CountBits64(x: bv64, n: nat): (c: nat)
    requires n <= 64
    ensures c <= n
  {
    if n == 0 then 0 else Low64(x) + CountBits64(x >> 1, n - 1)
  }

  lemma {:induction false} DropAdd64(x: bv64, a: nat, b: nat)
    ensures Drop64(x, a + b) == Drop64(Drop64(x, a), b)
  {
    if a > 0 {
      DropAdd64(x >> 1, a - 1, b);
    }
  }

  lemma ShiftEight64(x: bv64)
    ensures ((((((((x >> 1) >> 1) >> 1) >> 1) >> 1) >> 1) >> 1) >> 1) == x >> 8
  {
  }

  lemma DropByte64(x: bv64)
    ensures Drop64(x, 8) == x >> 8
  {
    assert Drop64(((((((((x >> 1) >> 1) >> 1) >> 1) >> 1) >> 1) >> 1) >> 1), 0) == ((((((((x >> 1) >> 1) >> 1) >> 1) >> 1) >> 1) >> 1) >> 1);
    assert Drop64((((((((x >> 1) >> 1) >> 1) >> 1) >> 1) >> 1) >> 1), 1) == ((((((((x >> 1) >> 1) >> 1) >> 1) >> 1) >> 1) >> 1) >> 1);
    assert Drop64(((((((x >> 1) >> 1) >> 1) >> 1) >> 1) >> 1), 2) == ((((((((x >> 1) >> 1) >> 1) >> 1) >> 1) >> 1) >> 1) >> 1);
    assert Drop64((((((x >> 1) >> 1) >> 1) >> 1) >> 1), 3) == ((((((((x >> 1) >> 1) >> 1) >> 1) >> 1) >> 1) >> 1) >> 1);
    assert Drop64(((((x >> 1) >> 1) >> 1) >> 1), 4) == ((((((((x >> 1) >> 1) >> 1) >> 1) >> 1) >> 1) >> 1) >> 1);
    assert Drop64((((x >> 1) >> 1) >> 1), 5) == ((((((((x >> 1) >> 1) >> 1) >> 1) >> 1) >> 1) >> 1) >> 1);
    assert Drop64(((x >> 1) >> 1), 6) == ((((((((x >> 1) >> 1) >> 1) >> 1) >> 1) >> 1) >> 1) >> 1);
    assert Drop64((x >> 1), 7) == ((((((((x >> 1) >> 1) >> 1) >> 1) >> 1) >> 1) >> 1) >> 1);
    ShiftEight64(x);
  }

  /** `x` shifted right by `k` whole bytes, one byte at a time. */
  function DropBytes64(x: bv64, k: nat): bv64
  {
    if k == 0 then x else DropBytes64(x >> 8, k - 1)
  }

  lemma {:induction false} DropByteSteps64(x: bv64, k: nat)
    ensures Drop64(x, 8 * k) == DropBytes64(x, k)
  {
    if k > 0 {
      DropAdd64(x, 8, 8 * (k - 1));
      DropByte64(x);
      DropByteSteps64(x >> 8, k - 1);
    }
  }

  lemma EightBytesGone64(x: bv64)
    ensures DropBytes64(x, 8) == 0
  {
    assert DropBytes64(x, 8) == DropBytes64(x >> 8, 7);
    assert DropBytes64(x >> 8, 7) == DropBytes64((x >> 8) >> 8, 6);
    assert DropBytes64((x >> 8) >> 8, 6) == DropBytes64(((x >> 8) >> 8) >> 8, 5);
    assert DropBytes64(((x >> 8) >> 8) >> 8, 5) == DropBytes64((((x >> 8) >> 8) >> 8) >> 8, 4);
    assert DropBytes64((((x >> 8) >> 8) >> 8) >> 8, 4) == DropBytes64(((((x >> 8) >> 8) >> 8) >> 8) >> 8, 3);
    assert DropBytes64(((((x >> 8) >> 8) >> 8) >> 8) >> 8, 3) == DropBytes64((((((x >> 8) >> 8) >> 8) >> 8) >> 8) >> 8, 2);
    assert DropBytes64((((((x >> 8) >> 8) >> 8) >> 8) >> 8) >> 8, 2) == DropBytes64(((((((x >> 8) >> 8) >> 8) >> 8) >> 8) >> 8) >> 8, 1);
    assert DropBytes64(((((((x >> 8) >> 8) >> 8) >> 8) >> 8) >> 8) >> 8, 1) == DropBytes64((((((((x >> 8) >> 8) >> 8) >> 8) >> 8) >> 8) >> 8) >> 8, 0);
    assert (((((((x >> 8) >> 8) >> 8) >> 8) >> 8) >> 8) >> 8) >> 8 == 0;
  }

  /** Sixty-four shifts leave nothing. */
  lemma DropAll64(x: bv64)
    ensures Drop64(x, 64) == 0
  {
    DropByteSteps64(x, 8);
    EightBytesGone64(x);
  }

  lemma {:induction false} DropZero64(j: nat)
    ensures Drop64(0, j) == 0
  {
    if j > 0 {
      assert (0 as bv64) >> 1 == 0;
      DropZero64(j - 1);
    }
  }

  lemma ClearLowAndRest64(y: bv64)
    requires y & 1 != 1 && y >> 1 == 0
    ensures y == 0
  {
  }

  lemma {:induction false} NoBitsFrom64(x: bv64, j: nat)
    requires j <= 64
    requires forall k :: j <= k < 64 ==> !Bit64(x, k)
    ensures Drop64(x, j) == 0
    decreases 64 - j
  {
    if j == 64 {
      DropAll64(x);
    } else {
      NoBitsFrom64(x, j + 1);
      DropAdd64(x, j, 1);
      assert !Bit64(x, j);
      ClearLowAndRest64(Drop64(x, j));
    }
  }

  /** A 64-bit value is zero exactly when none of its 64 bits is set. */
  lemma ZeroIffNoBits64(x: bv64)
    ensures x == 0 <==> forall j :: 0 <= j < 64 ==> !Bit64(x, j)
  {
    if x == 0 {
      forall j | 0 <= j < 64
        ensures !Bit64(x, j)
      {
        DropZero64(j);
      }
    }
    if forall j :: 0 <= j < 64 ==> !Bit64(x, j) {
      NoBitsFrom64(x, 0);
    }
  }

  /** Counting bits 0 .. n-1 finds none exactly when none of them is set. */
  lemma {:induction false} CountZeroIffNoBits64(x: bv64, n: nat)
    requires n <= 64
    ensures CountBits64(x, n) == 0 <==> forall j :: 0 <= j < n ==> !Bit64(x, j)
  {
    if n > 0 {
      CountZeroIffNoBits64(x >> 1, n - 1);
      assert Bit64(x, 0) <==> Low64(x) == 1;
      if CountBits64(x, n) == 0 {
        forall j | 0 <= j < n
          ensures !Bit64(x, j)
        {
          if j > 0 {
            assert !Bit64(x >> 1, j - 1);
          }
        }
      }
      if forall j :: 0 <= j < n ==> !Bit64(x, j) {
        var y := x >> 1;
        forall j | 0 <= j < n - 1
          ensures !Bit64(y, j)
        {
          assert !Bit64(x, j + 1);
        }
      }
    }
  }

  // ---------------------------------------------------------------------
  // __builtin_popcountll
  // ---------------------------------------------------------------------

  /** `x -= (x >> 1) & m1`: each 2-bit field now holds the number of its set bits. */
  function PairCounts64(x: bv64): bv64
  {
    x - ((x >> 1) & 0x5555555555555555)
  }

  /** `x = (x & m2) + ((x >> 2) & m2)`: each nibble holds the number of its set bits. */
  function NibbleCounts64(x: bv64): bv64
  {
    (x & 0x3333333333333333) + ((x >> 2) & 0x3333333333333333)
  }

  /** `x = (x + (x >> 4)) & m4`: each byte holds the number of its set bits. */
  function ByteCounts64(x: bv64): bv64
  {
    (x + (x >> 4)) & 0x0f0f0f0f0f0f0f0f
  }

  /** The three stages of `__builtin_popcountll`, in the source's order. */
  function Stages64(x: bv64): bv64
  {
    ByteCounts64(NibbleCounts64(PairCounts64(x)))
  }

  /** `__builtin_popcountll(x)`: `(x * h01) >> 56` after the stages. */
  function Popcountll(x: bv64): (r: nat)
  {
    ((Stages64(x) * 0x0101010101010101) >> 56) as nat
  }

  /** The sum of bits 0 .. 7 of `y`, added as bit-vectors. */
  function EightBits64(y: bv64): bv64
  {
    (y & 1) + (((y >> 1) & 1) + ((((y >> 1) >> 1) & 1) + (((((y >> 1) >> 1) >> 1) & 1) + ((((((y >> 1) >> 1) >> 1) >> 1) & 1) + (((((((y >> 1) >> 1) >> 1) >> 1) >> 1) & 1) + ((((((((y >> 1) >> 1) >> 1) >> 1) >> 1) >> 1) & 1) + (((((((((y >> 1) >> 1) >> 1) >> 1) >> 1) >> 1) >> 1) & 1) + 0)))))))
  }

  /** Byte `k` of the stages is the sum of bits 0 .. 7 of `x` shifted right by `k` bytes. */
  lemma StagesLowByte64(x: bv64)
    ensures Stages64(x) & 0xff == EightBits64(x)
  {
  }

  lemma StagesByteOne64(x: bv64)
    ensures DropBytes64(Stages64(x), 1) & 0xff == EightBits64(DropBytes64(x, 1))
  {
    DropBytesNested64(x);
    DropBytesNested64(Stages64(x));
  }

  lemma StagesByteTwo64(x: bv64)
    ensures DropBytes64(Stages64(x), 2) & 0xff == EightBits64(DropBytes64(x, 2))
  {
    DropBytesNested64(x);
    DropBytesNested64(Stages64(x));
  }

  lemma StagesByteThree64(x: bv64)
    ensures DropBytes64(Stages64(x), 3) & 0xff == EightBits64(DropBytes64(x, 3))
  {
    DropBytesNested64(x);
    DropBytesNested64(Stages64(x));
  }

  lemma StagesByteFour64(x: bv64)
    ensures DropBytes64(Stages64(x), 4) & 0xff == EightBits64(DropBytes64(x, 4))
  {
    DropBytesNested64(x);
    DropBytesNested64(Stages64(x));
  }

  lemma StagesByteFive64(x: bv64)
    ensures DropBytes64(Stages64(x), 5) & 0xff == EightBits64(DropBytes64(x, 5))
  {
    DropBytesNested64(x);
    DropBytesNested64(Stages64(x));
  }

  lemma StagesByteSix64(x: bv64)
    ensures DropBytes64(Stages64(x), 6) & 0xff == EightBits64(DropBytes64(x, 6))
  {
    DropBytesNested64(x);
    DropBytesNested64(Stages64(x));
  }

  lemma StagesByteSeven64(x: bv64)
    ensures DropBytes64(Stages64(x), 7) & 0xff == EightBits64(DropBytes64(x, 7))
  {
    DropBytesNested64(x);
    DropBytesNested64(Stages64(x));
  }

  lemma CountEight64(x: bv64)
    ensures CountBits64(x, 8) == Low64(x) + Low64((x >> 1)) + Low64(((x >> 1) >> 1)) + Low64((((x >> 1) >> 1) >> 1)) + Low64(((((x >> 1) >> 1) >> 1) >> 1)) + Low64((((((x >> 1) >> 1) >> 1) >> 1) >> 1)) + Low64(((((((x >> 1) >> 1) >> 1) >> 1) >> 1) >> 1)) + Low64((((((((x >> 1) >> 1) >> 1) >> 1) >> 1) >> 1) >> 1))
  {
    assert CountBits64(x, 8) == Low64(x) + CountBits64((x >> 1), 7);
    assert CountBits64((x >> 1), 7) == Low64((x >> 1)) + CountBits64(((x >> 1) >> 1), 6);
    assert CountBits64(((x >> 1) >> 1), 6) == Low64(((x >> 1) >> 1)) + CountBits64((((x >> 1) >> 1) >> 1), 5);
    assert CountBits64((((x >> 1) >> 1) >> 1), 5) == Low64((((x >> 1) >> 1) >> 1)) + CountBits64(((((x >> 1) >> 1) >> 1) >> 1), 4);
    assert CountBits64(((((x >> 1) >> 1) >> 1) >> 1), 4) == Low64(((((x >> 1) >> 1) >> 1) >> 1)) + CountBits64((((((x >> 1) >> 1) >> 1) >> 1) >> 1), 3);
    assert CountBits64((((((x >> 1) >> 1) >> 1) >> 1) >> 1), 3) == Low64((((((x >> 1) >> 1) >> 1) >> 1) >> 1)) + CountBits64(((((((x >> 1) >> 1) >> 1) >> 1) >> 1) >> 1), 2);
    assert CountBits64(((((((x >> 1) >> 1) >> 1) >> 1) >> 1) >> 1), 2) == Low64(((((((x >> 1) >> 1) >> 1) >> 1) >> 1) >> 1)) + CountBits64((((((((x >> 1) >> 1) >> 1) >> 1) >> 1) >> 1) >> 1), 1);
    assert CountBits64((((((((x >> 1) >> 1) >> 1) >> 1) >> 1) >> 1) >> 1), 1) == Low64((((((((x >> 1) >> 1) >> 1) >> 1) >> 1) >> 1) >> 1)) + CountBits64(((((((((x >> 1) >> 1) >> 1) >> 1) >> 1) >> 1) >> 1) >> 1), 0);
  }

  lemma LowBit64(w: bv64)
    ensures (w & 1) as int == Low64(w)
  {
  }

  lemma EightBitsNat64(y: bv64)
    ensures EightBits64(y) as nat == (y & 1) as nat + ((y >> 1) & 1) as nat + (((y >> 1) >> 1) & 1) as nat + ((((y >> 1) >> 1) >> 1) & 1) as nat + (((((y >> 1) >> 1) >> 1) >> 1) & 1) as nat + ((((((y >> 1) >> 1) >> 1) >> 1) >> 1) & 1) as nat + (((((((y >> 1) >> 1) >> 1) >> 1) >> 1) >> 1) & 1) as nat + ((((((((y >> 1) >> 1) >> 1) >> 1) >> 1) >> 1) >> 1) & 1) as nat
  {
  }

  /** Added as bit-vectors or counted as numbers, bits 0 .. 7 give the same total. */
  lemma EightBitsCount64(x: bv64)
    ensures EightBits64(x) as nat == CountBits64(x, 8)
  {
    EightBitsNat64(x);
    CountEight64(x);
    LowBit64(x);
    LowBit64((x >> 1));
    LowBit64(((x >> 1) >> 1));
    LowBit64((((x >> 1) >> 1) >> 1));
    LowBit64(((((x >> 1) >> 1) >> 1) >> 1));
    LowBit64((((((x >> 1) >> 1) >> 1) >> 1) >> 1));
    LowBit64(((((((x >> 1) >> 1) >> 1) >> 1) >> 1) >> 1));
    LowBit64((((((((x >> 1) >> 1) >> 1) >> 1) >> 1) >> 1) >> 1));
  }

  /** The stages leave the number of set bits among bits 0 .. 7 in the low byte. */
  lemma PopcountllLowByte(x: bv64)
    ensures (Stages64(x) & 0xff) as nat == CountBits64(x, 8)
  {
    StagesLowByte64(x);
    EightBitsCount64(x);
  }

  lemma {:induction false} CountSplit64(x: bv64, j: nat, m: nat)
    requires j + m <= 64
    ensures CountBits64(x, j + m) == CountBits64(x, j) + CountBits64(Drop64(x, j), m)
  {
    if j > 0 {
      CountSplit64(x >> 1, j - 1, m);
    }
  }

  /** The stages count every byte on its own: byte `j` holds the set bits of byte `j` of `x`. */
  lemma StagesByte64(x: bv64, j: nat)
    requires j < 8
    ensures (DropBytes64(Stages64(x), j) & 0xff) as nat == CountBits64(DropBytes64(x, j), 8)
  {
    EightBitsCount64(DropBytes64(x, j));
    if j == 0 {
      StagesLowByte64(x);
    } else if j == 1 {
      StagesByteOne64(x);
    } else if j == 2 {
      StagesByteTwo64(x);
    } else if j == 3 {
      StagesByteThree64(x);
    } else if j == 4 {
      StagesByteFour64(x);
    } else if j == 5 {
      StagesByteFive64(x);
    } else if j == 6 {
      StagesByteSix64(x);
    } else if j == 7 {
      StagesByteSeven64(x);
    }
  }

  /** `DropBytes64` for a literal count, written out as nested shifts. */
  lemma DropBytesNested64(x: bv64)
    ensures DropBytes64(x, 0) == x && DropBytes64(x, 1) == x >> 8 && DropBytes64(x, 2) == (x >> 8) >> 8
    ensures DropBytes64(x, 3) == ((x >> 8) >> 8) >> 8 && DropBytes64(x, 4) == (((x >> 8) >> 8) >> 8) >> 8
    ensures DropBytes64(x, 5) == ((((x >> 8) >> 8) >> 8) >> 8) >> 8 && DropBytes64(x, 6) == (((((x >> 8) >> 8) >> 8) >> 8) >> 8) >> 8
    ensures DropBytes64(x, 7) == ((((((x >> 8) >> 8) >> 8) >> 8) >> 8) >> 8) >> 8
  {
    assert DropBytes64((((((x >> 8) >> 8) >> 8) >> 8) >> 8) >> 8, 1) == DropBytes64(((((((x >> 8) >> 8) >> 8) >> 8) >> 8) >> 8) >> 8, 0);
    assert DropBytes64(((((x >> 8) >> 8) >> 8) >> 8) >> 8, 2) == DropBytes64((((((x >> 8) >> 8) >> 8) >> 8) >> 8) >> 8, 1);
    assert DropBytes64((((x >> 8) >> 8) >> 8) >> 8, 3) == DropBytes64(((((x >> 8) >> 8) >> 8) >> 8) >> 8, 2);
    assert DropBytes64(((x >> 8) >> 8) >> 8, 4) == DropBytes64((((x >> 8) >> 8) >> 8) >> 8, 3);
    assert DropBytes64((x >> 8) >> 8, 5) == DropBytes64(((x >> 8) >> 8) >> 8, 4);
    assert DropBytes64(x >> 8, 6) == DropBytes64((x >> 8) >> 8, 5);
    assert DropBytes64(x, 7) == DropBytes64(x >> 8, 6);
    assert DropBytes64((((x >> 8) >> 8) >> 8) >> 8, 1) == DropBytes64(((((x >> 8) >> 8) >> 8) >> 8) >> 8, 0);
    assert DropBytes64(((x >> 8) >> 8) >> 8, 2) == DropBytes64((((x >> 8) >> 8) >> 8) >> 8, 1);
    assert DropBytes64((x >> 8) >> 8, 3) == DropBytes64(((x >> 8) >> 8) >> 8, 2);
    assert DropBytes64(x >> 8, 4) == DropBytes64((x >> 8) >> 8, 3);
    assert DropBytes64(x, 5) == DropBytes64(x >> 8, 4);
    assert DropBytes64(((x >> 8) >> 8) >> 8, 1) == DropBytes64((((x >> 8) >> 8) >> 8) >> 8, 0);
    assert DropBytes64((x >> 8) >> 8, 2) == DropBytes64(((x >> 8) >> 8) >> 8, 1);
    assert DropBytes64(x >> 8, 3) == DropBytes64((x >> 8) >> 8, 2);
    assert DropBytes64(x, 4) == DropBytes64(x >> 8, 3);
    assert DropBytes64((x >> 8) >> 8, 1) == DropBytes64(((x >> 8) >> 8) >> 8, 0);
    assert DropBytes64(x >> 8, 2) == DropBytes64((x >> 8) >> 8, 1);
    assert DropBytes64(x, 3) == DropBytes64(x >> 8, 2);
    assert DropBytes64(x >> 8, 1) == DropBytes64((x >> 8) >> 8, 0);
    assert DropBytes64(x, 2) == DropBytes64(x >> 8, 1);
  }

  lemma {:induction false} DropBytesNext64(y: bv64, i: nat)
    ensures DropBytes64(y, i + 1) == DropBytes64(y, i) >> 8
  {
    if i > 0 {
      DropBytesNext64(y >> 8, i - 1);
    }
  }

  lemma DropByteNext64(x: bv64, i: nat)
    ensures Drop64(DropBytes64(x, i), 8) == DropBytes64(x, i + 1)
  {
    DropByte64(DropBytes64(x, i));
    DropBytesNext64(x, i);
  }

  /** Byte `i` of `y`, as a number. */
  function Byte64(y: bv64, i: nat): nat
  {
    (DropBytes64(y, i) & 0xff) as nat
  }

  /** The sum of bytes `i` .. `i + k - 1` of `y`. */
  function ByteSum64(y: bv64, i: nat, k: nat): nat
    decreases k
  {
    if k == 0 then 0 else Byte64(y, i) + ByteSum64(y, i + 1, k - 1)
  }

  /** When each byte of `s` counts the set bits of the same byte of `x`, the bytes add up to the count of all of them. */
  lemma {:induction false} ByteCountsAdd64(s: bv64, x: bv64, i: nat, k: nat)
    requires i + k <= 8
    requires forall j :: i <= j < i + k ==> Byte64(s, j) == CountBits64(DropBytes64(x, j), 8)
    ensures ByteSum64(s, i, k) == CountBits64(DropBytes64(x, i), 8 * k)
    decreases k
  {
    if k > 0 {
      ByteCountsAdd64(s, x, i + 1, k - 1);
      CountSplit64(DropBytes64(x, i), 8, 8 * (k - 1));
      DropByteNext64(x, i);
    }
  }

  /** The eight bytes of the stages add up to the number of set bits of `x`. */
  lemma StagesCount64(x: bv64)
    ensures ByteSum64(Stages64(x), 0, 8) == CountBits64(x, 64)
  {
    forall j | 0 <= j < 8
      ensures Byte64(Stages64(x), j) == CountBits64(DropBytes64(x, j), 8)
    {
      StagesByte64(x, j);
    }
    ByteCountsAdd64(Stages64(x), x, 0, 8);
  }

  /** Each byte of `y` is at most 15. */
  predicate NibbleBytes64(y: bv64)
  {
    y & 0xf0f0f0f0f0f0f0f0 == 0
  }

  lemma StagesNibbles64(x: bv64)
    ensures NibbleBytes64(Stages64(x))
  {
  }

  /** Multiplying by `h01` adds `y` to the product shifted up one byte. */
  lemma MulFixed64(y: bv64)
    ensures y * 0x0101010101010101 == y + ((y * 0x0101010101010101) << 8)
  {
  }

  /** Byte `j` of such an `m` is byte `j` of `y` plus byte `j - 1` of `m`, so the top byte is the sum of all bytes of `y`. */
  lemma FixedTop64(y: bv64, m: bv64)
    requires NibbleBytes64(y) && m == y + (m << 8)
    ensures m >> 56 == (y >> 56) + (((y >> 48) & 0xff) + (((y >> 40) & 0xff) + (((y >> 32) & 0xff) + (((y >> 24) & 0xff) + (((y >> 16) & 0xff) + (((y >> 8) & 0xff) + (y & 0xff)))))))
  {
  }

  lemma SumBytesNat64(y: bv64)
    requires NibbleBytes64(y)
    ensures ((y >> 56) + (((y >> 48) & 0xff) + (((y >> 40) & 0xff) + (((y >> 32) & 0xff) + (((y >> 24) & 0xff) + (((y >> 16) & 0xff) + (((y >> 8) & 0xff) + (y & 0xff)))))))) as nat
      == (y & 0xff) as nat + ((y >> 8) & 0xff) as nat + ((y >> 16) & 0xff) as nat + ((y >> 24) & 0xff) as nat + ((y >> 32) & 0xff) as nat + ((y >> 40) & 0xff) as nat + ((y >> 48) & 0xff) as nat + (y >> 56) as nat
  {
  }

  lemma NestedShifts64(y: bv64)
    ensures (y >> 8) >> 8 == y >> 16 && ((y >> 8) >> 8) >> 8 == y >> 24 && (((y >> 8) >> 8) >> 8) >> 8 == y >> 32
    ensures ((((y >> 8) >> 8) >> 8) >> 8) >> 8 == y >> 40 && (((((y >> 8) >> 8) >> 8) >> 8) >> 8) >> 8 == y >> 48
    ensures ((((((y >> 8) >> 8) >> 8) >> 8) >> 8) >> 8) >> 8 == y >> 56
  {
  }

  lemma ByteSumDrops64(y: bv64)
    ensures ByteSum64(y, 0, 8) == Byte64(y, 0) + Byte64(y, 1) + Byte64(y, 2) + Byte64(y, 3) + Byte64(y, 4) + Byte64(y, 5) + Byte64(y, 6) + Byte64(y, 7)
  {
    assert ByteSum64(y, 7, 1) == Byte64(y, 7) + ByteSum64(y, 8, 0);
    assert ByteSum64(y, 6, 2) == Byte64(y, 6) + ByteSum64(y, 7, 1);
    assert ByteSum64(y, 5, 3) == Byte64(y, 5) + ByteSum64(y, 6, 2);
    assert ByteSum64(y, 4, 4) == Byte64(y, 4) + ByteSum64(y, 5, 3);
    assert ByteSum64(y, 3, 5) == Byte64(y, 3) + ByteSum64(y, 4, 4);
    assert ByteSum64(y, 2, 6) == Byte64(y, 2) + ByteSum64(y, 3, 5);
    assert ByteSum64(y, 1, 7) == Byte64(y, 1) + ByteSum64(y, 2, 6);
  }

  lemma DropBytesShifts64(y: bv64)
    ensures DropBytes64(y, 0) == y && DropBytes64(y, 1) == y >> 8 && DropBytes64(y, 2) == y >> 16 && DropBytes64(y, 3) == y >> 24
    ensures DropBytes64(y, 4) == y >> 32 && DropBytes64(y, 5) == y >> 40 && DropBytes64(y, 6) == y >> 48 && DropBytes64(y, 7) == y >> 56
  {
    DropBytesNested64(y);
    NestedShifts64(y);
  }

  /** Each byte of `y`, read through the shifted masks the C code uses. */
  lemma BytesAsShifts64(y: bv64)
    ensures Byte64(y, 0) == (y & 0xff) as nat && Byte64(y, 1) == ((y >> 8) & 0xff) as nat
    ensures Byte64(y, 2) == ((y >> 16) & 0xff) as nat && Byte64(y, 3) == ((y >> 24) & 0xff) as nat
    ensures Byte64(y, 4) == ((y >> 32) & 0xff) as nat && Byte64(y, 5) == ((y >> 40) & 0xff) as nat
    ensures Byte64(y, 6) == ((y >> 48) & 0xff) as nat && Byte64(y, 7) == (y >> 56) as nat
  {
    DropBytesShifts64(y);
    assert (y >> 56) & 0xff == y >> 56;
  }

  lemma ByteSumEight64(y: bv64)
    ensures ByteSum64(y, 0, 8) == (y & 0xff) as nat + ((y >> 8) & 0xff) as nat + ((y >> 16) & 0xff) as nat + ((y >> 24) & 0xff) as nat + ((y >> 32) & 0xff) as nat + ((y >> 40) & 0xff) as nat + ((y >> 48) & 0xff) as nat + (y >> 56) as nat
  {
    ByteSumDrops64(y);
    BytesAsShifts64(y);
  }

  /** The multiply by `h01` leaves the sum of the eight byte counts in the top byte. */
  lemma TopBytesOf64(y: bv64, m: bv64)
    requires NibbleBytes64(y) && m == y + (m << 8)
    ensures (m >> 56) as nat == (y & 0xff) as nat + ((y >> 8) & 0xff) as nat + ((y >> 16) & 0xff) as nat + ((y >> 24) & 0xff) as nat + ((y >> 32) & 0xff) as nat + ((y >> 40) & 0xff) as nat + ((y >> 48) & 0xff) as nat + (y >> 56) as nat
  {
    FixedTop64(y, m);
    SumBytesNat64(y);
  }

  lemma TopBytes64(y: bv64)
    requires NibbleBytes64(y)
    ensures ((y * 0x0101010101010101) >> 56) as nat == (y & 0xff) as nat + ((y >> 8) & 0xff) as nat + ((y >> 16) & 0xff) as nat + ((y >> 24) & 0xff) as nat + ((y >> 32) & 0xff) as nat + ((y >> 40) & 0xff) as nat + ((y >> 48) & 0xff) as nat + (y >> 56) as nat
  {
    MulFixed64(y);
    TopBytesOf64(y, y * 0x0101010101010101);
  }

  lemma TopSum64(y: bv64)
    requires NibbleBytes64(y)
    ensures ((y * 0x0101010101010101) >> 56) as nat == ByteSum64(y, 0, 8)
  {
    TopBytes64(y);
    ByteSumEight64(y);
  }

  /** `__builtin_popcountll(x)` is the number of set bits of `x`. */
  lemma PopcountllCounts(x: bv64)
    ensures Popcountll(x) == CountBits64(x, 64)
  {
    StagesNibbles64(x);
    StagesCount64(x);
    TopIsCount64(Stages64(x), CountBits64(x, 64));
    PopcountllOfStages(x);
  }

  /** `__builtin_popcountll` is the top byte of the stage result times 0x0101010101010101. */
  lemma PopcountllOfStages(x: bv64)
    ensures Popcountll(x) == ((Stages64(x) * 0x0101010101010101) >> 56) as nat
  {
  }

  /** The top byte of the product is any count the bytes add up to. */
  lemma TopIsCount64(y: bv64, c: nat)
    requires NibbleBytes64(y) && ByteSum64(y, 0, 8) == c
    ensures ((y * 0x0101010101010101) >> 56) as nat == c
  {
    TopSum64(y);
  }

  /** The count is zero exactly for zero. */
  lemma PopcountllZero(x: bv64)
    ensures Popcountll(x) == 0 <==> x == 0
  {
    PopcountllCounts(x);
    CountZeroIffNoBits64(x, 64);
    ZeroIffNoBits64(x);
  }

  /** `_BitScanForward64` from bit `i` upwards: the first set bit, if any. */
  function ScanForward64(x: bv64, i: nat): (r: Option<nat>)
    requires i <= 64
    ensures r.Some? ==> i <= r.value < 64 && Bit64(x, r.value)
    ensures r.Some? ==> forall j :: i <= j < r.value ==> !Bit64(x, j)
    ensures r.None? <==> forall j :: i <= j < 64 ==> !Bit64(x, j)
    decreases 64 - i
  {
    if i == 64 then None
    else if Bit64(x, i) then Some(i)
    else ScanForward64(x, i + 1)
  }

  /** `_BitScanReverse64` below bit `i`: the highest set bit under `i`, if any. */
  function ScanReverse64(x: bv64, i: nat): (r: Option<nat>)
    requires i <= 64
    ensures r.Some? ==> r.value < i && Bit64(x, r.value)
    ensures r.Some? ==> forall j :: r.value < j < i ==> !Bit64(x, j)
    ensures r.None? <==> forall j :: 0 <= j < i ==> !Bit64(x, j)
  {
    if i == 0 then None
    else if Bit64(x, i - 1) then Some(i - 1)
    else ScanReverse64(x, i - 1)
  }

  /** `__builtin_ctzll`: the index of the lowest set bit, or 64 for zero. */
  function Ctzll(x: bv64): (r: nat)
    ensures r <= 64
    ensures r == 64 <==> x == 0
    ensures r < 64 ==> Bit64(x, r) && forall j :: 0 <= j < r ==> !Bit64(x, j)
  {
    ZeroIffNoBits64(x);
    match ScanForward64(x, 0)
    case Some(index) => index
    case None => 64
  }

  /** `__builtin_clzll`: 63 minus the index of the highest set bit, or 64 for zero. */
  function Clzll(x: bv64): (r: nat)
    ensures r <= 64
    ensures r == 64 <==> x == 0
    ensures r < 64 ==> Bit64(x, 63 - r) && forall j :: 63 - r < j < 64 ==> !Bit64(x, j)
  {
    ZeroIffNoBits64(x);
    match ScanReverse64(x, 64)
    case Some(index) => 64 - 1 - index
    case None => 64
  }

  /** The trailing-zero count is the only index with a set bit and none below it. */
  lemma CtzllUnique(x: bv64, i: nat)
    requires i < 64
    ensures Ctzll(x) == i <==> (Bit64(x, i) && forall j :: 0 <= j < i ==> !Bit64(x, j))
  {
    ZeroIffNoBits64(x);
  }

  /** A set bit bounds both counts: no more trailing zeros than its index, no more leading zeros than 63 minus it. */
  lemma SetBitBounds64(x: bv64, i: nat)
    requires i < 64 && Bit64(x, i)
    ensures Ctzll(x) <= i
    ensures Clzll(x) <= 63 - i
  {
    ZeroIffNoBits64(x);
  }

  // ---------------------------------------------------------------------
  // __builtin_bswap64
  // ---------------------------------------------------------------------

  /** `_byteswap_uint64`: byte k of the result is byte 7 - k of the argument. */
  function Bswap64(x: bv64): (r: bv64)
    ensures r & 0xff == x >> 56
    ensures (r >> 8) & 0xff == (x >> 48) & 0xff
    ensures (r >> 16) & 0xff == (x >> 40) & 0xff
    ensures (r >> 24) & 0xff == (x >> 32) & 0xff
    ensures (r >> 32) & 0xff == (x >> 24) & 0xff
    ensures (r >> 40) & 0xff == (x >> 16) & 0xff
    ensures (r >> 48) & 0xff == (x >> 8) & 0xff
    ensures r >> 56 == x & 0xff
  {
    (x << 56) | ((x & 0xff00) << 40) | ((x & 0xff0000) << 24) | ((x & 0xff000000) << 8)
      | ((x >> 8) & 0xff000000) | ((x >> 24) & 0xff0000) | ((x >> 40) & 0xff00) | (x >> 56)
  }

  lemma SwapTwice64(x: bv64)
    ensures var y := (x << 56) | ((x & 0xff00) << 40) | ((x & 0xff0000) << 24) | ((x & 0xff000000) << 8)
      | ((x >> 8) & 0xff000000) | ((x >> 24) & 0xff0000) | ((x >> 40) & 0xff00) | (x >> 56);
      (y << 56) | ((y & 0xff00) << 40) | ((y & 0xff0000) << 24) | ((y & 0xff000000) << 8)
      | ((y >> 8) & 0xff000000) | ((y >> 24) & 0xff0000) | ((y >> 40) & 0xff00) | (y >> 56) == x
  {
  }

  /** Swapping twice gives the value back. */
  lemma Bswap64Involution(x: bv64)
    ensures Bswap64(Bswap64(x)) == x
  {
    SwapTwice64(x);
  }
}
