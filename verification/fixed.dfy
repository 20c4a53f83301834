/** 16.16 (SkFixed) and 2.30 (SkFract) fixed-point arithmetic.

    Both formats are 32-bit two's-complement integers. A left shift by k is
    written as a multiplication by 2^k, and an arithmetic right shift by k as
    Dafny's division by 2^k, which rounds toward negative infinity exactly as
    the shift does. The debug assertions of the header become preconditions,
    and so do the additions whose signed overflow would be undefined. */
module Fixed {

  const Int32Min: int := -0x8000_0000
  const Int32Max: int := 0x7FFF_FFFF
  const Uint32Modulus: int := 0x1_0000_0000

  /** A 32-bit signed integer: the representation of SkFixed and SkFract. */
  type Int32 = x: int | Int32Min <= x <= Int32Max

  const Fixed1: Int32 := 0x1_0000            // 1 << 16
  const FixedHalf: Int32 := 0x8000           // 1 << 15
  const FixedMax: Int32 := 0x7FFF_FFFF
  const FixedMin: Int32 := 0x1
  const FixedNaN: Int32 := -0x8000_0000      // (int) 0x80000000
  const FixedPI: Int32 := 0x3243F
  const FixedSqrt2: Int32 := 92682
  const FixedTanPIOver8: Int32 := 0x6A0A
  const FixedRoot2Over2: Int32 := 0xB505

  const Fract1: Int32 := 0x4000_0000         // 1 << 30
  const FractHalf: Int32 := 0x2000_0000      // 1 << 29
  const FractPIOver180: Int32 := 0x11D_F46A

  /** The default tolerance of FixedNearlyZero: SK_Fixed1 >> 12. */
  const FixedNearlyZeroTolerance: Int32 := Fixed1 / 0x1000

  /** Exact absolute value. SkAbs32 is not part of this model; here it is the
      mathematical absolute value, so the most negative Int32 maps to 2^31,
      which is what the unsigned variable of FixedSquarePortable holds. */
  function Abs(x: int): (r: nat)
    ensures r == x || r == -x
  {
    if x < 0 then -x else x
  }

  /** SkIntToFixed: n << 16, for n in the range the debug build asserts. */
  function IntToFixed(n: int): (r: Int32)
    requires -32768 <= n <= 32767
    ensures FixedFloor(r) == n
    ensures r + Fixed1 - 1 <= Int32Max && FixedCeil(r) == n && FixedRound(r) == n
  {
    n * 0x1_0000
  }

  /** SkFixedToFract: x << 14, for x in the range the debug build asserts. */
  function FixedToFract(x: Int32): (r: Int32)
    requires -0x2_0000 <= x <= 0x2_0000 - 1
    ensures r % 0x4000 == 0 && FractToFixed(r) == x
  {
    x * 0x4000
  }

  /** SkFractToFixed: x >> 14, which drops the 14 extra fraction bits
      rounding toward negative infinity. */
  function FractToFixed(x: Int32): (r: Int32)
    ensures r * 0x4000 <= x < (r + 1) * 0x4000
  {
    x / 0x4000
  }

  /** SkFixedFloor: x >> 16, the largest whole number not above x. */
  function FixedFloor(x: Int32): (r: int)
    ensures r * Fixed1 <= x < (r + 1) * Fixed1
    ensures -0x8000 <= r <= 0x7FFF
  {
    x / 0x1_0000
  }

  /** SkFixedRound: (x + SK_FixedHalf) >> 16, the nearest whole number,
      halves rounding up. */
  function FixedRound(x: Int32): (r: int)
    requires x + FixedHalf <= Int32Max
    ensures r * Fixed1 - FixedHalf <= x < r * Fixed1 + FixedHalf
  {
    (x + 0x8000) / 0x1_0000
  }

  /** SkFixedCeil: (x + SK_Fixed1 - 1) >> 16, the smallest whole number not
      below x. */
  function FixedCeil(x: Int32): (r: int)
    requires x + Fixed1 - 1 <= Int32Max
    ensures (r - 1) * Fixed1 < x <= r * Fixed1
  {
    (x + 0xFFFF) / 0x1_0000
  }

  /** SkFixedAve: (a + b) >> 1, the mean rounded toward negative infinity. */
  function FixedAve(a: Int32, b: Int32): (r: Int32)
    requires Int32Min <= a + b <= Int32Max
    ensures 2 * r <= a + b < 2 * r + 2
    ensures (if a <= b then a else b) <= r <= (if a <= b then b else a)
  {
    (a + b) / 2
  }

  /** Reduction to the low 32 bits, as uint32_t arithmetic does. */
  function U32(x: int): (r: nat)
    ensures r < Uint32Modulus && (x - r) % Uint32Modulus == 0
  {
    x % Uint32Modulus
  }

  /** Reading a 32-bit pattern back as a signed value (two's complement). */
  function AsInt32(u: nat): (r: Int32)
    requires u < Uint32Modulus
    ensures (r - u) % Uint32Modulus == 0
  {
    if u <= Int32Max then u else u - Uint32Modulus
  }

  /** SkFixedSquare_portable: the square of |value| in 16.16, computed from
      the two 16-bit halves of |value| with every product, shift and sum taken
      in uint32_t, and the sum returned as a signed SkFixed. */
  function FixedSquarePortable(value: Int32): (r: Int32)
    ensures Abs(value) * Abs(value) / Fixed1 <= Int32Max ==>
              r == Abs(value) * Abs(value) / Fixed1
  {
    var a := Abs(value);               // uint32_t a = SkAbs32(value)
    var ah := a / 0x1_0000;            // a >> 16
    var al := a % 0x1_0000;            // a & 0xFFFF
    var sum := U32(U32(U32(ah * a) + U32(al * ah)) + U32(al * al) / 0x1_0000);
    SquareSplit(a);
    AsInt32(sum)
  }

  /** The split of |value| into halves loses nothing: the three partial terms
      of FixedSquarePortable add up to floor(a * a / 2^16), and when that
      fits in 31 bits none of the uint32_t operations wraps. */
  lemma SquareSplit(a: nat)
    requires a <= 0x8000_0000
    ensures var ah := a / 0x1_0000; var al := a % 0x1_0000;
            ah * a + al * ah + al * al / 0x1_0000 == a * a / 0x1_0000
    ensures var ah := a / 0x1_0000; var al := a % 0x1_0000;
            a * a / 0x1_0000 <= Int32Max ==>
              U32(U32(U32(ah * a) + U32(al * ah)) + U32(al * al) / 0x1_0000) == a * a / 0x1_0000
  {
    var ah := a / 0x1_0000;
    var al := a % 0x1_0000;
    SquareParts(a, ah, al);
    LowHalfSquare(al);
    NonNegProduct(ah, a);
    NonNegProduct(al, ah);
    var high := ah * a + al * ah;
    var low := al * al;
    DivAddMultiple(high, low);
    var total := a * a / 0x1_0000;
    assert high + low / 0x1_0000 == total;
    if total <= Int32Max {
      assert U32(ah * a) == ah * a;
      assert U32(al * ah) == al * ah;
      assert U32(low) == low;
      assert U32(ah * a + al * ah) == high;
      assert U32(high + low / 0x1_0000) == total;
    }
  }

  /** a * a == (ah * a + al * ah) * 2^16 + al * al when a == ah * 2^16 + al. */
  lemma SquareParts(a: int, ah: int, al: int)
    requires a == ah * 0x1_0000 + al
    ensures a * a == (ah * a + al * ah) * 0x1_0000 + al * al
  {
    calc {
      a * a;
      (ah * 0x1_0000 + al) * a;
      ah * 0x1_0000 * a + al * a;
      ah * 0x1_0000 * a + al * (ah * 0x1_0000 + al);
      ah * 0x1_0000 * a + al * ah * 0x1_0000 + al * al;
      (ah * a + al * ah) * 0x1_0000 + al * al;
    }
  }

  /** The square of a 16-bit value fits in 32 bits. */
  lemma LowHalfSquare(al: int)
    requires 0 <= al < 0x1_0000
    ensures 0 <= al * al < Uint32Modulus
  {
    NonNegProduct(al, al);
    MulMonotone(al, al, 0xFFFF);
    MulMonotone(0xFFFF, al, 0xFFFF);
  }

  lemma NonNegProduct(x: int, y: int)
    requires 0 <= x && 0 <= y
    ensures 0 <= x * y
  {
  }

  lemma MulMonotone(x: int, y: int, z: int)
    requires 0 <= x && y <= z
    ensures x * y <= x * z
  {
    assert x * z - x * y == x * (z - y);
    NonNegProduct(x, z - y);
  }

  /** (k * 2^16 + m) / 2^16 == k + m / 2^16 for non-negative k and m. */
  lemma DivAddMultiple(k: int, m: int)
    requires 0 <= k && 0 <= m
    ensures (k * 0x1_0000 + m) / 0x1_0000 == k + m / 0x1_0000
  {
  }

  /** Squaring is symmetric in the sign of its argument. */
  lemma FixedSquareSymmetric(v: Int32)
    requires v != Int32Min
    ensures FixedSquarePortable(-v) == FixedSquarePortable(v)
  {
    assert Abs(-v) == Abs(v);
  }

  /** SkFixedNearlyZero: |x| < tolerance, for a positive tolerance. */
  function FixedNearlyZero(x: Int32, tolerance: Int32 := FixedNearlyZeroTolerance): (r: bool)
    requires tolerance > 0
    ensures r <==> -tolerance < x < tolerance
  {
    Abs(x) < tolerance
  }

  /** The default tolerance is 16, i.e. 1/4096 in 16.16. */
  lemma DefaultToleranceIsSixteen()
    ensures FixedNearlyZeroTolerance == 16
    ensures FixedNearlyZero(15) && !FixedNearlyZero(16) && FixedNearlyZero(-15) && !FixedNearlyZero(-16)
  {
  }

  /** Floor, round and ceiling are ordered and at most one apart. */
  lemma {:induction false} RoundingOrder(x: Int32)
    requires x + Fixed1 - 1 <= Int32Max
    ensures FixedFloor(x) <= FixedRound(x) <= FixedCeil(x) <= FixedFloor(x) + 1
    ensures FixedCeil(x) == FixedFloor(x) <==> x % Fixed1 == 0
  {
  }

  /** SkFixedFraction: keeps the low 16 bits of x and fills the high 16 bits
      with the sign of x. `x >> 31 << 16` is 0 or -2^16, `x & 0xFFFF` is x
      modulo 2^16, and because the two have no set bit in common, `|` is an
      addition. */
  function FixedFraction(x: Int32): (r: Int32)
    ensures r % Fixed1 == x % Fixed1
    ensures -Fixed1 <= r < Fixed1
    ensures r < 0 <==> x < 0
  {
    var mask := (x / 0x8000_0000) * 0x1_0000;
    x % 0x1_0000 + mask
  }

  /** As written, the "signed fraction" of a negative whole number is -1.0
      rather than 0: FixedFraction(-2.0) is -1.0. */
  lemma FixedFractionOfNegativeWhole()
    ensures FixedFraction(-2 * Fixed1) == -Fixed1
    ensures FixedFraction(-Fixed1) == -Fixed1
  {
  }

  /** The whole-number part of x rounded toward zero. */
  function TruncateToWhole(x: Int32): (r: int)
    ensures Abs(r * Fixed1) <= Abs(x) < Abs(r * Fixed1) + Fixed1
    ensures r == 0 || (r < 0 <==> x < 0)
  {
    var magnitude: int := Abs(x);
    if x >= 0 then x / 0x1_0000 else -(magnitude / 0x1_0000)
  }

  /** The signed fraction as documented: x minus its whole part rounded
      toward zero, strictly between -1.0 and 1.0, of the sign of x. */
  function SignedFraction(x: Int32): (r: Int32)
    ensures -Fixed1 < r < Fixed1
    ensures r % Fixed1 == x % Fixed1
    ensures r < 0 ==> x < 0
    ensures x < 0 && x % Fixed1 != 0 ==> r < 0
  {
    x - TruncateToWhole(x) * 0x1_0000
  }

  /** FixedFraction agrees with SignedFraction everywhere except at negative
      whole numbers, where it answers -1.0 instead of 0. */
  lemma {:induction false} FixedFractionVersusSignedFraction(x: Int32)
    ensures x < 0 && x % Fixed1 == 0 ==> FixedFraction(x) == -Fixed1 && SignedFraction(x) == 0
    ensures !(x < 0 && x % Fixed1 == 0) ==> FixedFraction(x) == SignedFraction(x)
  {
    if x < 0 {
      assert x / 0x8000_0000 == -1;
      assert FixedFraction(x) == x % 0x1_0000 - 0x1_0000;
      var xi: int := x;
      var magnitude := -xi;
      var q := magnitude / 0x1_0000;
      var m := magnitude % 0x1_0000;
      assert TruncateToWhole(x) == -q;
      assert SignedFraction(x) == x + q * 0x1_0000 == -m;
      if m == 0 {
        assert x == -q * 0x1_0000;
        assert x % 0x1_0000 == 0;
      } else {
        assert x == (-q - 1) * 0x1_0000 + (0x1_0000 - m);
        assert x % 0x1_0000 == 0x1_0000 - m;
      }
    } else {
      assert x / 0x8000_0000 == 0;
      assert FixedFraction(x) == x % 0x1_0000;
      assert SignedFraction(x) == x - (x / 0x1_0000) * 0x1_0000;
    }
  }

  /** The irrational constants are their values rounded to the nearest 16.16
      number: c is nearest to v when (2c - 1)^2 <= 4 v^2 2^32 <= (2c + 1)^2. */
  lemma ConstantsAreNearest()
    ensures var c := FixedSqrt2;                       // sqrt(2)
            (2 * c - 1) * (2 * c - 1) <= 8 * 0x1_0000_0000 <= (2 * c + 1) * (2 * c + 1)
    ensures var c := FixedRoot2Over2;                  // sqrt(2) / 2
            (2 * c - 1) * (2 * c - 1) <= 2 * 0x1_0000_0000 <= (2 * c + 1) * (2 * c + 1)
    ensures var c := FixedTanPIOver8 + Fixed1;         // tan(pi / 8) + 1 == sqrt(2)
            (2 * c - 1) * (2 * c - 1) <= 8 * 0x1_0000_0000 <= (2 * c + 1) * (2 * c + 1)
    ensures var c := FixedPI;                          // 3.14159265 < pi < 3.14159266
            (2 * c - 1) * 100_000_000 <= 2 * 314159265 * 0x1_0000 &&
            2 * 314159266 * 0x1_0000 <= (2 * c + 1) * 100_000_000
  {
  }
}
