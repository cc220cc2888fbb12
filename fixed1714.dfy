/** 17.14 signed fixed-point numbers: one sign bit, 17 integer bits and 14 fraction bits packed in a
    32-bit word (src/lib/fixed1714.c, type in src/lib/fixed1714.h).

    C arithmetic is written out explicitly: `/` on int truncates toward zero (TruncDiv), `>>` on a
    negative value rounds toward minus infinity (ShiftRight), a 64-bit intermediate cut to 32 bits
    wraps (Wrap32), and every 32-bit operation that C would let overflow (undefined behaviour on signed
    int) carries a precondition that it does not. */
module Fixed1714 {
  const FRACTION_BITS: nat := 14
  /** The raw value of 1.0, `1 << FRACTION_BITS`. */
  const F: int := 0x4000
  const INT32_MIN: int := -0x8000_0000
  const INT32_MAX: int := 0x7fff_ffff
  const TWO32: int := 0x1_0000_0000

  predicate IsInt32(x: int) {
    INT32_MIN <= x <= INT32_MAX
  }

  type Int32 = x: int | IsInt32(x)

  /** `fixed1714_t`: only the `_raw` view of the union is kept; the `sign` bit field is `raw < 0`. */
  datatype Fixed = Fixed(raw: Int32)

  function Abs(x: int): (r: int)
    ensures r >= 0 && (r == x || r == -x)
  {
    if x < 0 then -x else x
  }

  /** C's `/` on integers: the quotient truncated toward zero, so the remainder has the sign of `a`. */
  function TruncDiv(a: int, b: int): (q: int)
    requires b != 0
    ensures a >= 0 ==> 0 <= a - q * b < Abs(b)
    ensures a < 0 ==> -Abs(b) < a - q * b <= 0
    ensures Abs(q) * Abs(b) <= Abs(a)
  {
    var q0 := Abs(a) / Abs(b);
    var q := if (a < 0) == (b < 0) then q0 else -q0;
    TruncDivFacts(a, b, q0, q);
    q
  }

  lemma TruncDivFacts(a: int, b: int, q0: int, q: int)
    requires b != 0
    requires q0 == Abs(a) / Abs(b)
    requires q == if (a < 0) == (b < 0) then q0 else -q0
    ensures a >= 0 ==> 0 <= a - q * b < Abs(b)
    ensures a < 0 ==> -Abs(b) < a - q * b <= 0
    ensures Abs(q) * Abs(b) <= Abs(a)
  {
    var ma, mb := Abs(a), Abs(b);
    EuclidFacts(ma, mb);
    var p := q0 * mb;
    NegMul(q0, mb);
    if a >= 0 && b > 0 {
      assert q * b == p;
    } else if a >= 0 {
      assert q * b == (-q0) * (-mb) == p;
    } else if b > 0 {
      assert q * b == (-q0) * mb == -p;
    } else {
      assert q * b == q0 * (-mb) == -p;
    }
    assert Abs(q) * Abs(b) == p;
  }

  /** Euclidean division of a non-negative value by a positive one. */
  lemma EuclidFacts(m: int, d: int)
    requires m >= 0 && d > 0
    ensures m == (m / d) * d + m % d && 0 <= m % d < d && m / d >= 0
  {
  }

  /** Negating a factor negates the product. */
  lemma NegMul(x: int, y: int)
    ensures (-x) * y == -(x * y) && x * (-y) == -(x * y) && (-x) * (-y) == x * y
  {
  }

  /** Multiplication distributes over subtraction. */
  lemma SubMul(x: int, y: int, n: int)
    ensures x * n - y * n == (x - y) * n
  {
  }

  /** The truncated quotient of a 32-bit value fits in 32 bits, except for INT32_MIN / -1. */
  lemma TruncDivInt32(a: int, b: int)
    requires b != 0 && IsInt32(a) && IsInt32(b)
    requires !(a == INT32_MIN && b == -1)
    ensures IsInt32(TruncDiv(a, b))
  {
    var q := TruncDiv(a, b);
    var aq, ab := Abs(q), Abs(b);
    if ab == 1 {
      SmallMultiple(a - q * b, 1);
      assert q * b == a;
      if b == 1 {
        assert q == a;
      } else {
        assert q == -a;
      }
    } else {
      MulAtLeast(ab, aq);
      assert aq * ab >= 2 * aq;
    }
  }

  /** A multiple of a factor of at least one is at least as large as the other factor. */
  lemma MulAtLeast(d: int, m: int)
    requires m >= 0
    ensures d >= 1 ==> d * m >= m
    ensures d >= 2 ==> d * m >= 2 * m
    ensures d <= -1 ==> d * m <= -m
  {
    if d >= 1 {
      assert d * m == (d - 1) * m + m;
      assert d >= 2 ==> (d - 1) * m == (d - 2) * m + m;
    } else if d <= -1 {
      assert d * m == (d + 1) * m - m;
    }
  }

  /** The only multiple of `m` strictly between -m and m is zero. */
  lemma SmallMultiple(v: int, m: int)
    requires m > 0
    ensures forall d :: v == d * m && -m < v < m ==> d == 0
  {
    forall d | v == d * m && -m < v < m
      ensures d == 0
    {
      MulAtLeast(d, m);
    }
  }

  /** Two candidate floors of the same value agree. */
  lemma FloorUnique(v: int, q1: int, q2: int)
    requires q1 * F <= v < q1 * F + F
    requires q2 * F <= v < q2 * F + F
    ensures q1 == q2
  {
    assert (q1 - q2) * F == q1 * F - q2 * F;
    SmallMultiple((q1 - q2) * F, F);
  }

  /** `x >> FRACTION_BITS` on a signed value: an arithmetic shift, which floors. */
  function ShiftRight(x: int): (q: int)
    ensures q * F <= x < q * F + F
  {
    x / F
  }

  /** Conversion of a wider integer to `int32_t`: keeps the low 32 bits, two's complement. */
  function Wrap32(x: int): (r: Int32)
    ensures (x - r) % TWO32 == 0
    ensures IsInt32(x) ==> r == x
  {
    (x - INT32_MIN) % TWO32 + INT32_MIN
  }

  /** `fixed1714(numerator, denominator)`: `(numerator << 14) / denominator`. The shift must not overflow,
      so the numerator must lie in [-2^17, 2^17), and the one overflowing division is excluded. */
  function MakeFixed(numerator: int, denominator: int): (r: Fixed)
    requires denominator != 0 && IsInt32(denominator)
    requires IsInt32(numerator * F)
    requires !(numerator * F == INT32_MIN && denominator == -1)
    ensures numerator * F >= 0 ==> 0 <= numerator * F - r.raw * denominator < Abs(denominator)
    ensures numerator * F < 0 ==> -Abs(denominator) < numerator * F - r.raw * denominator <= 0
  {
    TruncDivInt32(numerator * F, denominator);
    Fixed(TruncDiv(numerator * F, denominator))
  }

  /** `fixed1714_to_int_zero`: despite its name an arithmetic shift, i.e. the floor of the value. */
  function ToIntZero(x: Fixed): (r: int)
    ensures r * F <= x.raw < r * F + F
  {
    ShiftRight(x.raw)
  }

  /** `fixed1714_to_int_round` as written: half an ulp of 1.0 is added to a non-negative value and
      subtracted from a negative one before the arithmetic shift. On negative values the shift floors,
      so the result is floor(v - 1/2), one below the nearest integer for every exact negative integer. */
  function ToIntRound(x: Fixed): (r: int)
    requires IsInt32(if x.raw < 0 then x.raw - F / 2 else x.raw + F / 2)
    ensures x.raw >= 0 ==> r * F <= x.raw + F / 2 < r * F + F
    ensures x.raw < 0 ==> r * F <= x.raw - F / 2 < r * F + F
  {
    if x.raw < 0 then ShiftRight(x.raw - F / 2) else ShiftRight(x.raw + F / 2)
  }

  /** Rounding to the nearest integer, halves away from zero: the negative branch divides with C's
      truncating `/` instead of shifting. */
  function ToIntNearest(x: Fixed): (r: int)
    requires IsInt32(if x.raw < 0 then x.raw - F / 2 else x.raw + F / 2)
    ensures 2 * Abs(x.raw - r * F) <= F
    ensures 2 * Abs(x.raw - r * F) == F ==> Abs(r * F) > Abs(x.raw)
  {
    if x.raw < 0 then TruncDiv(x.raw - F / 2, F) else ShiftRight(x.raw + F / 2)
  }

  /** `fixed1714_add`: the raw words add, so the sum is exact; its integer part is the sum of the
      integer parts or one more (a carry out of the fractions), and `sub` takes `y` off again. */
  function Add(x: Fixed, y: Fixed): (z: Fixed)
    requires IsInt32(x.raw + y.raw)
    ensures IsInt32(z.raw - y.raw) && Sub(z, y) == x
    ensures ToIntZero(x) + ToIntZero(y) <= ToIntZero(z) <= ToIntZero(x) + ToIntZero(y) + 1
  {
    Fixed(x.raw + y.raw)
  }

  /** `fixed1714_add_int`: adds `n << 14`, which moves the integer part up by exactly n and leaves
      the fraction alone. */
  function AddInt(x: Fixed, n: int): (z: Fixed)
    requires IsInt32(n * F) && IsInt32(x.raw + n * F)
    ensures ToIntZero(z) == ToIntZero(x) + n
    ensures z.raw - ToIntZero(z) * F == x.raw - ToIntZero(x) * F
  {
    Fixed(x.raw + n * F)
  }

  /** `fixed1714_sub`: exact; the integer part is the difference of the integer parts or one less (a
      borrow from the fractions). */
  function Sub(x: Fixed, y: Fixed): (z: Fixed)
    requires IsInt32(x.raw - y.raw)
    ensures ToIntZero(x) - ToIntZero(y) - 1 <= ToIntZero(z) <= ToIntZero(x) - ToIntZero(y)
    ensures z.raw <= x.raw <==> y.raw >= 0
  {
    Fixed(x.raw - y.raw)
  }

  /** `fixed1714_sub_int`: subtracts `n << 14`, moving the integer part down by exactly n. */
  function SubInt(x: Fixed, n: int): (z: Fixed)
    requires IsInt32(n * F) && IsInt32(x.raw - n * F)
    ensures ToIntZero(z) == ToIntZero(x) - n
    ensures z.raw - ToIntZero(z) * F == x.raw - ToIntZero(x) * F
  {
    Fixed(x.raw - n * F)
  }

  /** `fixed1714_mul`: the 64-bit product (which cannot overflow), shifted right, cut to 32 bits. When
      the shifted product fits, nothing wraps and the result is the product of the two values rounded
      down to the nearest 1/16384. */
  function Mul(x: Fixed, y: Fixed): (z: Fixed)
    ensures IsInt32(ShiftRight(x.raw * y.raw)) ==> z.raw * F <= x.raw * y.raw < z.raw * F + F
    ensures (ShiftRight(x.raw * y.raw) - z.raw) % TWO32 == 0
  {
    Fixed(Wrap32(ShiftRight(x.raw * y.raw)))
  }

  /** `fixed1714_mul_int`: the raw word times n; `div_int` by the same non-zero n gives x back. */
  function MulInt(x: Fixed, n: int): (z: Fixed)
    requires IsInt32(x.raw * n)
    ensures n != 0 ==> TruncDiv(z.raw, n) == x.raw
  {
    TruncDivOfMultiple(x.raw, n);
    Fixed(x.raw * n)
  }

  /** Truncating division of an exact multiple by a non-zero factor gives the other factor. */
  lemma TruncDivOfMultiple(a: int, n: int)
    ensures n != 0 ==> TruncDiv(a * n, n) == a
  {
    if n == 0 {
      return;
    }
    var p := a * n;
    var q := TruncDiv(p, n);
    SubMul(a, q, n);
    var d := a - q;
    assert p - q * n == d * n;
    if n > 0 {
      SmallMultiple(d * n, n);
    } else {
      NegMul(d, n);
      assert d * n == (-d) * (-n);
      SmallMultiple((-d) * (-n), -n);
    }
  }

  /** `fixed1714_div`: `((int64) x << 14) / y`, truncated, cut to 32 bits; `y` must not be zero. When
      the quotient fits, nothing wraps and it is the quotient of the two values truncated toward zero
      to a multiple of 1/16384. */
  function Div(x: Fixed, y: Fixed): (z: Fixed)
    requires y.raw != 0
    ensures IsInt32(TruncDiv(x.raw * F, y.raw)) && x.raw >= 0 ==>
              0 <= x.raw * F - z.raw * y.raw < Abs(y.raw)
    ensures IsInt32(TruncDiv(x.raw * F, y.raw)) && x.raw < 0 ==>
              -Abs(y.raw) < x.raw * F - z.raw * y.raw <= 0
    ensures (TruncDiv(x.raw * F, y.raw) - z.raw) % TWO32 == 0
  {
    Fixed(Wrap32(TruncDiv(x.raw * F, y.raw)))
  }

  function DivInt(x: Fixed, n: int): (z: Fixed)
    requires n != 0 && IsInt32(n)
    requires !(x.raw == INT32_MIN && n == -1)
    ensures x.raw >= 0 ==> 0 <= x.raw - z.raw * n < Abs(n)
    ensures x.raw < 0 ==> -Abs(n) < x.raw - z.raw * n <= 0
  {
    TruncDivInt32(x.raw, n);
    Fixed(TruncDiv(x.raw, n))
  }

  /** The fixed-point value 1.0. */
  function One(): (r: Fixed)
    ensures r.raw == F
  {
    MakeFixed(1, 1)
  }

  // ---------------------------------------------------------------------------------------------
  // Properties

  /** Converting an integer to fixed point and back with `to_int_zero` gives the integer back. */
  lemma ToIntZeroOfInt(n: int)
    requires IsInt32(n * F)
    ensures ToIntZero(MakeFixed(n, 1)) == n
  {
    assert MakeFixed(n, 1).raw == n * F;
  }

  /** `to_int_zero` rounds toward minus infinity, not toward zero: -1/16384 becomes -1. */
  lemma ToIntZeroFloorsNegatives()
    ensures ToIntZero(Fixed(-1)) == -1
  {
  }

  /** As written, `to_int_round` gives back every non-negative integer... */
  lemma ToIntRoundOfNonNegative(n: int)
    requires 0 <= n && IsInt32(n * F + F / 2)
    ensures ToIntRound(MakeFixed(n, 1)) == n
  {
    assert MakeFixed(n, 1).raw == n * F;
  }

  /** ...but every negative integer n comes back as n - 1. */
  lemma ToIntRoundOfNegative(n: int)
    requires n < 0 && IsInt32(n * F - F / 2)
    ensures ToIntRound(MakeFixed(n, 1)) == n - 1
  {
    var x := MakeFixed(n, 1);
    assert x.raw == n * F;
    var r := ToIntRound(x);
    assert r * F <= n * F - F / 2 < r * F + F;
    assert (n - 1) * F <= n * F - F / 2 < (n - 1) * F + F;
    FloorUnique(n * F - F / 2, r, n - 1);
  }

  /** The smallest witness: -1.0 rounds to -2. */
  lemma ToIntRoundMinusOne()
    ensures ToIntRound(MakeFixed(-1, 1)) == -2
  {
    ToIntRoundOfNegative(-1);
  }

  /** Nearest rounding gives back every integer of the representable range. */
  lemma {:induction false} ToIntNearestOfInt(n: int)
    requires IsInt32(n * F) && IsInt32(n * F + (if n < 0 then -F / 2 else F / 2))
    ensures ToIntNearest(MakeFixed(n, 1)) == n
  {
    var x := MakeFixed(n, 1);
    assert x.raw == n * F;
    var r := ToIntNearest(x);
    assert 2 * Abs(n * F - r * F) <= F;
    assert (n - r) * F == n * F - r * F;
    SmallMultiple((n - r) * F, F);
  }

  /** The two roundings agree on non-negative values, and on negative values both are at most zero. */
  lemma RoundingsAgree(x: Fixed)
    requires IsInt32(if x.raw < 0 then x.raw - F / 2 else x.raw + F / 2)
    ensures x.raw >= 0 ==> ToIntRound(x) == ToIntNearest(x)
    ensures x.raw < 0 ==> ToIntRound(x) <= 0 && ToIntNearest(x) <= 0
  {
    var r := ToIntNearest(x);
    MulAtLeast(r, F);
  }

  /** `add` and `sub`, `add_int` and `sub_int` undo each other when nothing overflows. */
  lemma AddSubInverse(x: Fixed, y: Fixed, n: int)
    requires IsInt32(x.raw + y.raw)
    requires IsInt32(n * F) && IsInt32(x.raw + n * F)
    ensures Sub(Add(x, y), y) == x
    ensures SubInt(AddInt(x, n), n) == x
  {
  }

  /** Multiplying by 1.0 is the identity. */
  lemma MulOne(x: Fixed)
    ensures Mul(x, One()) == x
  {
    assert x.raw * F / F == x.raw;
  }

  /** Dividing by 1.0 is the identity. */
  lemma DivOne(x: Fixed)
    ensures Div(x, One()) == x
  {
    var q := TruncDiv(x.raw * F, F);
    assert (x.raw - q) * F == x.raw * F - q * F;
    SmallMultiple((x.raw - q) * F, F);
  }

  /** `mul_int` of a converted integer is the conversion of the product. */
  lemma MulIntOfInt(a: int, n: int)
    requires IsInt32(a * F) && IsInt32(a * n * F)
    ensures MakeFixed(a, 1).raw * n == a * n * F
    ensures MulInt(MakeFixed(a, 1), n) == MakeFixed(a * n, 1)
  {
    assert MakeFixed(a, 1).raw == a * F;
    assert MakeFixed(a * n, 1).raw == a * n * F;
    assert a * F * n == a * n * F;
  }

  /** `div_int` undoes `mul_int` when the product does not overflow. */
  lemma DivIntMulInt(x: Fixed, n: int)
    requires n != 0 && IsInt32(n) && IsInt32(x.raw * n)
    ensures DivInt(MulInt(x, n), n) == x
  {
    assert !(x.raw * n == INT32_MIN && n == -1);
  }

  /** Multiplication by a non-negative factor is monotone. */
  lemma MulMono(x: int, y: int, z: int)
    requires x >= 0 && y <= z
    ensures x * y <= x * z
  {
    assert x * z - x * y == x * (z - y);
  }

  /** Truncating division by a positive divisor, stated without absolute values. */
  lemma TruncDivPos(a: int, b: int)
    requires b > 0
    ensures a >= 0 ==> TruncDiv(a, b) * b <= a < TruncDiv(a, b) * b + b
    ensures a < 0 ==> TruncDiv(a, b) * b - b < a <= TruncDiv(a, b) * b
  {
  }

  /** If q1 * b lies below q2 * b + b for a positive b, then q1 <= q2. */
  lemma QuotientOrder(q1: int, q2: int, b: int)
    requires b > 0 && q1 * b < q2 * b + b
    ensures q1 <= q2
  {
    assert (q1 - q2) * b == q1 * b - q2 * b;
    MulAtLeast(q1 - q2, b);
  }

  /** Truncating division by a positive divisor is monotone. */
  lemma TruncDivMono(a1: int, a2: int, b: int)
    requires b > 0 && a1 <= a2
    ensures TruncDiv(a1, b) <= TruncDiv(a2, b)
  {
    var q1, q2 := TruncDiv(a1, b), TruncDiv(a2, b);
    TruncDivPos(a1, b);
    TruncDivPos(a2, b);
    if a1 >= 0 || a2 <= 0 {
      QuotientOrder(q1, q2, b);
    } else {
      QuotientOrder(q1, 0, b);
      QuotientOrder(0, q2, b);
    }
  }

  /** The arithmetic shift is monotone. */
  lemma ShiftRightMono(a1: int, a2: int)
    requires a1 <= a2
    ensures ShiftRight(a1) <= ShiftRight(a2)
  {
    var q1, q2 := ShiftRight(a1), ShiftRight(a2);
    assert (q1 - q2) * F == q1 * F - q2 * F;
    MulAtLeast(q1 - q2, F);
  }

  /** The source's rounding is monotone too, across the sign change included: it shifts a value that
      is itself monotone in x. */
  lemma ToIntRoundMono(x: Fixed, y: Fixed)
    requires IsInt32(if x.raw < 0 then x.raw - F / 2 else x.raw + F / 2)
    requires IsInt32(if y.raw < 0 then y.raw - F / 2 else y.raw + F / 2)
    requires x.raw <= y.raw
    ensures ToIntRound(x) <= ToIntRound(y)
  {
    ShiftRightMono(if x.raw < 0 then x.raw - F / 2 else x.raw + F / 2,
                   if y.raw < 0 then y.raw - F / 2 else y.raw + F / 2);
  }

  /** Nearest rounding is monotone. */
  lemma ToIntNearestMono(x: Fixed, y: Fixed)
    requires IsInt32(if x.raw < 0 then x.raw - F / 2 else x.raw + F / 2)
    requires IsInt32(if y.raw < 0 then y.raw - F / 2 else y.raw + F / 2)
    requires x.raw <= y.raw
    ensures ToIntNearest(x) <= ToIntNearest(y)
  {
    var r1, r2 := ToIntNearest(x), ToIntNearest(y);
    MulAtLeast(r1, F);
    MulAtLeast(r2, F);
    if x.raw < 0 && y.raw < 0 {
      TruncDivMono(x.raw - F / 2, y.raw - F / 2, F);
    } else if x.raw >= 0 && y.raw >= 0 {
      ShiftRightMono(x.raw + F / 2, y.raw + F / 2);
    }
  }
}
