/** The parts of JavaScript's Number semantics that the colour parser relies on:
    the NaN-or-integer result of `parseInt`, the ToInt32 conversion that every
    bitwise operator applies to its operands, the signed right shift `>>` and
    the mask `& 255`. Numbers are modelled as mathematical integers. `parseInt`
    can return larger values, rounded, and Infinity; the model restricts the
    parser to digit runs of value at most 2^53, which doubles represent
    exactly. */
module JsNumber {

  /** The value of `parseInt` for the inputs modelled here: NaN or an exact
      integer. Negative zero is not distinguished from 0; ToInt32 maps both
      to 0. */
  datatype ParsedNumber = NaN | Int(value: int)

  const TWO_31: int := 0x8000_0000
  const TWO_32: int := 0x1_0000_0000
  const TWO_24: int := 0x100_0000
  const TWO_53: int := 0x20_0000_0000_0000

  function Pow2(k: nat): (p: nat)
    ensures p >= 1
  {
    if k == 0 then 1 else 2 * Pow2(k - 1)
  }

  predicate IsInt32(x: int) {
    -TWO_31 <= x < TWO_31
  }

  /** ECMAScript ToInt32: NaN becomes 0; an integer is reduced modulo 2^32 into
      the signed 32-bit range. The result is the unique int32 congruent to the
      input modulo 2^32. */
  function ToInt32(n: ParsedNumber): (x: int)
    ensures IsInt32(x)
    ensures n.NaN? ==> x == 0
    ensures n.Int? ==> (n.value - x) % TWO_32 == 0
    ensures n.Int? && IsInt32(n.value) ==> x == n.value
    ensures n.Int? ==> x % TWO_24 == n.value % TWO_24
  {
    match n
    case NaN => 0
    case Int(v) =>
      var m := v % TWO_32;
      var x := if m >= TWO_31 then m - TWO_32 else m;
      LowBitsSurvive(v, x);
      x
  }

  /** The sign-propagating right shift `x >> k` of an int32 `x` by a constant
      amount below 32: the floor of x / 2^k, so negative values round towards
      minus infinity. */
  function ShiftRight(x: int, k: nat): (r: int)
    requires IsInt32(x) && k < 32
    ensures IsInt32(r)
    ensures Pow2(k) * r <= x < Pow2(k) * r + Pow2(k)
  {
    FloorDivBounds(x, Pow2(k));
    x / Pow2(k)
  }

  /** `x & 255` for an int32 `x`: in two's complement the low eight bits, i.e.
      the unique value in 0..255 congruent to x modulo 256. */
  function Mask255(x: int): (r: int)
    requires IsInt32(x)
    ensures 0 <= r < 256
    ensures (x - r) % 256 == 0
  {
    x % 256
  }

  /** Scaling by a positive factor moves a value away from zero. */
  lemma {:induction false} ScaleAwayFromZero(d: int, k: int)
    requires d >= 1
    ensures k >= 0 ==> d * k >= k
    ensures k <= 0 ==> d * k <= k
    decreases d
  {
    if d > 1 {
      ScaleAwayFromZero(d - 1, k);
      assert d * k == (d - 1) * k + k;
    }
  }

  lemma FloorDivBounds(x: int, d: nat)
    requires d >= 1
    ensures d * (x / d) <= x < d * (x / d) + d
    ensures IsInt32(x) ==> IsInt32(x / d)
  {
    var q := x / d;
    assert x == d * q + x % d;
    ScaleAwayFromZero(d, q);
    ScaleAwayFromZero(d, q + 1);
    assert d * (q + 1) == d * q + d;
  }

  /** Euclidean division is determined by its quotient-remainder equation. */
  lemma DivModUnique(x: int, d: int, q: int, r: int)
    requires d > 0 && 0 <= r < d && x == d * q + r
    ensures x / d == q && x % d == r
  {
    var q0, r0 := x / d, x % d;
    assert x == d * q0 + r0;
    assert d * (q - q0) == r0 - r;
    if q - q0 >= 1 {
      ScaleAwayFromZero(q - q0, d);
      assert false;
    }
    if q - q0 <= -1 {
      ScaleAwayFromZero(q0 - q, d);
      assert false;
    }
  }

  /** Numbers congruent modulo 2^32 agree in their low 24 bits. */
  lemma LowBitsSurvive(n: int, x: int)
    requires (n - x) % TWO_32 == 0
    ensures x % TWO_24 == n % TWO_24
  {
    var k := (n - x) / TWO_32;
    assert n == x + (k * 256) * TWO_24;
    ModShift(x, k * 256, TWO_24);
  }

  /** Adding a multiple of the modulus does not change a remainder. */
  lemma ModShift(x: int, k: int, d: int)
    requires d > 0
    ensures (x + k * d) % d == x % d
  {
    DivModUnique(x + k * d, d, x / d + k, x % d);
  }
}
