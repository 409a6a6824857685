/**
 The affine map between two 64-bit timelines.  Every intermediate of the C
 code is kept in its own width; the theorems compare the results with floor
 division on unbounded integers.
 */
module LinearTransforms {
  import opened Bits
  import opened Wrappers

  /** The boolean result and the word stored through `res`. */
  datatype Scaled = Scaled(ok: bool, res: u64)

  const U64_MAX: u64 := 0xffff_ffff_ffff_ffff

  function Neg(x: int): int { -x }

  function Abs(x: int): nat { if x < 0 then -x else x }

  /** Quotient rounded towards minus infinity, for a divisor of either sign. */
  function FloorDiv(a: int, b: int): int
    requires b != 0
  {
    if b > 0 then a / b else (-a) / (-b)
  }

  function CeilDiv(a: int, b: int): int
    requires b != 0
  {
    -FloorDiv(-a, b)
  }

  // ------------------------------------------------------------------------
  // scale_u64_to_u64
  // ------------------------------------------------------------------------

  /** M[32, 95] of the 96-bit product M = val * n. */
  function ProductHigh(val: u64, n: u32): u64 {
    U64(U64((val / TWO32) * n) + ProductLow(val, n) / TWO32)
  }

  /** L32(val) * n, whose lower half is M[0, 31]. */
  function ProductLow(val: u64, n: u32): u64 {
    U64((val % TWO32) * n)
  }

  /** The 64-bit word with the given halves. */
  function Pack(high: nat, low: nat): u64 {
    U64(Or(U64(high * TWO32), low))
  }

  function Quot(a: u64, d: u32): u64
    requires d != 0
  {
    DivLe(a, d);
    a / d
  }

  function Rem(a: u64, d: u32): u32
    requires d != 0
  {
    a % d
  }

  lemma DivLe(a: nat, d: nat)
    requires d > 0
    ensures 0 <= a / d <= a
  {
    var q, r := a / d, a % d;
    assert a == d * q + r;
    MulLe(q, 1, q, d);
  }

  function RoundQuotient(res: u64, remainder: nat, roundUp: bool): Scaled {
    if remainder != 0 && roundUp then
      if U64(res + 1) == 0 then Scaled(false, U64_MAX) else Scaled(true, U64(res + 1))
    else
      Scaled(true, res)
  }

  /** val * n / d in two 32-bit limbs. */
  function Scale(val: u64, n: u32, d: u32, roundUp: bool): Scaled
    requires d != 0
  {
    var hi := ProductHigh(val, n);
    if hi / TWO32 >= d then
      Scaled(false, U64_MAX)
    else
      var lo := Pack(Rem(hi, d), ProductLow(val, n) % TWO32);
      RoundQuotient(Pack(Quot(hi, d), Quot(lo, d)), Rem(lo, d), roundUp)
  }

  lemma Pow2Of32()
    ensures Pow2(32) == TWO32
  {
    assert Pow2(8) == 0x100;
    assert Pow2(16) == 0x1_0000 by { assert Pow2(12) == 0x1000; }
    assert Pow2(24) == 0x100_0000 by { assert Pow2(20) == 0x10_0000; }
    assert Pow2(28) == 0x1000_0000;
  }

  /** The product of a 64-bit and a 32-bit word, as a high limb over a 32-bit low limb. */
  lemma ProductLimbs(val: u64, n: u32)
    ensures
      var h := (val / TWO32) * n; var l := (val % TWO32) * n;
      && 0 <= h <= 0xffff_ffff * 0xffff_ffff && 0 <= l <= 0xffff_ffff * 0xffff_ffff
      && val * n == (h + l / TWO32) * TWO32 + l % TWO32
      && h + l / TWO32 < TWO64
  {
    var a, b := val / TWO32, val % TWO32;
    assert val == a * TWO32 + b && a <= 0xffff_ffff && b <= 0xffff_ffff;
    assert (a * TWO32 + b) * n == (a * n) * TWO32 + b * n;
    MulLe(a, n, 0xffff_ffff, 0xffff_ffff);
    MulLe(b, n, 0xffff_ffff, 0xffff_ffff);
  }

  lemma MulLe(a: nat, b: nat, x: nat, y: nat)
    requires a <= x && b <= y
    ensures 0 <= a * b <= x * y
  {
    assert a * b <= x * b by { assert (x - a) * b >= 0; }
    assert x * b <= x * y by { assert x * (y - b) >= 0; }
  }

  /** The second division works on remainder and low limb; its quotient fits the low limb. */
  lemma DivideLimbs(hi: u64, lo: u32, d: u32)
    requires d != 0 && hi / TWO32 < d
    ensures
      var m := hi * TWO32 + lo; var low := (hi % d) * TWO32 + lo;
      && 0 <= low < TWO64 && 0 <= hi / d < TWO32 && 0 <= low / d < TWO32
      && m / d == (hi / d) * TWO32 + low / d
      && m % d == low % d
  {
    var m, q1, r1 := hi * TWO32 + lo, hi / d, hi % d;
    var low := r1 * TWO32 + lo;
    var q0, r0 := low / d, low % d;
    assert hi == d * q1 + r1;
    assert low == d * q0 + r0;
    Recombine(d, q1, q0);
    DivModUnique(m, d, q1 * TWO32 + q0, r0);
    LowBelow(d, r1, lo);
    QuotientBelow(low, d, TWO32);
    QuotientBelow(hi, d, TWO32);
  }

  lemma Recombine(d: int, q1: int, q0: int)
    ensures d * (q1 * TWO32 + q0) == (d * q1) * TWO32 + d * q0
  {
  }

  lemma LowBelow(d: u32, r1: nat, lo: u32)
    requires r1 < d
    ensures r1 * TWO32 + lo < d * TWO32
  {
  }

  lemma QuotientBelow(a: nat, d: nat, bound: nat)
    requires d > 0 && a < d * bound
    ensures a / d < bound
  {
    var q := a / d;
    assert a == d * q + a % d;
    assert q >= bound ==> d * q >= d * bound;
  }

  /** An overflow of the high limb is exactly a quotient of more than 64 bits. */
  lemma HighLimbOverflow(m: nat, d: nat)
    requires d > 0
    ensures m / TWO32 / TWO32 >= d <==> m / d >= TWO64
  {
    var q, r := m / d, m % d;
    assert m == d * q + r;
    if q >= TWO64 {
      assert d * q >= d * TWO64;
    } else {
      assert d * q <= d * (TWO64 - 1);
    }
  }

  /**
   The limb-wise division is exact: it fails exactly when the rounded quotient
   does not fit in 64 bits and otherwise stores that quotient.
   */
  lemma ScaleExact(val: u64, n: u32, d: u32, roundUp: bool)
    requires d != 0
    ensures
      var q := if roundUp then CeilDiv(val * n, d) else FloorDiv(val * n, d);
      var r := Scale(val, n, d, roundUp);
      && (r.ok <==> q < TWO64)
      && (r.ok ==> r.res == q)
      && (!r.ok ==> r.res == U64_MAX)
  {
    ProductExact(val, n);
    var m := val * n;
    var hi, lo0 := ProductHigh(val, n), ProductLow(val, n) % TWO32;
    HighLimbOverflow(m, d);
    CeilFromFloor(m, d);
    if hi / TWO32 < d {
      ScaleDivides(hi, lo0, d, m);
      RoundExact(m / d, m % d, roundUp);
    }
  }

  lemma RoundExact(q: u64, remainder: nat, roundUp: bool)
    ensures
      var want := if roundUp && remainder != 0 then q + 1 else q;
      RoundQuotient(q, remainder, roundUp) == if want < TWO64 then Scaled(true, want) else Scaled(false, U64_MAX)
  {
  }

  lemma ScaleDivides(hi: u64, lo0: u32, d: u32, m: nat)
    requires d != 0 && hi / TWO32 < d && m == hi * TWO32 + lo0
    ensures
      var lo := Pack(Rem(hi, d), lo0);
      && Pack(Quot(hi, d), Quot(lo, d)) == m / d
      && Rem(lo, d) == m % d
  {
    DivideLimbs(hi, lo0, d);
    PackExact(Rem(hi, d), lo0);
    PackExact(Quot(hi, d), Quot(Pack(Rem(hi, d), lo0), d));
  }

  lemma ProductExact(val: u64, n: u32)
    ensures val * n >= 0
    ensures ProductHigh(val, n) == val * n / TWO32
    ensures ProductLow(val, n) % TWO32 == val * n % TWO32
  {
    ProductLimbs(val, n);
    var h, l := (val / TWO32) * n, (val % TWO32) * n;
    SmallU64(h);
    SmallU64(l);
    SmallU64(h + l / TWO32);
    hide U64;
    DivModUnique(val * n, TWO32, h + l / TWO32, l % TWO32);
  }

  lemma SmallU64(x: nat)
    requires x < TWO64
    ensures U64(x) == x
  {
  }

  lemma PackExact(high: u32, low: u32)
    ensures Pack(high, low) == high * TWO32 + low
  {
    hide Or, Pow2, U64;
    Pow2Of32();
    SmallU64(high * TWO32);
    OrDisjoint(high, 32, low);
    SmallU64(high * TWO32 + low);
  }

  lemma CeilFromFloor(m: nat, d: nat)
    requires d > 0
    ensures CeilDiv(m, d) == m / d + (if m % d == 0 then 0 else 1)
  {
    var q, r := m / d, m % d;
    assert m == d * q + r;
    if r == 0 {
      assert Neg(m) == d * Neg(q);
      DivModUnique(Neg(m), d, Neg(q), 0);
    } else {
      assert Neg(m) == d * (Neg(q) - 1) + (d - r);
      DivModUnique(Neg(m), d, Neg(q) - 1, d - r);
    }
  }

  // ------------------------------------------------------------------------
  // linear_transform_s64_to_s64
  // ------------------------------------------------------------------------

  predicate TopBit(x: u64) { x >= TWO63 }

  /** ABS on int32_t, converted to uint32_t: INT32_MIN wraps to itself and reads as 2^31. */
  function AbsNumer(n: i32): u32 { U32(if n < 0 then I32(Neg(n)) else n) }

  /** The two overflow tests at the end, on the scaled magnitude alone. */
  function Finish(s: u64, isNeg: bool, basis2: i64): Option<i64> {
    if TopBit(s) then
      var absBasis2: i64 := if basis2 < 0 then I64(Neg(basis2)) else basis2;
      if isNeg && basis2 < 0 then None
      else if !isNeg && basis2 >= 0 then None
      else if absBasis2 <= s % TWO63 then None
      else Some(I64(U64((if isNeg then U64(Neg(s)) else s) + basis2)))
    else
      var scaled := if isNeg then U64(Neg(s)) else s;
      var res := U64(scaled + basis2);
      if TopBit(scaled) == TopBit(U64(basis2)) && TopBit(scaled) != TopBit(res) then None
      else Some(I64(res))
  }

  /** None is the `false` return; Some carries the word stored through `out`. */
  function Transform(val: i64, basis1: i64, n: i32, d: u32, invert: bool, basis2: i64): Option<i64>
    requires (if invert then n else d) != 0
  {
    var below := val < basis1;
    var absVal := U64(if below then I64(basis1 - val) else I64(val - basis1));
    var isNeg := if n < 0 then !below else below;
    var s := Scale(absVal, if invert then d else AbsNumer(n), if invert then AbsNumer(n) else d, isNeg);
    if s.ok then Finish(s.res, isNeg, basis2) else None
  }

  /** The map the header documents, over unbounded integers and rounded down. */
  function Ideal(val: int, basis1: int, num: int, den: int, basis2: int): int
    requires den != 0
  {
    FloorDiv((val - basis1) * num, den) + basis2
  }

  /**
   The representable results the code still refuses.  When the scaled distance
   needs the 64th bit, the test ABS(basis2) <= scaled - 2^63 is one too strict
   for a result of INT64_MIN, and ABS(INT64_MIN) wraps to a negative number.
   */
  predicate Refused(distance: int, basis2: int) {
    Abs(distance) >= TWO63 && (distance + basis2 == INT64_MIN || basis2 == INT64_MIN)
  }

  lemma FloorOfSigned(x: int, num: int, den: int)
    requires den != 0
    ensures Abs(x) * Abs(num) >= 0 && FloorDiv(Abs(x) * Abs(num), Abs(den)) >= 0
    ensures CeilDiv(Abs(x) * Abs(num), Abs(den)) >= 0
    ensures (x < 0) == ((num < 0) != (den < 0)) ==>
              FloorDiv(x * num, den) == FloorDiv(Abs(x) * Abs(num), Abs(den))
    ensures (x < 0) != ((num < 0) != (den < 0)) ==>
              FloorDiv(x * num, den) == -CeilDiv(Abs(x) * Abs(num), Abs(den))
  {
    SignedProduct(x, num);
    CeilFromFloor(Abs(x) * Abs(num), Abs(den));
  }

  lemma SignedProduct(x: int, num: int)
    ensures Abs(x) * Abs(num) >= 0
    ensures x * num == if (x < 0) == (num < 0) then Abs(x) * Abs(num) else Neg(Abs(x) * Abs(num))
  {
    MulLe(0, 0, Abs(x), Abs(num));
    assert (-x) * num == -(x * num) && x * (-num) == -(x * num) && (-x) * (-num) == x * num;
  }

  /**
   The transform is exact: a returned value is the ideal one, and a value is
   returned exactly when the ideal one fits in 64 bits and is not refused.
   */
  lemma TransformExact(val: i64, basis1: i64, n: i32, d: u32, invert: bool, basis2: i64)
    requires (if invert then n else d) != 0
    ensures
      var num, den := if invert then d else n, if invert then n else d;
      var want := Ideal(val, basis1, num, den, basis2);
      var r := Transform(val, basis1, n, d, invert, basis2);
      && (r.Some? ==> r.value == want)
      && (r.Some? <==> INT64_MIN <= want <= INT64_MAX && !Refused(want - basis2, basis2))
  {
    var num: int, den: int := if invert then d else n, if invert then n else d;
    var x := val - basis1;
    var isNeg := (x < 0) != (n < 0);
    AbsWords(val, basis1, n);
    FloorOfSigned(x, num, den);
    ScaleExact(Abs(x), Abs(num), Abs(den), isNeg);
    var s := Scale(Abs(x), Abs(num), Abs(den), isNeg);
    var mag := if isNeg then CeilDiv(Abs(x) * Abs(num), Abs(den)) else FloorDiv(Abs(x) * Abs(num), Abs(den));
    FitsCases(mag, isNeg, basis2, s);
  }

  lemma AbsWords(val: i64, basis1: i64, n: i32)
    ensures Abs(val - basis1) < TWO64
    ensures U64(if val < basis1 then I64(basis1 - val) else I64(val - basis1)) == Abs(val - basis1)
    ensures AbsNumer(n) == Abs(n)
  {
    I64Of(Abs(val - basis1));
  }

  lemma FitsCases(mag: nat, isNeg: bool, basis2: i64, s: Scaled)
    requires (s.ok <==> mag < TWO64) && (s.ok ==> s.res == mag)
    ensures
      var dist := if isNeg then Neg(mag) else mag;
      var r := if s.ok then Finish(s.res, isNeg, basis2) else None;
      && (r.Some? ==> r.value == dist + basis2)
      && (r.Some? <==> INT64_MIN <= dist + basis2 <= INT64_MAX && !Refused(dist, basis2))
  {
    if s.ok {
      if TopBit(s.res) {
        FitsTopBit(mag, isNeg, basis2);
      } else {
        FitsSigned(mag, isNeg, basis2);
      }
    }
  }

  lemma FitsTopBit(mag: u64, isNeg: bool, basis2: i64)
    requires TopBit(mag)
    ensures
      var sum := (if isNeg then Neg(mag) else mag) + basis2;
      Finish(mag, isNeg, basis2) ==
        if INT64_MIN < sum <= INT64_MAX && basis2 != INT64_MIN then Some(sum) else None
  {
    var m := if isNeg then Neg(mag) else mag;
    U64Of(m);
    I64Of(Neg(basis2));
    U64Of(U64(m) + basis2);
    if INT64_MIN < m + basis2 <= INT64_MAX && basis2 != INT64_MIN {
      U64Of(m + basis2);
      I64Of(m + basis2);
    }
  }

  lemma FitsSigned(mag: u64, isNeg: bool, basis2: i64)
    requires !TopBit(mag)
    ensures
      var sum := (if isNeg then Neg(mag) else mag) + basis2;
      Finish(mag, isNeg, basis2) == if INT64_MIN <= sum <= INT64_MAX then Some(sum) else None
  {
    var m := if isNeg then Neg(mag) else mag;
    U64Of(m);
    U64Of(basis2);
    U64Of(U64(m) + basis2);
    U64Of(m + basis2);
    I64Of(m + basis2);
  }

  lemma U64Of(x: int)
    requires -2 * TWO64 <= x < 2 * TWO64
    ensures U64(x) == if x < -TWO64 then x + 2 * TWO64 else if x < 0 then x + TWO64
                      else if x < TWO64 then x else x - TWO64
  {
  }

  lemma I64Of(x: int)
    requires -TWO64 <= x < TWO64
    ensures I64(x) == I64(U64(x))
    ensures I64(x) == if x < INT64_MIN then x + TWO64 else if x <= INT64_MAX then x else x - TWO64
  {
  }

  // ------------------------------------------------------------------------
  // struct LinearTransform
  // ------------------------------------------------------------------------

  datatype LinearTransform = LinearTransform(aZero: i64, bZero: i64, numer: i32, denom: u32) {

    function Forward(a: i64): Option<i64> {
      if denom == 0 then None else Transform(a, aZero, numer, denom, false, bZero)
    }

    function Reverse(b: i64): Option<i64> {
      if numer == 0 then None else Transform(b, bZero, numer, denom, true, aZero)
    }
  }

  /**
   Not every representable image is returned: the identity map refuses
   INT64_MIN, and a b_zero of INT64_MIN refuses an image of 0.
   */
  lemma RepresentableButRefused()
    ensures LinearTransform(0, 0, 1, 1).Forward(INT64_MIN) == None
    ensures Ideal(INT64_MIN, 0, 1, 1, 0) == INT64_MIN
    ensures LinearTransform(-1, INT64_MIN, 1, 1).Forward(INT64_MAX) == None
    ensures Ideal(INT64_MAX, -1, 1, 1, INT64_MIN) == 0
  {
    TransformExact(INT64_MIN, 0, 1, 1, false, 0);
    TransformExact(INT64_MAX, -1, 1, 1, false, INT64_MIN);
  }

  /**
   Both directions, exactly: nothing for a zero divisor, otherwise the ideal
   value whenever it fits and is not refused.
   */
  lemma DirectionsExact(t: LinearTransform, v: i64)
    ensures t.denom == 0 ==> t.Forward(v) == None
    ensures t.denom != 0 ==>
              var want := Ideal(v, t.aZero, t.numer, t.denom, t.bZero);
              if INT64_MIN <= want <= INT64_MAX && !Refused(want - t.bZero, t.bZero)
              then t.Forward(v) == Some(want) else t.Forward(v) == None
    ensures t.numer == 0 ==> t.Reverse(v) == None
    ensures t.numer != 0 ==>
              var want := Ideal(v, t.bZero, t.denom, t.numer, t.aZero);
              if INT64_MIN <= want <= INT64_MAX && !Refused(want - t.aZero, t.aZero)
              then t.Reverse(v) == Some(want) else t.Reverse(v) == None
  {
    hide Transform, Ideal, Refused;
    if t.denom != 0 {
      TransformExact(v, t.aZero, t.numer, t.denom, false, t.bZero);
    }
    if t.numer != 0 {
      TransformExact(v, t.bZero, t.numer, t.denom, true, t.aZero);
    }
  }

  /** Away from the two refused corners the forward map is total on representable images. */
  lemma ForwardTotal(t: LinearTransform, a: i64)
    requires t.denom != 0 && t.bZero > INT64_MIN
    requires INT64_MIN < Ideal(a, t.aZero, t.numer, t.denom, t.bZero) <= INT64_MAX
    ensures t.Forward(a) == Some(Ideal(a, t.aZero, t.numer, t.denom, t.bZero))
  {
    TransformExact(a, t.aZero, t.numer, t.denom, false, t.bZero);
  }

  lemma DivMonotone(x: int, y: int, d: int)
    requires d > 0 && x <= y
    ensures x / d <= y / d
  {
    var q, q' := x / d, y / d;
    assert x == d * q + x % d && y == d * q' + y % d;
    assert q' - q <= -1 ==> d * (q' - q) <= -d;
    assert d * (q' - q) == d * q' - d * q;
  }

  lemma MulMonotone(x: int, y: int, n: nat)
    requires x <= y
    ensures x * n <= y * n
  {
    assert (y - x) * n >= 0 by { MulLe(0, 0, y - x, n); }
  }

  /** With a positive scale the forward map preserves order. */
  lemma ForwardMonotone(t: LinearTransform, a: i64, a': i64)
    requires t.numer > 0 && a <= a' && t.Forward(a).Some? && t.Forward(a').Some?
    ensures t.Forward(a).value <= t.Forward(a').value
  {
    TransformExact(a, t.aZero, t.numer, t.denom, false, t.bZero);
    TransformExact(a', t.aZero, t.numer, t.denom, false, t.bZero);
    MulMonotone(a - t.aZero, a' - t.aZero, t.numer);
    DivMonotone((a - t.aZero) * t.numer, (a' - t.aZero) * t.numer, t.denom);
  }

  /**
   Going forward and back loses at most ceil((denom - 1) / numer), always
   downwards: nothing when denom is 1, at most 1 when the scale is at least 1.
   */
  lemma ForwardReverseError(t: LinearTransform, a: i64)
    requires t.numer > 0 && t.Forward(a).Some? && t.Reverse(t.Forward(a).value).Some?
    ensures
      var back := t.Reverse(t.Forward(a).value).value;
      && a - CeilDiv(t.denom - 1, t.numer) <= back <= a
      && (t.denom == 1 ==> back == a)
      && (t.denom <= t.numer ==> back == a || back == a - 1)
  {
    hide Transform, CeilDiv, Refused;
    TransformExact(a, t.aZero, t.numer, t.denom, false, t.bZero);
    var x, y := a - t.aZero, t.Forward(a).value - t.bZero;
    TransformExact(t.Forward(a).value, t.bZero, t.numer, t.denom, true, t.aZero);
    var z := t.Reverse(t.Forward(a).value).value - t.aZero;
    BackAndForth(x, y, z, t.numer, t.denom);
  }

  lemma BackAndForth(x: int, y: int, z: int, n: int, d: int)
    requires n > 0 && d > 0 && y == FloorDiv(x * n, d) && z == FloorDiv(y * d, n)
    ensures x - CeilDiv(d - 1, n) <= z <= x
    ensures d == 1 ==> z == x
    ensures d <= n ==> z == x || z == x - 1
  {
    hide CeilDiv;
    FloorTwice(x, n, d);
  }

  lemma FloorTwice(x: int, n: int, d: int)
    requires n > 0 && d > 0
    ensures x - CeilDiv(d - 1, n) <= (x * n / d) * d / n <= x
    ensures d == 1 ==> CeilDiv(d - 1, n) == 0
    ensures d <= n ==> CeilDiv(d - 1, n) <= 1
  {
    var y := x * n / d;
    var z := y * d / n;
    assert x * n == d * y + x * n % d;
    assert y * d == n * z + y * d % n;
    CeilAtLeast(d - 1, n);
    assert n * (x - z) == x * n - n * z;
    LossBound(n, x - z, CeilDiv(d - 1, n), d - 1);
  }

  /** e is the rounding loss of the first division; the second loses less than n. */
  lemma LossBound(n: int, loss: int, c: int, e: int)
    requires n > 0 && 0 <= n * loss <= e + n - 1 && e <= n * c
    ensures 0 <= loss <= c
  {
    assert loss <= -1 ==> n * loss <= -n;
    assert n * (loss - c) == n * loss - n * c;
    assert loss - c >= 1 ==> n * (loss - c) >= n;
  }

  lemma CeilAtLeast(e: nat, n: nat)
    requires n > 0
    ensures e <= n * CeilDiv(e, n)
    ensures e == 0 ==> CeilDiv(e, n) == 0
    ensures e < n ==> CeilDiv(e, n) <= 1
  {
    CeilFromFloor(e, n);
    assert e == n * (e / n) + e % n;
    assert n * (e / n + 1) == n * (e / n) + n;
    if e < n {
      QuotientBelow(e, n, 1);
    }
  }

  // ------------------------------------------------------------------------
  // reduce
  // ------------------------------------------------------------------------

  predicate Divides(k: int, x: int)
    requires k > 0
  {
    x % k == 0
  }

  ghost predicate Coprime(a: int, b: int) {
    forall k :: k > 1 && Divides(k, a) ==> !Divides(k, b)
  }

  ghost predicate SameCommonDivisors(a: int, b: int, c: int, d: int) {
    forall k {:trigger Divides(k, a)} {:trigger Divides(k, b)} {:trigger Divides(k, c)} {:trigger Divides(k, d)} ::
      k > 0 ==> (Divides(k, a) && Divides(k, b) <==> Divides(k, c) && Divides(k, d))
  }

  lemma ModOfMultiple(k: int, m: int)
    requires k > 0
    ensures (k * m) % k == 0
  {
    DivModUnique(k * m, k, m, 0);
  }

  /** One step of Euclid's method keeps the common divisors. */
  lemma EuclidStep(a: nat, b: nat)
    requires b > 0
    ensures SameCommonDivisors(a, b, b, a % b)
  {
    var q, r := a / b, a % b;
    assert a == b * q + r;
    forall k {:trigger Divides(k, a)} {:trigger Divides(k, b)} {:trigger Divides(k, r)} | k > 0
      ensures Divides(k, a) && Divides(k, b) <==> Divides(k, b) && Divides(k, r)
    {
      if Divides(k, b) {
        var m := b / k;
        assert b == k * m;
        assert b * q == k * (m * q);
        assert a == k * (m * q) + r;
        assert r == k * (r / k) + r % k;
        assert a == k * (m * q + r / k) + r % k;
        DivModUnique(a, k, m * q + r / k, r % k);
      }
    }
  }

  /** The fraction in lowest terms with the same value; a zero denominator is left alone. */
  ghost predicate Lowest(n: int, d: int, n': int, d': int) {
    if d == 0 then n' == n && d' == d
    else d' > 0 && n' * d == n * d' && Coprime(n', d')
  }

  method Reduce(n: nat, d: nat) returns (n': nat, d': nat)
    ensures Lowest(n, d, n', d') && n' <= n && d' <= d
  {
    if d == 0 {
      return n, d;
    }
    var a, b := n, d;
    if a == 0 {
      ZeroLowest(d);
      return n, 1;
    }
    if a < b {
      a, b := b, a;
    }
    while true
      invariant a > 0 && b > 0
      invariant SameCommonDivisors(a, b, n, d)
      decreases b
    {
      var remainder := a % b;
      if remainder == 0 {
        DivideOut(a, b, n, d);
        return n / b, d / b;
      }
      EuclidStep(a, b);
      a, b := b, remainder;
    }
  }

  lemma ZeroLowest(d: nat)
    requires d > 0
    ensures Lowest(0, d, 0, 1)
  {
    forall k | k > 1 && Divides(k, 0)
      ensures !Divides(k, 1)
    {
      DivModUnique(1, k, 0, 1);
    }
  }

  lemma DivideOut(a: nat, b: nat, n: nat, d: nat)
    requires a > 0 && b > 0 && d > 0 && a % b == 0 && SameCommonDivisors(a, b, n, d)
    ensures Lowest(n, d, n / b, d / b) && 0 <= n / b <= n && 0 <= d / b <= d
  {
    assert Divides(b, a);
    ModOfMultiple(b, 1);
    assert Divides(b, n) && Divides(b, d);
    var p, q := n / b, d / b;
    assert n == b * p && d == b * q;
    DivLe(n, b);
    DivLe(d, b);
    assert p * d == n * q by { assert p * (b * q) == (b * p) * q; }
    assert q > 0;
    forall k | k > 1 && Divides(k, p)
      ensures !Divides(k, q)
    {
      if Divides(k, q) {
        ScaleDivisor(k, b, p);
        ScaleDivisor(k, b, q);
        assert Divides(k * b, n) && Divides(k * b, d);
        NoLargerDivisor(k, b);
      }
    }
  }

  lemma ScaleDivisor(k: int, b: int, p: int)
    requires k > 0 && b > 0 && Divides(k, p)
    ensures k * b > 0 && Divides(k * b, b * p)
  {
    assert b * p == (k * b) * (p / k) by { assert p == k * (p / k); }
    MulLe(1, 1, k, b);
    ModOfMultiple(k * b, p / k);
  }

  lemma NoLargerDivisor(k: int, b: int)
    requires k > 1 && b > 0
    ensures k * b > 0 && !Divides(k * b, b)
  {
    MulLe(2, b, k, b);
    DivModUnique(b, k * b, 0, b);
  }

  /** The signed overload: negate, reduce as an unsigned word, negate back. */
  method ReduceSigned(n: i32, d: u32) returns (n': i32, d': u32)
    ensures Lowest(n, d, n', d') && (n' < 0 <==> n < 0)
  {
    if d == 0 {
      return n, d;
    }
    hide Coprime;
    if n < 0 {
      Negated(n);
      var un, ud := Reduce(U32(I32(Neg(n))), d);
      n', d' := I32(Neg(I32(un))), ud;
      NegatedBack(un);
      NegatedFraction(n, d, un, ud);
      CoprimeNegate(un, ud);
    } else {
      n', d' := Reduce(n, d);
    }
  }

  /** INT32_MIN is its own negation, and as an unsigned word the right magnitude. */
  lemma Negated(n: i32)
    requires n < 0
    ensures U32(I32(Neg(n))) == Neg(n)
  {
  }

  lemma NegatedBack(un: nat)
    requires un <= 0x8000_0000
    ensures I32(Neg(I32(un))) == Neg(un)
  {
  }

  lemma NegatedFraction(n: int, d: nat, un: nat, ud: nat)
    requires n < 0 && ud > 0 && un * d == Neg(n) * ud
    ensures un > 0 && Neg(un) * d == n * ud
  {
    MulLe(1, 1, Neg(n), ud);
    assert un == 0 ==> un * d == 0;
    assert Neg(n) * ud == Neg(n * ud) && Neg(un) * d == Neg(un * d);
  }

  lemma CoprimeNegate(a: int, b: int)
    requires Coprime(a, b)
    ensures Coprime(Neg(a), b)
  {
    forall k | k > 1 && Divides(k, Neg(a))
      ensures !Divides(k, b)
    {
      assert Neg(a) == k * (Neg(a) / k);
      assert a == k * Neg(Neg(a) / k);
      ModOfMultiple(k, Neg(Neg(a) / k));
      assert Divides(k, a);
    }
  }

  /** Equal fractions scale every integer to the same floor. */
  lemma SameQuotient(x: int, n: int, d: int, n': int, d': int)
    requires d > 0 && d' > 0 && n' * d == n * d'
    ensures (x * n) / d == (x * n') / d'
  {
    var q, r := x * n / d, x * n % d;
    assert x * n == d * q + r;
    var s := x * n' - d' * q;
    assert d * s == d' * r by {
      assert d * (x * n') == d' * (x * n) by {
        assert d * (x * n') == x * (n' * d) && x * (n * d') == d' * (x * n);
      }
      ScaledRemainder(d, d', q, r, x * n, x * n');
    }
    RemainderScales(d, d', r, s);
    DivModUnique(x * n', d', q, s);
  }

  lemma ScaledRemainder(d: int, d': int, q: int, r: int, a: int, a': int)
    requires a == d * q + r && d * a' == d' * a
    ensures d * (a' - d' * q) == d' * r
  {
    assert d * (a' - d' * q) == d * a' - d * (d' * q);
    assert d * (d' * q) == d' * (d * q);
    assert d' * (d * q + r) == d' * (d * q) + d' * r;
  }

  lemma RemainderScales(d: int, d': int, r: int, s: int)
    requires d > 0 && d' > 0 && 0 <= r < d && d * s == d' * r
    ensures 0 <= s < d'
  {
    assert d' * r >= 0 by { MulLe(0, 0, d', r); }
    assert d' * (d - r) >= d' by { MulLe(d', 1, d', d - r); }
    assert d' * (d - r) == d' * d - d' * r;
    assert s <= -1 ==> d * s <= -d;
    assert d * (s - d') == d * s - d' * d;
    assert s - d' >= 0 ==> d * (s - d') >= 0;
  }

  /** Reducing the fraction changes no outcome of either transform, on any input. */
  lemma ReducePreservesTransforms(t: LinearTransform, n': i32, d': u32, v: i64)
    requires Lowest(t.numer, t.denom, n', d') && (n' < 0 <==> t.numer < 0)
    ensures t.Forward(v) == LinearTransform(t.aZero, t.bZero, n', d').Forward(v)
    ensures t.Reverse(v) == LinearTransform(t.aZero, t.bZero, n', d').Reverse(v)
  {
    if t.denom != 0 {
      ZeroTogether(t.numer, t.denom, n', d');
      SameForward(v, t.aZero, t.numer, t.denom, n', d', t.bZero);
      if n' != 0 {
        SameReverse(v, t.bZero, t.numer, t.denom, n', d', t.aZero);
      }
    }
  }

  lemma ZeroTogether(n: int, d: nat, n': int, d': nat)
    requires d > 0 && d' > 0 && n' * d == n * d'
    ensures n == 0 <==> n' == 0
  {
    assert n >= 1 ==> n * d' >= d';
    assert n <= -1 ==> n * d' <= Neg(d');
  }

  lemma SameForward(v: i64, b1: i64, n: i32, d: u32, n': i32, d': u32, b2: i64)
    requires d > 0 && d' > 0 && n' * d == n * d'
    ensures Transform(v, b1, n, d, false, b2) == Transform(v, b1, n', d', false, b2)
  {
    SameIdeal(v - b1, n, d, n', d');
    IdealDecides(v, b1, n, d, n', d', false, b2);
  }

  lemma SameReverse(v: i64, b1: i64, n: i32, d: u32, n': i32, d': u32, b2: i64)
    requires n != 0 && n' != 0 && (n < 0 <==> n' < 0) && n' * d == n * d'
    ensures Transform(v, b1, n, d, true, b2) == Transform(v, b1, n', d', true, b2)
  {
    assert d' * n == n * d' && d * n' == n' * d;
    SameIdeal(v - b1, d, n, d', n');
    IdealDecides(v, b1, n, d, n', d', true, b2);
  }

  lemma IdealDecides(v: i64, b1: i64, n: i32, d: u32, n': i32, d': u32, invert: bool, b2: i64)
    requires (if invert then n else d) != 0 && (if invert then n' else d') != 0
    requires
      FloorDiv((v - b1) * (if invert then d else n), if invert then n else d) ==
      FloorDiv((v - b1) * (if invert then d' else n'), if invert then n' else d')
    ensures Transform(v, b1, n, d, invert, b2) == Transform(v, b1, n', d', invert, b2)
  {
    TransformExact(v, b1, n, d, invert, b2);
    TransformExact(v, b1, n', d', invert, b2);
  }

  lemma SameIdeal(x: int, n: int, d: int, n': int, d': int)
    requires d != 0 && d' != 0 && (d > 0 <==> d' > 0) && n' * d == n * d'
    ensures FloorDiv(x * n, d) == FloorDiv(x * n', d')
  {
    if d > 0 {
      SameQuotient(x, n, d, n', d');
    } else {
      assert Neg(x * n) == Neg(x) * n && Neg(x * n') == Neg(x) * n';
      assert n' * Neg(d) == n * Neg(d');
      SameQuotient(Neg(x), n, Neg(d), n', Neg(d'));
    }
  }
}
