/**
 Machine words as integers.  The C sources mix shifts, masks and ORs with
 ordinary arithmetic; here the bitwise operators are defined bit by bit on
 natural numbers, and the lemmas say when they are a remainder or a sum.
 */
module Bits {

  type u8 = x: int | 0 <= x < 0x100
  type u16 = x: int | 0 <= x < 0x1_0000
  type u32 = x: int | 0 <= x < 0x1_0000_0000
  type u64 = x: int | 0 <= x < 0x1_0000_0000_0000_0000
  type i32 = x: int | -0x8000_0000 <= x < 0x8000_0000
  type i64 = x: int | -0x8000_0000_0000_0000 <= x < 0x8000_0000_0000_0000

  const TWO32: int := 0x1_0000_0000
  const TWO63: int := 0x8000_0000_0000_0000
  const TWO64: int := 0x1_0000_0000_0000_0000
  const INT64_MIN: i64 := -0x8000_0000_0000_0000
  const INT64_MAX: i64 := 0x7fff_ffff_ffff_ffff

  /** Conversion to uint32_t. */
  function U32(x: int): u32 { x % TWO32 }

  /** Conversion to uint64_t. */
  function U64(x: int): u64 { x % TWO64 }

  /** Conversion to int32_t, two's complement. */
  function I32(x: int): i32 {
    var m := x % TWO32;
    if m < 0x8000_0000 then m else m - TWO32
  }

  /** Conversion to int64_t, two's complement. */
  function I64(x: int): i64 {
    var m := x % TWO64;
    if m < TWO63 then m else m - TWO64
  }

  function Pow2(k: nat): (p: nat)
    ensures p > 0
  {
    if k == 0 then 1 else 2 * Pow2(k - 1)
  }

  function Shl(x: nat, k: nat): nat { x * Pow2(k) }

  function And(a: nat, b: nat): nat {
    if a == 0 || b == 0 then 0
    else (if a % 2 == 1 && b % 2 == 1 then 1 else 0) + 2 * And(a / 2, b / 2)
  }

  function Or(a: nat, b: nat): nat {
    if a == 0 then b else if b == 0 then a
    else (if a % 2 + b % 2 > 0 then 1 else 0) + 2 * Or(a / 2, b / 2)
  }

  /** Masking with 2^k - 1 takes the remainder modulo 2^k. */
  lemma {:induction false} AndMask(a: nat, k: nat)
    ensures And(a, Pow2(k) - 1) == a % Pow2(k)
  {
    if k == 0 {
    } else if a == 0 {
    } else {
      AndMask(a / 2, k - 1);
      MaskStep(a, Pow2(k - 1));
    }
  }

  lemma MaskStep(a: nat, p: nat)
    requires a > 0 && p > 0 && And(a / 2, p - 1) == (a / 2) % p
    ensures And(a, 2 * p - 1) == a % (2 * p)
  {
    hide And;
    AndOdd(a, p - 1);
    HalveMod(a, p);
  }

  lemma AndOdd(a: nat, h: nat)
    requires a > 0
    ensures And(a, 2 * h + 1) == a % 2 + 2 * And(a / 2, h)
  {
    assert (2 * h + 1) / 2 == h && (2 * h + 1) % 2 == 1;
  }

  lemma HalveMod(a: nat, p: nat)
    requires p > 0
    ensures a % (2 * p) == a % 2 + 2 * ((a / 2) % p)
  {
    var q, r := (a / 2) / p, (a / 2) % p;
    assert a == (2 * p) * q + (2 * r + a % 2);
    DivModUnique(a, 2 * p, q, 2 * r + a % 2);
  }

  /** The quotient and remainder of a positive divisor are determined by a == q * d + r. */
  lemma DivModUnique(a: int, d: int, q: int, r: int)
    requires d > 0 && 0 <= r < d && a == d * q + r
    ensures a / d == q && a % d == r
  {
    var q0, r0 := a / d, a % d;
    assert d * (q - q0) == r0 - r;
    assert q - q0 >= 1 ==> d * (q - q0) >= d;
    assert q - q0 <= -1 ==> d * (q - q0) <= -d;
  }

  /** An OR of a shifted word and a word below the shift is their sum. */
  lemma {:induction false} OrDisjoint(a: nat, k: nat, b: nat)
    requires b < Pow2(k)
    ensures Or(a * Pow2(k), b) == a * Pow2(k) + b
  {
    if k == 0 {
    } else if a == 0 || b == 0 {
    } else {
      OrDisjoint(a, k - 1, b / 2);
      Regroup(a, Pow2(k - 1));
      OrStep(a * Pow2(k - 1), b);
    }
  }

  lemma Regroup(a: nat, p: nat)
    ensures a * (2 * p) == 2 * (a * p)
    ensures a > 0 && p > 0 ==> a * p > 0
  {
  }

  lemma OrStep(h: nat, b: nat)
    requires h > 0 && b > 0 && Or(h, b / 2) == h + b / 2
    ensures Or(2 * h, b) == 2 * h + b
  {
    assert (2 * h) / 2 == h && (2 * h) % 2 == 0;
  }

  lemma {:induction false} OrCommutes(a: nat, b: nat)
    ensures Or(a, b) == Or(b, a)
  {
    if a > 0 && b > 0 {
      OrCommutes(a / 2, b / 2);
    }
  }
}
