/**
 The Unicode encoding forms as their standards state them, by division and
 remainder.  The converters, which shift and mask, are compared with these.
 */
module Utf {
  type Bytes = seq<bv8>
  type Units = seq<bv16>

  const MAX_CODEPOINT: bv32 := 0x10ffff

  /** Section 3 of RFC 3629. */
  function Utf8(c: bv32): (s: Bytes)
    requires c <= MAX_CODEPOINT
    ensures |s| == if c < 0x80 then 1 else if c < 0x800 then 2 else if c < 0x10000 then 3 else 4
  {
    if c < 0x80 then [c as bv8]
    else if c < 0x800 then [(0xc0 + c / 0x40) as bv8, Continuation(c)]
    else if c < 0x10000 then [(0xe0 + c / 0x1000) as bv8, Continuation(c / 0x40), Continuation(c)]
    else [(0xf0 + c / 0x40000) as bv8, Continuation(c / 0x1000), Continuation(c / 0x40), Continuation(c)]
  }

  function Continuation(c: bv32): bv8 { (0x80 + c % 0x40) as bv8 }

  /** Section 2.1 of RFC 2781; a code point below 0x10000 is its own unit. */
  function Utf16(c: bv32): (us: Units)
    requires c <= MAX_CODEPOINT
    ensures |us| == if c < 0x10000 then 1 else 2
  {
    if c < 0x10000 then [c as bv16]
    else [High(c - 0x10000), Low(c - 0x10000)]
  }

  function High(d: bv32): bv16
    requires d <= 0xfffff
  {
    (0xd800 + d / 0x400) as bv16
  }

  function Low(d: bv32): bv16 { (0xdc00 + d % 0x400) as bv16 }

  /** A high surrogate and a low one, and the code point they stand for, section 2.2 of RFC 2781. */
  predicate IsPairOf(high: bv16, low: bv16, c: bv32) {
    var h, l := high as bv32, low as bv32;
    && 0xd800 <= h <= 0xdbff && 0xdc00 <= l <= 0xdfff
    && c - 0x10000 == (h - 0xd800) * 0x400 + (l - 0xdc00)
  }

  lemma PairOf(c: bv32)
    requires 0x10000 <= c <= MAX_CODEPOINT
    ensures |Utf16(c)| == 2 && IsPairOf(Utf16(c)[0], Utf16(c)[1], c)
  {
    hide High, Low, IsPairOf;
    HalvesArePair(c);
  }

  lemma HalvesArePair(c: bv32)
    requires 0x10000 <= c <= MAX_CODEPOINT
    ensures IsPairOf(High(c - 0x10000), Low(c - 0x10000), c)
  {
    hide High, Low;
    HighIs(c - 0x10000);
    LowIs(c - 0x10000);
    Joined(c, High(c - 0x10000) as bv32, Low(c - 0x10000) as bv32);
  }

  lemma HighIs(d: bv32)
    requires d <= 0xfffff
    ensures 0xd800 <= High(d) as bv32 <= 0xdbff && High(d) as bv32 - 0xd800 == d >> 10
  {
    ThereAndBack(0xd800 + d / 0x400);
  }

  lemma LowIs(d: bv32)
    ensures 0xdc00 <= Low(d) as bv32 <= 0xdfff && Low(d) as bv32 - 0xdc00 == d & 0x3ff
  {
    ThereAndBack(0xdc00 + d % 0x400);
  }

  lemma Joined(c: bv32, h: bv32, l: bv32)
    requires 0x10000 <= c <= MAX_CODEPOINT
    requires h - 0xd800 == (c - 0x10000) >> 10 && l - 0xdc00 == (c - 0x10000) & 0x3ff
    ensures c - 0x10000 == (h - 0xd800) * 0x400 + (l - 0xdc00)
  {
  }

  lemma ThereAndBack(x: bv32)
    requires x <= 0xffff
    ensures x as bv16 as bv32 == x
  {
  }
}
