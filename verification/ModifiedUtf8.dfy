/**
 Java's modified UTF-8 in both directions, with the length pre-passes whose
 results size the destination buffers.  A C string is the sequence of the bytes
 before its terminator.
 */
module ModifiedUtf8 {
  import opened Bits
  import opened Utf

  const UTF16_REPLACEMENT_CHAR: bv32 := 0xfffd
  const UNICODE_UPPER_LIMIT: bv32 := 0x10fffd
  const SIZE_MAX: int := TWO64 - 1

  // ------------------------------------------------------------------------
  // 16 to 8
  // ------------------------------------------------------------------------

  function EncodeUnit(u: bv16): Bytes {
    if u > 0x7ff then
      [((u >> 12) | 0xe0) as bv8, (((u >> 6) & 0x3f) | 0x80) as bv8, ((u & 0x3f) | 0x80) as bv8]
    else if u > 0x7f || u == 0 then
      [((u >> 6) | 0xc0) as bv8, ((u & 0x3f) | 0x80) as bv8]
    else
      [u as bv8]
  }

  function Encode(us: Units): Bytes {
    if us == [] then [] else EncodeUnit(us[0]) + Encode(us[1..])
  }

  lemma {:induction false} EncodeSnoc(us: Units, u: bv16)
    ensures Encode(us + [u]) == Encode(us) + EncodeUnit(u)
  {
    if us == [] {
      assert Encode([u][1..]) == [];
    } else {
      assert (us + [u])[1..] == us[1..] + [u];
      EncodeSnoc(us[1..], u);
    }
  }

  lemma {:induction false} EncodeLengthBound(us: Units)
    ensures |us| <= |Encode(us)| <= 3 * |us|
  {
    if us != [] {
      EncodeLengthBound(us[1..]);
    }
  }

  lemma {:induction false} EncodePrefixLength(us: Units, i: nat)
    requires i <= |us|
    ensures |Encode(us[..i])| <= |Encode(us)|
  {
    if i < |us| {
      var n := |us| - 1;
      assert us == us[..n] + [us[n]];
      EncodeSnoc(us[..n], us[n]);
      assert us[..n][..i] == us[..i];
      EncodePrefixLength(us[..n], i);
    } else {
      assert us[..i] == us;
    }
  }

  /** No byte of an encoding is zero, so the terminator is the first. */
  lemma {:induction false} EncodeHasNoZero(us: Units)
    ensures forall b <- Encode(us) :: b != 0
  {
    if us != [] {
      EncodeHasNoZero(us[1..]);
      UnitHasNoZero(us[0]);
    }
  }

  lemma UnitHasNoZero(u: bv16)
    ensures forall b <- EncodeUnit(u) :: b != 0
  {
    if u > 0x7ff {
      assert (u >> 12) | 0xe0 != 0 && ((u >> 6) & 0x3f) | 0x80 != 0 && (u & 0x3f) | 0x80 != 0;
    } else if u > 0x7f || u == 0 {
      assert (u >> 6) | 0xc0 != 0 && (u & 0x3f) | 0x80 != 0;
    }
  }

  function UnitLength(u: bv16): nat {
    if u > 0x7ff then 3 else if u > 0x7f || u == 0 then 2 else 1
  }

  /**
   strnlen16to8: the length of the encoding, held down to SIZE_MAX - 1.  Both
   loops count modulo 2^64; the slow one notices the wrap.
   */
  method Strnlen16to8(us: Units) returns (utf8Len: nat)
    ensures utf8Len == if |Encode(us)| <= SIZE_MAX - 1 then |Encode(us)| else SIZE_MAX - 1
  {
    hide EncodeUnit;
    utf8Len := 0;
    var i := 0;
    EncodeLengthBound(us);
    assert us[..0] == [];
    if |us| < (SIZE_MAX - 1) / 3 {
      while i < |us|
        invariant i <= |us| && utf8Len == |Encode(us[..i])|
      {
        OneMore(us, i);
        utf8Len := U64(utf8Len + UnitLength(us[i]));
        i := i + 1;
      }
      assert us[..i] == us;
      return;
    }
    while i < |us|
      invariant i <= |us| && utf8Len == |Encode(us[..i])| <= SIZE_MAX
    {
      var utf8Cur := utf8Len;
      OneMore(us, i);
      utf8Len := U64(utf8Len + UnitLength(us[i]));
      i := i + 1;
      if utf8Len < utf8Cur {
        return SIZE_MAX - 1;
      }
    }
    assert us[..i] == us;
    if utf8Len == SIZE_MAX {
      utf8Len := SIZE_MAX - 1;
    }
  }

  lemma OneMore(us: Units, i: nat)
    requires i < |us|
    ensures Encode(us[..i + 1]) == Encode(us[..i]) + EncodeUnit(us[i])
    ensures |Encode(us[..i + 1])| == |Encode(us[..i])| + UnitLength(us[i]) <= |Encode(us)|
  {
    assert us[..i + 1] == us[..i] + [us[i]];
    EncodeSnoc(us[..i], us[i]);
    EncodePrefixLength(us, i + 1);
  }

  /** strncpy16to8; the destination has room for the encoding and its terminator. */
  method Strncpy16to8(utf8Str: array<bv8>, us: Units)
    requires utf8Str.Length > |Encode(us)|
    modifies utf8Str
    ensures utf8Str[..|Encode(us)|] == Encode(us) && utf8Str[|Encode(us)|] == 0
    ensures forall j | |Encode(us)| < j < utf8Str.Length :: utf8Str[j] == old(utf8Str[j])
  {
    hide EncodeUnit;
    var utf8cur := 0;
    assert us[..0] == [];
    for i := 0 to |us|
      invariant utf8cur == |Encode(us[..i])| && utf8cur <= |Encode(us)|
      invariant utf8Str[..utf8cur] == Encode(us[..i])
      invariant forall j | utf8cur <= j < utf8Str.Length :: utf8Str[j] == old(utf8Str[j])
    {
      OneMore(us, i);
      utf8cur := PutUnit(utf8Str, utf8cur, us[i]);
    }
    assert us[..|us|] == us;
    utf8Str[utf8cur] := 0;
  }

  /** The body of the loop: one unit written at `cur`. */
  method PutUnit(utf8Str: array<bv8>, cur: nat, uic: bv16) returns (next: nat)
    requires cur + UnitLength(uic) <= utf8Str.Length
    modifies utf8Str
    ensures next == cur + UnitLength(uic) && utf8Str[..next] == old(utf8Str[..cur]) + EncodeUnit(uic)
    ensures forall j | next <= j < utf8Str.Length :: utf8Str[j] == old(utf8Str[j])
  {
    if uic > 0x7ff {
      utf8Str[cur] := ((uic >> 12) | 0xe0) as bv8;
      utf8Str[cur + 1] := (((uic >> 6) & 0x3f) | 0x80) as bv8;
      utf8Str[cur + 2] := ((uic & 0x3f) | 0x80) as bv8;
      next := cur + 3;
    } else if uic > 0x7f || uic == 0 {
      utf8Str[cur] := ((uic >> 6) | 0xc0) as bv8;
      utf8Str[cur + 1] := ((uic & 0x3f) | 0x80) as bv8;
      next := cur + 2;
    } else {
      utf8Str[cur] := uic as bv8;
      next := cur + 1;
    }
  }

  // ------------------------------------------------------------------------
  // 8 to 16
  // ------------------------------------------------------------------------

  /** UTF8_SEQ_LENGTH: 1 to 4 from the leading bits, looked up in a packed word. */
  function SeqLength(ch: bv8): (n: nat)
    ensures 1 <= n <= 4
  {
    var t := (0xe5000000 as bv32 >> ((ch as bv32 >> 3) & 0x1e)) & 3;
    if t == 0 then 1 else if t == 1 then 2 else if t == 2 then 3 else 4
  }

  /** The packed word counts the leading bits; 0xf8 and above are read as four-byte leaders too. */
  lemma SeqLengthTable(ch: bv8)
    ensures SeqLength(ch) == if ch < 0xc0 then 1 else if ch < 0xe0 then 2 else if ch < 0xf0 then 3 else 4
  {
  }

  predicate IsExtension(b: bv8) { b & 0xc0 == 0x80 }

  function LeaderMask(n: nat): bv8 {
    if n == 1 then 0xff else if n == 2 then 0x1f else if n == 3 then 0x0f else 0x07
  }

  function ShiftAndMask(unicode: bv32, b: bv8): bv32 { (unicode << 6) | (0x3f & b as bv32) }

  /** The loop over the extension bytes from index `i`: the code point and the index after it. */
  function Extend(s: Bytes, i: nat, seqLen: nat, ret: bv32): (r: (bv32, nat))
    requires i <= |s|
    ensures i <= r.1 <= |s|
    decreases seqLen - i
  {
    if i >= seqLen then (ret, i)
    else if i == |s| || !IsExtension(s[i]) then (UTF16_REPLACEMENT_CHAR, i)
    else Extend(s, i + 1, seqLen, ShiftAndMask(ret, s[i]))
  }

  /** getUtf32FromUtf8: the next code point and how many bytes it took. */
  function NextCode(s: Bytes): (r: (bv32, nat))
    requires s != []
    ensures 0 < r.1 <= |s|
  {
    if IsExtension(s[0]) then (UTF16_REPLACEMENT_CHAR, 1)
    else
      var seqLen := SeqLength(s[0]);
      Extend(s, 1, seqLen, (s[0] & LeaderMask(seqLen)) as bv32)
  }

  /** A stray extension byte is replaced, and so is a sequence cut short, up to the byte that does not belong to it. */
  lemma {:induction false} MalformedIsReplaced(s: Bytes, k: nat)
    requires s != [] && 1 <= k <= |s|
    requires IsExtension(s[0]) ==> k == 1
    requires !IsExtension(s[0]) ==>
               && k < SeqLength(s[0]) && (k < |s| ==> !IsExtension(s[k]))
               && forall i | 1 <= i < k :: IsExtension(s[i])
    ensures NextCode(s) == (UTF16_REPLACEMENT_CHAR, k)
  {
    hide IsExtension, SeqLength, ShiftAndMask;
    if !IsExtension(s[0]) {
      var n := SeqLength(s[0]);
      CutShort(s, 1, n, (s[0] & LeaderMask(n)) as bv32, k);
    }
  }

  lemma {:induction false} CutShort(s: Bytes, i: nat, n: nat, ret: bv32, k: nat)
    requires 1 <= i <= k <= |s| && k < n && (k < |s| ==> !IsExtension(s[k]))
    requires forall j | i <= j < k :: IsExtension(s[j])
    ensures Extend(s, i, n, ret) == (UTF16_REPLACEMENT_CHAR, k)
    decreases k - i
  {
    hide IsExtension, ShiftAndMask;
    if i < k {
      CutShort(s, i + 1, n, ShiftAndMask(ret, s[i]), k);
    }
  }

  function UnitsOf(code: bv32): Units {
    if code <= 0xffff then [code as bv16]
    else if code <= UNICODE_UPPER_LIMIT then
      [HighHalf(code - 0x10000), LowHalf(code - 0x10000)]
    else [UTF16_REPLACEMENT_CHAR as bv16]
  }

  function HighHalf(d: bv32): bv16
    requires d <= 0xfffff
  {
    (0xd800 | (d >> 10)) as bv16
  }

  function LowHalf(d: bv32): bv16 { (0xdc00 | (d & 0x3ff)) as bv16 }

  function Decode(s: Bytes): Units
    decreases |s|
  {
    if s == [] then [] else UnitsOf(NextCode(s).0) + Decode(s[NextCode(s).1..])
  }

  /** strlen8to16, from a state of its loop. */
  function CountUnits(s: Bytes, expected: int): nat {
    if s == [] then 0
    else if IsExtension(s[0]) then (if expected - 1 < 0 then 1 else 0) + CountUnits(s[1..], expected - 1)
    else
      var n := SeqLength(s[0]) - 1;
      1 + (if n == 3 then 1 else 0) + CountUnits(s[1..], n)
  }

  /** The four-byte leaders that turn out to give one unit: cut short, overlong, or beyond the limit. */
  function Shortfall(s: Bytes): nat
    decreases |s|
  {
    if s == [] then 0
    else
      var (code, n) := NextCode(s);
      (if !IsExtension(s[0]) && SeqLength(s[0]) == 4 && |UnitsOf(code)| == 1 then 1 else 0) + Shortfall(s[n..])
  }

  lemma {:induction false} NoneExpected(s: Bytes, expected: int)
    requires expected <= 0
    ensures CountUnits(s, expected) == CountUnits(s, 0)
    decreases |s|
  {
    if s != [] && IsExtension(s[0]) {
      NoneExpected(s[1..], expected - 1);
      NoneExpected(s[1..], -1);
    }
  }

  /** The extension bytes the decoder takes are exactly those the counter skips. */
  lemma {:induction false} ExtendCounts(s: Bytes, i: nat, seqLen: nat, ret: bv32)
    requires i <= |s| && i <= seqLen
    ensures CountUnits(s[i..], seqLen - i) == CountUnits(s[Extend(s, i, seqLen, ret).1..], 0)
    decreases seqLen - i
  {
    if i < seqLen && i < |s| && IsExtension(s[i]) {
      assert s[i..][1..] == s[i + 1..];
      ExtendCounts(s, i + 1, seqLen, ShiftAndMask(ret, s[i]));
    }
  }

  /** Up to three bytes stay within 16 bits, and the replacement character does too. */
  lemma ShortCode(s: Bytes)
    requires s != [] && !IsExtension(s[0]) && SeqLength(s[0]) <= 3
    ensures NextCode(s).0 <= 0xffff
  {
    var n := SeqLength(s[0]);
    var ret := (s[0] & LeaderMask(n)) as bv32;
    if n == 1 {
      assert NextCode(s) == (ret, 1);
    } else if |s| > 1 && IsExtension(s[1]) {
      var ret1 := ShiftAndMask(ret, s[1]);
      if n == 2 {
        assert ret <= 0x1f;
        assert ret1 <= 0x7ff;
        assert Extend(s, 2, n, ret1) == (ret1, 2);
      } else {
        assert ret <= 0x0f;
        assert ret1 <= 0x3ff;
        if |s| > 2 && IsExtension(s[2]) {
          var ret2 := ShiftAndMask(ret1, s[2]);
          assert ret2 <= 0xffff;
          assert Extend(s, 3, n, ret2) == (ret2, 3);
          assert Extend(s, 2, n, ret1) == (ret2, 3);
        }
      }
    }
  }

  /**
   The pre-pass never under-counts, on any bytes, and over-counts by exactly
   the four-byte leaders that give a single unit.
   */
  lemma {:induction false} CountIsDecodePlusShortfall(s: Bytes)
    ensures CountUnits(s, 0) == |Decode(s)| + Shortfall(s)
    decreases |s|
  {
    if s != [] {
      var (code, n) := NextCode(s);
      CountIsDecodePlusShortfall(s[n..]);
      if IsExtension(s[0]) {
        NoneExpected(s[1..], -1);
      } else {
        var seqLen := SeqLength(s[0]);
        ExtendCounts(s, 1, seqLen, (s[0] & LeaderMask(seqLen)) as bv32);
        if seqLen <= 3 {
          ShortCode(s);
        }
      }
    }
  }

  method Strlen8to16(s: Bytes) returns (len: nat)
    ensures len == CountUnits(s, 0)
    ensures len >= |Decode(s)|
    ensures len == |Decode(s)| <==> Shortfall(s) == 0
  {
    len := 0;
    var expected := 0;
    var i := 0;
    while i < |s|
      invariant i <= |s| && CountUnits(s, 0) == len + CountUnits(s[i..], expected)
    {
      assert s[i..][1..] == s[i + 1..];
      var ic := s[i];
      i := i + 1;
      if ic & 0xc0 == 0x80 {
        expected := expected - 1;
        if expected < 0 {
          len := len + 1;
        }
      } else {
        len := len + 1;
        expected := SeqLength(ic) - 1;
        if expected == 3 {
          len := len + 1;
        }
      }
    }
    CountIsDecodePlusShortfall(s);
  }

  method GetUtf32FromUtf8(s: Bytes, p: nat) returns (ret: bv32, q: nat)
    requires p < |s|
    ensures p < q <= |s| && (ret, q - p) == NextCode(s[p..])
  {
    q := p + 1;
    if s[p] & 0xc0 == 0x80 {
      return UTF16_REPLACEMENT_CHAR, q;
    }
    var seqLen := SeqLength(s[p]);
    ret := (s[p] & LeaderMask(seqLen)) as bv32;
    var i := 1;
    while i < seqLen
      invariant 1 <= i <= seqLen && q == p + i <= |s|
      invariant NextCode(s[p..]) == Extend(s[p..], i, seqLen, ret)
    {
      if q == |s| || s[q] & 0xc0 != 0x80 {
        return UTF16_REPLACEMENT_CHAR, q;
      }
      ret := ShiftAndMask(ret, s[q]);
      i, q := i + 1, q + 1;
    }
  }

  /** strcpy8to16: strlen8to16 units of room are enough for any bytes. */
  method Strcpy8to16(utf16Str: array<bv16>, s: Bytes) returns (outLen: nat)
    requires utf16Str.Length >= CountUnits(s, 0)
    modifies utf16Str
    ensures outLen == |Decode(s)| <= utf16Str.Length && utf16Str[..outLen] == Decode(s)
    ensures forall j | outLen <= j < utf16Str.Length :: utf16Str[j] == old(utf16Str[j])
  {
    hide UnitsOf, NextCode, CountUnits, Shortfall;
    CountIsDecodePlusShortfall(s);
    outLen := 0;
    var p := 0;
    assert s[0..] == s;
    while p < |s|
      invariant p <= |s| && outLen <= utf16Str.Length
      invariant Decode(s) == utf16Str[..outLen] + Decode(s[p..])
      invariant forall j | outLen <= j < utf16Str.Length :: utf16Str[j] == old(utf16Str[j])
      decreases |s| - p
    {
      ghost var done, rest := utf16Str[..outLen], s[p..];
      var ret, q := GetUtf32FromUtf8(s, p);
      assert rest[q - p..] == s[q..];
      assert Decode(rest) == UnitsOf(ret) + Decode(s[q..]);
      assert Decode(s) == done + UnitsOf(ret) + Decode(s[q..]);
      outLen := PutCode(utf16Str, outLen, ret);
      p := q;
    }
    assert s[p..] == [];
  }

  /** The body of the loop: one code point written at `dest`. */
  method PutCode(utf16Str: array<bv16>, dest: nat, ret: bv32) returns (next: nat)
    requires dest + |UnitsOf(ret)| <= utf16Str.Length
    modifies utf16Str
    ensures next == dest + |UnitsOf(ret)| && utf16Str[..next] == old(utf16Str[..dest]) + UnitsOf(ret)
    ensures forall j | next <= j < utf16Str.Length :: utf16Str[j] == old(utf16Str[j])
  {
    if ret <= 0xffff {
      utf16Str[dest] := ret as bv16;
      next := dest + 1;
    } else if ret <= UNICODE_UPPER_LIMIT {
      utf16Str[dest] := HighHalf(ret - 0x10000);
      utf16Str[dest + 1] := LowHalf(ret - 0x10000);
      next := dest + 2;
    } else {
      utf16Str[dest] := UTF16_REPLACEMENT_CHAR as bv16;
      next := dest + 1;
    }
  }

  // ------------------------------------------------------------------------
  // Round trip
  // ------------------------------------------------------------------------

  /** The decoder takes back one encoded unit, whatever follows. */
  lemma DecodeUnit(u: bv16, rest: Bytes)
    ensures NextCode(EncodeUnit(u) + rest) == (u as bv32, |EncodeUnit(u)|)
  {
    hide NextCode, EncodeUnit;
    if u > 0x7ff {
      DecodeThree(u, rest);
    } else if u > 0x7f || u == 0 {
      DecodeTwo(u, rest);
    } else {
      DecodeOne(u, rest);
    }
  }

  lemma DecodeThree(u: bv16, rest: Bytes)
    requires u > 0x7ff
    ensures NextCode(EncodeUnit(u) + rest) == (u as bv32, |EncodeUnit(u)|)
  {
    ThreeByteUnit(u);
    hide EncodeUnit, NextCode, SeqLength, ShiftAndMask, IsExtension;
    Front(EncodeUnit(u), rest);
    TakeThree(EncodeUnit(u) + rest);
  }

  lemma DecodeTwo(u: bv16, rest: Bytes)
    requires u <= 0x7ff && (u > 0x7f || u == 0)
    ensures NextCode(EncodeUnit(u) + rest) == (u as bv32, |EncodeUnit(u)|)
  {
    TwoByteUnit(u);
    hide EncodeUnit, NextCode, SeqLength, ShiftAndMask, IsExtension;
    Front(EncodeUnit(u), rest);
    TakeTwo(EncodeUnit(u) + rest);
  }

  lemma DecodeOne(u: bv16, rest: Bytes)
    requires 0 < u <= 0x7f
    ensures NextCode(EncodeUnit(u) + rest) == (u as bv32, |EncodeUnit(u)|)
  {
    OneByteUnit(u);
    hide EncodeUnit, SeqLength, ShiftAndMask, IsExtension;
    Front(EncodeUnit(u), rest);
  }

  lemma Front(bytes: Bytes, rest: Bytes)
    ensures forall i | 0 <= i < |bytes| :: (bytes + rest)[i] == bytes[i]
  {
  }

  lemma TakeThree(s: Bytes)
    requires |s| >= 3 && SeqLength(s[0]) == 3 && !IsExtension(s[0]) && IsExtension(s[1]) && IsExtension(s[2])
    ensures NextCode(s) == (ShiftAndMask(ShiftAndMask((s[0] & 0x0f) as bv32, s[1]), s[2]), 3)
  {
    hide SeqLength, ShiftAndMask, IsExtension;
    var ret0 := (s[0] & 0x0f) as bv32;
    var ret1 := ShiftAndMask(ret0, s[1]);
    var ret2 := ShiftAndMask(ret1, s[2]);
    assert Extend(s, 3, 3, ret2) == (ret2, 3);
    assert Extend(s, 2, 3, ret1) == (ret2, 3);
    assert Extend(s, 1, 3, ret0) == (ret2, 3);
  }

  lemma TakeTwo(s: Bytes)
    requires |s| >= 2 && SeqLength(s[0]) == 2 && !IsExtension(s[0]) && IsExtension(s[1])
    ensures NextCode(s) == (ShiftAndMask((s[0] & 0x1f) as bv32, s[1]), 2)
  {
    hide SeqLength, ShiftAndMask, IsExtension;
    var ret0 := (s[0] & 0x1f) as bv32;
    var ret1 := ShiftAndMask(ret0, s[1]);
    assert Extend(s, 2, 2, ret1) == (ret1, 2);
    assert Extend(s, 1, 2, ret0) == (ret1, 2);
  }

  lemma ThreeByteUnit(u: bv16)
    requires u > 0x7ff
    ensures
      var s := EncodeUnit(u);
      && |s| == 3
      && SeqLength(s[0]) == 3 && !IsExtension(s[0]) && IsExtension(s[1]) && IsExtension(s[2])
      && ShiftAndMask(ShiftAndMask((s[0] & 0x0f) as bv32, s[1]), s[2]) == u as bv32
  {
  }

  lemma TwoByteUnit(u: bv16)
    requires u <= 0x7ff && (u > 0x7f || u == 0)
    ensures
      var s := EncodeUnit(u);
      && |s| == 2
      && SeqLength(s[0]) == 2 && !IsExtension(s[0]) && IsExtension(s[1])
      && ShiftAndMask((s[0] & 0x1f) as bv32, s[1]) == u as bv32
  {
  }

  lemma OneByteUnit(u: bv16)
    requires 0 < u <= 0x7f
    ensures
      var s := EncodeUnit(u);
      && |s| == 1
      && SeqLength(s[0]) == 1 && !IsExtension(s[0]) && (s[0] & 0xff) as bv32 == u as bv32
  {
  }

  /** A code point at the front gives its units, and the counter agrees. */
  lemma DecodeFront(code: bv32, bytes: Bytes, rest: Bytes)
    requires bytes != [] && NextCode(bytes + rest) == (code, |bytes|)
    ensures Decode(bytes + rest) == UnitsOf(code) + Decode(rest)
    ensures IsExtension(bytes[0]) || SeqLength(bytes[0]) != 4 || |UnitsOf(code)| == 2 ==>
              Shortfall(bytes + rest) == Shortfall(rest)
  {
    hide SeqLength, NextCode, UnitsOf, IsExtension;
    assert (bytes + rest)[|bytes|..] == rest;
  }

  /**
   Decoding inverts encoding on every sequence of units, zeros and unpaired
   surrogates included, and the pre-pass then counts exactly.
   */
  lemma {:induction false} DecodeEncode(us: Units)
    ensures Decode(Encode(us)) == us
    ensures Shortfall(Encode(us)) == 0 && CountUnits(Encode(us), 0) == |us|
  {
    if us != [] {
      var u, rest := us[0], Encode(us[1..]);
      DecodeEncode(us[1..]);
      DecodeUnit(u, rest);
      UnitStart(u);
      DecodeFront(u as bv32, EncodeUnit(u), rest);
      assert UnitsOf(u as bv32) == [u];
    }
    CountIsDecodePlusShortfall(Encode(us));
  }

  lemma UnitStart(u: bv16)
    ensures EncodeUnit(u) != [] && SeqLength(EncodeUnit(u)[0]) <= 3
  {
    if u > 0x7ff {
      ThreeByteUnit(u);
    } else if u > 0x7f || u == 0 {
      TwoByteUnit(u);
    } else {
      OneByteUnit(u);
    }
  }

  // ------------------------------------------------------------------------
  // Well-formed UTF-8
  // ------------------------------------------------------------------------

  /** Zero takes two bytes, so that none is zero; every other unit is encoded as its UTF-8. */
  lemma EncodeUnitIsUtf8(u: bv16)
    ensures EncodeUnit(u) == if u == 0 then [0xc0, 0x80] else Utf8(u as bv32)
  {
    hide EncodeUnit, Utf8;
    if u > 0x7ff {
      ThreeAreUtf8(u);
    } else if u > 0x7f {
      TwoAreUtf8(u);
    } else {
      OneIsUtf8(u);
    }
  }

  lemma OneIsUtf8(u: bv16)
    requires u <= 0x7f
    ensures EncodeUnit(u) == if u == 0 then [0xc0, 0x80] else Utf8(u as bv32)
  {
  }

  lemma TwoAreUtf8(u: bv16)
    requires 0x7f < u <= 0x7ff
    ensures EncodeUnit(u) == Utf8(u as bv32)
  {
  }

  lemma ThreeAreUtf8(u: bv16)
    requires 0x7ff < u
    ensures EncodeUnit(u) == Utf8(u as bv32)
  {
  }

  /** The surrogates the decoder writes are those of UTF-16, the high one first. */
  lemma UnitsAreUtf16(code: bv32)
    requires code <= UNICODE_UPPER_LIMIT
    ensures UnitsOf(code) == Utf16(code)
    ensures code > 0xffff ==> |UnitsOf(code)| == 2 && IsPairOf(UnitsOf(code)[0], UnitsOf(code)[1], code)
  {
    hide IsPairOf, HighHalf, LowHalf, High, Low;
    if code > 0xffff {
      LargeUnits(code - 0x10000);
      PairOf(code);
    }
  }

  lemma LargeUnits(d: bv32)
    requires d <= 0xfffff
    ensures HighHalf(d) == High(d) && LowHalf(d) == Low(d)
  {
  }

  predicate InRange(codes: seq<bv32>) {
    forall i | 0 <= i < |codes| :: 0 < codes[i] <= UNICODE_UPPER_LIMIT
  }

  function Utf8All(codes: seq<bv32>): Bytes
    requires InRange(codes)
  {
    if codes == [] then [] else Utf8(codes[0]) + Utf8All(codes[1..])
  }

  function Utf16All(codes: seq<bv32>): Units
    requires InRange(codes)
  {
    if codes == [] then [] else Utf16(codes[0]) + Utf16All(codes[1..])
  }

  /** The four-byte form with shifts and masks, as the decoder takes it apart. */
  function FourBytes(code: bv32): Bytes
    requires code <= UNICODE_UPPER_LIMIT
  {
    [((code >> 18) | 0xf0) as bv8, (((code >> 12) & 0x3f) | 0x80) as bv8,
     (((code >> 6) & 0x3f) | 0x80) as bv8, ((code & 0x3f) | 0x80) as bv8]
  }

  lemma FourAreUtf8(code: bv32)
    requires 0xffff < code <= UNICODE_UPPER_LIMIT
    ensures FourBytes(code) == Utf8(code)
  {
    LeadOfFour(code);
    TailByte(code);
    TailByte(code >> 6);
    TailByte(code >> 12);
    Divided(code);
    hide Continuation;
  }

  lemma LeadOfFour(code: bv32)
    requires code <= UNICODE_UPPER_LIMIT
    ensures (code >> 18) | 0xf0 == 0xf0 + code / 0x40000 < 0x100
  {
  }

  lemma Divided(code: bv32)
    ensures code >> 6 == code / 0x40 && code >> 12 == code / 0x1000
  {
  }

  lemma TailByte(x: bv32)
    ensures (x & 0x3f) | 0x80 < 0x100 && ((x & 0x3f) | 0x80) as bv8 == Continuation(x)
  {
  }

  lemma FourByteCode(code: bv32)
    requires 0xffff < code <= UNICODE_UPPER_LIMIT
    ensures
      var s := FourBytes(code);
      && SeqLength(s[0]) == 4 && !IsExtension(s[0]) && IsExtension(s[1]) && IsExtension(s[2]) && IsExtension(s[3])
      && ShiftAndMask(ShiftAndMask(ShiftAndMask((s[0] & 0x07) as bv32, s[1]), s[2]), s[3]) == code
  {
  }

  lemma TakeFour(s: Bytes)
    requires |s| >= 4 && SeqLength(s[0]) == 4
    requires !IsExtension(s[0]) && IsExtension(s[1]) && IsExtension(s[2]) && IsExtension(s[3])
    ensures NextCode(s) ==
              (ShiftAndMask(ShiftAndMask(ShiftAndMask((s[0] & 0x07) as bv32, s[1]), s[2]), s[3]), 4)
  {
    hide SeqLength, ShiftAndMask, IsExtension;
    var ret0 := (s[0] & 0x07) as bv32;
    var ret1 := ShiftAndMask(ret0, s[1]);
    var ret2 := ShiftAndMask(ret1, s[2]);
    var ret3 := ShiftAndMask(ret2, s[3]);
    assert Extend(s, 4, 4, ret3) == (ret3, 4);
    assert Extend(s, 3, 4, ret2) == (ret3, 4);
    assert Extend(s, 2, 4, ret1) == (ret3, 4);
    assert Extend(s, 1, 4, ret0) == (ret3, 4);
  }

  lemma DecodeCode(code: bv32, rest: Bytes)
    requires 0 < code <= UNICODE_UPPER_LIMIT
    ensures NextCode(Utf8(code) + rest) == (code, |Utf8(code)|)
    ensures Utf8(code) != [] && (SeqLength(Utf8(code)[0]) == 4 ==> |UnitsOf(code)| == 2)
  {
    hide SeqLength, EncodeUnit, NextCode, Utf8;
    if code <= 0xffff {
      DecodeShort(code, rest);
    } else {
      FourAreUtf8(code);
      DecodeFour(code, rest);
    }
  }

  lemma DecodeShort(code: bv32, rest: Bytes)
    requires 0 < code <= 0xffff
    ensures NextCode(Utf8(code) + rest) == (code, |Utf8(code)|) && SeqLength(Utf8(code)[0]) <= 3
  {
    hide SeqLength, EncodeUnit, NextCode, Utf8;
    var u := AsUnit(code);
    ShortUnit(u, rest);
  }

  lemma AsUnit(code: bv32) returns (u: bv16)
    requires code <= 0xffff
    ensures u as bv32 == code && (u == 0 <==> code == 0)
  {
    u := code as bv16;
    ThereAndBack(code);
  }

  lemma ShortUnit(u: bv16, rest: Bytes)
    requires u != 0
    ensures NextCode(Utf8(u as bv32) + rest) == (u as bv32, |Utf8(u as bv32)|)
    ensures SeqLength(Utf8(u as bv32)[0]) <= 3
  {
    hide SeqLength, EncodeUnit, NextCode, Utf8;
    EncodeUnitIsUtf8(u);
    DecodeUnit(u, rest);
    UnitStart(u);
  }

  lemma DecodeFour(code: bv32, rest: Bytes)
    requires 0xffff < code <= UNICODE_UPPER_LIMIT
    ensures NextCode(FourBytes(code) + rest) == (code, |FourBytes(code)|) && |FourBytes(code)| == 4
  {
    var bytes := FourBytes(code);
    assert |bytes| == 4;
    FourByteCode(code);
    hide FourBytes, SeqLength, NextCode, ShiftAndMask, IsExtension;
    Front(bytes, rest);
    TakeFour(bytes + rest);
  }

  /** On well-formed UTF-8 of code points up to 0x10fffd the decoder gives their UTF-16 and the count is exact. */
  lemma {:induction false} WellFormedIsExact(codes: seq<bv32>)
    requires InRange(codes)
    ensures Decode(Utf8All(codes)) == Utf16All(codes)
    ensures Shortfall(Utf8All(codes)) == 0 && CountUnits(Utf8All(codes), 0) == |Utf16All(codes)|
  {
    hide Utf8, Utf16, UnitsOf;
    if codes != [] {
      var rest := Utf8All(codes[1..]);
      WellFormedIsExact(codes[1..]);
      UnitsAreUtf16(codes[0]);
      DecodeCode(codes[0], rest);
      DecodeFront(codes[0], Utf8(codes[0]), rest);
    }
    CountIsDecodePlusShortfall(Utf8All(codes));
  }

  /** The two code points above the limit are replaced, and then the count is one too many. */
  lemma BeyondLimitOverCounts()
    ensures
      var s: Bytes := [0xf4, 0x8f, 0xbf, 0xbe];
      NextCode(s) == (0x10fffe, 4) && Decode(s) == [0xfffd] && CountUnits(s, 0) == 2
  {
    var s: Bytes := [0xf4, 0x8f, 0xbf, 0xbe];
    TakeFour(s);
    assert s[4..] == [];
    assert Decode(s) == UnitsOf(0x10fffe) + Decode(s[4..]);
    CountIsDecodePlusShortfall(s);
  }
}
