/**
 UTF-16 to UTF-8 and back, with the length functions callers size their
 buffers by.  Source text may be malformed; every statement says what happens
 then as well.
 */
module Unicode {
  import opened Utf
  import M = ModifiedUtf8

  // ------------------------------------------------------------------------
  // Code points
  // ------------------------------------------------------------------------

  /** utf32_codepoint_utf8_length: 0 for a surrogate or a value beyond Unicode. */
  function Utf8Length(c: bv32): (n: nat)
    ensures n <= 4
  {
    if c < 0x80 then 1
    else if c < 0x800 then 2
    else if c < 0x10000 then (if c < 0xd800 || c > 0xdfff then 3 else 0)
    else if c <= MAX_CODEPOINT then 4
    else 0
  }

  /** The encoding of a code point as section 3 of RFC 3629 lays it out. */
  function CodeBytes(c: bv32): (s: Bytes)
    ensures |s| == Utf8Length(c)
  {
    match Utf8Length(c)
    case 1 => [c as bv8]
    case 2 => [Lead2(c), Tail(c)]
    case 3 => Bytes3(c)
    case 4 => Bytes4(c)
    case _ => []
  }

  function Bytes3(c: bv32): (s: Bytes)
    ensures |s| == 3
  {
    [Lead3(c), Tail(c >> 6), Tail(c)]
  }

  function Bytes4(c: bv32): (s: Bytes)
    ensures |s| == 4
  {
    [Lead4(c), Tail(c >> 12), Tail(c >> 6), Tail(c)]
  }

  function Lead2(c: bv32): bv8 { (0xc0 | ((c >> 6) & 0x1f)) as bv8 }
  function Lead3(c: bv32): bv8 { (0xe0 | ((c >> 12) & 0x0f)) as bv8 }
  function Lead4(c: bv32): bv8 { (0xf0 | ((c >> 18) & 0x07)) as bv8 }

  function Tail(c: bv32): bv8 { (0x80 | (c & 0x3f)) as bv8 }

  function FirstByteMark(bytes: nat): bv32 {
    if bytes == 2 then 0xc0 else if bytes == 3 then 0xe0 else if bytes == 4 then 0xf0 else 0
  }

  function Next(c: bv32): bv32 { c >> 6 }

  /** utf32_codepoint_to_utf8: the bytes are written from the last to the first. */
  method CodepointToUtf8(dst: array<bv8>, at: nat, c: bv32, bytes: nat)
    requires bytes == Utf8Length(c) && at + bytes <= dst.Length
    modifies dst
    ensures dst[..at + bytes] == old(dst[..at]) + CodeBytes(c)
    ensures forall j | at + bytes <= j < dst.Length :: dst[j] == old(dst[j])
  {
    hide Tail, CodeBytes, FirstByteMark, Next, Utf8Length;
    var p, src := at + bytes, c;
    if bytes >= 4 { p, src := PutTail(dst, p, src); }
    if bytes >= 3 { p, src := PutTail(dst, p, src); }
    if bytes >= 2 { p, src := PutTail(dst, p, src); }
    Layout(c);
    if bytes >= 1 {
      p := p - 1;
      dst[p] := FirstByte(src, bytes);
    }
  }

  function FirstByte(c: bv32, bytes: nat): bv8 { ((c | FirstByteMark(bytes)) & 0xff) as bv8 }

  /** One continuation byte, written before `p`. */
  method PutTail(dst: array<bv8>, p: nat, c: bv32) returns (q: nat, rest: bv32)
    requires 0 < p <= dst.Length
    modifies dst
    ensures q == p - 1 && rest == Next(c) && dst[q] == Tail(c)
    ensures forall j | 0 <= j < dst.Length && j != q :: dst[j] == old(dst[j])
  {
    q, rest := p - 1, c >> 6;
    LowBits(c);
    dst[q] := ((c | 0x80) & 0xbf) as bv8;
  }

  lemma Layout(c: bv32)
    ensures
      var n := Utf8Length(c);
      && (n == 1 ==> CodeBytes(c) == [FirstByte(c, n)])
      && (n == 2 ==> CodeBytes(c) == [FirstByte(Next(c), n), Tail(c)])
      && (n == 3 ==> CodeBytes(c) == [FirstByte(Next(Next(c)), n), Tail(Next(c)), Tail(c)])
      && (n == 4 ==>
            CodeBytes(c) == [FirstByte(Next(Next(Next(c))), n), Tail(Next(Next(c))), Tail(Next(c)), Tail(c)])
  {
    hide Tail;
    Shifts(c);
    FirstByteFits(c);
  }

  lemma LowBits(c: bv32)
    ensures (c | 0x80) & 0xbf < 0x100 && ((c | 0x80) & 0xbf) as bv8 == Tail(c)
  {
    assert (c | 0x80) & 0xbf == 0x80 | (c & 0x3f);
  }

  lemma Shifts(c: bv32)
    ensures Next(c) == c >> 6 && Next(Next(c)) == c >> 12 && Next(Next(Next(c))) == c >> 18
  {
    assert (c >> 6) >> 6 == c >> 12 && (c >> 12) >> 6 == c >> 18;
  }

  lemma FirstByteFits(c: bv32)
    ensures Utf8Length(c) == 1 ==> FirstByte(c, 1) == c as bv8
    ensures Utf8Length(c) == 2 ==> FirstByte(c >> 6, 2) == Lead2(c)
    ensures Utf8Length(c) == 3 ==> FirstByte(c >> 12, 3) == Lead3(c)
    ensures Utf8Length(c) == 4 ==> FirstByte(c >> 18, 4) == Lead4(c)
  {
  }

  // ------------------------------------------------------------------------
  // UTF-16 to UTF-8
  // ------------------------------------------------------------------------

  predicate IsHigh(u: bv16) { u & 0xfc00 == 0xd800 }
  predicate IsLow(u: bv16) { u & 0xfc00 == 0xdc00 }

  predicate StartsPair(us: Units) { |us| > 1 && IsHigh(us[0]) && IsLow(us[1]) }

  function PairCode(h: bv16, l: bv16): bv32 {
    (((h as bv32 - 0xd800) << 10) | (l as bv32 - 0xdc00)) + 0x10000
  }

  /** What utf16_to_utf8 writes before the terminator: an unpaired surrogate gives nothing. */
  function Encode(us: Units): Bytes
    decreases |us|
  {
    if us == [] then []
    else if StartsPair(us) then CodeBytes(PairCode(us[0], us[1])) + Encode(us[2..])
    else CodeBytes(us[0] as bv32) + Encode(us[1..])
  }

  /** What utf16_to_utf8_length adds up: its test has already stepped past a high surrogate. */
  function CountBytes(us: Units): nat
    decreases |us|
  {
    if us == [] then 0
    else if IsHigh(us[0]) && |us| > 1 then
      (if IsLow(us[1]) then 4 else Utf8Length(us[1] as bv32)) + CountBytes(us[2..])
    else Utf8Length(us[0] as bv32) + CountBytes(us[1..])
  }

  /**
   The low surrogates that directly follow an even, positive number of high
   ones; `run` is the number of high surrogates just before `us`.
   */
  function Missed(us: Units, run: nat): nat {
    if us == [] then 0
    else if IsHigh(us[0]) then Missed(us[1..], run + 1)
    else (if IsLow(us[0]) && run > 0 && run % 2 == 0 then 1 else 0) + Missed(us[1..], 0)
  }

  lemma SurrogatesHaveNoLength(u: bv16)
    ensures IsHigh(u) || IsLow(u) <==> Utf8Length(u as bv32) == 0
    ensures !(IsHigh(u) && IsLow(u))
  {
    assert IsHigh(u) <==> 0xd800 <= u <= 0xdbff;
    assert IsLow(u) <==> 0xdc00 <= u <= 0xdfff;
  }

  lemma PairRange(h: bv16, l: bv16)
    requires IsHigh(h) && IsLow(l)
    ensures 0x10000 <= PairCode(h, l) <= MAX_CODEPOINT
    ensures Utf8Length(PairCode(h, l)) == 4
  {
    assert 0xd800 <= h <= 0xdbff && 0xdc00 <= l <= 0xdfff;
    var a, b := h as bv32 - 0xd800, l as bv32 - 0xdc00;
    assert a <= 0x3ff && b <= 0x3ff;
    assert (a << 10) | b <= 0xfffff;
  }

  /** One step of the three functions. */
  lemma Unfold(us: Units, run: nat)
    requires us != []
    ensures |Encode(us)| ==
              if StartsPair(us) then 4 + |Encode(us[2..])| else Utf8Length(us[0] as bv32) + |Encode(us[1..])|
    ensures CountBytes(us) ==
              if IsHigh(us[0]) && |us| > 1 then
                (if IsLow(us[1]) then 4 else Utf8Length(us[1] as bv32)) + CountBytes(us[2..])
              else Utf8Length(us[0] as bv32) + CountBytes(us[1..])
    ensures Missed(us, run) ==
              if IsHigh(us[0]) then Missed(us[1..], run + 1)
              else (if IsLow(us[0]) && run > 0 && run % 2 == 0 then 1 else 0) + Missed(us[1..], 0)
    ensures IsHigh(us[0]) || IsLow(us[0]) <==> Utf8Length(us[0] as bv32) == 0
    ensures !(IsHigh(us[0]) && IsLow(us[0]))
  {
    hide Utf8Length, PairCode, IsHigh, IsLow, CodeBytes;
    SurrogatesHaveNoLength(us[0]);
    if StartsPair(us) {
      PairRange(us[0], us[1]);
    }
  }

  /**
   The exact error of the length function: four bytes for every pair whose high
   surrogate ends an even run of them.
   */
  lemma {:induction false} LengthFallsShort(us: Units, run: nat)
    requires run % 2 == 0 && (run == 0 || (us != [] && IsHigh(us[0])))
    ensures |Encode(us)| == CountBytes(us) + 4 * Missed(us, run)
    decreases |us|
  {
    hide Utf8Length, IsHigh, IsLow, Encode, CountBytes, Missed;
    if us == [] {
      NothingEncoded(run);
      return;
    }
    Unfold(us, run);
    if !IsHigh(us[0]) {
      LengthFallsShort(us[1..], 0);
    } else if |us| > 1 {
      assert us[1..][1..] == us[2..];
      Unfold(us[1..], run + 1);
      if IsHigh(us[1]) {
        AfterTwoHighs(us, run);
      } else {
        LengthFallsShort(us[2..], 0);
      }
    } else {
      assert us[1..] == [];
      NothingEncoded(run + 1);
    }
  }

  lemma NothingEncoded(run: nat)
    ensures Encode([]) == [] && CountBytes([]) == 0 && Missed([], run) == 0
  {
  }

  lemma {:induction false} AfterTwoHighs(us: Units, run: nat)
    requires run % 2 == 0 && |us| > 1 && IsHigh(us[0]) && IsHigh(us[1])
    ensures |Encode(us)| == CountBytes(us) + 4 * Missed(us, run)
    decreases |us|, 0
  {
    hide Utf8Length, IsHigh, IsLow, Encode, CountBytes, Missed;
    var v := us[2..];
    assert us[1..][1..] == v;
    Unfold(us, run);
    Unfold(us[1..], run + 1);
    if v == [] {
      NothingEncoded(run + 2);
    } else {
      assert us[1..][1] == v[0] && us[1..][2..] == v[1..];
      Unfold(v, run + 2);
      if IsHigh(v[0]) {
        LengthFallsShort(v, run + 2);
      } else {
        LengthFallsShort(v[1..], 0);
      }
    }
  }

  /** utf16_to_utf8_length: -1 for an empty source, and never more than the converter writes. */
  method Utf16ToUtf8Length(src: Units) returns (ret: int)
    ensures src == [] ==> ret == -1
    ensures src != [] ==> ret == |Encode(src)| - 4 * Missed(src, 0)
    ensures src != [] ==> (ret == |Encode(src)| <==> Missed(src, 0) == 0)
  {
    hide Utf8Length, IsHigh, IsLow;
    if |src| == 0 {
      return -1;
    }
    ret := 0;
    var i := 0;
    while i < |src|
      invariant i <= |src| && ret + CountBytes(src[i..]) == CountBytes(src)
    {
      var u := src[i];
      assert src[i..][1..] == src[i + 1..];
      assert |src[i..]| > 1 ==> src[i..][2..] == src[i + 2..];
      var pair := false;
      if IsHigh(u) && i + 1 < |src| {
        i := i + 1;
        pair := IsLow(src[i]);
      }
      ret := ret + if pair then 4 else Utf8Length(src[i] as bv32);
      i := i + 1;
    }
    LengthFallsShort(src, 0);
  }

  /** Two high surrogates before a low one: counted as nothing, written as four bytes. */
  lemma EvenRunIsMissed()
    ensures CountBytes([0xd800, 0xd800, 0xdc00]) == 0
    ensures Encode([0xd800, 0xd800, 0xdc00]) == [0xf0, 0x90, 0x80, 0x80]
  {
    var us: Units := [0xd800, 0xd800, 0xdc00];
    assert us[1..] == [0xd800, 0xdc00] && us[2..] == [0xdc00];
    assert us[1..][2..] == [] && us[2..][1..] == [];
    assert PairCode(0xd800, 0xdc00) == 0x10000;
    assert CodeBytes(0x10000) == [0xf0, 0x90, 0x80, 0x80];
  }

  /** utf16_to_utf8: nothing at all is written for an empty source. */
  method Utf16ToUtf8(src: Units, dst: array<bv8>)
    requires src != [] ==> |Encode(src)| < dst.Length
    modifies dst
    ensures src == [] ==> dst[..] == old(dst[..])
    ensures src != [] ==> dst[..|Encode(src)|] == Encode(src) && dst[|Encode(src)|] == 0
    ensures src != [] ==> forall j | |Encode(src)| < j < dst.Length :: dst[j] == old(dst[j])
  {
    hide Utf8Length, IsHigh, IsLow, PairCode, CodeBytes, Encode;
    if |src| == 0 {
      return;
    }
    var i: nat, cur: nat := 0, 0;
    ghost var written: Bytes := [];
    assert src[0..] == src;
    while i < |src|
      invariant i <= |src| && cur == |written| < dst.Length
      invariant Encode(src) == written + Encode(src[i..])
      invariant dst[..cur] == written
      invariant forall j | cur <= j < dst.Length :: dst[j] == old(dst[j])
    {
      var utf32, next := TakeCode(src, i);
      var len := Utf8Length(utf32);
      Regrouped(written, CodeBytes(utf32), Encode(src[next..]));
      CodepointToUtf8(dst, cur, utf32, len);
      i, cur, written := next, cur + len, written + CodeBytes(utf32);
    }
    assert src[i..] == [];
    NothingEncoded(0);
    dst[cur] := 0;
  }

  /** The reading half of the loop's body: a surrogate pair or a single unit. */
  method TakeCode(src: Units, i: nat) returns (utf32: bv32, next: nat)
    requires i < |src|
    ensures i < next <= |src| && Encode(src[i..]) == CodeBytes(utf32) + Encode(src[next..])
  {
    hide PairCode, CodeBytes, IsHigh, IsLow, Encode;
    ghost var rest := src[i..];
    EncodeFront(rest);
    if IsHigh(src[i]) && i + 1 < |src| && IsLow(src[i + 1]) {
      utf32, next := PairCode(src[i], src[i + 1]), i + 2;
      assert StartsPair(rest) && rest[2..] == src[next..];
    } else {
      utf32, next := src[i] as bv32, i + 1;
      assert !StartsPair(rest) && rest[1..] == src[next..];
    }
  }

  lemma EncodeFront(us: Units)
    requires us != []
    ensures StartsPair(us) ==> Encode(us) == CodeBytes(PairCode(us[0], us[1])) + Encode(us[2..])
    ensures !StartsPair(us) ==> Encode(us) == CodeBytes(us[0] as bv32) + Encode(us[1..])
  {
    hide PairCode, CodeBytes, IsHigh, IsLow;
  }

  lemma Regrouped<T>(a: seq<T>, b: seq<T>, c: seq<T>)
    ensures a + (b + c) == (a + b) + c
  {
  }

  // ------------------------------------------------------------------------
  // UTF-8 to UTF-16
  // ------------------------------------------------------------------------

  /** What lies in memory after the source bytes; a character cut short by the end is read from it. */
  type Memory = nat -> bv8

  function ByteAt(s: Bytes, beyond: Memory, k: nat): bv8 {
    if k < |s| then s[k] else beyond(k - |s|)
  }

  /** utf8_to_utf32_codepoint at the front of `s`, for the length its first byte announces. */
  function Code(s: Bytes, beyond: Memory): bv32
    requires s != []
  {
    match M.SeqLength(s[0])
    case 1 => s[0] as bv32
    case 2 => Join2(s[0], ByteAt(s, beyond, 1))
    case 3 => Join3(s[0], ByteAt(s, beyond, 1), ByteAt(s, beyond, 2))
    case _ => Join4(s[0], ByteAt(s, beyond, 1), ByteAt(s, beyond, 2), ByteAt(s, beyond, 3))
  }

  function Join2(b0: bv8, b1: bv8): bv32 { M.ShiftAndMask((b0 & 0x1f) as bv32, b1) }

  function Join3(b0: bv8, b1: bv8, b2: bv8): bv32 {
    M.ShiftAndMask(M.ShiftAndMask((b0 & 0x0f) as bv32, b1), b2)
  }

  function Join4(b0: bv8, b1: bv8, b2: bv8, b3: bv8): bv32 {
    M.ShiftAndMask(M.ShiftAndMask(M.ShiftAndMask((b0 & 0x07) as bv32, b1), b2), b3)
  }

  /** Any bytes, well-formed or not, are read as these sums of their low bits. */
  lemma JoinedBits(b0: bv8, b1: bv8, b2: bv8, b3: bv8)
    ensures Join2(b0, b1) == (b0 % 0x20) as bv32 * 0x40 + (b1 % 0x40) as bv32
    ensures Join3(b0, b1, b2) ==
              (b0 % 0x10) as bv32 * 0x1000 + (b1 % 0x40) as bv32 * 0x40 + (b2 % 0x40) as bv32
    ensures Join4(b0, b1, b2, b3) ==
              (b0 % 0x08) as bv32 * 0x40000 + (b1 % 0x40) as bv32 * 0x1000
              + (b2 % 0x40) as bv32 * 0x40 + (b3 % 0x40) as bv32
  {
    JoinedBits3(b0, b1, b2);
    JoinedBits4(b0, b1, b2, b3);
    hide Join3, Join4;
  }

  lemma JoinedBits3(b0: bv8, b1: bv8, b2: bv8)
    ensures Join3(b0, b1, b2) ==
              (b0 % 0x10) as bv32 * 0x1000 + (b1 % 0x40) as bv32 * 0x40 + (b2 % 0x40) as bv32
  {
  }

  lemma JoinedBits4(b0: bv8, b1: bv8, b2: bv8, b3: bv8)
    ensures Join4(b0, b1, b2, b3) ==
              (b0 % 0x08) as bv32 * 0x40000 + (b1 % 0x40) as bv32 * 0x1000
              + (b2 % 0x40) as bv32 * 0x40 + (b3 % 0x40) as bv32
  {
  }

  /** The stored halves of a surrogate pair, cut to 16 bits. */
  function HighUnit(above: bv32): bv16 { (((above >> 10) + 0xd800) & 0xffff) as bv16 }

  function LowUnit(above: bv32): bv16 { (((above & 0x3ff) + 0xdc00) & 0xffff) as bv16 }

  function UnitsOf(c: bv32): Units {
    if c <= 0xffff then [c as bv16]
    else [HighUnit(c - 0x10000), LowUnit(c - 0x10000)]
  }

  function Decode(s: Bytes, beyond: Memory): Units
    decreases |s|
  {
    if s == [] then []
    else UnitsOf(Code(s, beyond)) + Decode(Rest(s), beyond)
  }

  /** Where the cursor goes next; past the end the loops stop as they do at the end. */
  function Rest(s: Bytes): (t: Bytes)
    requires s != []
    ensures |t| < |s|
  {
    if M.SeqLength(s[0]) <= |s| then s[M.SeqLength(s[0])..] else []
  }

  /** The last character announces more bytes than there are. */
  predicate Overshoots(s: Bytes)
    decreases |s|
  {
    s != [] && (M.SeqLength(s[0]) > |s| || Overshoots(Rest(s)))
  }

  /** utf8_to_utf16_length: exact, or -1 precisely when the last character is cut short. */
  method Utf8ToUtf16Length(s: Bytes, beyond: Memory) returns (ret: int)
    ensures ret == if Overshoots(s) then -1 else |Decode(s, beyond)|
  {
    hide M.SeqLength, Code, UnitsOf, Decode, Overshoots;
    NothingDecoded(beyond);
    var measured: nat, cur: nat := 0, 0;
    ghost var rest := s;
    while cur < |s|
      invariant rest == if cur < |s| then s[cur..] else []
      invariant measured + |Decode(rest, beyond)| == |Decode(s, beyond)|
      invariant Overshoots(s) == if cur <= |s| then Overshoots(rest) else true
      decreases |s| - cur
    {
      measured := measured + 1;
      var n := M.SeqLength(s[cur]);
      var codepoint := Code(s[cur..], beyond);
      UnitsCount(codepoint);
      DecodeStep(rest, beyond);
      if codepoint > 0xffff {
        measured := measured + 1;
      }
      assert cur + n <= |s| ==> s[cur..][n..] == s[cur + n..];
      cur := cur + n;
      rest := Rest(rest);
    }
    if cur != |s| {
      return -1;
    }
    return measured;
  }

  lemma DecodeStep(s: Bytes, beyond: Memory)
    requires s != []
    ensures Decode(s, beyond) == UnitsOf(Code(s, beyond)) + Decode(Rest(s), beyond)
    ensures Overshoots(s) <==> M.SeqLength(s[0]) > |s| || Overshoots(Rest(s))
  {
  }

  lemma UnitsCount(c: bv32)
    ensures |UnitsOf(c)| == if c <= 0xffff then 1 else 2
  {
  }

  /** utf8_to_utf16_no_null_terminator. */
  method Utf8ToUtf16NoNullTerminator(s: Bytes, beyond: Memory, u16str: array<bv16>) returns (u16cur: nat)
    requires |Decode(s, beyond)| <= u16str.Length
    modifies u16str
    ensures u16cur == |Decode(s, beyond)| && u16str[..u16cur] == Decode(s, beyond)
    ensures forall j | u16cur <= j < u16str.Length :: u16str[j] == old(u16str[j])
  {
    hide M.SeqLength, Code, UnitsOf;
    var cur := 0;
    u16cur := 0;
    ghost var rest := s;
    while cur < |s|
      invariant u16cur <= u16str.Length && rest == if cur < |s| then s[cur..] else []
      invariant Decode(s, beyond) == u16str[..u16cur] + Decode(rest, beyond)
      invariant forall j | u16cur <= j < u16str.Length :: u16str[j] == old(u16str[j])
      decreases |s| - cur
    {
      ghost var done := u16str[..u16cur];
      var n := M.SeqLength(s[cur]);
      var codepoint := Code(s[cur..], beyond);
      Regrouped(done, UnitsOf(codepoint), Decode(Rest(rest), beyond));
      u16cur := PutCode(u16str, u16cur, codepoint);
      assert cur + n <= |s| ==> s[cur..][n..] == s[cur + n..];
      cur := cur + n;
      rest := Rest(rest);
    }
  }

  /** The body of the loop: one code point written at `at`. */
  method PutCode(u16str: array<bv16>, at: nat, codepoint: bv32) returns (next: nat)
    requires at + |UnitsOf(codepoint)| <= u16str.Length
    modifies u16str
    ensures next == at + |UnitsOf(codepoint)| && u16str[..next] == old(u16str[..at]) + UnitsOf(codepoint)
    ensures forall j | next <= j < u16str.Length :: u16str[j] == old(u16str[j])
  {
    if codepoint <= 0xffff {
      u16str[at] := codepoint as bv16;
      next := at + 1;
    } else {
      var above := codepoint - 0x10000;
      u16str[at] := HighUnit(above);
      u16str[at + 1] := LowUnit(above);
      next := at + 2;
    }
  }

  /** utf8_to_utf16. */
  method Utf8ToUtf16(s: Bytes, beyond: Memory, u16str: array<bv16>)
    requires |Decode(s, beyond)| < u16str.Length
    modifies u16str
    ensures u16str[..|Decode(s, beyond)|] == Decode(s, beyond) && u16str[|Decode(s, beyond)|] == 0
    ensures forall j | |Decode(s, beyond)| < j < u16str.Length :: u16str[j] == old(u16str[j])
  {
    var end := Utf8ToUtf16NoNullTerminator(s, beyond, u16str);
    u16str[end] := 0;
  }

  /** Once the length function has accepted the bytes, none after them has been looked at. */
  lemma {:induction false} NothingReadBeyond(s: Bytes, b1: Memory, b2: Memory)
    requires !Overshoots(s)
    ensures Decode(s, b1) == Decode(s, b2)
    decreases |s|
  {
    hide M.SeqLength, M.ShiftAndMask, UnitsOf;
    if s != [] {
      NothingReadBeyond(Rest(s), b1, b2);
      assert Code(s, b1) == Code(s, b2);
    }
  }

  // ------------------------------------------------------------------------
  // Round trips
  // ------------------------------------------------------------------------

  /** Every high surrogate is followed by a low one and every low one preceded by a high one. */
  predicate WellFormed16(us: Units) {
    && (forall i | 0 <= i < |us| && IsHigh(us[i]) :: i + 1 < |us| && IsLow(us[i + 1]))
    && (forall i | 0 <= i < |us| && IsLow(us[i]) :: 0 < i && IsHigh(us[i - 1]))
  }

  /** The source without its unpaired surrogates. */
  function Paired(us: Units): Units
    decreases |us|
  {
    if us == [] then []
    else if StartsPair(us) then us[..2] + Paired(us[2..])
    else (if IsHigh(us[0]) || IsLow(us[0]) then [] else [us[0]]) + Paired(us[1..])
  }

  lemma {:induction false} PairedNoLonger(us: Units)
    ensures |Paired(us)| <= |us|
    decreases |us|
  {
    hide IsHigh, IsLow;
    if us != [] {
      PairedNoLonger(us[if StartsPair(us) then 2 else 1..]);
    }
  }

  lemma {:induction false} PairedKeepsExactlyWellFormed(us: Units)
    ensures Paired(us) == us <==> WellFormed16(us)
    decreases |us|
  {
    hide IsHigh, IsLow;
    if us != [] {
      SurrogatesHaveNoLength(us[0]);
      var n := if StartsPair(us) then 2 else 1;
      var v := us[n..];
      PairedNoLonger(v);
      PairedKeepsExactlyWellFormed(v);
      if n == 2 {
        SurrogatesHaveNoLength(us[1]);
        PairInFront(us);
      } else if IsHigh(us[0]) || IsLow(us[0]) {
        assert |Paired(us)| < |us|;
      } else {
        PlainInFront(us);
      }
    }
  }

  lemma PairInFront(us: Units)
    requires StartsPair(us) && !IsLow(us[0]) && !IsHigh(us[1])
    ensures WellFormed16(us) <==> WellFormed16(us[2..])
    ensures us[..2] + Paired(us[2..]) == us <==> Paired(us[2..]) == us[2..]
  {
    hide IsHigh, IsLow;
    var v := us[2..];
    forall i | 0 <= i < |v| ensures v[i] == us[i + 2] {}
    assert us == us[..2] + v;
    if WellFormed16(us) {
      forall i | 0 <= i < |v| && IsLow(v[i]) ensures 0 < i && IsHigh(v[i - 1]) {
        assert IsLow(us[i + 2]) && IsHigh(us[i + 1]);
      }
    }
    if WellFormed16(v) {
      forall i | 0 <= i < |us| && IsHigh(us[i]) ensures i + 1 < |us| && IsLow(us[i + 1]) {
        assert i >= 2 ==> IsHigh(v[i - 2]);
      }
      forall i | 0 <= i < |us| && IsLow(us[i]) ensures 0 < i && IsHigh(us[i - 1]) {
        assert i >= 2 ==> IsLow(v[i - 2]);
      }
    }
    if us[..2] + Paired(v) == us {
      assert Paired(v) == (us[..2] + Paired(v))[2..];
    }
  }

  lemma PlainInFront(us: Units)
    requires us != [] && !IsHigh(us[0]) && !IsLow(us[0])
    ensures WellFormed16(us) <==> WellFormed16(us[1..])
    ensures [us[0]] + Paired(us[1..]) == us <==> Paired(us[1..]) == us[1..]
  {
    hide IsHigh, IsLow;
    var v := us[1..];
    forall i | 0 <= i < |v| ensures v[i] == us[i + 1] {}
    assert us == [us[0]] + v;
    if WellFormed16(us) {
      forall i | 0 <= i < |v| && IsLow(v[i]) ensures 0 < i && IsHigh(v[i - 1]) {
        assert IsLow(us[i + 1]) && IsHigh(us[i]);
      }
    }
    if WellFormed16(v) {
      forall i | 0 <= i < |us| && IsHigh(us[i]) ensures i + 1 < |us| && IsLow(us[i + 1]) {
        assert i >= 1 ==> IsHigh(v[i - 1]);
      }
      forall i | 0 <= i < |us| && IsLow(us[i]) ensures 0 < i && IsHigh(us[i - 1]) {
        assert i >= 1 ==> IsLow(v[i - 1]);
      }
    }
    if [us[0]] + Paired(v) == us {
      assert Paired(v) == ([us[0]] + Paired(v))[1..];
    }
  }

  predicate In(b: bv8, lo: bv8, hi: bv8) { lo <= b <= hi }

  /** One character of UTF-8, by the table in section 4 of RFC 3629. */
  predicate ValidChar(c: Bytes) {
    || (|c| == 1 && In(c[0], 0x00, 0x7f))
    || (|c| == 2 && In(c[0], 0xc2, 0xdf) && In(c[1], 0x80, 0xbf))
    || (|c| == 3 && In(c[2], 0x80, 0xbf)
        && (|| (c[0] == 0xe0 && In(c[1], 0xa0, 0xbf))
            || (In(c[0], 0xe1, 0xec) && In(c[1], 0x80, 0xbf))
            || (c[0] == 0xed && In(c[1], 0x80, 0x9f))
            || (In(c[0], 0xee, 0xef) && In(c[1], 0x80, 0xbf))))
    || (|c| == 4 && In(c[2], 0x80, 0xbf) && In(c[3], 0x80, 0xbf)
        && (|| (c[0] == 0xf0 && In(c[1], 0x90, 0xbf))
            || (In(c[0], 0xf1, 0xf3) && In(c[1], 0x80, 0xbf))
            || (c[0] == 0xf4 && In(c[1], 0x80, 0x8f))))
  }

  predicate WellFormed8(s: Bytes)
    decreases |s|
  {
    s != [] ==> exists n: nat | 1 <= n <= |s| :: ValidChar(s[..n]) && WellFormed8(s[n..])
  }

  lemma {:induction false} WellFormedIsCounted(us: Units)
    requires WellFormed16(us)
    ensures Missed(us, 0) == 0
    decreases |us|
  {
    hide IsHigh, IsLow;
    if us != [] {
      SurrogatesHaveNoLength(us[0]);
      if IsHigh(us[0]) {
        SurrogatesHaveNoLength(us[1]);
        PairInFront(us);
        WellFormedIsCounted(us[2..]);
        assert us[1..][1..] == us[2..];
        assert Missed(us, 0) == Missed(us[1..], 1) == Missed(us[2..], 0);
      } else {
        PlainInFront(us);
        WellFormedIsCounted(us[1..]);
      }
    }
  }

  /** The bytes of a code point are one valid character, and decode to it. */
  lemma CodeComesBack(c: bv32, beyond: Memory)
    requires Utf8Length(c) > 0
    ensures
      var s := CodeBytes(c);
      ValidChar(s) && M.SeqLength(s[0]) == |s| && Code(s, beyond) == c
  {
    hide ValidChar, M.SeqLength, Utf8Length, Code, CodeBytes;
    match Utf8Length(c)
    case 1 => OneByte(c, beyond);
    case 2 => TwoBytes(c, beyond);
    case 3 => ThreeBytes(c, beyond);
    case _ => FourBytes(c, beyond);
  }

  lemma OneByte(c: bv32, beyond: Memory)
    requires Utf8Length(c) == 1
    ensures
      var s := CodeBytes(c);
      ValidChar(s) && M.SeqLength(s[0]) == |s| && Code(s, beyond) == c
  {
  }

  lemma TwoBytes(c: bv32, beyond: Memory)
    requires Utf8Length(c) == 2
    ensures
      var s := CodeBytes(c);
      ValidChar(s) && M.SeqLength(s[0]) == |s| && Code(s, beyond) == c
  {
    TwoLead(c);
    TwoValid(c);
    TailFields(c);
    hide Utf8Length, ValidChar, In, M.SeqLength, Lead2, Tail, Join2;
    TwoJoined(c);
    assert CodeBytes(c) == [Lead2(c), Tail(c)];
  }

  lemma TwoLead(c: bv32)
    ensures M.SeqLength(Lead2(c)) == 2
  {
  }

  lemma TwoValid(c: bv32)
    requires Utf8Length(c) == 2
    ensures ValidChar([Lead2(c), Tail(c)])
  {
  }

  lemma TwoJoined(c: bv32)
    requires Utf8Length(c) == 2
    ensures Join2(Lead2(c), Tail(c)) == c
  {
  }

  lemma TailFields(x: bv32)
    ensures In(Tail(x), 0x80, 0xbf) && 0x3f & Tail(x) as bv32 == x & 0x3f
  {
  }

  lemma ThreeBytes(c: bv32, beyond: Memory)
    requires Utf8Length(c) == 3
    ensures
      var s := CodeBytes(c);
      ValidChar(s) && M.SeqLength(s[0]) == |s| && Code(s, beyond) == c
  {
    ThreeLead(c);
    ThreeValid(c);
    ThreeJoined(c);
    hide Utf8Length, ValidChar, M.SeqLength, Lead3, Tail, Join3;
    assert CodeBytes(c) == [Lead3(c), Tail(c >> 6), Tail(c)];
  }

  lemma ThreeLead(c: bv32)
    ensures M.SeqLength(Lead3(c)) == 3
  {
  }

  lemma ThreeValid(c: bv32)
    requires Utf8Length(c) == 3
    ensures ValidChar([Lead3(c), Tail(c >> 6), Tail(c)])
  {
    TailFields(c);
    TailFields(c >> 6);
    ThreeLeadRange(c);
    hide Tail, Lead3;
  }

  lemma ThreeLeadRange(c: bv32)
    requires Utf8Length(c) == 3
    ensures In(Lead3(c), 0xe0, 0xef)
    ensures Lead3(c) == 0xe0 ==> Tail(c >> 6) >= 0xa0
    ensures Lead3(c) == 0xed ==> Tail(c >> 6) <= 0x9f
  {
  }

  lemma ThreeJoined(c: bv32)
    requires Utf8Length(c) == 3
    ensures Join3(Lead3(c), Tail(c >> 6), Tail(c)) == c
  {
  }

  lemma FourBytes(c: bv32, beyond: Memory)
    requires Utf8Length(c) == 4
    ensures
      var s := CodeBytes(c);
      ValidChar(s) && M.SeqLength(s[0]) == |s| && Code(s, beyond) == c
  {
    FourLead(c);
    FourValid(c);
    FourJoined(c);
    hide Utf8Length, ValidChar, M.SeqLength, Lead4, Tail, Join4;
    assert CodeBytes(c) == [Lead4(c), Tail(c >> 12), Tail(c >> 6), Tail(c)];
  }

  lemma FourLead(c: bv32)
    ensures M.SeqLength(Lead4(c)) == 4
  {
  }

  lemma FourValid(c: bv32)
    requires Utf8Length(c) == 4
    ensures ValidChar([Lead4(c), Tail(c >> 12), Tail(c >> 6), Tail(c)])
  {
    TailFields(c);
    TailFields(c >> 6);
    TailFields(c >> 12);
    FourLeadRange(c);
    hide Tail, Lead4;
  }

  lemma FourLeadRange(c: bv32)
    requires Utf8Length(c) == 4
    ensures In(Lead4(c), 0xf0, 0xf4)
    ensures Lead4(c) == 0xf0 ==> Tail(c >> 12) >= 0x90
    ensures Lead4(c) == 0xf4 ==> Tail(c >> 12) <= 0x8f
  {
  }

  lemma FourJoined(c: bv32)
    requires Utf8Length(c) == 4
    ensures Join4(Lead4(c), Tail(c >> 12), Tail(c >> 6), Tail(c)) == c
  {
  }

  /** The code point of a valid character is valid, and encodes to it. */
  lemma CharComesBack(s: Bytes, beyond: Memory)
    requires ValidChar(s)
    ensures M.SeqLength(s[0]) == |s| == Utf8Length(Code(s, beyond)) && CodeBytes(Code(s, beyond)) == s
  {
    if |s| == 1 {
      OneCharByte(s, beyond);
    } else if |s| == 2 {
      TwoCharBytes(s, beyond);
    } else if |s| == 3 {
      ThreeCharBytes(s, beyond);
    } else {
      FourCharBytes(s, beyond);
    }
  }

  lemma OneCharByte(s: Bytes, beyond: Memory)
    requires |s| == 1 && ValidChar(s)
    ensures M.SeqLength(s[0]) == |s| == Utf8Length(Code(s, beyond)) && CodeBytes(Code(s, beyond)) == s
  {
  }

  lemma TwoCharBytes(s: Bytes, beyond: Memory)
    requires |s| == 2 && ValidChar(s)
    ensures M.SeqLength(s[0]) == |s| == Utf8Length(Code(s, beyond)) && CodeBytes(Code(s, beyond)) == s
  {
    LeadLengths(s[0]);
    TwoSplit(s[0], s[1]);
    hide In, M.SeqLength, Lead2, Tail, Join2, Utf8Length;
    assert Code(s, beyond) == Join2(s[0], s[1]);
  }

  lemma LeadLengths(b: bv8)
    ensures In(b, 0xc2, 0xdf) ==> M.SeqLength(b) == 2
    ensures In(b, 0xe0, 0xef) ==> M.SeqLength(b) == 3
    ensures In(b, 0xf0, 0xf4) ==> M.SeqLength(b) == 4
  {
  }

  lemma TwoSplit(b0: bv8, b1: bv8)
    requires In(b0, 0xc2, 0xdf) && In(b1, 0x80, 0xbf)
    ensures var c := Join2(b0, b1); Utf8Length(c) == 2 && Lead2(c) == b0 && Tail(c) == b1
  {
  }

  lemma ThreeCharBytes(s: Bytes, beyond: Memory)
    requires |s| == 3 && ValidChar(s)
    ensures M.SeqLength(s[0]) == |s| == Utf8Length(Code(s, beyond)) && CodeBytes(Code(s, beyond)) == s
  {
    hide ValidChar, In, M.SeqLength, Bytes3, Join3, Utf8Length;
    ThreeCharIs(s);
    LeadLengths(s[0]);
    ThreeRange(s[0], s[1], s[2]);
    ThreeSplit(s[0], s[1], s[2]);
    assert Code(s, beyond) == Join3(s[0], s[1], s[2]);
  }

  lemma ThreeCharIs(s: Bytes)
    requires |s| == 3 && ValidChar(s)
    ensures In(s[0], 0xe0, 0xef) && In(s[1], 0x80, 0xbf) && In(s[2], 0x80, 0xbf)
    ensures (s[0] == 0xe0 ==> s[1] >= 0xa0) && (s[0] == 0xed ==> s[1] <= 0x9f)
  {
  }

  lemma ThreeRange(b0: bv8, b1: bv8, b2: bv8)
    requires In(b0, 0xe0, 0xef) && In(b1, 0x80, 0xbf) && In(b2, 0x80, 0xbf)
    requires (b0 == 0xe0 ==> b1 >= 0xa0) && (b0 == 0xed ==> b1 <= 0x9f)
    ensures Utf8Length(Join3(b0, b1, b2)) == 3
  {
  }

  lemma ThreeSplit(b0: bv8, b1: bv8, b2: bv8)
    requires In(b0, 0xe0, 0xef) && In(b1, 0x80, 0xbf) && In(b2, 0x80, 0xbf)
    ensures Bytes3(Join3(b0, b1, b2)) == [b0, b1, b2]
  {
    ThreeFirst(b0, b1, b2);
    ThreeSecond(b0, b1, b2);
    ThreeThird(b0, b1, b2);
    hide Lead3, Tail, Join3, In;
  }

  lemma ThreeFirst(b0: bv8, b1: bv8, b2: bv8)
    requires In(b0, 0xe0, 0xef)
    ensures Lead3(Join3(b0, b1, b2)) == b0
  {
  }

  lemma ThreeSecond(b0: bv8, b1: bv8, b2: bv8)
    requires In(b1, 0x80, 0xbf)
    ensures Tail(Join3(b0, b1, b2) >> 6) == b1
  {
  }

  lemma ThreeThird(b0: bv8, b1: bv8, b2: bv8)
    requires In(b2, 0x80, 0xbf)
    ensures Tail(Join3(b0, b1, b2)) == b2
  {
  }

  lemma FourCharBytes(s: Bytes, beyond: Memory)
    requires |s| == 4 && ValidChar(s)
    ensures M.SeqLength(s[0]) == |s| == Utf8Length(Code(s, beyond)) && CodeBytes(Code(s, beyond)) == s
  {
    hide ValidChar, In, M.SeqLength, Bytes4, Join4, Utf8Length;
    FourCharIs(s);
    LeadLengths(s[0]);
    FourRange(s[0], s[1], s[2], s[3]);
    FourSplit(s[0], s[1], s[2], s[3]);
    assert Code(s, beyond) == Join4(s[0], s[1], s[2], s[3]);
  }

  lemma FourCharIs(s: Bytes)
    requires |s| == 4 && ValidChar(s)
    ensures In(s[0], 0xf0, 0xf4) && In(s[1], 0x80, 0xbf) && In(s[2], 0x80, 0xbf) && In(s[3], 0x80, 0xbf)
    ensures (s[0] == 0xf0 ==> s[1] >= 0x90) && (s[0] == 0xf4 ==> s[1] <= 0x8f)
  {
  }

  lemma FourRange(b0: bv8, b1: bv8, b2: bv8, b3: bv8)
    requires In(b0, 0xf0, 0xf4) && In(b1, 0x80, 0xbf) && In(b2, 0x80, 0xbf) && In(b3, 0x80, 0xbf)
    requires (b0 == 0xf0 ==> b1 >= 0x90) && (b0 == 0xf4 ==> b1 <= 0x8f)
    ensures Utf8Length(Join4(b0, b1, b2, b3)) == 4
  {
  }

  lemma FourSplit(b0: bv8, b1: bv8, b2: bv8, b3: bv8)
    requires In(b0, 0xf0, 0xf4) && In(b1, 0x80, 0xbf) && In(b2, 0x80, 0xbf) && In(b3, 0x80, 0xbf)
    ensures Bytes4(Join4(b0, b1, b2, b3)) == [b0, b1, b2, b3]
  {
    FourFirst(b0, b1, b2, b3);
    FourSecond(b0, b1, b2, b3);
    FourThird(b0, b1, b2, b3);
    FourFourth(b0, b1, b2, b3);
    hide Lead4, Tail, Join4, In;
  }

  lemma FourFirst(b0: bv8, b1: bv8, b2: bv8, b3: bv8)
    requires In(b0, 0xf0, 0xf4)
    ensures Lead4(Join4(b0, b1, b2, b3)) == b0
  {
  }

  lemma FourSecond(b0: bv8, b1: bv8, b2: bv8, b3: bv8)
    requires In(b1, 0x80, 0xbf)
    ensures Tail(Join4(b0, b1, b2, b3) >> 12) == b1
  {
  }

  lemma FourThird(b0: bv8, b1: bv8, b2: bv8, b3: bv8)
    requires In(b2, 0x80, 0xbf)
    ensures Tail(Join4(b0, b1, b2, b3) >> 6) == b2
  {
  }

  lemma FourFourth(b0: bv8, b1: bv8, b2: bv8, b3: bv8)
    requires In(b3, 0x80, 0xbf)
    ensures Tail(Join4(b0, b1, b2, b3)) == b3
  {
  }

  /** A code point's units read back as the code point and nothing else. */
  lemma UnitsOfCode(c: bv32)
    requires Utf8Length(c) > 0
    ensures c <= 0xffff ==> UnitsOf(c) == [c as bv16] && !IsHigh(c as bv16) && !IsLow(c as bv16)
    ensures c > 0xffff ==> StartsPair(UnitsOf(c)) && PairCode(UnitsOf(c)[0], UnitsOf(c)[1]) == c
  {
    if c <= 0xffff {
      SurrogatesHaveNoLength(c as bv16);
      ThereAndBack(c);
    } else {
      LargeCode(c);
    }
  }

  lemma LargeCode(c: bv32)
    requires 0xffff < c <= MAX_CODEPOINT
    ensures StartsPair(UnitsOf(c)) && PairCode(UnitsOf(c)[0], UnitsOf(c)[1]) == c
  {
    hide IsHigh, IsLow, HighUnit, LowUnit, PairCode;
    SplitAndJoined(c);
  }

  lemma SplitAndJoined(c: bv32)
    requires 0xffff < c <= MAX_CODEPOINT
    ensures
      var h, l := HighUnit(c - 0x10000), LowUnit(c - 0x10000);
      IsHigh(h) && IsLow(l) && PairCode(h, l) == c
  {
  }

  lemma UnitsOfPair(h: bv16, l: bv16)
    requires IsHigh(h) && IsLow(l)
    ensures UnitsOf(PairCode(h, l)) == [h, l]
  {
    PairRange(h, l);
    hide IsHigh, IsLow, HighUnit, LowUnit, PairCode;
    JoinedAndSplit(h, l);
  }

  lemma JoinedAndSplit(h: bv16, l: bv16)
    requires IsHigh(h) && IsLow(l)
    ensures
      var above := PairCode(h, l) - 0x10000;
      HighUnit(above) == h && LowUnit(above) == l
  {
  }

  /** The converters agree with the standards' own definitions on every code point. */
  lemma CodeBytesAreUtf8(c: bv32)
    requires Utf8Length(c) > 0
    ensures CodeBytes(c) == Utf8(c)
  {
    hide Lead2, Lead3, Lead4, Tail, Continuation;
    Leads(c);
    TailIs(c);
    TailIs(c >> 6);
    TailIs(c >> 12);
    M.Divided(c);
  }

  lemma Leads(c: bv32)
    ensures Utf8Length(c) == 2 ==> 0xc0 + c / 0x40 < 0x100 && (0xc0 + c / 0x40) as bv8 == Lead2(c)
    ensures Utf8Length(c) == 3 ==> 0xe0 + c / 0x1000 < 0x100 && (0xe0 + c / 0x1000) as bv8 == Lead3(c)
    ensures Utf8Length(c) == 4 ==> 0xf0 + c / 0x40000 < 0x100 && (0xf0 + c / 0x40000) as bv8 == Lead4(c)
  {
  }

  lemma TailIs(x: bv32)
    ensures Tail(x) == Continuation(x)
  {
  }

  lemma UnitsAreUtf16(c: bv32)
    requires c <= MAX_CODEPOINT
    ensures UnitsOf(c) == Utf16(c)
  {
    hide HighUnit, LowUnit, High, Low;
    if c > 0xffff {
      HalvesAre(c - 0x10000);
    }
  }

  lemma HalvesAre(d: bv32)
    requires d <= 0xfffff
    ensures HighUnit(d) == High(d) && LowUnit(d) == Low(d)
  {
  }

  lemma PairCodeIsUtf16(h: bv16, l: bv16)
    requires IsHigh(h) && IsLow(l)
    ensures PairCode(h, l) <= MAX_CODEPOINT && Utf16(PairCode(h, l)) == [h, l] && IsPairOf(h, l, PairCode(h, l))
  {
    hide IsHigh, IsLow, PairCode, UnitsOf, IsPairOf, Utf16;
    PairRange(h, l);
    UnitsOfPair(h, l);
    UnitsAreUtf16(PairCode(h, l));
    PairOf(PairCode(h, l));
  }

  /** The decoder takes one character from the front, whatever follows it. */
  lemma DecodeFront(ch: Bytes, rest: Bytes, beyond: Memory)
    requires ch != [] && M.SeqLength(ch[0]) == |ch|
    ensures Decode(ch + rest, beyond) == UnitsOf(Code(ch, beyond)) + Decode(rest, beyond)
    ensures Overshoots(ch + rest) == Overshoots(rest)
  {
    hide M.SeqLength, M.ShiftAndMask, UnitsOf;
    assert (ch + rest)[|ch|..] == rest;
    assert forall k | 0 <= k < |ch| :: (ch + rest)[k] == ch[k];
    assert Code(ch + rest, beyond) == Code(ch, beyond);
  }

  lemma WellFormedFront(ch: Bytes, rest: Bytes)
    requires ValidChar(ch) && WellFormed8(rest)
    ensures WellFormed8(ch + rest)
  {
    hide ValidChar;
    var n := |ch|;
    assert ch != [] by { assert !ValidChar([]) by { ValidCharIsNotEmpty(); } }
    assert (ch + rest)[..n] == ch && (ch + rest)[n..] == rest;
  }

  lemma ValidCharIsNotEmpty()
    ensures !ValidChar([])
  {
  }

  /**
   Decoding what utf16_to_utf8 wrote gives the source without its unpaired
   surrogates, and what it wrote is well-formed UTF-8 whatever the source.
   */
  lemma {:induction false} DecodeEncode(us: Units, beyond: Memory)
    ensures WellFormed8(Encode(us)) && !Overshoots(Encode(us))
    ensures Decode(Encode(us), beyond) == Paired(us)
    decreases |us|
  {
    hide M.SeqLength, Utf8Length, IsHigh, IsLow, PairCode, CodeBytes, UnitsOf, Encode, Decode, WellFormed8, Overshoots;
    if us == [] {
      NothingEncoded(0);
      NothingDecoded(beyond);
    } else if StartsPair(us) {
      EncodeFront(us);
      DecodeEncode(us[2..], beyond);
      PairRange(us[0], us[1]);
      UnitsOfPair(us[0], us[1]);
      CodeInFront(PairCode(us[0], us[1]), Encode(us[2..]), beyond);
      assert us[..2] == [us[0], us[1]];
    } else {
      EncodeFront(us);
      SurrogatesHaveNoLength(us[0]);
      DecodeEncode(us[1..], beyond);
      UnitInFront(us[0], Encode(us[1..]), beyond);
    }
  }

  lemma UnitInFront(u: bv16, rest: Bytes, beyond: Memory)
    requires WellFormed8(rest) && !Overshoots(rest)
    ensures
      var s := CodeBytes(u as bv32) + rest;
      && WellFormed8(s) && !Overshoots(s)
      && Decode(s, beyond) == (if IsHigh(u) || IsLow(u) then [] else [u]) + Decode(rest, beyond)
  {
    hide Utf8Length, IsHigh, IsLow, CodeBytes, UnitsOf, Decode, WellFormed8, Overshoots;
    SurrogatesHaveNoLength(u);
    if Utf8Length(u as bv32) > 0 {
      BasicCode(u);
      CodeInFront(u as bv32, rest, beyond);
    } else {
      assert CodeBytes(u as bv32) + rest == rest;
    }
  }

  lemma CodeInFront(c: bv32, rest: Bytes, beyond: Memory)
    requires Utf8Length(c) > 0 && WellFormed8(rest) && !Overshoots(rest)
    ensures WellFormed8(CodeBytes(c) + rest) && !Overshoots(CodeBytes(c) + rest)
    ensures Decode(CodeBytes(c) + rest, beyond) == UnitsOf(c) + Decode(rest, beyond)
  {
    hide M.SeqLength, Utf8Length, Code, CodeBytes, UnitsOf, ValidChar, Decode, WellFormed8, Overshoots;
    CodeComesBack(c, beyond);
    DecodeFront(CodeBytes(c), rest, beyond);
    WellFormedFront(CodeBytes(c), rest);
  }

  lemma BasicCode(u: bv16)
    ensures UnitsOf(u as bv32) == [u]
  {
  }

  lemma NothingDecoded(beyond: Memory)
    ensures Decode([], beyond) == [] && !Overshoots([]) && WellFormed8([])
  {
  }

  /** The round trip is the identity on exactly the well-formed sources. */
  lemma RoundTripIffWellFormed(us: Units, beyond: Memory)
    ensures Decode(Encode(us), beyond) == us <==> WellFormed16(us)
    ensures WellFormed16(us) ==> |Encode(us)| == CountBytes(us)
  {
    DecodeEncode(us, beyond);
    PairedKeepsExactlyWellFormed(us);
    LengthFallsShort(us, 0);
    if WellFormed16(us) {
      WellFormedIsCounted(us);
    }
  }

  /** The other way round: all well-formed UTF-8 survives, through well-formed UTF-16. */
  lemma {:induction false} EncodeDecode(s: Bytes, beyond: Memory)
    requires WellFormed8(s)
    ensures !Overshoots(s)
    ensures Encode(Decode(s, beyond)) == s && WellFormed16(Decode(s, beyond))
    decreases |s|
  {
    hide M.SeqLength, Utf8Length, IsHigh, IsLow, PairCode, Code, CodeBytes, UnitsOf, ValidChar;
    hide Encode, Decode, Overshoots, WellFormed16;
    if s == [] {
      NothingEncoded(0);
      NothingDecoded(beyond);
    } else {
      var n: nat :| 1 <= n <= |s| && ValidChar(s[..n]) && WellFormed8(s[n..]);
      var ch := s[..n];
      var c, v := Code(ch, beyond), Decode(s[n..], beyond);
      EncodeDecode(s[n..], beyond);
      CharComesBack(ch, beyond);
      assert s == ch + s[n..];
      DecodeFront(ch, s[n..], beyond);
      EncodeUnits(c, v);
    }
    DecodeEncode(Decode(s, beyond), beyond);
    PairedKeepsExactlyWellFormed(Decode(s, beyond));
  }

  lemma EncodeUnits(c: bv32, v: Units)
    requires Utf8Length(c) > 0
    ensures Encode(UnitsOf(c) + v) == CodeBytes(c) + Encode(v)
  {
    hide Utf8Length, IsHigh, IsLow, PairCode, CodeBytes, UnitsOf, Encode;
    var us := UnitsOf(c) + v;
    UnitsOfCode(c);
    EncodeFront(us);
    if c <= 0xffff {
      ThereAndBack(c);
      assert us[1..] == v;
    } else {
      assert |UnitsOf(c)| == 2 by { LargeHasTwo(c); }
      assert us[2..] == v;
    }
  }

  lemma LargeHasTwo(c: bv32)
    requires c > 0xffff
    ensures |UnitsOf(c)| == 2
  {
  }
}
