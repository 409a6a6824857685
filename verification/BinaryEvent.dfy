/**
 Printing a binary event - an int, a long, a string or a list of events - into
 a buffer of limited room, against the event tree the bytes parse to.
 */
module BinaryEvents {
  import opened Bits
  import opened Wrappers

  type Bytes = seq<u8>

  const EVENT_TYPE_INT: u8 := 0
  const EVENT_TYPE_LONG: u8 := 1
  const EVENT_TYPE_STRING: u8 := 2
  const EVENT_TYPE_LIST: u8 := 3

  const OPEN: u8 := '[' as int
  const COMMA: u8 := ',' as int
  const CLOSE: u8 := ']' as int
  const BANG: u8 := '!' as int
  const NEWLINE: u8 := '\n' as int

  datatype Event =
    | Int(i: i32)
    | Long(l: i64)
    | Str(s: Bytes)
    | List(items: seq<Event>)

  function Get4LE(src: Bytes): u32
    requires |src| >= 4
  {
    U32(Or(Or(Or(src[0], Shl(src[1], 8)), Shl(src[2], 16)), Shl(src[3], 24)))
  }

  function Get8LE(src: Bytes): u64
    requires |src| >= 8
  {
    U64(Or(Shl(Get4LE(src[4..]), 32), Get4LE(src)))
  }

  function Digits(n: nat): Bytes {
    (if n < 10 then [] else Digits(n / 10)) + ['0' as int + n % 10]
  }

  /** %d and %lld */
  function Decimal(n: int): (text: Bytes)
    ensures text != []
  {
    if n < 0 then ['-' as int] + Digits(-n) else Digits(n)
  }

  /** The number some digits denote. */
  function Value(text: Bytes): int {
    if text == [] then 0 else 10 * Value(text[..|text| - 1]) + text[|text| - 1] as int - '0' as int
  }

  /** Digits denote the number, and there is no leading zero but in "0" itself. */
  lemma {:induction false} DigitsDenote(n: nat)
    ensures Digits(n) != [] && Value(Digits(n)) == n
    ensures forall i | 0 <= i < |Digits(n)| :: '0' as int <= Digits(n)[i] <= '9' as int
    ensures Digits(n)[0] == '0' as int <==> n == 0
    decreases n
  {
    hide Digits, Value;
    DigitsUnfold(n);
    if n < 10 {
      OneDigit(n);
    } else {
      DigitsDenote(n / 10);
      ValueSnoc(Digits(n / 10), '0' as int + n % 10);
    }
  }

  lemma DigitsUnfold(n: nat)
    ensures Digits(n) == if n < 10 then ['0' as int + n] else Digits(n / 10) + ['0' as int + n % 10]
  {
  }

  lemma OneDigit(n: nat)
    requires n < 10
    ensures Value(['0' as int + n]) == n
  {
    assert ['0' as int + n][..0] == [];
  }

  lemma ValueSnoc(text: Bytes, d: u8)
    ensures Value(text + [d]) == 10 * Value(text) + d as int - '0' as int
  {
    assert (text + [d])[..|text|] == text;
  }

  /** A number of at most k digits is written in at most k. */
  lemma {:induction false} DigitsCount(n: nat, k: nat)
    requires k > 0 && n < Pow10(k)
    ensures |Digits(n)| <= k
    decreases n
  {
    if n >= 10 {
      assert k > 1 && n / 10 < Pow10(k - 1);
      DigitsCount(n / 10, k - 1);
    }
  }

  function Pow10(k: nat): (p: nat)
    ensures p > 0
  {
    if k == 0 then 1 else 10 * Pow10(k - 1)
  }

  lemma DecimalCount(n: int)
    ensures -0x8000_0000 <= n < 0x8000_0000 ==> |Decimal(n)| <= 11
    ensures -TWO63 <= n < TWO63 ==> |Decimal(n)| <= 20
  {
    Pow10Of10();
    var m: nat := if n < 0 then -n else n;
    if m <= 0x8000_0000 {
      DigitsCount(m, 10);
    }
    if m <= TWO63 {
      DigitsCount(m, 19);
    }
  }

  lemma Pow10Of10()
    ensures Pow10(10) == 10_000_000_000 && Pow10(19) == 10_000_000_000_000_000_000
  {
    assert Pow10(5) == 100_000;
    assert Pow10(10) == 10_000_000_000;
    assert Pow10(15) == 1_000_000_000_000_000;
  }

  // ------------------------------------------------------------------------
  // The event tree
  // ------------------------------------------------------------------------

  function ParseAtom(data: Bytes): (r: Option<(Event, nat)>)
    ensures r.Some? ==> 0 < r.value.1 <= |data| && !r.value.0.List?
  {
    if |data| < 1 then None
    else if data[0] == EVENT_TYPE_INT then
      if |data| < 5 then None else Some((Int(I32(Get4LE(data[1..]))), 5))
    else if data[0] == EVENT_TYPE_LONG then
      if |data| < 9 then None else Some((Long(I64(Get8LE(data[1..]))), 9))
    else if data[0] == EVENT_TYPE_STRING then
      if |data| < 5 then None else ParseString(data, Get4LE(data[1..]))
    else None
  }

  function ParseString(data: Bytes, len: nat): (r: Option<(Event, nat)>)
    requires |data| >= 5
    ensures r.Some? ==> 0 < r.value.1 <= |data| && r.value.0.Str?
  {
    if |data| - 5 < len then None else Some((Str(data[5..5 + len]), 5 + len))
  }

  /** The tree at the front of the data and the number of bytes it takes. */
  function Parse(data: Bytes): (r: Option<(Event, nat)>)
    ensures r.Some? ==> 0 < r.value.1 <= |data|
    decreases |data|, 0
  {
    if |data| < 1 || data[0] != EVENT_TYPE_LIST then ParseAtom(data)
    else if |data| < 2 then None
    else
      match ParseItems(data[2..], data[1])
      case None => None
      case Some((items, used)) => Some((List(items), 2 + used))
  }

  function ParseItems(data: Bytes, n: nat): (r: Option<(seq<Event>, nat)>)
    ensures r.Some? ==> |r.value.0| == n && r.value.1 <= |data|
    decreases |data|, 1, n
  {
    if n == 0 then Some(([], 0))
    else
      match Parse(data)
      case None => None
      case Some((first, used)) =>
        match ParseItems(data[used..], n - 1)
        case None => None
        case Some((rest, used')) => Some(([first] + rest, used + used'))
  }

  function Show(e: Event): (text: Bytes)
    ensures e.List? ==> |text| >= 2
    decreases e, 0
  {
    match e
    case Int(i) => Decimal(i)
    case Long(l) => Decimal(l)
    case Str(s) => s
    case List(items) => [OPEN] + ShowItems(items)
  }

  /** The items with their commas, and the closing bracket. */
  function ShowItems(items: seq<Event>): (text: Bytes)
    ensures |text| >= 1
    decreases items, 1
  {
    if items == [] then [CLOSE]
    else if |items| == 1 then Show(items[0]) + [CLOSE]
    else Show(items[0]) + [COMMA] + ShowItems(items[1..])
  }

  // ------------------------------------------------------------------------
  // android_log_printBinaryEvent
  // ------------------------------------------------------------------------

  /** The return value, and by how much the two cursors advance. */
  datatype Printed = Printed(result: int, used: nat, out: Bytes)

  const FAILED: Printed := Printed(-1, 0, [])

  /** The text must leave room for the terminator snprintf writes. */
  function PrintNumber(text: Bytes, used: nat, room: nat): Printed {
    if |text| < room then Printed(0, used, text) else Printed(1, used, [])
  }

  /** A string into no room at all prints nothing and still reports success. */
  function PrintString(s: Bytes, room: nat): Printed {
    if |s| < room then Printed(0, 5 + |s|, s)
    else if room > 0 then Printed(1, 5, s[..room])
    else Printed(0, 5 + |s|, [])
  }

  function PrintAtom(data: Bytes, room: nat): (r: Printed)
    ensures r.used <= |data| && |r.out| <= room && -1 <= r.result <= 1
    ensures r.result == 0 ==> r.used > 0
  {
    hide Get4LE, Get8LE, Decimal;
    if |data| < 1 then FAILED
    else if data[0] == EVENT_TYPE_INT then
      if |data| < 5 then FAILED else PrintNumber(Decimal(I32(Get4LE(data[1..]))), 5, room)
    else if data[0] == EVENT_TYPE_LONG then
      if |data| < 9 then FAILED else PrintNumber(Decimal(I64(Get8LE(data[1..]))), 9, room)
    else if data[0] == EVENT_TYPE_STRING then
      if |data| < 5 then FAILED
      else
        var len := Get4LE(data[1..]);
        if |data| - 5 < len then FAILED else PrintString(data[5..5 + len], room)
    else FAILED
  }

  function PrintEvent(data: Bytes, room: nat): (r: Printed)
    ensures r.used <= |data| && |r.out| <= room && -1 <= r.result <= 1
    ensures r.result == 0 ==> r.used > 0
    decreases |data|, 0
  {
    if |data| < 1 || data[0] != EVENT_TYPE_LIST then PrintAtom(data, room)
    else if |data| < 2 then FAILED
    else if room == 0 then Printed(1, 2, [])
    else
      var p := PrintItems(data[2..], data[1], room - 1);
      Printed(p.result, 2 + p.used, [OPEN] + p.out)
  }

  /** The rest of a list with `n` items to go. */
  function PrintItems(data: Bytes, n: nat, room: nat): (r: Printed)
    ensures r.used <= |data| && |r.out| <= room && -1 <= r.result <= 1
    decreases |data|, 1, n
  {
    if n == 0 then
      if room > 0 then Printed(0, 0, [CLOSE]) else Printed(1, 0, [])
    else
      var p := PrintEvent(data, room);
      if p.result != 0 then p
      else
        var room' := room - |p.out|;
        if n == 1 then Then(p, PrintItems(data[p.used..], 0, room'), [])
        else if room' == 0 then Printed(1, p.used, p.out)
        else Then(p, PrintItems(data[p.used..], n - 1, room' - 1), [COMMA])
  }

  function Then(p: Printed, q: Printed, sep: Bytes): Printed {
    Printed(q.result, p.used + q.used, p.out + sep + q.out)
  }

  // ------------------------------------------------------------------------
  // Printing renders the tree
  // ------------------------------------------------------------------------

  /** Numbers and strings need a byte beyond their text; a list needs only its text. */
  function Needed(e: Event): nat { |Show(e)| + (if e.List? then 0 else 1) }

  /**
   With any room, printing a well-formed event succeeds exactly when what it
   needs is there - or when it is a string and there is no room at all - and
   otherwise stops on a proper prefix of the rendering: as much of a string as
   there is room for, and nothing of a number.
   */
  ghost predicate Renders(e: Event, used: nat, p: Printed, room: nat) {
    && (p.result == 0 <==> Needed(e) <= room || (e.Str? && room == 0))
    && (p.result == 0 ==> p.used == used && p.out == if room == 0 then [] else Show(e))
    && (p.result != 0 ==> p.result == 1 && p.out <= Show(e))
    && (p.result != 0 && e.Str? ==> |p.out| == room)
    && (p.result != 0 && !e.Str? && !e.List? ==> p.out == [])
  }

  lemma {:induction false} PrintRenders(data: Bytes, room: nat)
    ensures
      match Parse(data)
      case None => PrintEvent(data, room).result != 0
      case Some((e, used)) => Renders(e, used, PrintEvent(data, room), room)
    decreases |data|, 0
  {
    hide Get4LE, Get8LE, Decimal, ParseItems, PrintItems, ShowItems, Or;
    if |data| >= 2 && data[0] == EVENT_TYPE_LIST && room > 0 {
      PrintItemsRenders(data[2..], data[1], room - 1);
    }
  }

  ghost predicate RendersItems(items: seq<Event>, used: nat, p: Printed, room: nat) {
    && (p.result == 0 <==> |ShowItems(items)| <= room)
    && (p.result == 0 ==> p.used == used && p.out == ShowItems(items))
    && (p.result != 0 ==> p.result == 1 && p.out <= ShowItems(items))
  }

  lemma {:induction false} PrintItemsRenders(data: Bytes, n: nat, room: nat)
    ensures
      match ParseItems(data, n)
      case None => PrintItems(data, n, room).result != 0
      case Some((items, used)) => RendersItems(items, used, PrintItems(data, n, room), room)
    decreases |data|, 1, n
  {
    hide Parse, PrintEvent, Show;
    if n > 0 {
      PrintRenders(data, room);
      var p := PrintEvent(data, room);
      if p.result == 0 {
        var room' := room - |p.out|;
        if n == 1 {
          PrintItemsRenders(data[p.used..], 0, room');
        } else if room' > 0 {
          PrintItemsRenders(data[p.used..], n - 1, room' - 1);
        }
      }
      if ParseItems(data, n).Some? {
        ItemRenders(data, n, room);
      }
    }
  }

  /** One item and the rest of the list render the list. */
  lemma ItemRenders(data: Bytes, n: nat, room: nat)
    requires n > 0 && ParseItems(data, n).Some? && Parse(data).Some?
    requires Renders(Parse(data).value.0, Parse(data).value.1, PrintEvent(data, room), room)
    requires
      var p := PrintEvent(data, room); var (_, used) := Parse(data).value;
      p.result == 0 && |p.out| < room && ParseItems(data[used..], n - 1).Some? ==>
        var (rest, used') := ParseItems(data[used..], n - 1).value;
        if n == 1 then RendersItems(rest, used', PrintItems(data[used..], 0, room - |p.out|), room - |p.out|)
        else RendersItems(rest, used', PrintItems(data[used..], n - 1, room - |p.out| - 1), room - |p.out| - 1)
    ensures RendersItems(ParseItems(data, n).value.0, ParseItems(data, n).value.1, PrintItems(data, n, room), room)
  {
    hide Parse, ParseItems, PrintEvent, PrintItems, Show, ShowItems;
    ItemsText(data, n);
    ItemsUnfold(data, n, room);
    var p := PrintEvent(data, room);
    var (e, used) := Parse(data).value;
    var (rest, used') := ParseItems(data[used..], n - 1).value;
    var sep := if n == 1 then [] else [COMMA];
    var text := Show(e) + sep + ShowItems(rest);
    assert ShowItems(ParseItems(data, n).value.0) == text;
    if p.result != 0 {
      assert p.out <= Show(e) <= text;
    } else if |p.out| == room {
      NoItems(data[p.used..], 0);
      assert p.out <= Show(e) <= text;
    } else {
      var q := if n == 1 then PrintItems(data[used..], 0, room - |p.out|)
               else PrintItems(data[used..], n - 1, room - |p.out| - 1);
      PrefixThen(p.out, sep, q.out, ShowItems(rest));
      assert PrintItems(data, n, room) == Then(p, q, sep);
    }
  }

  lemma PrefixThen(a: Bytes, sep: Bytes, b: Bytes, c: Bytes)
    ensures b <= c ==> a + sep + b <= a + sep + c
  {
  }

  lemma ItemsText(data: Bytes, n: nat)
    requires n > 0 && ParseItems(data, n).Some?
    ensures Parse(data).Some? && ParseItems(data[Parse(data).value.1..], n - 1).Some?
    ensures
      var (first, used) := Parse(data).value; var rest := ParseItems(data[used..], n - 1).value.0;
      ShowItems(ParseItems(data, n).value.0) ==
        Show(first) + (if n == 1 then [] else [COMMA]) + ShowItems(rest)
    ensures
      var (_, used) := Parse(data).value;
      ParseItems(data, n).value.1 == used + ParseItems(data[used..], n - 1).value.1
  {
    var (first, used) := Parse(data).value;
    var rest := ParseItems(data[used..], n - 1).value.0;
    var items := [first] + rest;
    assert items[1..] == rest;
    assert n == 1 ==> rest == [];
  }

  /** What was printed is short of three bytes for each byte read by at least one. */
  predicate Small(p: Printed) { p.result == 0 ==> |p.out| + 1 <= 3 * p.used }

  /**
   With more than three bytes of room for each byte of data nothing is cut
   short: the event is printed, or refused because the data do not parse.
   */
  lemma {:induction false} EnoughRoom(data: Bytes, room: nat)
    requires room > 3 * |data|
    ensures
      var p := PrintEvent(data, room);
      && Small(p) && p.result == (if Parse(data).Some? then 0 else -1)
    decreases |data|, 0
  {
    hide PrintAtom, PrintItems, ParseItems, ParseAtom;
    if |data| >= 2 && data[0] == EVENT_TYPE_LIST {
      EnoughRoomItems(data[2..], data[1], room - 1);
    } else {
      EnoughRoomAtom(data, room);
    }
  }

  lemma EnoughRoomAtom(data: Bytes, room: nat)
    requires room > 3 * |data|
    ensures Small(PrintAtom(data, room)) && PrintAtom(data, room).result == (if ParseAtom(data).Some? then 0 else -1)
  {
    hide Decimal, Get4LE, Get8LE, Or;
    if |data| >= 5 {
      DecimalCount(I32(Get4LE(data[1..])));
    }
    if |data| >= 9 {
      DecimalCount(I64(Get8LE(data[1..])));
    }
  }

  lemma {:induction false} EnoughRoomItems(data: Bytes, n: nat, room: nat)
    requires room >= 3 * |data| + 5
    ensures
      var p := PrintItems(data, n, room);
      && p.result == (if ParseItems(data, n).Some? then 0 else -1)
      && (p.result == 0 ==> |p.out| <= 3 * p.used + 1)
    decreases |data|, 1, n
  {
    hide PrintEvent, PrintItems, Parse;
    if n == 0 {
      NoItems(data, room);
    } else {
      EnoughRoom(data, room);
      ItemsUnfold(data, n, room);
      var p := PrintEvent(data, room);
      if p.result == 0 {
        PrintRenders(data, room);
        var left := room - |p.out|;
        EnoughRoomItems(data[p.used..], n - 1, if n == 1 then left else left - 1);
      }
    }
  }

  /** The notation in ASCII: '[' and ']' around a list, ',' between its items, '-' before a negative number. */
  lemma Notation(first: Event, rest: seq<Event>, n: nat)
    ensures Show(List([])) == [0x5b, 0x5d]
    ensures Show(List([first])) == [0x5b] + Show(first) + [0x5d]
    ensures rest != [] ==>
              Show(List([first] + rest)) == [0x5b] + Show(first) + [0x2c] + Show(List(rest))[1..]
    ensures n > 0 ==> Decimal(0 - n) == [0x2d] + Decimal(n)
  {
    MinusSign(n);
    hide Decimal;
    if rest != [] {
      TwoOrMore(first, rest);
    }
  }

  lemma MinusSign(n: nat)
    ensures n > 0 ==> Decimal(0 - n) == [0x2d] + Decimal(n)
  {
    hide Digits;
  }

  lemma TwoOrMore(first: Event, rest: seq<Event>)
    requires rest != []
    ensures Show(List([first] + rest)) == [0x5b] + Show(first) + [0x2c] + Show(List(rest))[1..]
  {
    hide Decimal;
    var items := [first] + rest;
    assert items[1..] == rest;
    var tail := ShowItems(rest);
    assert Show(List(rest)) == [0x5b] + tail;
    assert Show(List(items)) == [0x5b] + (Show(first) + [0x2c] + tail);
  }

  /**
   A smaller buffer gets a prefix of what a larger one gets, also from data
   that is malformed further on; success and failure do not depend on the room.
   */
  lemma {:induction false} SmallerRoomIsPrefix(data: Bytes, room: nat, more: nat)
    requires room <= more
    ensures PrintEvent(data, room).out <= PrintEvent(data, more).out
    ensures PrintEvent(data, room).result == -1 || (PrintEvent(data, room).result == 0 && room > 0) ==>
              PrintEvent(data, more) == PrintEvent(data, room)
    decreases |data|, 0
  {
    hide Get4LE, Get8LE, Decimal, PrintItems, Or;
    if |data| >= 2 && data[0] == EVENT_TYPE_LIST && room > 0 {
      SmallerRoomIsPrefixItems(data[2..], data[1], room - 1, more - 1);
    }
  }

  lemma {:induction false} SmallerRoomIsPrefixItems(data: Bytes, n: nat, room: nat, more: nat)
    requires room <= more
    ensures PrintItems(data, n, room).out <= PrintItems(data, n, more).out
    ensures PrintItems(data, n, room).result != 1 ==> PrintItems(data, n, more) == PrintItems(data, n, room)
    decreases |data|, 1, n
  {
    hide PrintEvent, PrintItems;
    if n == 0 {
      NoItems(data, room);
      NoItems(data, more);
    } else {
      ItemsUnfold(data, n, room);
      ItemsUnfold(data, n, more);
      SmallerRoomIsPrefix(data, room, more);
      var p := PrintEvent(data, room);
      if room == 0 {
        assert PrintItems(data, n, room).out == [];
        NothingFitsNothing(data, n);
      } else if p.result == 0 {
        var left := room - |p.out|;
        var left' := more - |p.out|;
        if n == 1 {
          SmallerRoomIsPrefixItems(data[p.used..], 0, left, left');
        } else if left > 0 {
          SmallerRoomIsPrefixItems(data[p.used..], n - 1, left - 1, left' - 1);
        }
      }
    }
  }

  lemma NoItems(data: Bytes, room: nat)
    ensures PrintItems(data, 0, room) == if room > 0 then Printed(0, 0, [CLOSE]) else Printed(1, 0, [])
  {
  }

  lemma ItemsUnfold(data: Bytes, n: nat, room: nat)
    requires n > 0
    ensures
      var p := PrintEvent(data, room); var left := room - |p.out|;
      PrintItems(data, n, room) ==
        if p.result != 0 then p
        else if n == 1 then Then(p, PrintItems(data[p.used..], 0, left), [])
        else if left == 0 then Printed(1, p.used, p.out)
        else Then(p, PrintItems(data[p.used..], n - 1, left - 1), [COMMA])
  {
    hide PrintEvent;
  }

  /** With no room a list never ends well, and an error in its first item is one with any room. */
  lemma NothingFitsNothing(data: Bytes, n: nat)
    requires n > 0
    ensures PrintItems(data, n, 0).result == 1 || PrintItems(data, n, 0) == PrintEvent(data, 0)
    ensures PrintItems(data, n, 0).result != 0
  {
    hide PrintEvent, PrintItems;
    ItemsUnfold(data, n, 0);
    NoItems(data[PrintEvent(data, 0).used..], 0);
  }

  // ------------------------------------------------------------------------
  // The parser and the log's byte layout
  // ------------------------------------------------------------------------

  /** The four bytes are disjoint fields of the word. */
  lemma Get4LEIsSum(src: Bytes)
    requires |src| >= 4
    ensures Get4LE(src) == Word(src[0], src[1], src[2], src[3])
  {
    hide U32, Or, Shl;
    JoinBytes(src[0], src[1], src[2], src[3]);
  }

  function Word(b0: nat, b1: nat, b2: nat, b3: nat): nat {
    b0 + 0x100 * b1 + 0x1_0000 * b2 + 0x100_0000 * b3
  }

  lemma JoinBytes(b0: nat, b1: nat, b2: nat, b3: nat)
    requires b0 < 0x100 && b1 < 0x100 && b2 < 0x100 && b3 < 0x100
    ensures U32(Or(Or(Or(b0, Shl(b1, 8)), Shl(b2, 16)), Shl(b3, 24))) == Word(b0, b1, b2, b3)
  {
    hide Or, Pow2;
    Pow2Bytes();
    OrCommutes(b0, Shl(b1, 8));
    OrDisjoint(b1, 8, b0);
    var low := b1 * 0x100 + b0;
    OrCommutes(low, Shl(b2, 16));
    OrDisjoint(b2, 16, low);
    var mid := b2 * 0x1_0000 + low;
    OrCommutes(mid, Shl(b3, 24));
    OrDisjoint(b3, 24, mid);
  }

  lemma Pow2Bytes()
    ensures Pow2(8) == 0x100 && Pow2(16) == 0x1_0000 && Pow2(24) == 0x100_0000 && Pow2(32) == TWO32
  {
    assert Pow2(4) == 0x10;
    assert Pow2(8) == 0x100;
    assert Pow2(12) == 0x1000;
    assert Pow2(16) == 0x1_0000;
    assert Pow2(20) == 0x10_0000;
    assert Pow2(24) == 0x100_0000;
    assert Pow2(28) == 0x1000_0000;
  }

  function Put4LE(x: u32): Bytes {
    [x % 0x100, x / 0x100 % 0x100, x / 0x1_0000 % 0x100, x / 0x100_0000]
  }

  /** The bytes a writer of the log produces for an event. */
  function Encode(e: Event): Bytes
    decreases e, 0
  {
    match e
    case Int(i) => [EVENT_TYPE_INT] + Put4LE(U32(i))
    case Long(l) => [EVENT_TYPE_LONG] + Put4LE(U64(l) % TWO32) + Put4LE(U64(l) / TWO32)
    case Str(s) => [EVENT_TYPE_STRING] + Put4LE(U32(|s|)) + s
    case List(items) => [EVENT_TYPE_LIST, |items| % 0x100] + EncodeItems(items)
  }

  function EncodeItems(items: seq<Event>): Bytes
    decreases items, 1
  {
    if items == [] then [] else Encode(items[0]) + EncodeItems(items[1..])
  }

  /** Lengths and counts fit their fields. */
  predicate Encodable(e: Event)
    decreases e, 0
  {
    (e.Str? ==> |e.s| < TWO32) && (e.List? ==> |e.items| < 0x100 && EncodableItems(e.items))
  }

  predicate EncodableItems(items: seq<Event>)
    decreases items, 1
  {
    items == [] || (Encodable(items[0]) && EncodableItems(items[1..]))
  }

  /** The first byte tells the four kinds of event apart. */
  lemma Tags(e: Event)
    ensures Encode(e) != []
    ensures Encode(e)[0] == match e case Int(_) => 0 case Long(_) => 1 case Str(_) => 2 case List(_) => 3
  {
    hide Put4LE, EncodeItems;
  }

  lemma PutGet4LE(x: u32, rest: Bytes)
    ensures |Put4LE(x) + rest| >= 4 && Get4LE(Put4LE(x) + rest) == x
  {
    hide Get4LE;
    Get4LEIsSum(Put4LE(x) + rest);
    WordOfBytes(x);
  }

  lemma WordOfBytes(x: u32)
    ensures Word(x % 0x100, x / 0x100 % 0x100, x / 0x1_0000 % 0x100, x / 0x100_0000) == x
  {
    var q1 := x / 0x100;
    var q2 := q1 / 0x100;
    assert x / 0x1_0000 == q2;
    assert x / 0x100_0000 == q2 / 0x100;
  }

  lemma Get8LEIsSum(src: Bytes)
    requires |src| >= 8
    ensures Get8LE(src) == Get4LE(src[4..]) * TWO32 + Get4LE(src)
  {
    hide Get4LE, U64, Or, Shl;
    JoinWords(Get4LE(src[4..]), Get4LE(src));
  }

  lemma JoinWords(high: u32, low: u32)
    ensures U64(Or(Shl(high, 32), low)) == high * TWO32 + low
  {
    hide Or, Pow2;
    Pow2Bytes();
    OrDisjoint(high, 32, low);
  }

  /** Parsing inverts encoding, whatever follows. */
  lemma {:induction false} ParseEncode(e: Event, rest: Bytes)
    requires Encodable(e)
    ensures Parse(Encode(e) + rest) == Some((e, |Encode(e)|))
    decreases e, 0
  {
    match e {
      case Int(i) => ParseEncodeInt(i, rest);
      case Long(l) => ParseEncodeLong(l, rest);
      case Str(s) => ParseEncodeStr(s, rest);
      case List(items) =>
        hide Parse, ParseItems, EncodeItems;
        ParseEncodeItems(items, rest);
        ParseEncodeList(items, rest);
    }
  }

  lemma ParseEncodeInt(i: i32, rest: Bytes)
    ensures Parse(Encode(Int(i)) + rest) == Some((Int(i), 5))
    ensures |Encode(Int(i))| == 5
  {
    hide Get4LE, Put4LE, Or;
    var data := Encode(Int(i)) + rest;
    Put4LELength(U32(i));
    assert data[1..] == Put4LE(U32(i)) + rest;
    PutGet4LE(U32(i), rest);
    assert I32(U32(i)) == i;
  }

  lemma ParseEncodeLong(l: i64, rest: Bytes)
    ensures Parse(Encode(Long(l)) + rest) == Some((Long(l), 9))
    ensures |Encode(Long(l))| == 9
  {
    hide Get4LE, Get8LE, Put4LE, Or;
    var data := Encode(Long(l)) + rest;
    var low, high := U64(l) % TWO32, U64(l) / TWO32;
    Put4LELength(low);
    Put4LELength(high);
    assert data[1..] == Put4LE(low) + (Put4LE(high) + rest);
    assert data[1..][4..] == Put4LE(high) + rest;
    PutGet4LE(low, Put4LE(high) + rest);
    PutGet4LE(high, rest);
    Get8LEIsSum(data[1..]);
    assert I64(U64(l)) == l;
  }

  lemma ParseEncodeStr(s: Bytes, rest: Bytes)
    requires |s| < TWO32
    ensures Parse(Encode(Str(s)) + rest) == Some((Str(s), 5 + |s|))
    ensures |Encode(Str(s))| == 5 + |s|
  {
    hide Get4LE, Put4LE, Or;
    var data := Encode(Str(s)) + rest;
    Put4LELength(|s|);
    assert data[1..] == Put4LE(|s|) + (s + rest);
    PutGet4LE(|s|, s + rest);
    assert data[5..5 + |s|] == s;
  }

  lemma ParseEncodeList(items: seq<Event>, rest: Bytes)
    requires |items| < 0x100
    requires ParseItems(EncodeItems(items) + rest, |items|) == Some((items, |EncodeItems(items)|))
    ensures Parse(Encode(List(items)) + rest) == Some((List(items), |Encode(List(items))|))
  {
    hide ParseItems, EncodeItems;
    var data := Encode(List(items)) + rest;
    assert data[2..] == EncodeItems(items) + rest;
  }

  lemma Put4LELength(x: u32)
    ensures |Put4LE(x)| == 4
  {
  }

  lemma {:induction false} ParseEncodeItems(items: seq<Event>, rest: Bytes)
    requires EncodableItems(items)
    ensures ParseItems(EncodeItems(items) + rest, |items|) == Some((items, |EncodeItems(items)|))
    decreases items, 1
  {
    hide Parse, Encode;
    if items != [] {
      var tail := EncodeItems(items[1..]) + rest;
      assert EncodeItems(items) + rest == Encode(items[0]) + tail;
      ParseEncode(items[0], tail);
      assert (EncodeItems(items) + rest)[|Encode(items[0])|..] == tail;
      ParseEncodeItems(items[1..], rest);
      assert items == [items[0]] + items[1..];
    }
  }

  // ------------------------------------------------------------------------
  // In place
  // ------------------------------------------------------------------------

  /** What a write into outBuf[pos..pos + room] may have done. */
  twostate predicate WroteWithin(outBuf: array<u8>, pos: nat, room: nat)
    requires pos + room <= outBuf.Length
    reads outBuf
  {
    forall j | 0 <= j < outBuf.Length :: j < pos || pos + room <= j ==> outBuf[j] == old(outBuf[j])
  }

  method CopyBytes(outBuf: array<u8>, pos: nat, s: Bytes)
    requires pos + |s| <= outBuf.Length
    modifies outBuf
    ensures WroteWithin(outBuf, pos, |s|) && outBuf[pos..pos + |s|] == s
  {
    for i := 0 to |s|
      invariant forall j | 0 <= j < outBuf.Length ::
                  outBuf[j] == if pos <= j < pos + i then s[j - pos] else old(outBuf[j])
    {
      outBuf[pos + i] := s[i];
    }
  }

  /** snprintf: as much of the text as leaves room for the terminator; the full length is returned. */
  method Snprintf(outBuf: array<u8>, pos: nat, room: nat, text: Bytes) returns (outCount: nat)
    requires pos + room <= outBuf.Length
    modifies outBuf
    ensures outCount == |text| && WroteWithin(outBuf, pos, room)
    ensures |text| < room ==> outBuf[pos..pos + |text|] == text
  {
    if room > 0 {
      var n := if |text| < room then |text| else room - 1;
      CopyBytes(outBuf, pos, text[..n] + [0]);
      if n == |text| {
        assert outBuf[pos..pos + n] == outBuf[pos..pos + n + 1][..n];
      }
    }
    return |text|;
  }

  /** The int and long cases once the value is read. */
  method PrintNumberInto(text: Bytes, n: nat, outBuf: array<u8>, pos: nat, room: nat)
    returns (result: int, used: nat, adv: nat)
    requires pos + room <= outBuf.Length
    modifies outBuf
    ensures WroteWithin(outBuf, pos, room) && adv <= room
    ensures Printed(result, used, outBuf[pos..pos + adv]) == PrintNumber(text, n, room)
  {
    var outCount := Snprintf(outBuf, pos, room, text);
    if outCount < room {
      return 0, n, outCount;
    }
    return 1, n, 0;
  }

  /** The string case; with no room at all nothing is copied and the string is skipped. */
  method PrintStringInto(s: Bytes, outBuf: array<u8>, pos: nat, room: nat)
    returns (result: int, used: nat, adv: nat)
    requires pos + room <= outBuf.Length
    modifies outBuf
    ensures WroteWithin(outBuf, pos, room) && adv <= room
    ensures Printed(result, used, outBuf[pos..pos + adv]) == PrintString(s, room)
  {
    if |s| < room {
      CopyBytes(outBuf, pos, s);
      return 0, 5 + |s|, |s|;
    } else if room > 0 {
      CopyBytes(outBuf, pos, s[..room]);
      return 1, 5, room;
    }
    return 0, 5 + |s|, 0;
  }

  /** android_log_printBinaryEvent; `used` and `adv` are the advances of the two cursors. */
  method PrintBinaryEvent(data: Bytes, outBuf: array<u8>, pos: nat, room: nat)
    returns (result: int, used: nat, adv: nat)
    requires pos + room <= outBuf.Length
    modifies outBuf
    ensures WroteWithin(outBuf, pos, room) && adv <= room
    ensures Printed(result, used, outBuf[pos..pos + adv]) == PrintEvent(data, room)
    decreases |data|, 0
  {
    hide Get4LE, Get8LE, Decimal, PrintItems, PrintNumber, PrintString;
    if |data| < 1 {
      return -1, 0, 0;
    }
    var eventData := data[1..];
    if data[0] == EVENT_TYPE_INT {
      if |eventData| < 4 {
        return -1, 0, 0;
      }
      result, used, adv := PrintNumberInto(Decimal(I32(Get4LE(eventData))), 5, outBuf, pos, room);
    } else if data[0] == EVENT_TYPE_LONG {
      if |eventData| < 8 {
        return -1, 0, 0;
      }
      result, used, adv := PrintNumberInto(Decimal(I64(Get8LE(eventData))), 9, outBuf, pos, room);
    } else if data[0] == EVENT_TYPE_STRING {
      if |eventData| < 4 {
        return -1, 0, 0;
      }
      var strLen := Get4LE(eventData);
      if |eventData| - 4 < strLen {
        return -1, 0, 0;
      }
      result, used, adv := PrintStringInto(data[5..5 + strLen], outBuf, pos, room);
    } else if data[0] == EVENT_TYPE_LIST {
      if |eventData| < 1 {
        return -1, 0, 0;
      }
      if room == 0 {
        return 1, 2, 0;
      }
      outBuf[pos] := OPEN;
      result, used, adv := PrintList(data[2..], data[1], outBuf, pos + 1, room - 1);
      assert outBuf[pos] == OPEN;
      assert outBuf[pos..pos + 1 + adv] == [OPEN] + outBuf[pos + 1..pos + 1 + adv];
      used, adv := 2 + used, 1 + adv;
    } else {
      return -1, 0, 0;
    }
  }

  /** One item with the comma that follows it unless it is the last. */
  function FirstItem(data: Bytes, n: nat, room: nat): (r: Printed)
    ensures r.used <= |data| && |r.out| <= room
  {
    var p := PrintEvent(data, room);
    if p.result != 0 || n <= 1 then p
    else if |p.out| == room then Printed(1, p.used, p.out)
    else Printed(0, p.used, p.out + [COMMA])
  }

  method PrintFirstItem(data: Bytes, n: nat, outBuf: array<u8>, pos: nat, room: nat)
    returns (result: int, used: nat, adv: nat)
    requires pos + room <= outBuf.Length
    modifies outBuf
    ensures WroteWithin(outBuf, pos, room) && adv <= room
    ensures Printed(result, used, outBuf[pos..pos + adv]) == FirstItem(data, n, room)
    decreases |data|, 1
  {
    hide PrintEvent;
    result, used, adv := PrintBinaryEvent(data, outBuf, pos, room);
    if result == 0 && n > 1 {
      if adv == room {
        return 1, used, adv;
      }
      PutByte(outBuf, pos, adv, COMMA);
      adv := adv + 1;
    }
  }

  /** The loop over the items of a list, and its closing bracket. */
  method PrintList(data: Bytes, count: nat, outBuf: array<u8>, pos: nat, room: nat)
    returns (result: int, used: nat, adv: nat)
    requires pos + room <= outBuf.Length
    modifies outBuf
    ensures WroteWithin(outBuf, pos, room) && adv <= room
    ensures Printed(result, used, outBuf[pos..pos + adv]) == PrintItems(data, count, room)
    decreases |data|, 2
  {
    hide PrintEvent, PrintItems, FirstItem, After;
    used, adv := 0, 0;
    var i := 0;
    BeginItems(data, count, room);
    assert outBuf[pos..pos + 0] == [];
    while i < count
      invariant i <= count && used <= |data| && adv <= room
      invariant WroteWithin(outBuf, pos, room)
      invariant PrintItems(data, count, room) ==
                After(used, outBuf[pos..pos + adv], PrintItems(data[used..], count - i, room - adv))
      decreases count - i
    {
      ghost var done := outBuf[pos..pos + adv];
      ItemStep(data[used..], count - i, room - adv, used, done);
      var r, u, a := PrintFirstItem(data[used..], count - i, outBuf, pos + adv, room - adv);
      assert outBuf[pos..pos + adv] == done;
      Joined(outBuf[..], pos, adv, a, done, outBuf[pos + adv..pos + adv + a]);
      assert data[used..][u..] == data[used + u..];
      used, adv := used + u, adv + a;
      if r != 0 {
        return r, used, adv;
      }
      i := i + 1;
    }
    EndStep(data[used..], room - adv, used, outBuf[pos..pos + adv]);
    if adv == room {
      return 1, used, adv;
    }
    PutByte(outBuf, pos, adv, CLOSE);
    return 0, used, adv + 1;
  }

  method PutByte(outBuf: array<u8>, pos: nat, adv: nat, b: u8)
    requires pos + adv < outBuf.Length
    modifies outBuf
    ensures outBuf[pos..pos + adv + 1] == old(outBuf[pos..pos + adv]) + [b]
    ensures WroteWithin(outBuf, pos + adv, 1)
  {
    outBuf[pos + adv] := b;
  }

  lemma BeginItems(data: Bytes, n: nat, room: nat)
    ensures PrintItems(data, n, room) == After(0, [], PrintItems(data[0..], n, room))
  {
    hide PrintItems;
    assert data[0..] == data;
  }

  lemma EndStep(data: Bytes, room: nat, used: nat, done: Bytes)
    ensures After(used, done, PrintItems(data, 0, room)) ==
              if room > 0 then Printed(0, used, done + [CLOSE]) else Printed(1, used, done)
  {
  }

  /** The outcome of the whole when `used` bytes were read and `done` written before the part `q`. */
  function After(used: nat, done: Bytes, q: Printed): Printed {
    Printed(q.result, used + q.used, done + q.out)
  }

  lemma ItemStep(data: Bytes, n: nat, room: nat, used: nat, done: Bytes)
    requires n > 0
    ensures
      var f := FirstItem(data, n, room);
      After(used, done, PrintItems(data, n, room)) ==
        if f.result != 0 then Printed(f.result, used + f.used, done + f.out)
        else After(used + f.used, done + f.out, PrintItems(data[f.used..], n - 1, room - |f.out|))
  {
    hide PrintEvent;
    var p := PrintEvent(data, room);
    if p.result == 0 && n == 1 {
      var q := PrintItems(data[p.used..], 0, room - |p.out|);
      assert done + (p.out + [] + q.out) == done + p.out + q.out;
    } else if p.result == 0 && |p.out| < room {
      var q := PrintItems(data[p.used..], n - 1, room - |p.out| - 1);
      assert done + (p.out + [COMMA] + q.out) == done + (p.out + [COMMA]) + q.out;
    }
  }

  lemma Joined(buf: Bytes, pos: nat, adv: nat, more: nat, a: Bytes, b: Bytes)
    requires pos + adv + more <= |buf|
    ensures buf[pos..pos + adv] == a && buf[pos + adv..pos + adv + more] == b ==> buf[pos..pos + adv + more] == a + b
  {
  }

  // ------------------------------------------------------------------------
  // android_log_processBinaryLogBuffer
  // ------------------------------------------------------------------------

  /** Output cut short ends in '!', over its last byte if there is one. */
  function Marked(p: Printed): Bytes {
    if p.result != 1 then p.out
    else if p.out == [] then [BANG]
    else p.out[..|p.out| - 1] + [BANG]
  }

  function GeneratedTag(tagIndex: u32): Bytes { ['[' as int] + Decimal(I32(tagIndex)) + [']' as int] }

  /** The tag number in brackets, read as a signed word. */
  lemma GeneratedTagText(tagIndex: u32)
    ensures
      var t := GeneratedTag(tagIndex); var n := |t| - 2;
      && n > 0 && t[0] == 0x5b && t[n + 1] == 0x5d
      && t[1..n + 1] == Decimal(if tagIndex < 0x8000_0000 then tagIndex else tagIndex - TWO32)
  {
    hide Decimal;
  }

  /**
   The payload is a tag and an event.  A tag the map does not name is generated
   at the front of the buffer, and the message follows its terminator.  Nothing
   checks that the buffer holds them: with less room than required here the
   code can write past its end.
   */
  method ProcessBinaryLogBuffer(payload: Bytes, tagKnown: bool, messageBuf: array<u8>)
    returns (r: int, start: nat, messageLen: nat, leftover: nat)
    requires
      |payload| >= 4 ==>
        var room := messageBuf.Length - (if tagKnown then 0 else |GeneratedTag(Get4LE(payload))| + 1);
        room >= 2 || (room == 1 && PrintEvent(payload[4..], 0).result != 1)
    modifies messageBuf
    ensures |payload| >= 4 ==> start + 1 <= messageBuf.Length
    ensures r == 0 <==> |payload| >= 4 && PrintEvent(payload[4..], messageBuf.Length - start - 1).result >= 0
    ensures r == 0 ==>
              var p := PrintEvent(payload[4..], messageBuf.Length - start - 1);
              && start == (if tagKnown then 0 else |GeneratedTag(Get4LE(payload))| + 1)
              && start + messageLen < messageBuf.Length
              && messageBuf[start..start + messageLen] == Marked(p) && messageBuf[start + messageLen] == 0
              && (!tagKnown ==> messageBuf[..start] == GeneratedTag(Get4LE(payload)) + [0])
              && leftover == (if p.result == 1 || payload[4 + p.used..] == [NEWLINE] then 0 else |payload| - 4 - p.used)
    ensures r == 0 || r == -1
  {
    hide Get4LE, GeneratedTag, PrintEvent, Marked;
    start, messageLen, leftover := 0, 0, 0;
    if |payload| < 4 {
      r := -1;
      return;
    }
    var tagIndex := Get4LE(payload);
    if !tagKnown {
      var tag := GeneratedTag(tagIndex);
      CopyBytes(messageBuf, 0, tag + [0]);
      start := |tag| + 1;
    }
    ghost var tagPart := messageBuf[..start];
    var outRemaining := messageBuf.Length - start - 1;
    var result, used, adv := PrintBinaryEvent(payload[4..], messageBuf, start, outRemaining);
    assert messageBuf[..start] == tagPart;
    if result < 0 {
      return -1, start, 0, 0;
    }
    leftover := |payload| - 4 - used;
    if result == 1 {
      leftover := 0;
    }
    if leftover == 1 && payload[4 + used] == NEWLINE {
      leftover := 0;
    }
    messageLen := EndMessage(messageBuf, start, result, used, adv);
    r := 0;
  }

  /** The mark on a message cut short, and the terminator. */
  method EndMessage(messageBuf: array<u8>, start: nat, result: int, ghost used: nat, adv: nat) returns (messageLen: nat)
    requires start + adv < messageBuf.Length && (result == 1 && adv == 0 ==> start + 1 < messageBuf.Length)
    modifies messageBuf
    ensures start + messageLen < messageBuf.Length && messageBuf[..start] == old(messageBuf[..start])
    ensures messageBuf[start..start + messageLen] ==
              Marked(Printed(result, used, old(messageBuf[start..start + adv])))
    ensures messageBuf[start + messageLen] == 0
  {
    messageLen := adv;
    if result == 1 {
      if adv > 0 {
        messageBuf[start + adv - 1] := BANG;
      } else {
        messageBuf[start] := BANG;
        messageLen := 1;
      }
    }
    messageBuf[start + messageLen] := 0;
  }

  /** What the caller sees: the whole rendering if it fits, otherwise a prefix of it marked with '!'. */
  lemma ProcessedMessage(payload: Bytes, room: nat)
    requires |payload| >= 4 && room > 0 && Parse(payload[4..]).Some?
    ensures
      var (e, _) := Parse(payload[4..]).value; var p := PrintEvent(payload[4..], room); var m := Marked(p);
      && p.result >= 0
      && (Needed(e) <= room ==> m == Show(e))
      && (Needed(e) > room ==> m != [] && m[|m| - 1] == BANG && m[..|m| - 1] <= Show(e))
      && |m| <= room
  {
    PrintRenders(payload[4..], room);
  }
}
