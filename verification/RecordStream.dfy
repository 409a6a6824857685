/**
 Length-prefixed records read from a descriptor in whatever pieces it gives
 them.  The reader is a class over a fixed buffer; a state of the pure model is
 the bytes buffered but not consumed and the bytes still to be read.
 */
module RecordStreams {
  import opened Bits

  type Bytes = seq<u8>

  const HEADER_SIZE: nat := 4

  // ------------------------------------------------------------------------
  // Frames
  // ------------------------------------------------------------------------

  /** ntohl of the first four bytes. */
  function FrameLen(b: Bytes): (n: nat)
    requires |b| >= 4
    ensures n < TWO32
  {
    ((b[0] as int * 256 + b[1]) * 256 + b[2]) * 256 + b[3]
  }

  /** htonl. */
  function Header(n: nat): (h: Bytes)
    requires n < TWO32
    ensures |h| == 4
  {
    [n / 0x100_0000, n / 0x1_0000 % 256, n / 256 % 256, n % 256]
  }

  lemma HeaderRoundTrip(n: nat)
    requires n < TWO32
    ensures FrameLen(Header(n)) == n
  {
    assert n / 0x1_0000 == n / 256 / 256 && n / 0x100_0000 == n / 256 / 256 / 256;
  }

  lemma HeaderOfLen(b: Bytes)
    requires |b| >= 4
    ensures Header(FrameLen(b)) == b[..4]
  {
    var top: nat := b[0] as int * 256 + b[1];
    var mid: nat := top * 256 + b[2];
    var n := FrameLen(b);
    DivModUnique(n, 256, mid, b[3]);
    DivModUnique(mid, 256, top, b[2]);
    DivModUnique(top, 256, b[0], b[1]);
    assert n / 0x1_0000 == n / 256 / 256 && n / 0x100_0000 == n / 256 / 256 / 256;
  }

  /** The first byte is the most significant. */
  lemma FrameLenIsBigEndian(b: Bytes)
    requires |b| >= 4
    ensures FrameLen(b) == b[0] as int * 0x100_0000 + b[1] as int * 0x1_0000 + b[2] as int * 0x100 + b[3]
  {
  }

  predicate HasRecord(b: Bytes) { |b| >= 4 && |b| >= HEADER_SIZE + FrameLen(b) }

  function First(b: Bytes): Bytes
    requires HasRecord(b)
  {
    b[HEADER_SIZE..HEADER_SIZE + FrameLen(b)]
  }

  function AfterFirst(b: Bytes): (r: Bytes)
    requires HasRecord(b)
    ensures |r| < |b|
  {
    b[HEADER_SIZE + FrameLen(b)..]
  }

  /** The stream a sender makes of some records. */
  function FrameAll(records: seq<Bytes>): Bytes
    requires AllBelow(TWO32 - 1, records)
  {
    if records == [] then [] else Header(|records[0]|) + records[0] + FrameAll(records[1..])
  }

  predicate AllBelow(max: nat, records: seq<Bytes>) {
    forall i | 0 <= i < |records| :: |records[i]| <= max
  }

  /** The records of a stream, up to the first that is incomplete or too long. */
  function Records(max: nat, b: Bytes): seq<Bytes>
    decreases |b|
  {
    if HasRecord(b) && FrameLen(b) <= max then [First(b)] + Records(max, AfterFirst(b)) else []
  }

  /** What follows them. */
  function Remainder(max: nat, b: Bytes): Bytes
    decreases |b|
  {
    if HasRecord(b) && FrameLen(b) <= max then Remainder(max, AfterFirst(b)) else b
  }

  lemma {:induction false} RecordsOfFramed(max: nat, records: seq<Bytes>, tail: Bytes)
    requires max < TWO32 && AllBelow(max, records)
    ensures Records(max, FrameAll(records) + tail) == records + Records(max, tail)
    ensures Remainder(max, FrameAll(records) + tail) == Remainder(max, tail)
  {
    hide HasRecord, FrameLen, Header, Records, Remainder, First, AfterFirst;
    var b := FrameAll(records) + tail;
    if records == [] {
      assert b == tail;
    } else {
      var r, rest := records[0], FrameAll(records[1..]) + tail;
      assert b == Header(|r|) + r + rest;
      FrameInFront(r, rest);
      RecordInFront(max, b);
      RecordsOfFramed(max, records[1..], tail);
    }
  }

  lemma FrameInFront(r: Bytes, rest: Bytes)
    requires |r| < TWO32
    ensures
      var b := Header(|r|) + r + rest;
      HasRecord(b) && FrameLen(b) == |r| && First(b) == r && AfterFirst(b) == rest
  {
    hide Header;
    var b := Header(|r|) + r + rest;
    HeaderRoundTrip(|r|);
    assert b[0] == Header(|r|)[0] && b[1] == Header(|r|)[1] && b[2] == Header(|r|)[2] && b[3] == Header(|r|)[3];
  }

  // ------------------------------------------------------------------------
  // One call, and runs of calls
  // ------------------------------------------------------------------------

  datatype State = State(buffered: Bytes, pending: Bytes) {
    function Stream(): Bytes { buffered + pending }
  }

  /** Failed is a read that returned -1; TooBig is the branch marked as never happening. */
  datatype Outcome = Record(data: Bytes) | Again | End | Failed | TooBig

  function Min(a: int, b: int): int { if a < b then a else b }

  /**
   What read returns when asked for `count` bytes: an error if `willing` is
   negative, nothing at the end of the stream, otherwise at least one byte and
   at most what it is willing to give.
   */
  function ReadResult(available: nat, count: nat, willing: int): (n: int)
    ensures n <= available && n <= count
    ensures willing >= 0 && available > 0 && count > 0 ==> n > 0
  {
    if willing < 0 then -1 else Min(Min(available, count), if willing < 1 then 1 else willing)
  }

  function Step(max: nat, s: State, willing: int): (State, Outcome)
    requires |s.buffered| <= max + HEADER_SIZE
  {
    if HasRecord(s.buffered) then
      (State(AfterFirst(s.buffered), s.pending), Record(First(s.buffered)))
    else if |s.buffered| == max + HEADER_SIZE then (s, TooBig)
    else
      var n := ReadResult(|s.pending|, max + HEADER_SIZE - |s.buffered|, willing);
      if n < 0 then (s, Failed)
      else if n == 0 then (s, End)
      else
        var b := s.buffered + s.pending[..n];
        if HasRecord(b) then (State(AfterFirst(b), s.pending[n..]), Record(First(b)))
        else (State(b, s.pending[n..]), Again)
  }

  /**
   What each outcome means: a record only from the front of the stream; a
   failure only if read failed, the end only if it had nothing left, and both
   change nothing; otherwise some bytes were read and no record is complete.
   */
  lemma StepReports(max: nat, s: State, willing: int)
    requires |s.buffered| <= max + HEADER_SIZE
    ensures
      var (t, o) := Step(max, s, willing);
      var asks := !HasRecord(s.buffered) && |s.buffered| < max + HEADER_SIZE;
      && (o.Failed? <==> asks && willing < 0)
      && (o.End? <==> asks && willing >= 0 && s.pending == [])
      && (o.TooBig? <==> !HasRecord(s.buffered) && |s.buffered| == max + HEADER_SIZE)
      && (o.Failed? || o.End? || o.TooBig? ==> t == s)
      && (o.Again? ==> |t.pending| < |s.pending| && t.Stream() == s.Stream() && !HasRecord(t.buffered))
      && (o.Record? ==> if HasRecord(s.buffered) then t.pending == s.pending else |t.pending| < |s.pending|)
  {
    hide FrameLen, First, AfterFirst;
    var n := ReadResult(|s.pending|, max + HEADER_SIZE - |s.buffered|, willing);
    if n > 0 {
      assert s.pending == s.pending[..n] + s.pending[n..];
    }
  }

  function Run(max: nat, s: State, schedule: seq<int>): (State, seq<Outcome>)
    requires |s.buffered| <= max + HEADER_SIZE
    decreases |schedule|
  {
    if schedule == [] then (s, [])
    else
      var (t, o) := Step(max, s, schedule[0]);
      var (u, os) := Run(max, t, schedule[1..]);
      (u, [o] + os)
  }

  function Returned(outcomes: seq<Outcome>): seq<Bytes> {
    if outcomes == [] then []
    else (if outcomes[0].Record? then [outcomes[0].data] else []) + Returned(outcomes[1..])
  }

  /** A buffered record is never too long: the buffer could not hold it. */
  lemma TakeRecord(max: nat, b: Bytes, pending: Bytes)
    requires HasRecord(b) && |b| <= max + HEADER_SIZE
    ensures FrameLen(b) <= max && HasRecord(b + pending) && FrameLen(b + pending) == FrameLen(b)
    ensures First(b + pending) == First(b) && AfterFirst(b + pending) == AfterFirst(b) + pending
    ensures |First(b)| <= max
    ensures b + pending == Header(|First(b)|) + First(b) + (AfterFirst(b) + pending)
  {
    HeaderOfLen(b);
    assert (b + pending)[..4] == b[..4];
    assert b == b[..4] + First(b) + AfterFirst(b);
  }

  /** The stream from a state before a call, in terms of the state after it. */
  lemma StepSplitsStream(max: nat, s: State, willing: int)
    requires |s.buffered| <= max + HEADER_SIZE
    ensures
      var (t, o) := Step(max, s, willing);
      && (o.Record? ==>
            && |o.data| <= max
            && Records(max, s.Stream()) == [o.data] + Records(max, t.Stream())
            && Remainder(max, s.Stream()) == Remainder(max, t.Stream())
            && (|o.data| < TWO32 && s.Stream() == Header(|o.data|) + o.data + t.Stream()))
      && (!o.Record? ==> s.Stream() == t.Stream())
  {
    hide HasRecord, FrameLen, Header, Records, Remainder, First, AfterFirst;
    if HasRecord(s.buffered) {
      TakeRecord(max, s.buffered, s.pending);
      RecordInFront(max, s.Stream());
    } else if |s.buffered| != max + HEADER_SIZE {
      var n := ReadResult(|s.pending|, max + HEADER_SIZE - |s.buffered|, willing);
      if n > 0 {
        var b, rest := s.buffered + s.pending[..n], s.pending[n..];
        assert s.pending == s.pending[..n] + rest;
        assert s.Stream() == b + rest;
        if HasRecord(b) {
          TakeRecord(max, b, rest);
          RecordInFront(max, b + rest);
        }
      }
    }
  }

  lemma RecordInFront(max: nat, b: Bytes)
    requires HasRecord(b) && FrameLen(b) <= max
    ensures Records(max, b) == [First(b)] + Records(max, AfterFirst(b))
    ensures Remainder(max, b) == Remainder(max, AfterFirst(b))
    ensures |First(b)| == FrameLen(b)
  {
  }

  lemma {:induction false} FramedCons(max: nat, d: Bytes, ds: seq<Bytes>)
    requires max < TWO32 && |d| <= max && AllBelow(max, ds)
    ensures AllBelow(max, [d] + ds) && FrameAll([d] + ds) == Header(|d|) + d + FrameAll(ds)
  {
    assert ([d] + ds)[1..] == ds;
  }

  /**
   Whatever sizes the reads come in: the records handed out are the first of
   the stream's records, the rest are still to come, and the bytes before the
   run are the framed records followed by the bytes after it.
   */
  lemma {:induction false} RunHandsOutAPrefix(max: nat, s: State, schedule: seq<int>)
    requires max < TWO32 && |s.buffered| <= max + HEADER_SIZE
    ensures
      var (t, os) := Run(max, s, schedule);
      && AllBelow(max, Returned(os))
      && Records(max, s.Stream()) == Returned(os) + Records(max, t.Stream())
      && Remainder(max, s.Stream()) == Remainder(max, t.Stream())
      && s.Stream() == FrameAll(Returned(os)) + t.Stream()
    decreases |schedule|
  {
    hide HasRecord, FrameLen, Header, Records, Remainder, Step, FrameAll;
    if schedule == [] {
      FrameNothing();
    } else {
      var (m, o) := Step(max, s, schedule[0]);
      StepBuffers(max, s, schedule[0]);
      StepSplitsStream(max, s, schedule[0]);
      RunHandsOutAPrefix(max, m, schedule[1..]);
      var (t, os) := Run(max, m, schedule[1..]);
      var all := [o] + os;
      assert all[1..] == os;
      if o.Record? {
        FramedCons(max, o.data, Returned(os));
        assert Returned(all) == [o.data] + Returned(os);
        Regrouped(Header(|o.data|) + o.data, FrameAll(Returned(os)), t.Stream());
      } else {
        assert Returned(all) == Returned(os);
      }
    }
  }

  lemma Regrouped<T>(a: seq<T>, b: seq<T>, c: seq<T>)
    ensures a + (b + c) == (a + b) + c
  {
  }

  lemma FrameNothing()
    ensures FrameAll([]) == []
  {
  }

  lemma StepBuffers(max: nat, s: State, willing: int)
    requires |s.buffered| <= max + HEADER_SIZE
    ensures |Step(max, s, willing).0.buffered| <= max + HEADER_SIZE
  {
    hide HasRecord, FrameLen;
  }

  /** A call that is not refused by read either changes the state or is where the stream ends. */
  lemma StepMovesOn(max: nat, s: State, willing: int)
    requires |s.buffered| <= max + HEADER_SIZE && willing >= 0
    ensures
      var (t, o) := Step(max, s, willing);
      && !o.Failed?
      && (o.End? || o.TooBig? ==>
            t == s && Records(max, s.Stream()) == [] && Remainder(max, s.Stream()) == s.Stream())
      && (o.End? ==> s.pending == [] && |s.Stream()| < max + HEADER_SIZE)
      && (o.TooBig? ==> |s.Stream()| >= max + HEADER_SIZE)
      && (!o.End? && !o.TooBig? ==> Left(t) < Left(s))
  {
    hide Records, Remainder;
    var (t, o) := Step(max, s, willing);
    if o.End? || o.TooBig? {
      if o.TooBig? {
        assert s.Stream()[..4] == s.buffered[..4];
        assert FrameLen(s.Stream()) == FrameLen(s.buffered) > max;
      } else {
        assert s.Stream() == s.buffered;
      }
      NoRecordInFront(max, s.Stream());
    }
  }

  lemma NoRecordInFront(max: nat, b: Bytes)
    requires !HasRecord(b) || FrameLen(b) > max
    ensures Records(max, b) == [] && Remainder(max, b) == b
  {
  }

  /** How many calls can still do something. */
  function Left(s: State): nat { 2 * |s.pending| + |s.buffered| }

  /**
   A run long enough, without read errors, hands out every record of the
   stream and then stops, in the branch marked as never happening exactly if
   what follows the records fills the buffer.
   */
  lemma {:induction false} RunHandsOutAll(max: nat, s: State, schedule: seq<int>)
    requires max < TWO32 && |s.buffered| <= max + HEADER_SIZE
    requires |schedule| > Left(s) && forall i | 0 <= i < |schedule| :: schedule[i] >= 0
    ensures
      var os := Run(max, s, schedule).1;
      && os != [] && Returned(os) == Records(max, s.Stream())
      && os[|os| - 1] == if |Remainder(max, s.Stream())| >= max + HEADER_SIZE then TooBig else End
    decreases |schedule|
  {
    hide HasRecord, FrameLen, Header, Records, Remainder, Step, First, AfterFirst, Run, Returned;
    var w, rest := schedule[0], schedule[1..];
    var (t, o) := Step(max, s, w);
    StepBuffers(max, s, w);
    StepMovesOn(max, s, w);
    if o.End? || o.TooBig? {
      Stopped(max, s, schedule);
    } else {
      StepSplitsStream(max, s, w);
      RunHandsOutAll(max, t, rest);
      RunCons(max, s, schedule);
    }
  }

  lemma RunCons(max: nat, s: State, schedule: seq<int>)
    requires |s.buffered| <= max + HEADER_SIZE && schedule != []
    ensures
      var (t, o) := Step(max, s, schedule[0]);
      && |t.buffered| <= max + HEADER_SIZE
      && var os := Run(max, t, schedule[1..]).1;
      && Run(max, s, schedule).1 == [o] + os
      && Returned([o] + os) == (if o.Record? then [o.data] else []) + Returned(os)
  {
    hide Step;
    var (t, o) := Step(max, s, schedule[0]);
    StepBuffers(max, s, schedule[0]);
    var os := Run(max, t, schedule[1..]).1;
    assert ([o] + os)[1..] == os;
  }

  lemma {:induction false} Stopped(max: nat, s: State, schedule: seq<int>)
    requires |s.buffered| <= max + HEADER_SIZE && schedule != []
    requires forall i | 0 <= i < |schedule| :: schedule[i] >= 0
    requires var o := Step(max, s, schedule[0]).1; o.End? || o.TooBig?
    ensures
      var os := Run(max, s, schedule).1;
      os != [] && Returned(os) == [] && os[|os| - 1] == Step(max, s, schedule[0]).1
    decreases |schedule|
  {
    hide HasRecord, FrameLen, Run, Returned;
    var rest := schedule[1..];
    RunCons(max, s, schedule);
    if rest != [] {
      assert Step(max, s, rest[0]).1 == Step(max, s, schedule[0]).1;
      Stopped(max, s, rest);
    } else {
      assert Run(max, s, rest) == (s, []) && Returned([]) == [] by { NothingRun(max, s); }
    }
  }

  lemma NothingRun(max: nat, s: State)
    requires |s.buffered| <= max + HEADER_SIZE
    ensures Run(max, s, []) == (s, []) && Returned([]) == []
  {
  }

  /** A sender's records of at most `max` bytes all arrive, in order, however the bytes are cut. */
  lemma FramedArrive(max: nat, records: seq<Bytes>, schedule: seq<int>)
    requires max < TWO32 && AllBelow(max, records)
    requires |schedule| > 2 * |FrameAll(records)| && forall i | 0 <= i < |schedule| :: schedule[i] >= 0
    ensures
      var os := Run(max, State([], FrameAll(records)), schedule).1;
      os != [] && Returned(os) == records && os[|os| - 1] == End
  {
    hide Run, Returned, FrameAll, Records, Remainder, HasRecord, FrameLen;
    var s := State([], FrameAll(records));
    assert s.Stream() == FrameAll(records) + [];
    RecordsOfFramed(max, records, []);
    NothingFramed(max);
    RunHandsOutAll(max, s, schedule);
  }

  lemma NothingFramed(max: nat)
    ensures Records(max, []) == [] && Remainder(max, []) == []
  {
  }

  /** A stream in which no announced length exceeds the maximum, its incomplete end included. */
  predicate NeverOversize(max: nat, b: Bytes)
    decreases |b|
  {
    |b| >= 4 ==> FrameLen(b) <= max && (HasRecord(b) ==> NeverOversize(max, AfterFirst(b)))
  }

  /** On such a stream the assertion is not reached in any run, read errors or not. */
  lemma {:induction false} AssertionIsNotReached(max: nat, s: State, schedule: seq<int>)
    requires |s.buffered| <= max + HEADER_SIZE && NeverOversize(max, s.Stream())
    ensures TooBig !in Run(max, s, schedule).1
    decreases |schedule|
  {
    hide FrameLen, Header, Records, Remainder;
    if schedule != [] {
      var t, o := Step(max, s, schedule[0]).0, Step(max, s, schedule[0]).1;
      StepBuffers(max, s, schedule[0]);
      StepKeepsNeverOversize(max, s, schedule[0]);
      AssertionIsNotReached(max, t, schedule[1..]);
    }
  }

  lemma StepKeepsNeverOversize(max: nat, s: State, willing: int)
    requires |s.buffered| <= max + HEADER_SIZE && NeverOversize(max, s.Stream())
    ensures NeverOversize(max, Step(max, s, willing).0.Stream()) && Step(max, s, willing).1 != TooBig
  {
    hide Header, First;
    assert |s.buffered| >= 4 ==> FrameLen(s.Stream()) == FrameLen(s.buffered);
    if HasRecord(s.buffered) {
      TakeRecord(max, s.buffered, s.pending);
    } else {
      var n := ReadResult(|s.pending|, max + HEADER_SIZE - |s.buffered|, willing);
      if n > 0 {
        var b, rest := s.buffered + s.pending[..n], s.pending[n..];
        assert s.pending == s.pending[..n] + rest;
        assert s.Stream() == b + rest;
        if HasRecord(b) {
          TakeRecord(max, b, rest);
        }
      }
    }
  }

  // ------------------------------------------------------------------------
  // The reader
  // ------------------------------------------------------------------------

  /** The descriptor: the bytes it has still to give. */
  class Descriptor {
    var pending: Bytes

    constructor (bytes: Bytes)
      ensures pending == bytes
    {
      pending := bytes;
    }

    /** read(2), which must be asked for at least one byte. */
    method Read(dst: array<u8>, at: nat, count: nat, willing: int) returns (n: int)
      requires 0 < count && at + count <= dst.Length
      modifies this, dst
      ensures n == ReadResult(|old(pending)|, count, willing)
      ensures n <= 0 ==> pending == old(pending) && dst[..] == old(dst[..])
      ensures n > 0 ==> pending == old(pending)[n..]
      ensures n > 0 ==> dst[..] == old(dst[..at]) + old(pending)[..n] + old(dst[at + n..])
    {
      n := ReadResult(|pending|, count, willing);
      if n > 0 {
        forall i | 0 <= i < n { dst[at + i] := pending[i]; }
        pending := pending[n..];
      }
    }
  }

  lemma SliceOfSlice<T>(s: seq<T>, i: nat, j: nat, a: nat, b: nat)
    requires i <= j <= |s| && a <= b <= j - i
    ensures s[i..j][a..b] == s[i + a..i + b]
  {
    forall k | 0 <= k < b - a ensures s[i..j][a..b][k] == s[i + a..i + b][k] {}
  }

  class RecordStream {
    const maxRecordLen: nat
    const fd: Descriptor
    const buffer: array<u8>
    var unconsumed: nat
    var readEnd: nat

    ghost predicate Valid()
      reads this
    {
      buffer.Length == maxRecordLen + HEADER_SIZE && unconsumed <= readEnd <= buffer.Length
    }

    ghost function Abstract(): State
      reads this, buffer, fd
      requires Valid()
    {
      State(buffer[unconsumed..readEnd], fd.pending)
    }

    constructor (fd: Descriptor, maxRecordLen: nat)
      requires maxRecordLen <= 0xffff
      ensures Valid() && fresh(buffer) && this.fd == fd && this.maxRecordLen == maxRecordLen
      ensures Abstract() == State([], fd.pending)
    {
      this.fd := fd;
      this.maxRecordLen := maxRecordLen;
      buffer := new u8[maxRecordLen + HEADER_SIZE];
      unconsumed, readEnd := 0, 0;
    }

    /** getEndOfRecord: -1 for the null pointer. */
    method GetEndOfRecord(begin: nat, end: nat) returns (r: int)
      requires begin <= end <= buffer.Length
      ensures r == if HasRecord(buffer[begin..end]) then begin + HEADER_SIZE + FrameLen(buffer[begin..end]) else -1
    {
      if end < begin + HEADER_SIZE {
        return -1;
      }
      var len := FrameLen(buffer[begin..begin + HEADER_SIZE]);
      r := begin + HEADER_SIZE + len;
      if end < r {
        return -1;
      }
    }

    /** getNextRecord: where the record starts, or -1. */
    method GetNextRecord() returns (start: int, len: nat)
      requires Valid()
      modifies this`unconsumed
      ensures Valid()
      ensures
        var b := old(buffer[unconsumed..readEnd]);
        if HasRecord(b) then
          && 0 <= start && start + len <= buffer.Length && buffer[start..start + len] == First(b)
          && buffer[unconsumed..readEnd] == AfterFirst(b)
        else start == -1 && unconsumed == old(unconsumed)
    {
      var recordEnd := GetEndOfRecord(unconsumed, readEnd);
      start, len := -1, 0;
      if recordEnd != -1 {
        ghost var b := buffer[unconsumed..readEnd];
        start := unconsumed + HEADER_SIZE;
        len := recordEnd - start;
        unconsumed := recordEnd;
        SliceOfSlice(buffer[..], old(unconsumed), readEnd, HEADER_SIZE, HEADER_SIZE + len);
        SliceOfSlice(buffer[..], old(unconsumed), readEnd, HEADER_SIZE + len, |b|);
      }
    }

    /** record_stream_get_next is one step of the model; a record is handed out as a range of the buffer. */
    method GetNext(willing: int) returns (o: Outcome, start: int, len: nat)
      requires Valid()
      modifies this`unconsumed, this`readEnd, buffer, fd
      ensures Valid()
      ensures (Abstract(), o) == Step(maxRecordLen, old(Abstract()), willing)
      ensures o.Record? ==> 0 <= start && start + len <= buffer.Length && buffer[start..start + len] == o.data
    {
      hide HasRecord, FrameLen, First, AfterFirst, ReadResult;
      start, len := GetNextRecord();
      if start != -1 {
        return Record(buffer[start..start + len]), start, len;
      }
      if unconsumed == 0 && readEnd == buffer.Length {
        return TooBig, -1, 0;
      }
      var countRead := ReadMore(willing);
      if countRead <= 0 {
        return (if countRead < 0 then Failed else End), -1, 0;
      }
      start, len := GetNextRecord();
      if start == -1 {
        return Again, -1, 0;
      }
      o := Record(buffer[start..start + len]);
    }

    /** Makes room, and asks for as many bytes as there is room for. */
    method ReadMore(willing: int) returns (countRead: int)
      requires Valid() && !(unconsumed == 0 && readEnd == buffer.Length)
      modifies this`unconsumed, this`readEnd, buffer, fd
      ensures Valid()
      ensures
        var s := old(Abstract());
        && countRead == ReadResult(|s.pending|, buffer.Length - |s.buffered|, willing)
        && Abstract() ==
             if countRead <= 0 then s else State(s.buffered + s.pending[..countRead], s.pending[countRead..])
    {
      hide ReadResult;
      ghost var s := Abstract();
      Compact();
      countRead := fd.Read(buffer, readEnd, buffer.Length - readEnd, willing);
      if countRead > 0 {
        readEnd := readEnd + countRead;
        assert buffer[0..readEnd] == s.buffered + s.pending[..countRead];
      } else {
        assert buffer[0..readEnd] == s.buffered;
      }
    }

    /** Moves what is left to the beginning of the buffer. */
    method Compact()
      requires Valid()
      modifies this`unconsumed, this`readEnd, buffer
      ensures Valid() && unconsumed == 0 && buffer[..readEnd] == old(buffer[unconsumed..readEnd])
    {
      if unconsumed != 0 {
        var toMove := readEnd - unconsumed;
        forall i | 0 <= i < toMove { buffer[i] := buffer[unconsumed + i]; }
        readEnd, unconsumed := toMove, 0;
      }
    }
  }
}
