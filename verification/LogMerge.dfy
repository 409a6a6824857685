/**
 The reader of the kernel logs, on values: one queue per log, an oldest-first
 merge, and the trimming that keeps the newest `tail` lines until the backlog
 has been delivered.  LogReader runs the same steps in place.
 */
module LogMerge {
  import opened Bits
  import opened Wrappers

  const SIZEOF_V1: int := 20
  const SIZEOF_V3: int := 24
  const SIZEOF_BUF: int := 5 * 1024 + 1
  const SIZEOF_LOG_MSG: int := 5 * 1024 + 4

  const EIO: int := 5
  const EAGAIN: int := 11
  const ENODEV: int := 19
  const EINVAL: int := 22

  const LOG_TIMEOUT_FLUSH: int := 5
  const LOG_TIMEOUT_NEVER: int := -1

  datatype Entry = Entry(len: u16, hdrSize: u16, pid: i32, sec: i32, nsec: i32, lid: int, msg: seq<u8>)

  predicate Older(a: Entry, b: Entry) {
    a.sec < b.sec || (a.sec == b.sec && a.nsec < b.nsec)
  }

  const LOGGER_ENTRY_MAX_LEN: int := 5 * 1024

  /** A positive result of read() asked for at most LOGGER_ENTRY_MAX_LEN bytes. */
  type ByteCount = n: int | 0 < n <= LOGGER_ENTRY_MAX_LEN witness 1

  /** What one read() of a log device produced; a packet comes with the byte count. */
  datatype ReadResult =
    | Got(entry: Entry, result: ByteCount)
    | Eof
    | Failed(errno: int)
    | Interrupted

  /** One return of poll(): ready[i] is what a read of log i would produce if it has input. */
  datatype Poll =
    | PollFailed(errno: int)
    | PollTimeout
    | Ready(ready: seq<Option<ReadResult>>)

  /**
   The list of logs with its queues.  The last five fields are its history:
   every entry queued or delivered, every entry trimmed, and the part of that
   queued and delivered while the tail limit was in force.
   */
  datatype Reader = Reader(
    ids: seq<int>, queues: seq<seq<Entry>>, queuedLines: nat, tail: nat, pid: int, nonblock: bool,
    timeoutMs: int, error: int, flush: bool,
    accepted: seq<Entry>, sent: seq<Entry>, trimmed: seq<Entry>, backlog: seq<Entry>, batch: seq<Entry>)

  predicate WellFormed(s: Reader) { |s.ids| == |s.queues| }

  // ------------------------------------------------------------------------
  // Picking the oldest entry
  // ------------------------------------------------------------------------

  /** The first of the oldest entries of one queue, looking only at q[..n]. */
  function OldestIndex(q: seq<Entry>, n: nat): nat
    requires 0 < n <= |q|
    ensures OldestIndex(q, n) < n
  {
    if n == 1 then 0
    else
      var best := OldestIndex(q, n - 1);
      if Older(q[n - 1], q[best]) then n - 1 else best
  }

  function Oldest(q: seq<Entry>): nat
    requires q != []
    ensures Oldest(q) < |q|
  {
    OldestIndex(q, |q|)
  }

  /** The first log whose oldest entry is the oldest of all, looking only at queues[..n]. */
  function FirstLogger(queues: seq<seq<Entry>>, n: nat): (first: Option<nat>)
    requires n <= |queues|
    ensures first.Some? ==> first.value < n && queues[first.value] != []
  {
    if n == 0 then None
    else
      var best := FirstLogger(queues, n - 1);
      var q := queues[n - 1];
      if q == [] then best
      else if best.None? || Older(q[Oldest(q)], queues[best.value][Oldest(queues[best.value])]) then Some(n - 1)
      else best
  }

  predicate LowQueue(q: seq<Entry>) { |q| <= 1 }

  predicate AnyLow(queues: seq<seq<Entry>>) {
    exists q <- queues :: LowQueue(q)
  }

  function QueueThreshold(tail: nat): nat { if tail < 64 then 64 else tail }

  // ------------------------------------------------------------------------
  // android_logger_list_flush
  // ------------------------------------------------------------------------

  function Without(q: seq<Entry>, j: nat): seq<Entry>
    requires j < |q|
  {
    q[..j] + q[j + 1..]
  }

  function Promote(e: Entry, lid: int): Entry {
    var hdr := if e.hdrSize == 0 then SIZEOF_V1 else e.hdrSize;
    e.(hdrSize := if hdr < SIZEOF_V3 then SIZEOF_V3 else hdr, lid := lid)
  }

  function Dequeue(s: Reader, i: nat): Reader
    requires i < |s.queues| && s.queues[i] != []
  {
    var q := s.queues[i];
    s.(queues := s.queues[i := Without(q, Oldest(q))],
       queuedLines := if s.queuedLines > 0 then s.queuedLines - 1 else 0)
  }

  function Deliver(s: Reader, e: Entry): Reader {
    s.(sent := s.sent + [e], batch := if s.tail > 0 then s.batch + [e] else s.batch)
  }

  /** What one iteration of the flush loop does; the index is the log that holds the oldest entry. */
  datatype Choice = Stop | Drained | Trim(log: nat) | Send(log: nat)

  function Choose(s: Reader): (c: Choice)
    requires WellFormed(s)
    ensures c.Trim? || c.Send? ==> c.log < |s.queues| && s.queues[c.log] != []
  {
    if !(s.flush || s.queuedLines > s.tail) then Stop
    else
      var first := FirstLogger(s.queues, |s.queues|);
      if first.None? then Drained
      else if !s.flush && AnyLow(s.queues) && s.queuedLines < QueueThreshold(s.tail) then Stop
      else if s.tail == 0 || s.queuedLines <= s.tail then Send(first.value)
      else Trim(first.value)
  }

  function OldestOf(s: Reader, i: nat): Entry
    requires i < |s.queues| && s.queues[i] != []
  {
    s.queues[i][Oldest(s.queues[i])]
  }

  function TrimOldest(s: Reader, i: nat): Reader
    requires i < |s.queues| && s.queues[i] != []
  {
    var s' := Dequeue(s, i);
    s'.(trimmed := s'.trimmed + [OldestOf(s, i)])
  }

  function Sends(s: Reader, i: nat): (Reader, Option<Entry>)
    requires WellFormed(s) && i < |s.queues| && s.queues[i] != []
  {
    var m := Promote(OldestOf(s, i), s.ids[i]);
    (Deliver(Dequeue(s, i), m), Some(m))
  }

  /** One call; Some is the delivered message. */
  function Flush(s: Reader): (r: (Reader, Option<Entry>))
    requires WellFormed(s)
    ensures WellFormed(r.0) && |r.0.queues| == |s.queues|
    decreases Total(s.queues)
  {
    match Choose(s)
    case Stop => (s, None)
    case Drained => (if s.flush then s.(tail := 0) else s, None)
    case Send(i) => Sends(s, i)
    case Trim(i) =>
      DequeueShrinks(s, i);
      Flush(TrimOldest(s, i))
  }

  // ------------------------------------------------------------------------
  // android_logger_list_read
  // ------------------------------------------------------------------------

  /** The checks on a packet just read, in the widths of the code, and its promotion. */
  function Accept(e: Entry, result: int, lid: int): Option<Entry> {
    var hdr := if e.hdrSize == 0 then SIZEOF_V1 else e.hdrSize;
    if hdr > SIZEOF_LOG_MSG || e.len > U64(SIZEOF_BUF - hdr) || e.len != U32(result - hdr) then None
    else if hdr < SIZEOF_V3 && e.len > U64(SIZEOF_BUF - hdr - (SIZEOF_V3 - hdr)) then None
    else Some(Promote(e, lid))
  }

  function Enqueue(s: Reader, i: nat, e: Entry): Reader
    requires i < |s.queues|
  {
    s.(queues := s.queues[i := s.queues[i] + [e]], queuedLines := s.queuedLines + 1,
       accepted := s.accepted + [e], backlog := if s.tail > 0 then s.backlog + [e] else s.backlog)
  }

  /** The pushback on queues that are not low while a low one has input pending. */
  function Pushback(s: Reader, ready: seq<Option<ReadResult>>): (masked: seq<Option<ReadResult>>)
    ensures |masked| == |ready|
  {
    if !s.flush && s.queuedLines > QueueThreshold(s.tail) / 2
       && exists i | 0 <= i < |ready| && i < |s.queues| :: ready[i].Some? && LowQueue(s.queues[i]) then
      seq(|ready|, i requires 0 <= i < |ready| =>
        if i < |s.queues| && !LowQueue(s.queues[i]) then None else ready[i])
    else ready
  }

  /** One read of log `i`: the new state, a message sent directly, and the error if there is one. */
  function ReadLog(s: Reader, i: nat, read: ReadResult): (r: (Reader, Option<Entry>, Option<int>))
    requires WellFormed(s) && i < |s.queues|
    ensures WellFormed(r.0) && |r.0.queues| == |s.queues|
  {
    match read
    case Eof => (s, None, Some(EIO))
    case Failed(errno) => (s, None, Some(errno))
    case Interrupted => (s, None, None)
    case Got(raw, result) =>
      if s.pid != 0 && s.pid != raw.pid then (s, None, None)
      else
        match Accept(raw, result, s.ids[i])
        case None => (s, None, Some(EINVAL))
        case Some(e) =>
          if s.tail == 0 && |s.queues| == 1 then (SendDirectly(s, e), Some(e), None)
          else (Enqueue(s, i, e), None, None)
  }

  /** Without a tail, a single log bypasses its queue. */
  function SendDirectly(s: Reader, e: Entry): Reader {
    s.(accepted := s.accepted + [e], sent := s.sent + [e])
  }

  /** The pass over the logs with input, from log `i` on: new state, direct message, last error. */
  function ReadLogs(s: Reader, ready: seq<Option<ReadResult>>, i: nat, error: int): (r: (Reader, Option<Entry>, int))
    requires WellFormed(s) && |ready| == |s.queues| && i <= |ready|
    ensures WellFormed(r.0) && |r.0.queues| == |s.queues|
    decreases |ready| - i
  {
    if i == |ready| then (s, None, error)
    else if ready[i].None? then ReadLogs(s, ready, i + 1, error)
    else
      var (s', m, err) := ReadLog(s, i, ready[i].value);
      var error' := if err.Some? then err.value else error;
      if m.Some? then (s', m, error') else ReadLogs(s', ready, i + 1, error')
  }

  /** How a call ended: a message, an error, or still waiting when the schedule ran out. */
  datatype Outcome = Message(entry: Entry) | Error(errno: int) | Waiting

  /** The labels flush and done. */
  function Finish(s: Reader, msg: Option<Entry>, error: int): (r: (Reader, Outcome))
    requires WellFormed(s)
    ensures WellFormed(r.0) && |r.0.queues| == |s.queues|
  {
    var s1 := if error != 0 then s.(flush := true) else s;
    var (s2, m) := if msg.None? then Flush(s1) else (s1, msg);
    Done(s2, m, error)
  }

  function Done(s: Reader, msg: Option<Entry>, error: int): (r: (Reader, Outcome))
    requires WellFormed(s)
    ensures WellFormed(r.0) && |r.0.queues| == |s.queues|
  {
    var err := if s.error != 0 then s.error else error;
    (s.(error := err), if msg.Some? then Message(msg.value) else Error(err))
  }

  /** One iteration's worth of poll() result: state, message, error. */
  function PollStep(s: Reader, p: Poll): (r: (Reader, Option<Entry>, int))
    requires WellFormed(s) && (p.Ready? ==> |p.ready| == |s.queues|)
    ensures WellFormed(r.0) && |r.0.queues| == |s.queues|
  {
    match p
    case PollFailed(errno) =>
      var (s1, m) := Flush(s.(flush := true));
      (s1, m, errno)
    case PollTimeout =>
      var (s1, m) := Flush(if s.nonblock then s.(flush := true)
                           else s.(flush := true, timeoutMs := LOG_TIMEOUT_NEVER));
      (s1, m, if s.nonblock then EAGAIN else 0)
    case Ready(ready) =>
      var s1 := s.(timeoutMs := LOG_TIMEOUT_FLUSH);
      var (s2, m, error) := ReadLogs(s1, Pushback(s1, ready), 0, 0);
      if m.Some? then (s2, m, error)
      else
        var (s3, m3) := Flush(s2);
        (s3, m3, error)
  }

  predicate GoodSchedule(n: nat, schedule: seq<Poll>) {
    forall p <- schedule ::
      && (p.Ready? ==> |p.ready| == n)
      && (p.PollFailed? ==> p.errno != 0)
      && (p.Ready? ==> forall r <- p.ready :: r.Some? && r.value.Failed? ==> r.value.errno != 0)
  }

  function ReadLoop(s: Reader, schedule: seq<Poll>): (r: (Reader, Outcome))
    requires WellFormed(s) && GoodSchedule(|s.queues|, schedule)
    ensures WellFormed(r.0) && |r.0.queues| == |s.queues|
    decreases |schedule|
  {
    if schedule == [] then (s, Waiting)
    else
      var (s1, m, error) := PollStep(s, schedule[0]);
      if m.Some? || error != 0 then Finish(s1, m, error)
      else ReadLoop(s1, schedule[1..])
  }

  function Read(s: Reader, schedule: seq<Poll>): (r: (Reader, Outcome))
    requires WellFormed(s) && GoodSchedule(|s.queues|, schedule)
    ensures WellFormed(r.0) && |r.0.queues| == |s.queues|
  {
    if |s.queues| == 0 then Done(s, None, ENODEV)
    else
      var (s1, m) := Flush(s);
      if m.Some? || s1.error != 0 then Done(s1, m, 0)
      else ReadLoop(s1, schedule)
  }

  /** A run of calls; a call that is left waiting is the last one. */
  function Calls(s: Reader, schedules: seq<seq<Poll>>): (r: Reader)
    requires WellFormed(s) && forall c <- schedules :: GoodSchedule(|s.queues|, c)
    ensures WellFormed(r) && |r.queues| == |s.queues|
    decreases |schedules|
  {
    if schedules == [] then s
    else
      var (s1, outcome) := Read(s, schedules[0]);
      if outcome.Waiting? then s1 else Calls(s1, schedules[1..])
  }

  function Opened(ids: seq<int>, tail: nat, pid: int, nonblock: bool): Reader {
    Reader(ids, seq(|ids|, _ => []), 0, tail, pid, nonblock, LOG_TIMEOUT_FLUSH, 0, false, [], [], [], [], [])
  }

  // ------------------------------------------------------------------------
  // Counting
  // ------------------------------------------------------------------------

  /** Without a bound every entry counts; with one, those that are not older. */
  predicate Meets(e: Entry, bound: Option<Entry>) {
    bound.Some? ==> !Older(e, bound.value)
  }

  function Count(q: seq<Entry>, bound: Option<Entry>): nat {
    if q == [] then 0 else (if Meets(q[0], bound) then 1 else 0) + Count(q[1..], bound)
  }

  function CountAll(queues: seq<seq<Entry>>, bound: Option<Entry>): nat {
    if queues == [] then 0 else Count(queues[0], bound) + CountAll(queues[1..], bound)
  }

  function Total(queues: seq<seq<Entry>>): nat { CountAll(queues, None) }

  ghost function Queued(queues: seq<seq<Entry>>): multiset<Entry> {
    if queues == [] then multiset{} else multiset(queues[0]) + Queued(queues[1..])
  }

  lemma {:induction false} CountConcat(a: seq<Entry>, b: seq<Entry>, bound: Option<Entry>)
    ensures Count(a + b, bound) == Count(a, bound) + Count(b, bound)
  {
    if a == [] {
      assert a + b == b;
    } else {
      assert (a + b)[1..] == a[1..] + b;
      CountConcat(a[1..], b, bound);
    }
  }

  lemma {:induction false} CountBounds(q: seq<Entry>, bound: Option<Entry>)
    ensures Count(q, bound) <= |q|
    ensures Count(q, bound) == |q| <==> forall e <- q :: Meets(e, bound)
  {
    if q != [] {
      CountBounds(q[1..], bound);
      assert q == [q[0]] + q[1..];
    }
  }

  lemma CountWithout(q: seq<Entry>, j: nat, bound: Option<Entry>)
    requires j < |q|
    ensures Count(Without(q, j), bound) == Count(q, bound) - (if Meets(q[j], bound) then 1 else 0)
    ensures multiset(Without(q, j)) == multiset(q) - multiset{q[j]}
    ensures q[j] in multiset(q)
  {
    assert q == q[..j] + ([q[j]] + q[j + 1..]);
    CountConcat(q[..j], [q[j]] + q[j + 1..], bound);
    CountConcat([q[j]], q[j + 1..], bound);
    CountConcat(q[..j], q[j + 1..], bound);
  }

  lemma {:induction false} UpdateCount(queues: seq<seq<Entry>>, i: nat, q: seq<Entry>, bound: Option<Entry>)
    requires i < |queues|
    ensures CountAll(queues[i := q], bound) + Count(queues[i], bound) == CountAll(queues, bound) + Count(q, bound)
  {
    if i > 0 {
      assert queues[i := q][1..] == queues[1..][i - 1 := q];
      UpdateCount(queues[1..], i - 1, q, bound);
    } else {
      assert queues[i := q][1..] == queues[1..];
    }
  }

  lemma {:induction false} UpdateQueued(queues: seq<seq<Entry>>, i: nat, q: seq<Entry>,
                                         out: multiset<Entry>, add: multiset<Entry>)
    requires i < |queues| && multiset(q) + out == multiset(queues[i]) + add
    ensures Queued(queues[i := q]) + out == Queued(queues) + add
  {
    var rest := queues[1..];
    var queues' := queues[i := q];
    if i > 0 {
      assert queues'[1..] == rest[i - 1 := q] && queues'[0] == queues[0];
      UpdateQueued(rest, i - 1, q, out, add);
      AddCommon(Queued(queues'[1..]), Queued(rest), multiset(queues[0]), out, add);
    } else {
      assert queues'[1..] == rest && queues'[0] == q;
      AddCommon(multiset(q), multiset(queues[0]), Queued(rest), out, add);
    }
  }

  lemma AddCommon(a: multiset<Entry>, b: multiset<Entry>, c: multiset<Entry>,
                  out: multiset<Entry>, add: multiset<Entry>)
    requires a + out == b + add
    ensures a + c + out == b + c + add && c + a + out == c + b + add
  {
    assert forall x :: (a + out)[x] == (b + add)[x];
    assert a + c + out == a + out + c && b + c + add == b + add + c;
    assert c + a + out == a + out + c && c + b + add == b + add + c;
  }

  lemma DequeueShrinks(s: Reader, i: nat)
    requires i < |s.queues| && s.queues[i] != []
    ensures Total(Dequeue(s, i).queues) == Total(s.queues) - 1
  {
    var q := s.queues[i];
    CountWithout(q, Oldest(q), None);
    UpdateCount(s.queues, i, Without(q, Oldest(q)), None);
  }

  // ------------------------------------------------------------------------
  // The pick is the oldest
  // ------------------------------------------------------------------------

  lemma {:induction false} OldestIsOldest(q: seq<Entry>, n: nat)
    requires 0 < n <= |q|
    ensures forall j | 0 <= j < n :: !Older(q[j], q[OldestIndex(q, n)])
  {
    if n > 1 {
      OldestIsOldest(q, n - 1);
    }
  }

  /** Of equally old entries the pick is the one queued first, and of the logs that hold them the first. */
  lemma {:induction false} FirstOfTheOldest(q: seq<Entry>, n: nat)
    requires 0 < n <= |q|
    ensures forall j | 0 <= j < OldestIndex(q, n) :: Older(q[OldestIndex(q, n)], q[j])
  {
    if n > 1 {
      FirstOfTheOldest(q, n - 1);
      OldestIsOldest(q, n - 1);
    }
  }

  lemma {:induction false} FirstOfTheLogs(queues: seq<seq<Entry>>, n: nat)
    requires n <= |queues| && FirstLogger(queues, n).Some?
    ensures
      var i := FirstLogger(queues, n).value; var e := queues[i][Oldest(queues[i])];
      forall j | 0 <= j < i :: queues[j] == [] || Older(e, queues[j][Oldest(queues[j])])
  {
    hide Oldest;
    if n > 0 && FirstLogger(queues, n - 1).Some? {
      FirstOfTheLogs(queues, n - 1);
      FirstLoggerIsOldest(queues, n - 1);
    } else if n > 0 {
      AllEmptyBefore(queues, n - 1);
    }
  }

  lemma {:induction false} AllEmptyBefore(queues: seq<seq<Entry>>, n: nat)
    requires n <= |queues| && FirstLogger(queues, n).None?
    ensures forall j | 0 <= j < n :: queues[j] == []
  {
    if n > 0 {
      AllEmptyBefore(queues, n - 1);
    }
  }

  lemma {:induction false} FirstLoggerIsOldest(queues: seq<seq<Entry>>, n: nat)
    requires n <= |queues|
    ensures
      match FirstLogger(queues, n)
      case None => forall j | 0 <= j < n :: queues[j] == []
      case Some(i) =>
        var e := queues[i][Oldest(queues[i])];
        forall j, m | 0 <= j < n && 0 <= m < |queues[j]| :: !Older(queues[j][m], e)
  {
    if n > 0 {
      FirstLoggerIsOldest(queues, n - 1);
      if queues[n - 1] != [] {
        OldestIsOldest(queues[n - 1], |queues[n - 1]|);
      }
    }
  }

  lemma {:induction false} AllEmpty(queues: seq<seq<Entry>>, bound: Option<Entry>)
    requires forall j | 0 <= j < |queues| :: queues[j] == []
    ensures CountAll(queues, bound) == 0 && Queued(queues) == multiset{}
  {
    if queues != [] {
      AllEmpty(queues[1..], bound);
    }
  }

  /** A bound that every queued entry meets is met by all of them. */
  lemma {:induction false} AllMeet(queues: seq<seq<Entry>>, x: Entry)
    requires forall j, m | 0 <= j < |queues| && 0 <= m < |queues[j]| :: !Older(queues[j][m], x)
    ensures CountAll(queues, Some(x)) == Total(queues)
  {
    if queues != [] {
      CountBounds(queues[0], Some(x));
      CountBounds(queues[0], None);
      forall j, m | 0 <= j < |queues[1..]| && 0 <= m < |queues[1..][j]|
        ensures !Older(queues[1..][j][m], x)
      {
        assert queues[1..][j] == queues[j + 1];
      }
      AllMeet(queues[1..], x);
    }
  }

  // ------------------------------------------------------------------------
  // Invariant
  // ------------------------------------------------------------------------

  ghost predicate Sorted(q: seq<Entry>) {
    forall i, j | 0 <= i < j < |q| :: !Older(q[j], q[i])
  }

  /** `batch` is the newest min(k, |backlog|) of `backlog`, and `trimmed` is the rest. */
  ghost predicate Newest(batch: seq<Entry>, backlog: seq<Entry>, trimmed: seq<Entry>, k: nat) {
    && multiset(backlog) == multiset(batch) + multiset(trimmed)
    && |batch| == (if |backlog| < k then |backlog| else k)
    && forall x, b | x in trimmed && b in batch :: !Older(b, x)
  }

  ghost predicate Consistent(s: Reader) {
    && WellFormed(s)
    && s.queuedLines == Total(s.queues)
    && multiset(s.accepted) == Queued(s.queues) + multiset(s.trimmed) + multiset(s.sent)
    && (forall i, m | 0 <= i < |s.queues| && 0 <= m < |s.queues[i]| ::
          Promote(s.queues[i][m], s.ids[i]) == s.queues[i][m])
  }

  /** While the limit is in force: whatever was trimmed has `tail` entries left that are not older. */
  ghost predicate InForce(s: Reader) {
    && s.backlog == s.accepted && s.batch == s.sent
    && (forall x <- s.trimmed :: CountAll(s.queues, Some(x)) + Count(s.sent, Some(x)) >= s.tail)
    && (s.sent != [] ==> s.flush && |s.sent| + Total(s.queues) <= s.tail)
    && Sorted(s.sent)
    && (forall a, i, m | a in s.sent && 0 <= i < |s.queues| && 0 <= m < |s.queues[i]| ::
          !Older(s.queues[i][m], a))
  }

  ghost predicate Inv(s: Reader, k: nat) {
    && Consistent(s)
    && (s.tail == 0 || s.tail == k)
    && (s.tail > 0 ==> InForce(s))
    && (s.tail == 0 ==> Newest(s.batch, s.backlog, s.trimmed, k) && Sorted(s.batch))
    && s.batch <= s.sent && s.backlog <= s.accepted
  }

  lemma DequeueKeepsEntries(s: Reader, i: nat)
    requires Consistent(s) && i < |s.queues| && s.queues[i] != []
    ensures
      var e := OldestOf(s, i); var s' := Dequeue(s, i);
      && Promote(e, s.ids[i]) == e
      && s'.queuedLines == Total(s'.queues) == s.queuedLines - 1
      && Queued(s.queues) == Queued(s'.queues) + multiset{e}
      && (forall j, m | 0 <= j < |s'.queues| && 0 <= m < |s'.queues[j]| :: s'.queues[j][m] in s.queues[j])
      && (forall j, m | 0 <= j < |s'.queues| && 0 <= m < |s'.queues[j]| ::
            Promote(s'.queues[j][m], s'.ids[j]) == s'.queues[j][m])
  {
    DequeueShrinks(s, i);
    DequeueQueued(s.queues, i, Oldest(s.queues[i]));
    WithoutSubset(s, i);
  }

  lemma DequeueQueued(queues: seq<seq<Entry>>, i: nat, j: nat)
    requires i < |queues| && j < |queues[i]|
    ensures Queued(queues) == Queued(queues[i := Without(queues[i], j)]) + multiset{queues[i][j]}
  {
    var q := queues[i];
    CountWithout(q, j, None);
    UpdateQueued(queues, i, Without(q, j), multiset{q[j]}, multiset{});
  }

  lemma WithoutSubset(s: Reader, i: nat)
    requires i < |s.queues| && s.queues[i] != []
    ensures
      var s' := Dequeue(s, i);
      forall j, m | 0 <= j < |s'.queues| && 0 <= m < |s'.queues[j]| :: s'.queues[j][m] in s.queues[j]
  {
  }

  lemma DequeueCounts(s: Reader, i: nat, x: Entry)
    requires i < |s.queues| && s.queues[i] != []
    ensures
      var e := OldestOf(s, i);
      CountAll(Dequeue(s, i).queues, Some(x)) == CountAll(s.queues, Some(x)) - (if Older(e, x) then 0 else 1)
  {
    var q := s.queues[i];
    CountWithout(q, Oldest(q), Some(x));
    UpdateCount(s.queues, i, Without(q, Oldest(q)), Some(x));
  }

  ghost predicate IsOldest(s: Reader, e: Entry) {
    forall j, m | 0 <= j < |s.queues| && 0 <= m < |s.queues[j]| :: !Older(s.queues[j][m], e)
  }

  lemma ChoiceFacts(s: Reader)
    requires Consistent(s)
    ensures
      match Choose(s)
      case Stop => !s.flush
      case Drained => forall j | 0 <= j < |s.queues| :: s.queues[j] == []
      case Send(i) => IsOldest(s, OldestOf(s, i)) && (s.tail == 0 || (s.flush && s.queuedLines <= s.tail))
      case Trim(i) => IsOldest(s, OldestOf(s, i)) && s.tail > 0 && s.queuedLines > s.tail
  {
    FirstLoggerIsOldest(s.queues, |s.queues|);
  }

  /** Trimming the oldest of more than `tail` entries keeps the invariant. */
  lemma TrimKeepsInv(s: Reader, k: nat, i: nat)
    requires Inv(s, k) && s.tail > 0 && s.queuedLines > s.tail
    requires i < |s.queues| && s.queues[i] != [] && IsOldest(s, OldestOf(s, i))
    ensures Inv(TrimOldest(s, i), k)
  {
    hide Newest, Sorted, Older, Promote, Queued, CountAll, Dequeue, IsOldest;
    assert Consistent(s);
    DequeueSame(s, i);
    TrimConsistent(s, i);
    forall x | x in TrimOldest(s, i).trimmed
      ensures CountAll(TrimOldest(s, i).queues, Some(x)) + Count(s.sent, Some(x)) >= s.tail
    {
      StillNewer(s, i, x);
    }
    assert s.sent == [];
  }

  lemma TrimConsistent(s: Reader, i: nat)
    requires Consistent(s) && i < |s.queues| && s.queues[i] != []
    ensures Consistent(TrimOldest(s, i)) && TrimOldest(s, i).queuedLines == s.queuedLines - 1
  {
    DequeueKeepsEntries(s, i);
  }

  /** What was trimmed before or now still has `tail` queued entries that are not older. */
  lemma StillNewer(s: Reader, i: nat, x: Entry)
    requires Consistent(s) && InForce(s) && s.tail > 0 && s.queuedLines > s.tail
    requires i < |s.queues| && s.queues[i] != [] && IsOldest(s, OldestOf(s, i))
    requires x in TrimOldest(s, i).trimmed
    ensures CountAll(TrimOldest(s, i).queues, Some(x)) + Count(s.sent, Some(x)) >= s.tail
  {
    hide Queued, Promote, Sorted, CountAll, Count;
    var e := OldestOf(s, i);
    DequeueCounts(s, i, x);
    if !Older(e, x) {
      forall j, m | 0 <= j < |s.queues| && 0 <= m < |s.queues[j]|
        ensures !Older(s.queues[j][m], x)
      {
        assert !Older(s.queues[j][m], e);
      }
      AllMeet(s.queues, x);
    }
  }

  /** Delivering the oldest of at most `tail` entries, while flushing, keeps the invariant. */
  lemma DeliverKeepsInv(s: Reader, k: nat, i: nat)
    requires Inv(s, k) && (s.tail == 0 || (s.flush && s.queuedLines <= s.tail))
    requires i < |s.queues| && s.queues[i] != [] && IsOldest(s, OldestOf(s, i))
    ensures Inv(Deliver(Dequeue(s, i), OldestOf(s, i)), k)
  {
    hide Queued, Newest, Sorted, InForce, IsOldest, Dequeue, Older, Promote, CountAll;
    assert Consistent(s);
    DeliverConsistent(s, i);
    DequeueSame(s, i);
    if s.tail > 0 {
      DeliverInForce(s, i);
    }
  }

  lemma DeliverInForce(s: Reader, i: nat)
    requires Consistent(s) && InForce(s) && s.tail > 0 && s.flush && s.queuedLines <= s.tail
    requires i < |s.queues| && s.queues[i] != [] && IsOldest(s, OldestOf(s, i))
    ensures InForce(Deliver(Dequeue(s, i), OldestOf(s, i))) && s.batch == s.sent
  {
    hide Queued, Newest, Older, Promote;
    DeliverCounts(s, i);
    SortedAppend(s.sent, OldestOf(s, i));
    WithoutSubset(s, i);
    DequeueShrinks(s, i);
  }

  lemma DeliverConsistent(s: Reader, i: nat)
    requires Consistent(s) && i < |s.queues| && s.queues[i] != []
    ensures Consistent(Deliver(Dequeue(s, i), OldestOf(s, i)))
    ensures Total(Dequeue(s, i).queues) == Total(s.queues) - 1
  {
    DequeueKeepsEntries(s, i);
  }

  lemma DeliverCounts(s: Reader, i: nat)
    requires i < |s.queues| && s.queues[i] != []
    ensures
      var s' := Deliver(Dequeue(s, i), OldestOf(s, i));
      forall x :: CountAll(s'.queues, Some(x)) + Count(s'.sent, Some(x)) ==
                  CountAll(s.queues, Some(x)) + Count(s.sent, Some(x))
  {
    var s' := Deliver(Dequeue(s, i), OldestOf(s, i));
    forall x
      ensures CountAll(s'.queues, Some(x)) + Count(s'.sent, Some(x)) ==
              CountAll(s.queues, Some(x)) + Count(s.sent, Some(x))
    {
      DequeueCounts(s, i, x);
      CountConcat(s.sent, [OldestOf(s, i)], Some(x));
    }
  }

  lemma SortedAppend(q: seq<Entry>, e: Entry)
    requires Sorted(q) && forall a <- q :: !Older(e, a)
    ensures Sorted(q + [e])
  {
  }

  /** When the queues have drained, what was delivered is the newest `tail`. */
  lemma DrainKeepsInv(s: Reader, k: nat)
    requires Inv(s, k) && s.flush && forall j | 0 <= j < |s.queues| :: s.queues[j] == []
    ensures Inv(s.(tail := 0), k)
  {
    AllEmpty(s.queues, None);
    if s.tail > 0 {
      forall x, b | x in s.trimmed && b in s.batch
        ensures !Older(b, x)
      {
        AllEmpty(s.queues, Some(x));
        CountBounds(s.sent, Some(x));
      }
      assert |multiset(s.accepted)| == |multiset(s.trimmed)| + |multiset(s.sent)|;
      if s.trimmed != [] {
        AllEmpty(s.queues, Some(s.trimmed[0]));
        CountBounds(s.sent, Some(s.trimmed[0]));
      }
    }
  }

  ghost predicate SameRest(s: Reader, s': Reader) {
    && s'.ids == s.ids && s'.pid == s.pid && s'.nonblock == s.nonblock && s'.flush == s.flush
    && s'.error == s.error && s'.timeoutMs == s.timeoutMs
    && s'.accepted == s.accepted && s'.backlog == s.backlog
  }

  /** What one call of flush leaves behind. */
  ghost predicate Flushed(s: Reader, s': Reader, m: Option<Entry>, k: nat) {
    && Inv(s', k) && SameRest(s, s')
    && (m.None? && s.flush ==> s'.tail == 0 && Total(s'.queues) == 0)
    && (s.flush && Total(s.queues) > 0 ==> m.Some?)
    && (m.Some? ==> s'.tail == s.tail && s'.sent == s.sent + [m.value])
    && (m.None? ==> s'.sent == s.sent)
  }

  lemma {:induction false} FlushKeepsInv(s: Reader, k: nat)
    requires Inv(s, k)
    ensures Flushed(s, Flush(s).0, Flush(s).1, k)
    decreases Total(s.queues)
  {
    hide InForce, Newest, Sorted, FirstLogger, Choose, Flushed;
    UnfoldFlush(s);
    match Choose(s) {
      case Stop => FlushStops(s, k);
      case Drained => FlushDrains(s, k);
      case Send(i) => FlushSends(s, k, i);
      case Trim(i) =>
        ChoiceFacts(s);
        TrimKeepsInv(s, k, i);
        DequeueShrinks(s, i);
        FlushKeepsInv(TrimOldest(s, i), k);
        FlushTrims(s, k, i);
    }
  }

  lemma UnfoldFlush(s: Reader)
    requires WellFormed(s)
    ensures Choose(s).Stop? ==> Flush(s) == (s, None)
    ensures Choose(s).Drained? ==> Flush(s) == (if s.flush then s.(tail := 0) else s, None)
    ensures Choose(s).Send? ==> Flush(s) == Sends(s, Choose(s).log)
    ensures Choose(s).Trim? ==>
              WellFormed(TrimOldest(s, Choose(s).log)) && Flush(s) == Flush(TrimOldest(s, Choose(s).log))
  {
  }

  lemma FlushStops(s: Reader, k: nat)
    requires Inv(s, k) && Choose(s) == Stop
    ensures Flushed(s, s, None, k)
  {
    hide InForce, Newest, Sorted, FirstLogger;
    ChoiceFacts(s);
  }

  lemma FlushDrains(s: Reader, k: nat)
    requires Inv(s, k) && Choose(s) == Drained
    ensures Flushed(s, if s.flush then s.(tail := 0) else s, None, k)
  {
    hide InForce, Newest, Sorted, FirstLogger;
    ChoiceFacts(s);
    AllEmpty(s.queues, None);
    if s.flush {
      DrainKeepsInv(s, k);
    }
  }

  lemma QueuedIsPromoted(s: Reader, i: nat)
    requires Consistent(s) && i < |s.queues| && s.queues[i] != []
    ensures Promote(OldestOf(s, i), s.ids[i]) == OldestOf(s, i)
  {
    hide Queued, Total, Promote;
  }

  lemma DequeueSame(s: Reader, i: nat)
    requires i < |s.queues| && s.queues[i] != []
    ensures SameRest(s, Dequeue(s, i)) && Dequeue(s, i).tail == s.tail && Dequeue(s, i).sent == s.sent
    ensures Dequeue(s, i).batch == s.batch && Dequeue(s, i).trimmed == s.trimmed
  {
  }

  lemma FlushSends(s: Reader, k: nat, i: nat)
    requires Inv(s, k) && Choose(s) == Send(i)
    ensures Flushed(s, Sends(s, i).0, Sends(s, i).1, k)
  {
    hide InForce, Newest, Sorted, FirstLogger, Consistent, IsOldest, Queued, Total, Dequeue;
    assert Consistent(s);
    ChoiceFacts(s);
    QueuedIsPromoted(s, i);
    DeliverKeepsInv(s, k, i);
    DequeueSame(s, i);
  }

  lemma FlushTrims(s: Reader, k: nat, i: nat)
    requires Inv(s, k) && Choose(s) == Trim(i) && WellFormed(TrimOldest(s, i))
    requires Flushed(TrimOldest(s, i), Flush(TrimOldest(s, i)).0, Flush(TrimOldest(s, i)).1, k)
    ensures Flushed(s, Flush(TrimOldest(s, i)).0, Flush(TrimOldest(s, i)).1, k)
  {
    hide InForce, Newest, Sorted, FirstLogger, Flush;
    ChoiceFacts(s);
    DequeueShrinks(s, i);
  }

  // ------------------------------------------------------------------------
  // Runs
  // ------------------------------------------------------------------------

  /** Between polls the reader no longer holds a backlog it is flushing. */
  ghost predicate Settled(s: Reader, k: nat) {
    Inv(s, k) && (s.flush ==> s.tail == 0)
  }

  /** The invariant is about entries and the limit; a wait may set flags and timeouts beside them. */
  ghost predicate SameEntries(s: Reader, s': Reader) {
    && s'.ids == s.ids && s'.queues == s.queues && s'.queuedLines == s.queuedLines && s'.tail == s.tail
    && s'.accepted == s.accepted && s'.sent == s.sent && s'.trimmed == s.trimmed
    && s'.backlog == s.backlog && s'.batch == s.batch
    && (s.flush ==> s'.flush)
  }

  lemma SameEntriesSameInv(s: Reader, s': Reader, k: nat)
    requires Inv(s, k) && SameEntries(s, s')
    ensures Inv(s', k)
  {
    hide Newest, Sorted, Queued, CountAll, Count;
  }

  lemma PromoteTwice(e: Entry, lid: int)
    ensures Promote(Promote(e, lid), lid) == Promote(e, lid)
  {
  }

  lemma EnqueueKeepsInv(s: Reader, k: nat, i: nat, e: Entry)
    requires Settled(s, k) && i < |s.queues| && Promote(e, s.ids[i]) == e
    ensures Settled(Enqueue(s, i, e), k)
  {
    var s' := Enqueue(s, i, e);
    var q := s.queues[i];
    CountConcat(q, [e], None);
    UpdateCount(s.queues, i, q + [e], None);
    UpdateQueued(s.queues, i, q + [e], multiset{}, multiset{e});
    AcceptOne(s.accepted, Queued(s.queues), s.trimmed, s.sent, e, Queued(s'.queues));
    assert Consistent(s');
    if s.tail > 0 {
      forall x | x in s.trimmed
        ensures CountAll(s'.queues, Some(x)) + Count(s'.sent, Some(x)) >= s'.tail
      {
        CountConcat(q, [e], Some(x));
        UpdateCount(s.queues, i, q + [e], Some(x));
      }
    }
  }

  lemma AcceptOne(accepted: seq<Entry>, queued: multiset<Entry>, trimmed: seq<Entry>, sent: seq<Entry>, e: Entry,
                  queued': multiset<Entry>)
    requires multiset(accepted) == queued + multiset(trimmed) + multiset(sent)
    requires queued' + multiset{} == queued + multiset{e}
    ensures multiset(accepted + [e]) == queued' + multiset(trimmed) + multiset(sent)
  {
    assert queued' == queued + multiset{e};
    AddCommon(queued', queued, multiset(trimmed) + multiset(sent), multiset{}, multiset{e});
  }

  lemma ReadLogKeepsInv(s: Reader, k: nat, i: nat, read: ReadResult)
    requires Settled(s, k) && i < |s.queues|
    ensures Settled(ReadLog(s, i, read).0, k)
  {
    if read.Got? {
      var e := Accept(read.entry, read.result, s.ids[i]);
      if e.Some? {
        AcceptPromotes(read.entry, read.result, s.ids[i]);
        EnqueueKeepsInv(s, k, i, e.value);
        if s.tail == 0 {
          DirectKeepsInv(s, k, e.value);
        }
      }
    }
  }

  lemma AcceptPromotes(raw: Entry, result: int, lid: int)
    ensures
      var e := Accept(raw, result, lid);
      e.Some? ==> Promote(e.value, lid) == e.value && e.value.hdrSize >= SIZEOF_V3 && e.value.len == raw.len
  {
    PromoteTwice(raw, lid);
  }

  lemma DirectKeepsInv(s: Reader, k: nat, e: Entry)
    requires Settled(s, k) && s.tail == 0
    ensures Settled(SendDirectly(s, e), k)
  {
    AcceptOne(s.accepted, Queued(s.queues), s.trimmed, s.sent, e, Queued(s.queues) + multiset{e});
  }

  lemma {:induction false} ReadLogsKeepsInv(s: Reader, k: nat, ready: seq<Option<ReadResult>>, i: nat, error: int)
    requires Settled(s, k) && |ready| == |s.queues| && i <= |ready|
    ensures Settled(ReadLogs(s, ready, i, error).0, k)
    decreases |ready| - i
  {
    if i < |ready| {
      if ready[i].None? {
        ReadLogsKeepsInv(s, k, ready, i + 1, error);
      } else {
        ReadLogKeepsInv(s, k, i, ready[i].value);
        var (s', m, err) := ReadLog(s, i, ready[i].value);
        if m.None? {
          ReadLogsKeepsInv(s', k, ready, i + 1, if err.Some? then err.value else error);
        }
      }
    }
  }

  lemma PollStepKeepsInv(s: Reader, k: nat, p: Poll)
    requires Settled(s, k) && (p.Ready? ==> |p.ready| == |s.queues|)
    ensures
      var (s', m, error) := PollStep(s, p);
      Inv(s', k) && (m.None? ==> Settled(s', k))
  {
    hide Flush, ReadLogs, Pushback, InForce, Newest, Sorted, Total;
    match p {
      case PollFailed(_) =>
        var s1 := s.(flush := true);
        SameEntriesSameInv(s, s1, k);
        FlushKeepsInv(s1, k);
      case PollTimeout =>
        var s1 := if s.nonblock then s.(flush := true) else s.(flush := true, timeoutMs := LOG_TIMEOUT_NEVER);
        SameEntriesSameInv(s, s1, k);
        FlushKeepsInv(s1, k);
      case Ready(ready) =>
        var s1 := s.(timeoutMs := LOG_TIMEOUT_FLUSH);
        SameEntriesSameInv(s, s1, k);
        ReadLogsKeepsInv(s1, k, Pushback(s1, ready), 0, 0);
        var (s2, m, error) := ReadLogs(s1, Pushback(s1, ready), 0, 0);
        if m.None? {
          FlushKeepsInv(s2, k);
        }
    }
  }

  lemma FinishKeepsInv(s: Reader, k: nat, m: Option<Entry>, error: int)
    requires Inv(s, k) && (m.None? ==> Settled(s, k))
    ensures Inv(Finish(s, m, error).0, k)
  {
    hide Flush, InForce, Newest, Sorted, Total;
    var s1 := if error != 0 then s.(flush := true) else s;
    SameEntriesSameInv(s, s1, k);
    if m.None? {
      FlushKeepsInv(s1, k);
    }
    var s2 := if m.None? then Flush(s1).0 else s1;
    SameEntriesSameInv(s2, Finish(s, m, error).0, k);
  }

  lemma {:induction false} ReadLoopKeepsInv(s: Reader, k: nat, schedule: seq<Poll>)
    requires Settled(s, k) && GoodSchedule(|s.queues|, schedule)
    ensures Inv(ReadLoop(s, schedule).0, k)
    decreases |schedule|
  {
    if schedule != [] {
      PollStepKeepsInv(s, k, schedule[0]);
      var (s1, m, error) := PollStep(s, schedule[0]);
      if m.Some? || error != 0 {
        FinishKeepsInv(s1, k, m, error);
      } else {
        ReadLoopKeepsInv(s1, k, schedule[1..]);
      }
    }
  }

  lemma ReadKeepsInv(s: Reader, k: nat, schedule: seq<Poll>)
    requires Inv(s, k) && GoodSchedule(|s.queues|, schedule)
    ensures Inv(Read(s, schedule).0, k)
  {
    hide Flush, ReadLoop, InForce, Newest, Sorted, Total;
    if |s.queues| > 0 {
      FlushKeepsInv(s, k);
      var (s1, m) := Flush(s);
      if m.None? && s1.error == 0 {
        ReadLoopKeepsInv(s1, k, schedule);
      } else {
        SameEntriesSameInv(s1, Read(s, schedule).0, k);
      }
    } else {
      SameEntriesSameInv(s, Read(s, schedule).0, k);
    }
  }

  lemma {:induction false} CallsKeepInv(s: Reader, k: nat, schedules: seq<seq<Poll>>)
    requires Inv(s, k) && forall c <- schedules :: GoodSchedule(|s.queues|, c)
    ensures Inv(Calls(s, schedules), k)
    decreases |schedules|
  {
    if schedules != [] {
      ReadKeepsInv(s, k, schedules[0]);
      var (s1, outcome) := Read(s, schedules[0]);
      if !outcome.Waiting? {
        CallsKeepInv(s1, k, schedules[1..]);
      }
    }
  }

  lemma OpenedInv(ids: seq<int>, tail: nat, pid: int, nonblock: bool)
    ensures Inv(Opened(ids, tail, pid, nonblock), tail)
  {
    var s := Opened(ids, tail, pid, nonblock);
    AllEmpty(s.queues, None);
  }

  // ------------------------------------------------------------------------
  // What is read
  // ------------------------------------------------------------------------

  /** The packet is whole: header and payload are what was read, and leave room for the larger header. */
  predicate Whole(raw: Entry, result: ByteCount) {
    var hdr := if raw.hdrSize == 0 then SIZEOF_V1 else raw.hdrSize;
    hdr + raw.len == result && (if hdr < SIZEOF_V3 then SIZEOF_V3 else hdr) + raw.len <= SIZEOF_BUF
  }

  /** A packet as it is queued: with the header of version 3 at least, and the log it came from. */
  function Stamped(raw: Entry, lid: int): Entry {
    raw.(hdrSize := if raw.hdrSize < SIZEOF_V3 then SIZEOF_V3 else raw.hdrSize, lid := lid)
  }

  predicate WantedPid(pid: int, raw: Entry) { pid == 0 || raw.pid == pid }

  /** The packets of one pass over the logs that are wanted and whole, in the order of the logs. */
  function Wanted(pid: int, ids: seq<int>, ready: seq<Option<ReadResult>>): seq<Entry>
    requires |ids| == |ready|
  {
    if ready == [] then []
    else
      var rest := Wanted(pid, ids[1..], ready[1..]);
      match ready[0]
      case Some(Got(raw, result)) =>
        if WantedPid(pid, raw) && Whole(raw, result) then [Stamped(raw, ids[0])] + rest else rest
      case _ => rest
  }

  /** The errors of one pass, in the order of the logs. */
  function ErrorsOf(pid: int, ready: seq<Option<ReadResult>>): seq<int> {
    if ready == [] then []
    else
      var rest := ErrorsOf(pid, ready[1..]);
      match ready[0]
      case Some(Eof) => [EIO] + rest
      case Some(Failed(errno)) => [errno] + rest
      case Some(Got(raw, result)) => if WantedPid(pid, raw) && !Whole(raw, result) then [EINVAL] + rest else rest
      case _ => rest
  }

  /** The checks in 32 and 64 bits accept exactly the whole packets. */
  lemma AcceptedIffWhole(raw: Entry, result: ByteCount, lid: int)
    ensures Accept(raw, result, lid) == if Whole(raw, result) then Some(Stamped(raw, lid)) else None
  {
    var hdr := if raw.hdrSize == 0 then SIZEOF_V1 else raw.hdrSize;
    assert U32(result - hdr) == if result >= hdr then result - hdr else result - hdr + TWO32;
    assert hdr <= SIZEOF_BUF ==> U64(SIZEOF_BUF - hdr) == SIZEOF_BUF - hdr;
    assert hdr < SIZEOF_V3 ==> U64(SIZEOF_BUF - hdr - (SIZEOF_V3 - hdr)) == SIZEOF_BUF - SIZEOF_V3;
  }

  /**
   A pass queues or delivers each wanted and whole packet once, in order, and
   nothing else; its error is the last.
   */
  lemma {:induction false} PassTakesWanted(s: Reader, ready: seq<Option<ReadResult>>, i: nat, error: int)
    requires WellFormed(s) && |ready| == |s.queues| && i <= |ready|
    ensures
      var (s', m, error') := ReadLogs(s, ready, i, error);
      var errors := ErrorsOf(s.pid, ready[i..]);
      && s'.accepted == s.accepted + Wanted(s.pid, s.ids[i..], ready[i..])
      && s'.pid == s.pid && s'.ids == s.ids
      && error' == if errors == [] then error else errors[|errors| - 1]
    decreases |ready| - i
  {
    hide Wanted, ErrorsOf, ReadLog;
    NothingWanted(s.pid);
    if i < |ready| {
      OneThenRest(s.pid, s.ids, ready, i);
      if ready[i].None? {
        PassTakesWanted(s, ready, i + 1, error);
      } else {
        OneTaken(s, i, ready[i].value);
        var (s', m, err) := ReadLog(s, i, ready[i].value);
        var error' := if err.Some? then err.value else error;
        if m.None? {
          PassTakesWanted(s', ready, i + 1, error');
        } else {
          assert i + 1 == |ready| && ready[i + 1..] == [] && s.ids[i + 1..] == [];
        }
      }
    } else {
      assert ready[i..] == [] && s.ids[i..] == [];
    }
  }

  lemma NothingWanted(pid: int)
    ensures Wanted(pid, [], []) == [] && ErrorsOf(pid, []) == []
  {
  }

  lemma OneThenRest(pid: int, ids: seq<int>, ready: seq<Option<ReadResult>>, i: nat)
    requires |ids| == |ready| && i < |ready|
    ensures
      Wanted(pid, ids[i..], ready[i..]) == Wanted(pid, [ids[i]], [ready[i]]) + Wanted(pid, ids[i + 1..], ready[i + 1..])
    ensures ErrorsOf(pid, ready[i..]) == ErrorsOf(pid, [ready[i]]) + ErrorsOf(pid, ready[i + 1..])
    ensures ready[i].None? ==> Wanted(pid, [ids[i]], [ready[i]]) == [] && ErrorsOf(pid, [ready[i]]) == []
  {
    hide Whole, Stamped, WantedPid;
    NothingWanted(pid);
    assert ready[i..][1..] == ready[i + 1..] && ids[i..][1..] == ids[i + 1..];
    assert [ids[i]][1..] == [] && [ready[i]][1..] == [];
  }

  lemma OneTaken(s: Reader, i: nat, read: ReadResult)
    requires WellFormed(s) && i < |s.queues|
    ensures
      var (s', m, err) := ReadLog(s, i, read);
      && s'.pid == s.pid && s'.ids == s.ids
      && s'.accepted == s.accepted + Wanted(s.pid, [s.ids[i]], [Some(read)])
      && (if err.Some? then [err.value] else []) == ErrorsOf(s.pid, [Some(read)])
      && (m.Some? ==> |s.queues| == 1)
  {
    hide Accept, Whole, Stamped;
    assert Wanted(s.pid, [], []) == [] && ErrorsOf(s.pid, []) == [];
    assert [s.ids[i]][1..] == [] && [Some(read)][1..] == [];
    if read.Got? {
      AcceptedIffWhole(read.entry, read.result, s.ids[i]);
    }
  }

  /** A single log without a tail limit: what is wanted is delivered as soon as it is read, past the queue. */
  lemma SingleLogDeliversAtOnce(s: Reader, ready: seq<Option<ReadResult>>)
    requires WellFormed(s) && |s.queues| == |ready| == 1 && s.tail == 0
    ensures
      var (t, m, _) := ReadLogs(s, ready, 0, 0); var w := Wanted(s.pid, s.ids, ready);
      && t.queues == s.queues && t.queuedLines == s.queuedLines
      && |w| <= 1 && Messages(m) == w && t.sent == s.sent + w
  {
    hide Accept, Whole, Stamped;
    NothingWanted(s.pid);
    assert s.ids[1..] == [] && ready[1..] == [];
    if ready[0].Some? && ready[0].value.Got? {
      AcceptedIffWhole(ready[0].value.entry, ready[0].value.result, s.ids[0]);
    }
    ReadLogsReturns(s, ready, 0, 0);
  }

  /** Without a direct delivery, each log's wanted packets go to the end of its own queue. */
  lemma {:induction false} PassFillsQueues(s: Reader, ready: seq<Option<ReadResult>>, i: nat, error: int)
    requires WellFormed(s) && |ready| == |s.queues| && i <= |ready|
    ensures
      var (t, m, _) := ReadLogs(s, ready, i, error);
      && t.ids == s.ids && t.pid == s.pid
      && (m.None? ==> forall j | 0 <= j < |s.queues| ::
            t.queues[j] == if j < i then s.queues[j] else s.queues[j] + Wanted(s.pid, [s.ids[j]], [ready[j]]))
    decreases |ready| - i
  {
    hide Wanted, ReadLog, WantedPid;
    if i < |ready| {
      if ready[i].None? {
        NoneWanted(s.pid, s.ids[i]);
        PassFillsQueues(s, ready, i + 1, error);
      } else {
        OneTaken(s, i, ready[i].value);
        OneQueued(s, i, ready[i].value);
        var (s', m, err) := ReadLog(s, i, ready[i].value);
        if m.None? {
          PassFillsQueues(s', ready, i + 1, if err.Some? then err.value else error);
        }
      }
    }
  }

  lemma NoneWanted(pid: int, lid: int)
    ensures Wanted(pid, [lid], [None]) == []
  {
    assert [lid][1..] == [];
    NothingWanted(pid);
  }

  lemma OneQueued(s: Reader, i: nat, read: ReadResult)
    requires WellFormed(s) && i < |s.queues|
    ensures
      var (t, m, _) := ReadLog(s, i, read);
      m.None? ==> t.queues == s.queues[i := s.queues[i] + Wanted(s.pid, [s.ids[i]], [Some(read)])]
  {
    hide Accept, Whole, Stamped;
    NothingWanted(s.pid);
    assert [s.ids[i]][1..] == [] && [Some(read)][1..] == [];
    assert s.queues[i] + [] == s.queues[i] && s.queues[i := s.queues[i]] == s.queues;
    var w := Wanted(s.pid, [s.ids[i]], [Some(read)]);
    if read.Got? {
      AcceptedIffWhole(read.entry, read.result, s.ids[i]);
      if WantedPid(s.pid, read.entry) && Whole(read.entry, read.result) {
        assert w == [Stamped(read.entry, s.ids[i])];
      } else {
        assert w == [];
      }
    } else {
      assert w == [];
    }
  }

  /** The passes of a call over the logs, each with the input that the pushback leaves it. */
  function LoopPasses(s: Reader, schedule: seq<Poll>): seq<seq<Option<ReadResult>>>
    requires WellFormed(s) && GoodSchedule(|s.queues|, schedule)
    decreases |schedule|
  {
    if schedule == [] then []
    else
      var (s1, m, error) := PollStep(s, schedule[0]);
      (if schedule[0].Ready? then [Pushback(s.(timeoutMs := LOG_TIMEOUT_FLUSH), schedule[0].ready)] else [])
      + if m.Some? || error != 0 then [] else LoopPasses(s1, schedule[1..])
  }

  function ReadPasses(s: Reader, schedule: seq<Poll>): seq<seq<Option<ReadResult>>>
    requires WellFormed(s) && GoodSchedule(|s.queues|, schedule)
  {
    if |s.queues| == 0 then []
    else
      var (s1, m) := Flush(s);
      if m.Some? || s1.error != 0 then [] else LoopPasses(s1, schedule)
  }

  function AllPasses(s: Reader, schedules: seq<seq<Poll>>): seq<seq<Option<ReadResult>>>
    requires WellFormed(s) && forall c <- schedules :: GoodSchedule(|s.queues|, c)
    decreases |schedules|
  {
    if schedules == [] then []
    else
      var (s1, outcome) := Read(s, schedules[0]);
      ReadPasses(s, schedules[0]) + if outcome.Waiting? then [] else AllPasses(s1, schedules[1..])
  }

  function WantedOfAll(pid: int, ids: seq<int>, passes: seq<seq<Option<ReadResult>>>): seq<Entry>
    requires forall p <- passes :: |p| == |ids|
  {
    if passes == [] then [] else Wanted(pid, ids, passes[0]) + WantedOfAll(pid, ids, passes[1..])
  }

  lemma {:induction false} WantedConcat(
      pid: int, ids: seq<int>, a: seq<seq<Option<ReadResult>>>, b: seq<seq<Option<ReadResult>>>)
    requires (forall p <- a :: |p| == |ids|) && (forall p <- b :: |p| == |ids|)
    ensures forall p <- a + b :: |p| == |ids|
    ensures WantedOfAll(pid, ids, a + b) == WantedOfAll(pid, ids, a) + WantedOfAll(pid, ids, b)
  {
    hide Wanted;
    if a == [] {
      assert a + b == b;
    } else {
      assert (a + b)[1..] == a[1..] + b;
      WantedConcat(pid, ids, a[1..], b);
    }
  }

  /** A state reached from another by reading `passes` and nothing else. */
  ghost predicate Took(s: Reader, s': Reader, passes: seq<seq<Option<ReadResult>>>) {
    && (forall p <- passes :: |p| == |s.ids|)
    && s'.pid == s.pid && s'.ids == s.ids
    && s'.accepted == s.accepted + WantedOfAll(s.pid, s.ids, passes)
  }

  lemma TookThen(s: Reader, s1: Reader, s2: Reader, a: seq<seq<Option<ReadResult>>>, b: seq<seq<Option<ReadResult>>>)
    requires Took(s, s1, a) && Took(s1, s2, b)
    ensures Took(s, s2, a + b)
  {
    WantedConcat(s.pid, s.ids, a, b);
  }

  lemma {:induction false} FlushTakesNothing(s: Reader)
    requires WellFormed(s)
    ensures Took(s, Flush(s).0, [])
    decreases Total(s.queues)
  {
    hide Choose, Wanted;
    UnfoldFlush(s);
    if Choose(s).Trim? {
      DequeueShrinks(s, Choose(s).log);
      FlushTakesNothing(TrimOldest(s, Choose(s).log));
    }
  }

  lemma PollStepTakes(s: Reader, p: Poll)
    requires WellFormed(s) && (p.Ready? ==> |p.ready| == |s.queues|)
    ensures
      Took(s, PollStep(s, p).0, if p.Ready? then [Pushback(s.(timeoutMs := LOG_TIMEOUT_FLUSH), p.ready)] else [])
  {
    hide Flush, ReadLogs, Pushback, Wanted;
    match p {
      case PollFailed(_) =>
        FlushTakesNothing(s.(flush := true));
      case PollTimeout =>
        FlushTakesNothing(if s.nonblock then s.(flush := true)
                          else s.(flush := true, timeoutMs := LOG_TIMEOUT_NEVER));
      case Ready(ready) =>
        var s1 := s.(timeoutMs := LOG_TIMEOUT_FLUSH);
        var masked := Pushback(s1, ready);
        PassTakesWanted(s1, masked, 0, 0);
        assert masked[0..] == masked && s1.ids[0..] == s1.ids;
        assert [masked][1..] == [] && WantedOfAll(s.pid, s.ids, []) == [];
        var (s2, m, _) := ReadLogs(s1, masked, 0, 0);
        FlushTakesNothing(s2);
    }
  }

  lemma FinishTakesNothing(s: Reader, msg: Option<Entry>, error: int)
    requires WellFormed(s)
    ensures Took(s, Finish(s, msg, error).0, [])
  {
    hide Flush, Wanted;
    FlushTakesNothing(if error != 0 then s.(flush := true) else s);
  }

  lemma {:induction false} LoopTakes(s: Reader, schedule: seq<Poll>)
    requires WellFormed(s) && GoodSchedule(|s.queues|, schedule)
    ensures Took(s, ReadLoop(s, schedule).0, LoopPasses(s, schedule))
    decreases |schedule|
  {
    hide PollStep, Finish, Took, Pushback;
    if schedule == [] {
      TookNothing(s);
    } else {
      var p := schedule[0];
      var passes := if p.Ready? then [Pushback(s.(timeoutMs := LOG_TIMEOUT_FLUSH), p.ready)] else [];
      PollStepTakes(s, p);
      var (s1, m, error) := PollStep(s, p);
      if m.Some? || error != 0 {
        FinishTakesNothing(s1, m, error);
        TookThen(s, s1, Finish(s1, m, error).0, passes, []);
        assert passes + [] == passes;
      } else {
        LoopTakes(s1, schedule[1..]);
        TookThen(s, s1, ReadLoop(s, schedule).0, passes, LoopPasses(s1, schedule[1..]));
      }
    }
  }

  lemma TookNothing(s: Reader)
    ensures Took(s, s, [])
  {
  }

  lemma ReadTakes(s: Reader, schedule: seq<Poll>)
    requires WellFormed(s) && GoodSchedule(|s.queues|, schedule)
    ensures Took(s, Read(s, schedule).0, ReadPasses(s, schedule))
  {
    hide Flush, ReadLoop, LoopPasses, Wanted;
    if |s.queues| > 0 {
      FlushTakesNothing(s);
      var (s1, m) := Flush(s);
      if m.None? && s1.error == 0 {
        LoopTakes(s1, schedule);
        TookThen(s, s1, ReadLoop(s1, schedule).0, [], LoopPasses(s1, schedule));
        assert [] + LoopPasses(s1, schedule) == LoopPasses(s1, schedule);
      }
    }
  }

  /**
   What the calls accept, over any run: of every pass they make, each packet
   that is wanted and whole, once and in the order of reading, and nothing else.
   */
  lemma {:induction false} CallsTakeWanted(s: Reader, schedules: seq<seq<Poll>>)
    requires WellFormed(s) && forall c <- schedules :: GoodSchedule(|s.queues|, c)
    ensures Took(s, Calls(s, schedules), AllPasses(s, schedules))
    decreases |schedules|
  {
    hide Read, ReadPasses, Took;
    if schedules == [] {
      TookNothing(s);
    } else {
      ReadTakes(s, schedules[0]);
      var (s1, outcome) := Read(s, schedules[0]);
      var passes := ReadPasses(s, schedules[0]);
      if outcome.Waiting? {
        assert passes + [] == passes;
      } else {
        CallsTakeWanted(s1, schedules[1..]);
        TookThen(s, s1, Calls(s1, schedules[1..]), passes, AllPasses(s1, schedules[1..]));
      }
    }
  }

  lemma {:induction false} WantedHavePid(pid: int, ids: seq<int>, ready: seq<Option<ReadResult>>)
    requires |ids| == |ready|
    ensures pid != 0 ==> forall e <- Wanted(pid, ids, ready) :: e.pid == pid
  {
    hide Whole;
    if ready != [] {
      WantedHavePid(pid, ids[1..], ready[1..]);
    }
  }

  lemma {:induction false} AllWantedHavePid(pid: int, ids: seq<int>, passes: seq<seq<Option<ReadResult>>>)
    requires forall p <- passes :: |p| == |ids|
    ensures pid != 0 ==> forall e <- WantedOfAll(pid, ids, passes) :: e.pid == pid
  {
    hide Wanted;
    if passes != [] {
      WantedHavePid(pid, ids, passes[0]);
      AllWantedHavePid(pid, ids, passes[1..]);
    }
  }

  /** With a pid given, every message the calls return is of that process. */
  lemma ReturnedHavePid(ids: seq<int>, tail: nat, pid: int, nonblock: bool, schedules: seq<seq<Poll>>)
    requires forall c <- schedules :: GoodSchedule(|ids|, c)
    ensures pid != 0 ==> forall e <- AllReturned(Opened(ids, tail, pid, nonblock), schedules) :: e.pid == pid
  {
    hide Calls, AllReturned, AllPasses, Newest, Sorted;
    var s0 := Opened(ids, tail, pid, nonblock);
    TailKeepsNewest(ids, tail, pid, nonblock, schedules);
    CallsTakeWanted(s0, schedules);
    AllWantedHavePid(pid, ids, AllPasses(s0, schedules));
    var s := Calls(s0, schedules);
    forall e | e in s.sent
      ensures pid != 0 ==> e.pid == pid
    {
      assert e in multiset(s.sent) && e in multiset(s.accepted);
    }
  }

  // ------------------------------------------------------------------------
  // What the calls return
  // ------------------------------------------------------------------------

  function Messages(m: Option<Entry>): seq<Entry> { if m.Some? then [m.value] else [] }

  function Returned(o: Outcome): seq<Entry> { if o.Message? then [o.entry] else [] }

  /** The messages returned by a run of calls, in order. */
  function AllReturned(s: Reader, schedules: seq<seq<Poll>>): seq<Entry>
    requires WellFormed(s) && forall c <- schedules :: GoodSchedule(|s.queues|, c)
    decreases |schedules|
  {
    if schedules == [] then []
    else
      var (s1, outcome) := Read(s, schedules[0]);
      Returned(outcome) + if outcome.Waiting? then [] else AllReturned(s1, schedules[1..])
  }

  lemma {:induction false} FlushReturns(s: Reader)
    requires WellFormed(s)
    ensures Flush(s).0.sent == s.sent + Messages(Flush(s).1)
    decreases Total(s.queues)
  {
    match Choose(s) {
      case Stop =>
      case Drained =>
      case Send(_) =>
      case Trim(i) =>
        DequeueShrinks(s, i);
        FlushReturns(TrimOldest(s, i));
    }
  }

  lemma {:induction false} ReadLogsReturns(s: Reader, ready: seq<Option<ReadResult>>, i: nat, error: int)
    requires WellFormed(s) && |ready| == |s.queues| && i <= |ready|
    ensures ReadLogs(s, ready, i, error).0.sent == s.sent + Messages(ReadLogs(s, ready, i, error).1)
    decreases |ready| - i
  {
    hide Accept;
    if i < |ready| {
      if ready[i].None? {
        ReadLogsReturns(s, ready, i + 1, error);
      } else {
        var (s', m, err) := ReadLog(s, i, ready[i].value);
        if m.None? {
          ReadLogsReturns(s', ready, i + 1, if err.Some? then err.value else error);
        }
      }
    }
  }

  lemma PollStepReturns(s: Reader, p: Poll)
    requires WellFormed(s) && (p.Ready? ==> |p.ready| == |s.queues|)
    ensures PollStep(s, p).0.sent == s.sent + Messages(PollStep(s, p).1)
  {
    hide Flush, ReadLogs, Pushback;
    match p {
      case PollFailed(_) =>
        FlushReturns(s.(flush := true));
      case PollTimeout =>
        FlushReturns(if s.nonblock then s.(flush := true) else s.(flush := true, timeoutMs := LOG_TIMEOUT_NEVER));
      case Ready(ready) =>
        var s1 := s.(timeoutMs := LOG_TIMEOUT_FLUSH);
        ReadLogsReturns(s1, Pushback(s1, ready), 0, 0);
        FlushReturns(ReadLogs(s1, Pushback(s1, ready), 0, 0).0);
    }
  }

  /** The end of a call returns the message it was given, or else one that it flushes. */
  lemma FinishReturns(s: Reader, msg: Option<Entry>, error: int)
    requires WellFormed(s)
    ensures
      var (s', r) := Finish(s, msg, error);
      if msg.Some? then s'.sent == s.sent && Returned(r) == Messages(msg) else s'.sent == s.sent + Returned(r)
  {
    hide Flush;
    FlushReturns(if error != 0 then s.(flush := true) else s);
  }

  lemma {:induction false} ReadLoopReturns(s: Reader, schedule: seq<Poll>)
    requires WellFormed(s) && GoodSchedule(|s.queues|, schedule)
    ensures ReadLoop(s, schedule).0.sent == s.sent + Returned(ReadLoop(s, schedule).1)
    decreases |schedule|
  {
    hide Finish, PollStep;
    if schedule != [] {
      PollStepReturns(s, schedule[0]);
      var (s1, m, error) := PollStep(s, schedule[0]);
      if m.Some? || error != 0 {
        FinishReturns(s1, m, error);
        assert m.None? ==> s.sent + Messages(m) == s.sent;
      } else {
        ReadLoopReturns(s1, schedule[1..]);
      }
    }
  }

  /** A call adds to the delivered entries just the message it returns. */
  lemma ReadReturns(s: Reader, schedule: seq<Poll>)
    requires WellFormed(s) && GoodSchedule(|s.queues|, schedule)
    ensures Read(s, schedule).0.sent == s.sent + Returned(Read(s, schedule).1)
  {
    hide Flush, ReadLoop;
    if |s.queues| > 0 {
      FlushReturns(s);
      var (s1, m) := Flush(s);
      if m.None? && s1.error == 0 {
        ReadLoopReturns(s1, schedule);
      }
    }
  }

  lemma {:induction false} CallsReturn(s: Reader, schedules: seq<seq<Poll>>)
    requires WellFormed(s) && forall c <- schedules :: GoodSchedule(|s.queues|, c)
    ensures Calls(s, schedules).sent == s.sent + AllReturned(s, schedules)
    decreases |schedules|
  {
    hide Read, GoodSchedule;
    if schedules != [] {
      ReadReturns(s, schedules[0]);
      var (s1, outcome) := Read(s, schedules[0]);
      if outcome.Waiting? {
        assert Returned(outcome) + [] == Returned(outcome);
      } else {
        CallsReturn(s1, schedules[1..]);
        Regrouped(s.sent, Returned(outcome), AllReturned(s1, schedules[1..]));
      }
    }
  }

  lemma Regrouped<T>(a: seq<T>, b: seq<T>, c: seq<T>)
    ensures a + (b + c) == (a + b) + c
  {
  }

  // ------------------------------------------------------------------------
  // What a call waits for
  // ------------------------------------------------------------------------

  /** Entries left over after a flush: none while flushing; otherwise few enough, or a log is nearly empty. */
  ghost predicate MayKeep(t: Reader) {
    || Total(t.queues) == 0
    || (!t.flush
        && (|| Total(t.queues) <= t.tail
            || ((exists q <- t.queues :: |q| < 2) && (Total(t.queues) < 64 || Total(t.queues) < t.tail))))
  }

  /**
   What one flush does: a message it delivers is no newer than any left queued,
   and none is delivered early under a tail limit; without one, no more is kept
   than may be; and trimming leaves `tail` entries, the delivered one included.
   */
  ghost predicate FlushOutcome(s: Reader, t: Reader, m: Option<Entry>) {
    && (m.Some? ==> (t.tail == 0 || t.flush) && forall q, e | q in t.queues && e in q :: !Older(e, m.value))
    && (m.None? ==> MayKeep(t))
    && Total(t.queues) + |t.trimmed| + (if m.Some? then 1 else 0) == Total(s.queues) + |s.trimmed|
    && (t.trimmed != s.trimmed ==> Total(t.queues) + (if m.Some? then 1 else 0) >= s.tail)
    && s.trimmed <= t.trimmed
  }

  lemma {:induction false} FlushDelivers(s: Reader, k: nat)
    requires Inv(s, k)
    ensures FlushOutcome(s, Flush(s).0, Flush(s).1)
    decreases Total(s.queues)
  {
    hide InForce, Newest, Sorted, FirstLogger, Choose, FlushOutcome, Consistent;
    assert Consistent(s);
    InvWellFormed(s, k);
    UnfoldFlush(s);
    ChoiceFacts(s);
    match Choose(s) {
      case Stop => StopKeepsFew(s);
      case Drained => DrainedKeepsNone(s);
      case Send(i) => SendsOldest(s, i);
      case Trim(i) =>
        TrimKeepsInv(s, k, i);
        DequeueShrinks(s, i);
        FlushDelivers(TrimOldest(s, i), k);
        TrimThen(s, i, Flush(TrimOldest(s, i)).0, Flush(TrimOldest(s, i)).1);
    }
  }

  lemma InvWellFormed(s: Reader, k: nat)
    requires Inv(s, k)
    ensures WellFormed(s)
  {
  }

  lemma StopKeepsFew(s: Reader)
    requires Consistent(s) && Choose(s) == Stop
    ensures FlushOutcome(s, s, None)
  {
    hide Queued, Total, FirstLogger, Promote;
  }

  lemma DrainedKeepsNone(s: Reader)
    requires Consistent(s) && Choose(s) == Drained
    ensures FlushOutcome(s, if s.flush then s.(tail := 0) else s, None)
  {
    hide FirstLogger;
    ChoiceFacts(s);
    AllEmpty(s.queues, None);
  }

  lemma SendsOldest(s: Reader, i: nat)
    requires Consistent(s) && Choose(s) == Send(i)
    ensures FlushOutcome(s, Sends(s, i).0, Sends(s, i).1)
  {
    hide Queued, CountAll, FirstLogger, Older, MayKeep;
    ChoiceFacts(s);
    QueuedIsPromoted(s, i);
    DequeueShrinks(s, i);
    DequeueSame(s, i);
    WithoutSubset(s, i);
    var t, e := Dequeue(s, i), OldestOf(s, i);
    forall q, x | q in t.queues && x in q
      ensures !Older(x, e)
    {
      var j :| 0 <= j < |t.queues| && t.queues[j] == q;
      var m :| 0 <= m < |q| && q[m] == x;
      assert t.queues[j][m] in s.queues[j];
      var m' :| 0 <= m' < |s.queues[j]| && s.queues[j][m'] == x;
      assert !Older(s.queues[j][m'], e);
    }
  }

  lemma TrimThen(s: Reader, i: nat, t: Reader, m: Option<Entry>)
    requires Consistent(s) && Choose(s) == Trim(i) && FlushOutcome(TrimOldest(s, i), t, m)
    ensures FlushOutcome(s, t, m)
  {
    hide Queued, CountAll, FirstLogger, Older, MayKeep;
    DequeueShrinks(s, i);
    DequeueSame(s, i);
  }

  /** The wait is for 5 ms while anything may have to be flushed, and without end only after a flush. */
  ghost predicate TimeoutOk(s: Reader) {
    (s.timeoutMs == 5 || s.timeoutMs == -1) && (s.timeoutMs == -1 ==> s.flush)
  }

  /** An error is remembered only while flushing, or when there is nothing to read. */
  ghost predicate ErrorOk(s: Reader) { s.error != 0 ==> s.flush || |s.queues| == 0 }

  /** What a poll leaves if the call goes on: nothing queued that should have been delivered. */
  lemma PollStepDrains(s: Reader, k: nat, p: Poll)
    requires Settled(s, k) && TimeoutOk(s) && (p.Ready? ==> |p.ready| == |s.queues|)
    ensures
      var (t, m, error) := PollStep(s, p);
      && TimeoutOk(t) && t.error == s.error && (s.flush ==> t.flush)
      && (m.None? ==> MayKeep(t))
      && (p.PollTimeout? ==> t.flush && (Total(s.queues) > 0 ==> m.Some?) && error == if s.nonblock then EAGAIN else 0)
      && (p.PollFailed? ==> t.flush && (Total(s.queues) > 0 ==> m.Some?) && error == p.errno)
  {
    hide Flush, ReadLogs, Pushback, InForce, Newest, Sorted, CountAll, Queued, MayKeep, FlushOutcome;
    match p {
      case PollFailed(_) =>
        var s1 := s.(flush := true);
        SameEntriesSameInv(s, s1, k);
        FlushLeaves(s1, k);
      case PollTimeout =>
        var s1 := if s.nonblock then s.(flush := true) else s.(flush := true, timeoutMs := LOG_TIMEOUT_NEVER);
        SameEntriesSameInv(s, s1, k);
        FlushLeaves(s1, k);
      case Ready(ready) =>
        var s1 := s.(timeoutMs := LOG_TIMEOUT_FLUSH);
        SameEntriesSameInv(s, s1, k);
        ReadLogsKeepsInv(s1, k, Pushback(s1, ready), 0, 0);
        ReadLogsKeepsFlags(s1, Pushback(s1, ready), 0, 0);
        var (s2, m, _) := ReadLogs(s1, Pushback(s1, ready), 0, 0);
        if m.None? {
          FlushLeaves(s2, k);
        }
    }
  }

  lemma FlushLeaves(s: Reader, k: nat)
    requires Inv(s, k)
    ensures
      var (t, m) := Flush(s);
      && t.flush == s.flush && t.timeoutMs == s.timeoutMs && t.error == s.error
      && (m.None? ==> MayKeep(t))
      && (s.flush && Total(s.queues) > 0 ==> m.Some?)
  {
    hide Flush, InForce, Newest, Sorted, CountAll, Queued, MayKeep;
    FlushKeepsInv(s, k);
    FlushDelivers(s, k);
  }

  lemma {:induction false} ReadLogsKeepsFlags(s: Reader, ready: seq<Option<ReadResult>>, i: nat, error: int)
    requires WellFormed(s) && |ready| == |s.queues| && i <= |ready|
    ensures
      var t := ReadLogs(s, ready, i, error).0;
      t.flush == s.flush && t.timeoutMs == s.timeoutMs && t.error == s.error
    decreases |ready| - i
  {
    hide Accept;
    if i < |ready| {
      if ready[i].None? {
        ReadLogsKeepsFlags(s, ready, i + 1, error);
      } else {
        var (s', m, err) := ReadLog(s, i, ready[i].value);
        if m.None? {
          ReadLogsKeepsFlags(s', ready, i + 1, if err.Some? then err.value else error);
        }
      }
    }
  }

  /** How a call ends: messages before errors, the first error for good, and no waiting on what is queued. */
  ghost predicate CallOutcome(s: Reader, t: Reader, o: Outcome) {
    && TimeoutOk(t) && ErrorOk(t)
    && (s.error != 0 ==> t.error == s.error && !o.Waiting?)
    && (o.Error? ==> Total(t.queues) == 0 && t.error == o.errno != 0)
    && (o.Waiting? ==> MayKeep(t) && (t.timeoutMs == -1 ==> Total(t.queues) == 0))
  }

  lemma FinishOutcome(s: Reader, k: nat, m: Option<Entry>, error: int)
    requires Inv(s, k) && TimeoutOk(s) && ErrorOk(s) && (m.Some? || error != 0)
    ensures CallOutcome(s, Finish(s, m, error).0, Finish(s, m, error).1)
  {
    hide Flush, InForce, Newest, Sorted, CountAll, Queued;
    var s1 := if error != 0 then s.(flush := true) else s;
    SameEntriesSameInv(s, s1, k);
    if m.None? {
      FlushLeaves(s1, k);
    }
  }

  lemma {:induction false} LoopOutcome(s: Reader, k: nat, schedule: seq<Poll>)
    requires Settled(s, k) && TimeoutOk(s) && s.error == 0 && MayKeep(s) && GoodSchedule(|s.queues|, schedule)
    ensures CallOutcome(s, ReadLoop(s, schedule).0, ReadLoop(s, schedule).1)
    decreases |schedule|
  {
    hide PollStep, Finish, Inv, CountAll;
    InvWellFormed(s, k);
    if schedule != [] {
      PollStepKeepsInv(s, k, schedule[0]);
      PollStepDrains(s, k, schedule[0]);
      var (s1, m, error) := PollStep(s, schedule[0]);
      if m.Some? || error != 0 {
        FinishOutcome(s1, k, m, error);
      } else {
        LoopOutcome(s1, k, schedule[1..]);
      }
    }
  }

  lemma ReadOutcome(s: Reader, k: nat, schedule: seq<Poll>)
    requires Inv(s, k) && TimeoutOk(s) && ErrorOk(s) && GoodSchedule(|s.queues|, schedule)
    ensures CallOutcome(s, Read(s, schedule).0, Read(s, schedule).1)
    ensures |s.queues| == 0 ==> Read(s, schedule).1 == Error(if s.error != 0 then s.error else ENODEV)
    ensures s.flush && Total(s.queues) > 0 ==> Read(s, schedule).1.Message?
  {
    hide Flush, ReadLoop, InForce, Newest, Sorted, Queued;
    if |s.queues| > 0 {
      FlushKeepsInv(s, k);
      FlushLeaves(s, k);
      var (s1, m) := Flush(s);
      if m.None? && s1.error == 0 {
        LoopOutcome(s1, k, schedule);
      }
    }
  }

  lemma {:induction false} CallsEnd(s: Reader, k: nat, schedules: seq<seq<Poll>>)
    requires Inv(s, k) && TimeoutOk(s) && ErrorOk(s)
    requires forall c <- schedules :: GoodSchedule(|s.queues|, c)
    ensures
      var t := Calls(s, schedules);
      && TimeoutOk(t) && ErrorOk(t) && (s.error != 0 ==> t.error == s.error)
      && forall c | GoodSchedule(|t.queues|, c) :: CallOutcome(t, Read(t, c).0, Read(t, c).1)
    decreases |schedules|
  {
    hide Read, CallOutcome, CountAll;
    if schedules == [] {
      forall c | GoodSchedule(|s.queues|, c)
        ensures CallOutcome(s, Read(s, c).0, Read(s, c).1)
      {
        ReadOutcome(s, k, c);
      }
    } else {
      ReadKeepsInv(s, k, schedules[0]);
      ReadOutcome(s, k, schedules[0]);
      var (s1, outcome) := Read(s, schedules[0]);
      CallOutcomeIs(s, s1, outcome);
      if outcome.Waiting? {
        forall c | GoodSchedule(|s1.queues|, c)
          ensures CallOutcome(s1, Read(s1, c).0, Read(s1, c).1)
        {
          ReadOutcome(s1, k, c);
        }
      } else {
        CallsEnd(s1, k, schedules[1..]);
      }
    }
  }

  /**
   After any run of calls on freshly opened logs, whatever the next call meets:
   it returns an error only when every accepted message has been delivered, and
   then the first error there was, as every call after it does; and it does not
   wait without end on anything queued.
   */
  lemma NextCallEnds(
      ids: seq<int>, tail: nat, pid: int, nonblock: bool, schedules: seq<seq<Poll>>, next: seq<Poll>)
    requires (forall c <- schedules :: GoodSchedule(|ids|, c)) && GoodSchedule(|ids|, next)
    ensures
      var s := Calls(Opened(ids, tail, pid, nonblock), schedules);
      CallOutcome(s, Read(s, next).0, Read(s, next).1)
  {
    hide Read, CallOutcome, Calls;
    OpenedInv(ids, tail, pid, nonblock);
    CallsEnd(Opened(ids, tail, pid, nonblock), tail, schedules);
  }

  lemma CallOutcomeIs(s: Reader, t: Reader, o: Outcome)
    requires CallOutcome(s, t, o)
    ensures TimeoutOk(t) && ErrorOk(t) && (s.error != 0 ==> t.error == s.error)
  {
  }

  /**
   Anti starvation: input is held back only from logs with two or more entries,
   only when more than half the threshold is queued and some other log is short
   and has input - then from all of them - and never from every log.
   */
  lemma PushbackFeedsTheShort(s: Reader, ready: seq<Option<ReadResult>>)
    requires |ready| == |s.queues|
    ensures
      var masked := Pushback(s, ready);
      var starving := exists i | 0 <= i < |ready| :: ready[i].Some? && |s.queues[i]| < 2;
      var full := s.queuedLines > (if s.tail < 64 then 64 else s.tail) / 2;
      && |masked| == |ready|
      && (forall i | 0 <= i < |ready| :: masked[i] == ready[i] || (masked[i] == None && |s.queues[i]| >= 2))
      && (!(starving && full && !s.flush) ==> masked == ready)
      && (starving && full && !s.flush ==> forall i | 0 <= i < |ready| && |s.queues[i]| >= 2 :: masked[i] == None)
      && ((exists i | 0 <= i < |ready| :: ready[i].Some?) ==> exists i | 0 <= i < |ready| :: masked[i].Some?)
  {
    var masked := Pushback(s, ready);
    if i :| 0 <= i < |ready| && ready[i].Some? && |s.queues[i]| < 2 {
      assert LowQueue(s.queues[i]) && masked[i] == ready[i];
    }
  }

  /**
   Tail mode.  After any calls over any arrivals, poll results and errors on
   freshly opened logs: nothing is lost or duplicated, the line count is right,
   and once the tail limit has been lifted, the first messages the calls
   returned are, oldest first, the newest `tail` of everything queued by then.
   */
  lemma TailKeepsNewest(ids: seq<int>, tail: nat, pid: int, nonblock: bool, schedules: seq<seq<Poll>>)
    requires forall c <- schedules :: GoodSchedule(|ids|, c)
    ensures
      var s := Calls(Opened(ids, tail, pid, nonblock), schedules);
      && s.queuedLines == Total(s.queues)
      && multiset(s.accepted) == Queued(s.queues) + multiset(s.trimmed) + multiset(s.sent)
      && s.sent == AllReturned(Opened(ids, tail, pid, nonblock), schedules)
      && s.batch <= s.sent && s.backlog <= s.accepted
      && (s.tail == tail || s.tail == 0)
      && (s.tail == 0 ==> Newest(s.batch, s.backlog, s.trimmed, tail) && Sorted(s.batch))
      && (s.tail > 0 ==> s.batch == s.sent && s.backlog == s.accepted && Sorted(s.sent) && |s.sent| <= tail)
  {
    OpenedInv(ids, tail, pid, nonblock);
    CallsKeepInv(Opened(ids, tail, pid, nonblock), tail, schedules);
    CallsReturn(Opened(ids, tail, pid, nonblock), schedules);
  }

  /** The two readings of "newest" agree: the timestamps of the batch do not depend on how ties were cut. */
  lemma {:induction false} NewestIsUnique(b1: seq<Entry>, t1: seq<Entry>, b2: seq<Entry>, t2: seq<Entry>,
                                          backlog: seq<Entry>, k: nat, x: Entry)
    requires Newest(b1, backlog, t1, k) && Newest(b2, backlog, t2, k)
    ensures Count(b1, Some(x)) == Count(b2, Some(x))
  {
    CountBounds(b1, Some(x));
    CountBounds(b2, Some(x));
    CountSplit(b1, t1, backlog, x);
    CountSplit(b2, t2, backlog, x);
    AllOrNone(b1, t1, x);
    AllOrNone(b2, t2, x);
  }

  lemma {:induction false} CountOfMultiset(a: seq<Entry>, b: seq<Entry>, bound: Option<Entry>)
    requires multiset(a) == multiset(b)
    ensures Count(a, bound) == Count(b, bound)
    decreases |a|
  {
    assert |multiset(a)| == |a| && |multiset(b)| == |b|;
    if a != [] {
      assert a == [a[0]] + a[1..];
      assert a[0] in multiset(b);
      var j :| 0 <= j < |b| && b[j] == a[0];
      CountWithout(b, j, bound);
      assert multiset(a[1..]) == multiset(a) - multiset{a[0]};
      CountOfMultiset(a[1..], Without(b, j), bound);
    }
  }

  lemma CountSplit(b: seq<Entry>, t: seq<Entry>, backlog: seq<Entry>, x: Entry)
    requires multiset(backlog) == multiset(b) + multiset(t)
    ensures Count(backlog, Some(x)) == Count(b, Some(x)) + Count(t, Some(x))
  {
    assert multiset(b + t) == multiset(b) + multiset(t);
    CountOfMultiset(backlog, b + t, Some(x));
    CountConcat(b, t, Some(x));
  }

  /** If anything trimmed meets the bound, the whole batch does. */
  lemma AllOrNone(b: seq<Entry>, t: seq<Entry>, x: Entry)
    requires forall u, e | u in t && e in b :: !Older(e, u)
    ensures Count(t, Some(x)) == 0 || Count(b, Some(x)) == |b|
  {
    CountBounds(b, Some(x));
    if Count(t, Some(x)) > 0 {
      var u := SomeMeets(t, x);
      forall e | e in b
        ensures Meets(e, Some(x))
      {
        assert !Older(e, u);
      }
    }
  }

  lemma {:induction false} SomeMeets(t: seq<Entry>, x: Entry) returns (u: Entry)
    requires Count(t, Some(x)) > 0
    ensures u in t && !Older(u, x)
  {
    if Meets(t[0], Some(x)) {
      u := t[0];
    } else {
      u := SomeMeets(t[1..], x);
    }
  }
}
