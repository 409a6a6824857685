/**
 struct logger_list updated in place: the merge, trim and read loops, each
 proved to take the step LogMerge defines.
 */
module LogReader {
  import opened LogMerge
  import opened Wrappers

  class LoggerList {
    var ids: seq<int>
    var queues: seq<seq<Entry>>
    var queuedLines: nat
    var tail: nat
    var pid: int
    var nonblock: bool
    var timeoutMs: int
    var error: int
    var flush: bool

    // history
    ghost var accepted: seq<Entry>
    ghost var sent: seq<Entry>
    ghost var trimmed: seq<Entry>
    ghost var backlog: seq<Entry>
    ghost var batch: seq<Entry>

    ghost function Snapshot(): Reader
      reads this
    {
      Reader(ids, queues, queuedLines, tail, pid, nonblock, timeoutMs, error, flush,
             accepted, sent, trimmed, backlog, batch)
    }

    constructor (ids: seq<int>, tail: nat, pid: int, nonblock: bool)
      ensures Snapshot() == Opened(ids, tail, pid, nonblock)
    {
      this.ids, this.tail, this.pid, this.nonblock := ids, tail, pid, nonblock;
      queues := seq(|ids|, _ => []);
      queuedLines, timeoutMs, error, flush := 0, LOG_TIMEOUT_FLUSH, 0, false;
      accepted, sent, trimmed, backlog, batch := [], [], [], [], [];
    }

    /** The merge: the log and index of the oldest entry, and whether some queue is low. */
    method PickOldest() returns (low: bool, first: Option<nat>, index: nat)
      ensures low == AnyLow(queues)
      ensures first == FirstLogger(queues, |queues|)
      ensures first.Some? ==> index == Oldest(queues[first.value])
    {
      low, first, index := false, None, 0;
      for i := 0 to |queues|
        invariant low == exists j | 0 <= j < i :: LowQueue(queues[j])
        invariant first == FirstLogger(queues, i)
        invariant first.Some? ==> index == Oldest(queues[first.value])
      {
        var q := queues[i];
        var oldest: Option<nat> := None;
        for j := 0 to |q|
          invariant oldest == if j == 0 then None else Some(OldestIndex(q, j))
        {
          if oldest.None? || Older(q[j], q[oldest.value]) {
            oldest := Some(j);
          }
        }
        if oldest.None? {
          low := true;
          continue;
        } else if LowQueue(q) {
          low := true;
        }
        if first.None? || Older(q[oldest.value], queues[first.value][index]) {
          first, index := Some(i), oldest.value;
        }
      }
      LowIsAnyLow(queues);
    }

    static lemma LowIsAnyLow(queues: seq<seq<Entry>>)
      ensures AnyLow(queues) <==> exists j | 0 <= j < |queues| :: LowQueue(queues[j])
    {
    }

    /** The removal at the end of an iteration. */
    method RemoveEntry(i: nat, index: nat)
      requires i < |queues| && queues[i] != [] && index == Oldest(queues[i])
      modifies this`queues, this`queuedLines
      ensures Snapshot() == Dequeue(old(Snapshot()), i)
    {
      queues := queues[i := Without(queues[i], index)];
      if queuedLines > 0 {
        queuedLines := queuedLines - 1;
      }
    }

    method SendEntry(i: nat, index: nat) returns (m: Entry)
      requires WellFormed(Snapshot())
      requires i < |queues| && queues[i] != [] && index == Oldest(queues[i])
      modifies this
      ensures m == Promote(OldestOf(old(Snapshot()), i), old(ids)[i])
      ensures Snapshot() == Deliver(Dequeue(old(Snapshot()), i), m)
    {
      m := Promote(queues[i][index], ids[i]);
      sent := sent + [m];
      batch := if tail > 0 then batch + [m] else batch;
      RemoveEntry(i, index);
    }

    method TrimEntry(i: nat, index: nat)
      requires i < |queues| && queues[i] != [] && index == Oldest(queues[i])
      modifies this
      ensures Snapshot() == TrimOldest(old(Snapshot()), i)
    {
      trimmed := trimmed + [queues[i][index]];
      RemoveEntry(i, index);
    }

    /** android_logger_list_flush */
    method FlushList() returns (m: Option<Entry>)
      requires WellFormed(Snapshot())
      modifies this
      ensures (Snapshot(), m) == Flush(old(Snapshot()))
    {
      m := None;
      var first: Option<nat> := None;
      while m.None? && (flush || queuedLines > tail)
        invariant WellFormed(Snapshot())
        invariant Flush(old(Snapshot())) == if m.Some? then (Snapshot(), m) else Flush(Snapshot())
        invariant flush == old(flush)
        invariant m.Some? ==> first.Some?
        decreases m.None?, Total(queues)
      {
        ghost var s := Snapshot();
        var low, index;
        low, first, index := PickOldest();
        if first.None? {
          assert Choose(s) == Drained;
          break;
        }
        if !flush && low && queuedLines < QueueThreshold(tail) {
          assert Choose(s) == Stop;
          break;
        }
        DequeueShrinks(s, first.value);
        if tail == 0 || queuedLines <= tail {
          assert Choose(s) == Send(first.value);
          var e := SendEntry(first.value, index);
          m := Some(e);
        } else {
          assert Choose(s) == Trim(first.value);
          TrimEntry(first.value, index);
        }
      }
      if flush && first.None? {
        tail := 0;
      }
    }

    /** Anti starvation: drop POLLIN of the queues that are not low while a low one has input. */
    method PushBackReady(ready: seq<Option<ReadResult>>) returns (masked: seq<Option<ReadResult>>)
      requires |ready| == |queues|
      ensures masked == Pushback(Snapshot(), ready)
    {
      masked := ready;
      if !flush && queuedLines > QueueThreshold(tail) / 2 {
        var starving := false;
        for i := 0 to |queues|
          invariant starving == exists j | 0 <= j < i :: ready[j].Some? && LowQueue(queues[j])
        {
          if ready[i].Some? && LowQueue(queues[i]) {
            starving := true;
          }
        }
        if starving {
          for i := 0 to |queues|
            invariant |masked| == |ready|
            invariant forall j | 0 <= j < |ready| ::
                        masked[j] == if j < i && !LowQueue(queues[j]) then None else ready[j]
          {
            if ready[i].Some? && !LowQueue(queues[i]) {
              masked := masked[i := None];
            }
          }
        }
      }
    }

    /** One read of log `i`: a message to send at once, and an error if there is one. */
    method ReadOne(i: nat, read: ReadResult) returns (m: Option<Entry>, err: Option<int>)
      requires WellFormed(Snapshot()) && i < |queues|
      modifies this
      ensures (Snapshot(), m, err) == ReadLog(old(Snapshot()), i, read)
    {
      hide Accept;
      m, err := None, None;
      match read {
        case Eof => err := Some(EIO);
        case Failed(errno) => err := Some(errno);
        case Interrupted =>
        case Got(raw, result) =>
          if pid != 0 && pid != raw.pid {
            return;
          }
          var e := Accept(raw, result, ids[i]);
          if e.None? {
            err := Some(EINVAL);
            return;
          }
          accepted := accepted + [e.value];
          if tail == 0 && |queues| == 1 {
            sent := sent + [e.value];
            m := e;
            return;
          }
          queuedLines := queuedLines + 1;
          queues := queues[i := queues[i] + [e.value]];
          backlog := if tail > 0 then backlog + [e.value] else backlog;
      }
    }

    /** The pass over the logs with input pending; ready[i].Some? is POLLIN after the pushback. */
    method ReadReady(ready: seq<Option<ReadResult>>) returns (m: Option<Entry>, err: int)
      requires WellFormed(Snapshot()) && |ready| == |queues|
      modifies this
      ensures (Snapshot(), m, err) == ReadLogs(old(Snapshot()), ready, 0, 0)
    {
      m, err := None, 0;
      var i := 0;
      while i < |queues|
        invariant WellFormed(Snapshot()) && |ready| == |queues| && i <= |queues| && m.None?
        invariant ReadLogs(old(Snapshot()), ready, 0, 0) == ReadLogs(Snapshot(), ready, i, err)
      {
        if ready[i].Some? {
          var e;
          m, e := ReadOne(i, ready[i].value);
          if e.Some? {
            err := e.value;
          }
          if m.Some? {
            return;
          }
        }
        i := i + 1;
      }
    }

    /** The labels flush and done: a message takes precedence over an error, which is kept for the next call. */
    method FinishRead(msg: Option<Entry>, err: int) returns (r: Outcome)
      requires WellFormed(Snapshot())
      modifies this
      ensures (Snapshot(), r) == Finish(old(Snapshot()), msg, err)
    {
      var m := msg;
      if err != 0 {
        flush := true;
      }
      if m.None? {
        m := FlushList();
      }
      if error == 0 {
        error := err;
      }
      r := if m.Some? then Message(m.value) else Error(error);
    }

    /** One iteration of the loop of android_logger_list_read, on what poll returned. */
    method PollOnce(p: Poll) returns (m: Option<Entry>, err: int)
      requires WellFormed(Snapshot()) && (p.Ready? ==> |p.ready| == |queues|)
      modifies this
      ensures (Snapshot(), m, err) == PollStep(old(Snapshot()), p)
    {
      hide Flush, ReadLogs, Pushback;
      m, err := None, 0;
      match p {
        case PollFailed(errno) =>
          err := errno;
          flush := true;
          m := FlushList();
        case PollTimeout =>
          if nonblock {
            err := EAGAIN;
          } else {
            timeoutMs := LOG_TIMEOUT_NEVER;
          }
          flush := true;
          m := FlushList();
        case Ready(ready) =>
          timeoutMs := LOG_TIMEOUT_FLUSH;
          var masked := PushBackReady(ready);
          m, err := ReadReady(masked);
          if m.None? {
            m := FlushList();
          }
      }
    }

    /** android_logger_list_read, against a schedule of poll results. */
    method ReadList(schedule: seq<Poll>) returns (r: Outcome)
      requires WellFormed(Snapshot()) && GoodSchedule(|queues|, schedule)
      modifies this
      ensures (Snapshot(), r) == Read(old(Snapshot()), schedule)
    {
      hide Flush, PollStep, Finish, ReadLoop, GoodSchedule;
      if |queues| == 0 {
        if error == 0 {
          error := ENODEV;
        }
        return Error(error);
      }
      var m := FlushList();
      if m.Some? || error != 0 {
        return if m.Some? then Message(m.value) else Error(error);
      }
      var i, err := 0, 0;
      assert schedule[0..] == schedule;
      while m.None? && err == 0
        invariant WellFormed(Snapshot()) && |queues| == old(|queues|) && i <= |schedule|
        invariant GoodSchedule(|queues|, schedule[i..])
        invariant Read(old(Snapshot()), schedule) ==
                  if m.None? && err == 0 then ReadLoop(Snapshot(), schedule[i..]) else Finish(Snapshot(), m, err)
        decreases |schedule| - i
      {
        UnfoldLoop(Snapshot(), schedule[i..]);
        if i == |schedule| {
          return Waiting;
        }
        assert schedule[i..][1..] == schedule[i + 1..];
        m, err := PollOnce(schedule[i]);
        i := i + 1;
      }
      r := FinishRead(m, err);
    }

    static lemma UnfoldLoop(s: Reader, schedule: seq<Poll>)
      requires WellFormed(s) && GoodSchedule(|s.queues|, schedule)
      ensures schedule == [] ==> ReadLoop(s, schedule) == (s, Waiting)
      ensures schedule != [] ==>
                var p := schedule[0];
                && (p.Ready? ==> |p.ready| == |s.queues|)
                && GoodSchedule(|s.queues|, schedule[1..])
                && var (s1, m, error) := PollStep(s, p);
                ReadLoop(s, schedule) ==
                  if m.Some? || error != 0 then Finish(s1, m, error) else ReadLoop(s1, schedule[1..])
    {
      hide PollStep, Finish;
    }
  }
}
