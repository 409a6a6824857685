/**
 The message half of the looper as interleaved steps: one looper thread, any
 number of threads sending and removing messages, a mutex, the cached next
 deadline and the wake pipe.  A step that runs under the lock is one action;
 the lock is free exactly when the looper is not in Draining or Dispatching.
 */
module LooperProtocol {
  import opened Bits

  const LLONG_MAX: i64 := INT64_MAX
  const INT_MAX: int := 0x7fff_ffff
  const NS_PER_MS: int := 1_000_000
  const LONGEST_DELAY: int := (INT_MAX - 1) * NS_PER_MS
  const PIPE_CAPACITY: nat := 65536
  const PIPE_READ: nat := 16

  /** `id` is the position in the order of sends; the code does not keep it. */
  datatype Envelope = Envelope(uptime: i64, handler: nat, what: int, id: nat)

  /** A dispatched message, the clock reading that let it go, and how many had been sent by then. */
  datatype Handled = Handled(env: Envelope, at: i64, sentBefore: nat)

  datatype Phase =
    | Outside
    | Polling(start: i64, caller: int, timeout: int)
    | Returned(wake: bool)
    | Draining
    | Dispatching
    | Handling(env: Envelope)

  datatype State = State(
    queue: seq<Envelope>, nextUptime: i64, sending: bool, pipe: nat, pendingWakes: nat, now: i64, phase: Phase,
    sent: seq<Envelope>, handled: seq<Handled>, removed: seq<Envelope>)

  datatype Action =
    | Send(uptime: i64, handler: nat, what: int)
    | RemoveHandler(handler: nat)
    | RemoveWhat(handler: nat, what: int)
    | SenderWakes
    | WakeCall
    | Tick(now: i64)
    | StartPoll(timeoutMillis: int)
    | PollReturns(wake: bool)
    | TakeLock
    | ReadPipe
    | Dispatch
    | HandlerReturns

  // ------------------------------------------------------------------------
  // Timeouts
  // ------------------------------------------------------------------------

  function ToMillisecondTimeoutDelay(reference: i64, timeout: i64): int {
    if timeout > reference then
      var delay := U64(I64(timeout - reference));
      if delay > LONGEST_DELAY then -1 else (delay + 999_999) / NS_PER_MS
    else 0
  }

  /** The timeout handed to epoll_wait. */
  function PollTimeout(timeoutMillis: int, nextUptime: i64, now: i64): int {
    if timeoutMillis != 0 && nextUptime != LLONG_MAX then
      var messageTimeout := ToMillisecondTimeoutDelay(now, nextUptime);
      if messageTimeout >= 0 && (timeoutMillis < 0 || messageTimeout < timeoutMillis)
      then messageTimeout else timeoutMillis
    else timeoutMillis
  }

  // ------------------------------------------------------------------------
  // Steps
  // ------------------------------------------------------------------------

  /** The index after every envelope that is due no later, searching from `i`. */
  function InsertionPoint(queue: seq<Envelope>, uptime: i64, i: nat): (p: nat)
    requires i <= |queue|
    ensures i <= p <= |queue|
    decreases |queue| - i
  {
    if i < |queue| && uptime >= queue[i].uptime then InsertionPoint(queue, uptime, i + 1) else i
  }

  function InsertAt(queue: seq<Envelope>, i: nat, e: Envelope): seq<Envelope>
    requires i <= |queue|
  {
    queue[..i] + [e] + queue[i..]
  }

  /** `what` absent stands for the overload that removes every message of the handler. */
  datatype Selector = Selector(handler: nat, anyWhat: bool, what: int)

  predicate Selects(sel: Selector, e: Envelope) {
    e.handler == sel.handler && (sel.anyWhat || e.what == sel.what)
  }

  function Kept(queue: seq<Envelope>, sel: Selector): seq<Envelope> {
    if queue == [] then []
    else (if Selects(sel, queue[0]) then [] else [queue[0]]) + Kept(queue[1..], sel)
  }

  function Dropped(queue: seq<Envelope>, sel: Selector): seq<Envelope> {
    if queue == [] then []
    else (if Selects(sel, queue[0]) then [queue[0]] else []) + Dropped(queue[1..], sel)
  }

  predicate LockFree(s: State) { !s.phase.Draining? && !s.phase.Dispatching? }

  predicate Enabled(s: State, a: Action) {
    match a
    case Send(_, _, _) => LockFree(s)
    case RemoveHandler(_) => LockFree(s)
    case RemoveWhat(_, _) => LockFree(s)
    case SenderWakes => s.pendingWakes > 0
    case WakeCall => true
    case Tick(now) => now >= s.now
    case StartPoll(_) => s.phase.Outside?
    case PollReturns(wake) => s.phase.Polling? && (wake ==> s.pipe > 0)
    case TakeLock => s.phase.Returned?
    case ReadPipe => s.phase.Draining?
    case Dispatch => s.phase.Dispatching?
    case HandlerReturns => s.phase.Handling?
  }

  function SendStep(s: State, uptime: i64, handler: nat, what: int): State {
    var e := Envelope(uptime, handler, what, |s.sent|);
    var i := InsertionPoint(s.queue, uptime, 0);
    s.(queue := InsertAt(s.queue, i, e), sent := s.sent + [e],
       pendingWakes := if !s.sending && i == 0 then s.pendingWakes + 1 else s.pendingWakes)
  }

  function RemoveStep(s: State, sel: Selector): State {
    s.(queue := Kept(s.queue, sel), removed := s.removed + Dropped(s.queue, sel))
  }

  /** A write to a full pipe fails with EAGAIN and leaves it as it is. */
  function WriteWake(pipe: nat): nat { if pipe < PIPE_CAPACITY then pipe + 1 else pipe }

  /** Label Done: the deadline is forgotten before the queue is walked. */
  function BeginDispatch(s: State): State { s.(phase := Dispatching, nextUptime := LLONG_MAX) }

  /** One read of up to 16 bytes; a short one ends the draining. */
  function ReadPipeStep(s: State): State {
    if s.pipe >= PIPE_READ then s.(pipe := s.pipe - PIPE_READ) else BeginDispatch(s.(pipe := 0))
  }

  /** One turn of the dispatch loop: hand out the head if it is due, otherwise note its deadline and unlock. */
  function DispatchStep(s: State): State {
    if s.queue == [] then s.(phase := Outside)
    else
      var e := s.queue[0];
      if e.uptime <= s.now then
        s.(queue := s.queue[1..], sending := true, phase := Handling(e),
           handled := s.handled + [Handled(e, s.now, |s.sent|)])
      else s.(nextUptime := e.uptime, phase := Outside)
  }

  function Apply(s: State, a: Action): State
    requires Enabled(s, a)
  {
    match a
    case Send(uptime, handler, what) => SendStep(s, uptime, handler, what)
    case RemoveHandler(handler) => RemoveStep(s, Selector(handler, true, 0))
    case RemoveWhat(handler, what) => RemoveStep(s, Selector(handler, false, what))
    case SenderWakes => s.(pendingWakes := s.pendingWakes - 1, pipe := WriteWake(s.pipe))
    case WakeCall => s.(pipe := WriteWake(s.pipe))
    case Tick(now) => s.(now := now)
    case StartPoll(timeout) => s.(phase := Polling(s.now, timeout, PollTimeout(timeout, s.nextUptime, s.now)))
    case PollReturns(wake) => s.(phase := Returned(wake))
    case TakeLock => if s.phase.wake then s.(phase := Draining) else BeginDispatch(s)
    case ReadPipe => ReadPipeStep(s)
    case Dispatch => DispatchStep(s)
    case HandlerReturns => s.(sending := false, phase := Dispatching)
  }

  function Start(now: i64): State {
    State([], LLONG_MAX, false, 0, 0, now, Outside, [], [], [])
  }

  predicate CanRun(s: State, actions: seq<Action>)
    decreases |actions|
  {
    actions == [] || (Enabled(s, actions[0]) && CanRun(Apply(s, actions[0]), actions[1..]))
  }

  function Run(s: State, actions: seq<Action>): State
    requires CanRun(s, actions)
    decreases |actions|
  {
    if actions == [] then s else Run(Apply(s, actions[0]), actions[1..])
  }

  // ------------------------------------------------------------------------
  // Invariant
  // ------------------------------------------------------------------------

  /** Earlier deadline first, and send order between equal deadlines. */
  predicate Before(a: Envelope, b: Envelope) {
    a.uptime < b.uptime || (a.uptime == b.uptime && a.id < b.id)
  }

  ghost predicate Sorted(queue: seq<Envelope>) {
    forall i, j | 0 <= i < j < |queue| :: Before(queue[i], queue[j])
  }

  function Envelopes(handled: seq<Handled>): seq<Envelope> {
    seq(|handled|, i requires 0 <= i < |handled| => handled[i].env)
  }

  /** Every message sent is in exactly one of the queue, the handled and the removed. */
  ghost predicate Conserved(s: State) {
    && multiset(s.sent) == multiset(s.queue) + multiset(Envelopes(s.handled)) + multiset(s.removed)
    && forall i | 0 <= i < |s.sent| :: s.sent[i].id == i
  }

  /** A message handed out early precedes whatever is handed out later, unless that was not yet sent. */
  ghost predicate HandledInOrder(s: State) {
    && (forall i, j | 0 <= i < j < |s.handled| ::
          Before(s.handled[i].env, s.handled[j].env) || s.handled[j].env.id >= s.handled[i].sentBefore)
    && (forall i, j | 0 <= i < |s.handled| && 0 <= j < |s.queue| ::
          Before(s.handled[i].env, s.queue[j]) || s.queue[j].id >= s.handled[i].sentBefore)
    && (forall i | 0 <= i < |s.handled| ::
          s.handled[i].env.uptime <= s.handled[i].at <= s.now && s.handled[i].sentBefore <= |s.sent|)
    && (forall i, j | 0 <= i < j < |s.handled| :: s.handled[i].at <= s.handled[j].at)
  }

  /** The looper will look at the queue again in time: by its deadline, the pipe, or a wake on its way. */
  ghost predicate WillWake(s: State) {
    s.queue != [] ==> s.nextUptime <= s.queue[0].uptime || s.pipe > 0 || s.pendingWakes > 0
  }

  ghost predicate Inv(s: State) {
    && Sorted(s.queue)
    && (forall i | 0 <= i < |s.queue| :: s.queue[i].id < |s.sent|)
    && Conserved(s)
    && HandledInOrder(s)
    && (s.sending <==> s.phase.Handling?)
    && (s.phase.Outside? || s.phase.Polling? || s.phase.Returned? ==> WillWake(s))
    && (s.phase.Dispatching? || s.phase.Handling? ==> s.nextUptime == LLONG_MAX)
    && (s.phase.Polling? ==>
          && s.phase.start <= s.now
          && s.phase.timeout == PollTimeout(s.phase.caller, s.nextUptime, s.phase.start))
  }

  lemma {:induction false} InsertionPointSorted(queue: seq<Envelope>, uptime: i64, i: nat)
    requires Sorted(queue) && i <= |queue|
    requires forall j | 0 <= j < i :: queue[j].uptime <= uptime
    ensures
      var p := InsertionPoint(queue, uptime, i);
      && (forall j | 0 <= j < p :: queue[j].uptime <= uptime)
      && (forall j | p <= j < |queue| :: uptime < queue[j].uptime)
    decreases |queue| - i
  {
    if i < |queue| && uptime >= queue[i].uptime {
      InsertionPointSorted(queue, uptime, i + 1);
    } else if i < |queue| {
      assert forall j | i < j < |queue| :: Before(queue[i], queue[j]);
    }
  }

  /** Inserting a fresh envelope keeps the queue sorted and adds just that envelope. */
  lemma InsertSorted(queue: seq<Envelope>, e: Envelope)
    requires Sorted(queue) && forall j | 0 <= j < |queue| :: queue[j].id < e.id
    ensures
      var i := InsertionPoint(queue, e.uptime, 0); var queue' := InsertAt(queue, i, e);
      && Sorted(queue')
      && multiset(queue') == multiset(queue) + multiset{e}
      && (forall j | 0 <= j < |queue'| :: queue'[j] == e || queue'[j] in queue)
      && (i > 0 ==> queue' != [] && queue'[0] == queue[0])
  {
    var i := InsertionPoint(queue, e.uptime, 0);
    InsertionPointSorted(queue, e.uptime, 0);
    InsertBetween(queue, i, e);
    InsertAdds(queue, i, e);
  }

  lemma InsertBetween(queue: seq<Envelope>, i: nat, e: Envelope)
    requires Sorted(queue) && i <= |queue|
    requires forall j | 0 <= j < i :: Before(queue[j], e)
    requires forall j | i <= j < |queue| :: Before(e, queue[j])
    ensures Sorted(InsertAt(queue, i, e))
  {
    var queue' := InsertAt(queue, i, e);
    assert forall a | 0 <= a < |queue'| :: queue'[a] == if a < i then queue[a] else if a == i then e else queue[a - 1];
  }

  lemma InsertAdds(queue: seq<Envelope>, i: nat, e: Envelope)
    requires i <= |queue|
    ensures multiset(InsertAt(queue, i, e)) == multiset(queue) + multiset{e}
    ensures forall j | 0 <= j < |queue| + 1 :: InsertAt(queue, i, e)[j] == e || InsertAt(queue, i, e)[j] in queue
  {
    assert queue == queue[..i] + queue[i..];
  }

  lemma SendKeepsInv(s: State, uptime: i64, handler: nat, what: int)
    requires Inv(s) && LockFree(s)
    ensures Inv(SendStep(s, uptime, handler, what))
  {
    var e := Envelope(uptime, handler, what, |s.sent|);
    var s' := SendStep(s, uptime, handler, what);
    InsertSorted(s.queue, e);
    SendConserved(s, s', e);
    SendInOrder(s, s', e);
  }

  lemma SendConserved(s: State, s': State, e: Envelope)
    requires Conserved(s) && e.id == |s.sent| && s'.sent == s.sent + [e]
    requires multiset(s'.queue) == multiset(s.queue) + multiset{e}
    requires s'.handled == s.handled && s'.removed == s.removed
    ensures Conserved(s')
  {
    assert multiset(s'.sent) == multiset(s.sent) + multiset{e};
  }

  lemma SendInOrder(s: State, s': State, e: Envelope)
    requires HandledInOrder(s) && e.id == |s.sent| && s'.sent == s.sent + [e]
    requires forall j | 0 <= j < |s'.queue| :: s'.queue[j] == e || s'.queue[j] in s.queue
    requires s'.handled == s.handled && s'.now == s.now
    ensures HandledInOrder(s')
  {
    forall i, j | 0 <= i < |s.handled| && 0 <= j < |s'.queue|
      ensures Before(s.handled[i].env, s'.queue[j]) || s'.queue[j].id >= s.handled[i].sentBefore
    {
      if s'.queue[j] != e {
        var m := IndexIn(s.queue, s'.queue[j]);
      }
    }
  }

  lemma {:induction false} IndexIn(queue: seq<Envelope>, e: Envelope) returns (m: nat)
    requires e in queue
    ensures m < |queue| && queue[m] == e
  {
    if queue[0] == e {
      m := 0;
    } else {
      m := IndexIn(queue[1..], e);
      m := m + 1;
    }
  }

  lemma {:induction false} KeptFacts(queue: seq<Envelope>, sel: Selector)
    ensures multiset(queue) == multiset(Kept(queue, sel)) + multiset(Dropped(queue, sel))
    ensures forall e :: e in Kept(queue, sel) <==> e in queue && !Selects(sel, e)
    ensures forall e :: e in Dropped(queue, sel) <==> e in queue && Selects(sel, e)
  {
    if queue != [] {
      KeptFacts(queue[1..], sel);
      assert queue == [queue[0]] + queue[1..];
    }
  }

  lemma {:induction false} KeptSorted(queue: seq<Envelope>, sel: Selector)
    requires Sorted(queue)
    ensures Sorted(Kept(queue, sel))
    ensures Kept(queue, sel) != [] ==> queue[0].uptime <= Kept(queue, sel)[0].uptime
  {
    if queue != [] {
      SortedTail(queue);
      KeptSorted(queue[1..], sel);
      KeptFacts(queue[1..], sel);
      var k := Kept(queue[1..], sel);
      forall i | 0 <= i < |k|
        ensures Before(queue[0], k[i])
      {
        assert k[i] in k;
        var j := IndexIn(queue[1..], k[i]);
        assert queue[j + 1] == k[i];
      }
    }
  }

  lemma SortedTail(queue: seq<Envelope>)
    requires Sorted(queue) && queue != []
    ensures Sorted(queue[1..])
  {
    forall i, j | 0 <= i < j < |queue[1..]|
      ensures Before(queue[1..][i], queue[1..][j])
    {
      assert queue[1..][i] == queue[i + 1] && queue[1..][j] == queue[j + 1];
    }
  }

  lemma RemoveKeepsInv(s: State, sel: Selector)
    requires Inv(s) && LockFree(s)
    ensures Inv(RemoveStep(s, sel))
  {
    var s' := RemoveStep(s, sel);
    KeptFacts(s.queue, sel);
    KeptSorted(s.queue, sel);
    RemoveConserved(s, sel);
    KeptIn(s.queue, sel);
    KeptInOrder(s, s');
  }

  lemma RemoveConserved(s: State, sel: Selector)
    requires Conserved(s)
    ensures Conserved(RemoveStep(s, sel))
  {
    KeptFacts(s.queue, sel);
    assert multiset(s.removed + Dropped(s.queue, sel)) == multiset(s.removed) + multiset(Dropped(s.queue, sel));
  }

  lemma KeptIn(queue: seq<Envelope>, sel: Selector)
    ensures forall j | 0 <= j < |Kept(queue, sel)| :: Kept(queue, sel)[j] in queue
  {
    KeptFacts(queue, sel);
    forall j | 0 <= j < |Kept(queue, sel)|
      ensures Kept(queue, sel)[j] in queue
    {
      assert Kept(queue, sel)[j] in Kept(queue, sel);
    }
  }

  lemma KeptInOrder(s: State, s': State)
    requires HandledInOrder(s) && forall j | 0 <= j < |s'.queue| :: s'.queue[j] in s.queue
    requires s'.handled == s.handled && s'.now == s.now && s'.sent == s.sent
    ensures HandledInOrder(s')
  {
    forall i, j | 0 <= i < |s.handled| && 0 <= j < |s'.queue|
      ensures Before(s.handled[i].env, s'.queue[j]) || s'.queue[j].id >= s.handled[i].sentBefore
    {
      var m := IndexIn(s.queue, s'.queue[j]);
    }
  }

  lemma DispatchKeepsInv(s: State)
    requires Inv(s) && s.phase.Dispatching?
    ensures Inv(DispatchStep(s))
  {
    if s.queue != [] && s.queue[0].uptime <= s.now {
      SortedTail(s.queue);
      TakeConserved(s);
      TakeInOrder(s);
    }
  }

  lemma TakeConserved(s: State)
    requires Conserved(s) && s.queue != [] && s.queue[0].uptime <= s.now
    ensures Conserved(DispatchStep(s))
  {
    var s' := DispatchStep(s);
    assert s.queue == [s.queue[0]] + s.queue[1..];
    assert Envelopes(s'.handled) == Envelopes(s.handled) + [s.queue[0]];
    assert multiset(Envelopes(s'.handled)) == multiset(Envelopes(s.handled)) + multiset{s.queue[0]};
    assert multiset(s.queue) == multiset{s.queue[0]} + multiset(s.queue[1..]);
  }

  lemma TakeInOrder(s: State)
    requires HandledInOrder(s) && Sorted(s.queue) && s.queue != [] && s.queue[0].uptime <= s.now
    ensures HandledInOrder(DispatchStep(s))
  {
    var s' := DispatchStep(s);
    var n := |s.handled|;
    assert s'.handled[n] == Handled(s.queue[0], s.now, |s.sent|);
    forall i, j | 0 <= i < |s'.handled| && 0 <= j < |s'.queue|
      ensures Before(s'.handled[i].env, s'.queue[j]) || s'.queue[j].id >= s'.handled[i].sentBefore
    {
      assert s'.queue[j] == s.queue[j + 1];
    }
  }

  lemma StepKeepsInv(s: State, a: Action)
    requires Inv(s) && Enabled(s, a)
    ensures Inv(Apply(s, a))
  {
    match a {
      case Send(uptime, handler, what) => SendKeepsInv(s, uptime, handler, what);
      case RemoveHandler(handler) => RemoveKeepsInv(s, Selector(handler, true, 0));
      case RemoveWhat(handler, what) => RemoveKeepsInv(s, Selector(handler, false, what));
      case SenderWakes => WakeKeepsInv(s, a);
      case WakeCall => WakeKeepsInv(s, a);
      case Tick(now) => WakeKeepsInv(s, a);
      case StartPoll(_) => PollKeepsInv(s, a);
      case PollReturns(_) => PollKeepsInv(s, a);
      case TakeLock => PollKeepsInv(s, a);
      case ReadPipe => PollKeepsInv(s, a);
      case Dispatch => DispatchKeepsInv(s);
      case HandlerReturns => PollKeepsInv(s, a);
    }
  }

  /** Only the queue, the three histories and the clock matter to the order of messages. */
  lemma SameMessages(s: State, s': State)
    requires s'.queue == s.queue && s'.sent == s.sent && s'.handled == s.handled && s'.removed == s.removed
    requires s'.now >= s.now && Conserved(s) && HandledInOrder(s)
    ensures Conserved(s') && HandledInOrder(s')
  {
  }

  lemma WakeKeepsInv(s: State, a: Action)
    requires Inv(s) && Enabled(s, a) && (a.SenderWakes? || a.WakeCall? || a.Tick?)
    ensures Inv(Apply(s, a))
  {
    SameMessages(s, Apply(s, a));
  }

  lemma PollKeepsInv(s: State, a: Action)
    requires Inv(s) && Enabled(s, a)
    requires a.StartPoll? || a.PollReturns? || a.TakeLock? || a.ReadPipe? || a.HandlerReturns?
    ensures Inv(Apply(s, a))
  {
    SameMessages(s, Apply(s, a));
  }

  lemma {:induction false} RunKeepsInv(s: State, actions: seq<Action>)
    requires Inv(s) && CanRun(s, actions)
    ensures Inv(Run(s, actions))
    decreases |actions|
  {
    if actions != [] {
      StepKeepsInv(s, actions[0]);
      RunKeepsInv(Apply(s, actions[0]), actions[1..]);
    }
  }

  // ------------------------------------------------------------------------
  // Main results
  // ------------------------------------------------------------------------

  lemma StartInv(now: i64)
    ensures Inv(Start(now))
  {
  }

  /**
   No lost wakeup: whenever the looper is outside its locked section with a
   message queued, its cached deadline covers the head, or the pipe is not
   empty, or a sender that inserted at the front has still to write to it.
   */
  lemma NoLostWakeup(now: i64, actions: seq<Action>)
    requires CanRun(Start(now), actions)
    ensures
      var s := Run(Start(now), actions);
      s.queue != [] && (s.phase.Outside? || s.phase.Polling? || s.phase.Returned?) ==>
        s.nextUptime <= s.queue[0].uptime || s.pipe > 0 || s.pendingWakes > 0
  {
    StartInv(now);
    RunKeepsInv(Start(now), actions);
  }

  /** Every message sent is in exactly one place, and the queue is by deadline, then by order of sending. */
  lemma ConservationAndOrder(now: i64, actions: seq<Action>)
    requires CanRun(Start(now), actions)
    ensures
      var s := Run(Start(now), actions);
      Sorted(s.queue) && Conserved(s) && HandledInOrder(s)
  {
    StartInv(now);
    RunKeepsInv(Start(now), actions);
  }

  /** What is handed out is due and precedes everything left in the queue. */
  lemma HandsOutTheMinimum(now: i64, actions: seq<Action>)
    requires CanRun(Start(now), actions + [Dispatch])
    ensures
      CanRun(Start(now), actions) &&
      var s := Run(Start(now), actions); var s' := Run(Start(now), actions + [Dispatch]);
      s'.phase.Handling? ==>
        && s.queue != [] && s'.phase.env == s.queue[0] && s'.queue == s.queue[1..]
        && s'.phase.env.uptime <= s.now
        && s'.handled == s.handled + [Handled(s.queue[0], s.now, |s.sent|)]
        && forall j | 0 <= j < |s'.queue| :: Before(s'.phase.env, s'.queue[j])
  {
    SplitLast(Start(now), actions, Dispatch);
    StartInv(now);
    RunKeepsInv(Start(now), actions);
  }

  /**
   What one turn of the dispatch loop does, in any run: a due head is handed
   out; otherwise its deadline is noted, or that there is none, and the lock
   released.
   */
  lemma DueHeadIsHandedOut(now: i64, actions: seq<Action>)
    requires CanRun(Start(now), actions + [Dispatch])
    ensures
      CanRun(Start(now), actions) &&
      var s := Run(Start(now), actions); var s' := Run(Start(now), actions + [Dispatch]);
      if s.queue != [] && s.queue[0].uptime <= s.now then
        && s'.phase == Handling(s.queue[0]) && s'.queue == s.queue[1..] && s'.sending
        && s'.handled == s.handled + [Handled(s.queue[0], s.now, |s.sent|)]
      else
        && s'.phase == Outside && s'.queue == s.queue && s'.handled == s.handled
        && s'.nextUptime == if s.queue == [] then LLONG_MAX else s.queue[0].uptime
  {
    SplitLast(Start(now), actions, Dispatch);
    StartInv(now);
    RunKeepsInv(Start(now), actions);
  }

  /** The dispatch loop over `n` messages whose handlers return at once. */
  function DrainDue(n: nat): seq<Action> {
    if n == 0 then [Dispatch] + [] else [Dispatch] + ([HandlerReturns] + DrainDue(n - 1))
  }

  /** A poll that times out, and the dispatch loop after it. */
  function PollAndDrain(timeoutMillis: int, n: nat): seq<Action> {
    [StartPoll(timeoutMillis)] + ([PollReturns(false)] + ([TakeLock] + DrainDue(n)))
  }

  /** The first `n` messages of the queue are those that are due. */
  ghost predicate DueCount(s: State, n: nat) {
    && n <= |s.queue|
    && (forall i | 0 <= i < n :: s.queue[i].uptime <= s.now)
    && (n < |s.queue| ==> s.now < s.queue[n].uptime)
  }

  /** What a drained state looks like from the one before. */
  ghost predicate Drained(s: State, t: State, n: nat)
    requires n <= |s.queue|
  {
    && t.phase == Outside && t.queue == s.queue[n..]
    && |t.handled| == |s.handled| + n && t.handled[..|s.handled|] == s.handled
    && (forall i | 0 <= i < n :: t.handled[|s.handled| + i] == Handled(s.queue[i], s.now, |s.sent|))
    && t.nextUptime == if n < |s.queue| then s.queue[n].uptime else LLONG_MAX
  }

  lemma {:induction false} DrainHandlesDue(s: State, n: nat)
    requires Inv(s) && s.phase.Dispatching? && DueCount(s, n)
    ensures CanRun(s, DrainDue(n)) && Drained(s, Run(s, DrainDue(n)), n)
    decreases n
  {
    hide Sorted, Conserved, HandledInOrder, WillWake, PollTimeout, CanRun, Run;
    if n == 0 {
      NothingRun(DispatchStep(s));
      RunCons(s, Dispatch, []);
    } else {
      var s1 := Apply(s, Dispatch);
      var s2 := Apply(s1, HandlerReturns);
      StepKeepsInv(s, Dispatch);
      StepKeepsInv(s1, HandlerReturns);
      assert forall i | 0 <= i < |s2.queue| :: s2.queue[i] == s.queue[i + 1];
      DrainHandlesDue(s2, n - 1);
      RunCons(s1, HandlerReturns, DrainDue(n - 1));
      RunCons(s, Dispatch, [HandlerReturns] + DrainDue(n - 1));
      DrainedFrom(s, s2, Run(s2, DrainDue(n - 1)), n);
    }
  }

  lemma NothingRun(s: State)
    ensures CanRun(s, []) && Run(s, []) == s
  {
  }

  lemma DrainedFrom(s: State, s2: State, t: State, n: nat)
    requires 0 < n <= |s.queue| && s2.queue == s.queue[1..] && s2.now == s.now && s2.sent == s.sent
    requires s2.handled == s.handled + [Handled(s.queue[0], s.now, |s.sent|)] && Drained(s2, t, n - 1)
    ensures Drained(s, t, n)
  {
    assert t.handled[..|s2.handled|][..|s.handled|] == t.handled[..|s.handled|];
    forall i | 0 <= i < n
      ensures t.handled[|s.handled| + i] == Handled(s.queue[i], s.now, |s.sent|)
    {
      if i == 0 {
        assert t.handled[|s.handled|] == t.handled[..|s2.handled|][|s.handled|];
      } else {
        assert t.handled[|s2.handled| + (i - 1)] == Handled(s2.queue[i - 1], s2.now, |s2.sent|);
      }
    }
  }

  /**
   Progress.  From any state a run can reach with the looper outside its locked
   section, its next poll, even one that only times out, hands out every
   message that is due, in order, and then notes the deadline of the first that
   is not.
   */
  lemma DueMessagesAreHandled(now: i64, actions: seq<Action>, timeoutMillis: int, n: nat)
    requires CanRun(Start(now), actions)
    requires Run(Start(now), actions).phase.Outside? && DueCount(Run(Start(now), actions), n)
    ensures
      var s := Run(Start(now), actions);
      CanRun(s, PollAndDrain(timeoutMillis, n)) && Drained(s, Run(s, PollAndDrain(timeoutMillis, n)), n)
  {
    hide Sorted, Conserved, HandledInOrder, WillWake, PollTimeout;
    StartInv(now);
    RunKeepsInv(Start(now), actions);
    var s := Run(Start(now), actions);
    var s1 := Apply(s, StartPoll(timeoutMillis));
    var s2 := Apply(s1, PollReturns(false));
    var s3 := Apply(s2, TakeLock);
    StepKeepsInv(s, StartPoll(timeoutMillis));
    StepKeepsInv(s1, PollReturns(false));
    StepKeepsInv(s2, TakeLock);
    DrainHandlesDue(s3, n);
    RunCons(s2, TakeLock, DrainDue(n));
    RunCons(s1, PollReturns(false), [TakeLock] + DrainDue(n));
    RunCons(s, StartPoll(timeoutMillis), [PollReturns(false)] + ([TakeLock] + DrainDue(n)));
  }

  /** A send puts just its message into the queue, and owes a wake exactly if that is the head and no handler runs. */
  lemma SentIsQueued(now: i64, actions: seq<Action>, uptime: i64, handler: nat, what: int)
    requires CanRun(Start(now), actions + [Send(uptime, handler, what)])
    ensures
      CanRun(Start(now), actions) &&
      var s := Run(Start(now), actions); var s' := Run(Start(now), actions + [Send(uptime, handler, what)]);
      var e := Envelope(uptime, handler, what, |s.sent|);
      && s'.sent == s.sent + [e] && multiset(s'.queue) == multiset(s.queue) + multiset{e} && Sorted(s'.queue)
      && s'.handled == s.handled && s'.removed == s.removed && s'.phase == s.phase
      && s'.pendingWakes == s.pendingWakes + (if s'.queue[0] == e && !s.phase.Handling? then 1 else 0)
  {
    SplitLast(Start(now), actions, Send(uptime, handler, what));
    StartInv(now);
    RunKeepsInv(Start(now), actions);
    var s := Run(Start(now), actions);
    hide Conserved, HandledInOrder, WillWake, PollTimeout, Sorted;
    var e := Envelope(uptime, handler, what, |s.sent|);
    InsertSorted(s.queue, e);
    HeadIsNew(s.queue, e);
  }

  lemma HeadIsNew(queue: seq<Envelope>, e: Envelope)
    requires forall j | 0 <= j < |queue| :: queue[j].id < e.id
    ensures InsertAt(queue, InsertionPoint(queue, e.uptime, 0), e)[0] == e <==> InsertionPoint(queue, e.uptime, 0) == 0
  {
    hide InsertionPoint;
  }

  /** A removal takes the selected messages out of the queue, those and no others, whatever else is under way. */
  lemma RemovedAreGone(now: i64, actions: seq<Action>, a: Action)
    requires a.RemoveHandler? || a.RemoveWhat?
    requires CanRun(Start(now), actions + [a])
    ensures
      CanRun(Start(now), actions) &&
      var s := Run(Start(now), actions); var s' := Run(Start(now), actions + [a]);
      && (forall e :: e in s'.queue <==>
            e in s.queue && !(e.handler == a.handler && (a.RemoveWhat? ==> e.what == a.what)))
      && Sorted(s'.queue) && s'.sent == s.sent && s'.handled == s.handled
  {
    SplitLast(Start(now), actions, a);
    StartInv(now);
    RunKeepsInv(Start(now), actions + [a]);
    var s := Run(Start(now), actions);
    hide Conserved, HandledInOrder, WillWake, PollTimeout, Sorted;
    KeptFacts(s.queue, if a.RemoveWhat? then Selector(a.handler, false, a.what) else Selector(a.handler, true, 0));
  }

  function ReadPipes(n: nat): seq<Action> {
    if n == 0 then [] else [ReadPipe] + ReadPipes(n - 1)
  }

  /** A poll ended by the pipe empties it, sixteen bytes at a time, and then dispatches. */
  lemma {:induction false} WokenPollEmptiesPipe(s: State)
    requires s.phase == Returned(true)
    ensures
      var actions := [TakeLock] + ReadPipes(s.pipe / PIPE_READ + 1);
      CanRun(s, actions) && Run(s, actions) == s.(phase := Dispatching, pipe := 0, nextUptime := LLONG_MAX)
  {
    var s1 := s.(phase := Draining);
    EmptyPipe(s1);
    assert Apply(s, TakeLock) == s1;
    RunCons(s, TakeLock, ReadPipes(s.pipe / PIPE_READ + 1));
  }

  lemma {:induction false} EmptyPipe(s: State)
    requires s.phase.Draining?
    ensures
      var actions := ReadPipes(s.pipe / PIPE_READ + 1);
      CanRun(s, actions) && Run(s, actions) == s.(phase := Dispatching, pipe := 0, nextUptime := LLONG_MAX)
    decreases s.pipe
  {
    var n := s.pipe / PIPE_READ;
    if s.pipe >= PIPE_READ {
      var s1 := s.(pipe := s.pipe - PIPE_READ);
      assert s1.pipe / PIPE_READ + 1 == n;
      EmptyPipe(s1);
      assert Apply(s, ReadPipe) == s1;
      RunCons(s, ReadPipe, ReadPipes(n));
    } else {
      assert ReadPipes(0) == [] && ReadPipes(1) == [ReadPipe] + [];
      RunCons(s, ReadPipe, []);
    }
  }

  /** A wake leaves the pipe readable, so that a poll can return, and only the looper's reads take that away. */
  lemma WakeStaysUntilRead(s: State, a: Action)
    requires Enabled(s, a)
    ensures a.WakeCall? || a.SenderWakes? ==>
              Apply(s, a).pipe > 0 && (s.phase.Polling? ==> Enabled(Apply(s, a), PollReturns(true)))
    ensures !a.ReadPipe? ==> Apply(s, a).pipe >= s.pipe
    ensures a.ReadPipe? ==>
              if Apply(s, a).phase.Dispatching? then Apply(s, a).pipe == 0
              else Apply(s, a).phase.Draining? && Apply(s, a).pipe < s.pipe
  {
    hide InsertionPoint, InsertAt, Kept, Dropped, PollTimeout;
  }

  lemma {:induction false} SplitLast(s: State, actions: seq<Action>, a: Action)
    requires CanRun(s, actions + [a])
    ensures CanRun(s, actions) && Enabled(Run(s, actions), a)
    ensures Run(s, actions + [a]) == Apply(Run(s, actions), a)
    decreases |actions|
  {
    if actions == [] {
      assert actions + [a] == [a];
    } else {
      assert (actions + [a])[1..] == actions[1..] + [a];
      SplitLast(Apply(s, actions[0]), actions[1..], a);
    }
  }

  /** The timeout ends the poll no later than a millisecond after `uptime`. */
  predicate Covers(start: i64, timeout: int, uptime: i64) {
    timeout >= 0 && start + timeout * NS_PER_MS < (if uptime > start then uptime else start) + NS_PER_MS
  }

  /**
   With a poll that may wait for ever, the timer covers the cached deadline
   exactly when that is within INT_MAX - 1 milliseconds; it is never early.
   */
  lemma TimeoutCoversDeadline(start: i64, caller: int, next: i64)
    ensures
      var timeout := PollTimeout(caller, next, start);
      && (caller < 0 ==> (Covers(start, timeout, next) <==> next != LLONG_MAX && next - start <= LONGEST_DELAY))
      && (caller < 0 && timeout >= 0 ==> start + timeout * NS_PER_MS >= next)
      && (caller >= 0 ==> 0 <= timeout <= caller)
      && (caller > 0 && next != LLONG_MAX && next - start <= LONGEST_DELAY ==>
            timeout == caller || Covers(start, timeout, next))
  {
    if next > start {
      DelayBounds(start, next);
    }
  }

  lemma DelayBounds(start: i64, next: i64)
    requires next > start
    ensures
      var t := ToMillisecondTimeoutDelay(start, next);
      if next - start > LONGEST_DELAY then t == -1
      else t >= 0 && next <= start + t * NS_PER_MS < next + NS_PER_MS
  {
    assert U64(I64(next - start)) == next - start;
  }

  /**
   A timeout that is not the caller's own is not early either: the poll lasts
   until the cached deadline.  A caller's 0 stays 0, and with no deadline
   cached the caller's timeout is used whatever it is.
   */
  lemma TimeoutIsNotEarly(start: i64, caller: int, next: i64)
    ensures
      var timeout := PollTimeout(caller, next, start);
      && (timeout == caller || (timeout >= 0 && next != LLONG_MAX && start + timeout * NS_PER_MS >= next))
      && (caller == 0 || next == LLONG_MAX ==> timeout == caller)
  {
    if next > start {
      DelayBounds(start, next);
    }
  }

  /** The timer is never set beyond a deadline it can cover, nor beyond the caller's timeout. */
  lemma TimeoutIsEnough(start: i64, caller: int, next: i64, head: i64)
    requires next <= head != LLONG_MAX && head - start <= LONGEST_DELAY
    ensures Covers(start, PollTimeout(caller, next, start), head)
  {
    if next > start {
      DelayBounds(start, next);
    }
  }

  /**
   A poll in progress with nothing on its way to the pipe, whatever timeout its
   caller gave.  Its timer is set for the head of the queue or earlier, unless
   the head is more than INT_MAX - 1 milliseconds beyond the start of the poll;
   a caller's own timeout is never exceeded; and without one there is no timer
   exactly if the cached deadline, which is no later than the head, is that far.
   */
  lemma SleepsNoLongerThanHead(now: i64, actions: seq<Action>)
    requires CanRun(Start(now), actions)
    ensures
      var s := Run(Start(now), actions);
      s.phase.Polling? && s.queue != [] && s.pipe == 0 && s.pendingWakes == 0 ==>
        var Polling(start, caller, timeout) := s.phase; var head := s.queue[0].uptime;
        && s.nextUptime <= head
        && (head != LLONG_MAX && head - start <= LONGEST_DELAY ==> Covers(start, timeout, head))
        && (caller >= 0 ==> 0 <= timeout <= caller)
        && (caller < 0 ==> (timeout < 0 <==> s.nextUptime == LLONG_MAX || s.nextUptime - start > LONGEST_DELAY))
  {
    StartInv(now);
    RunKeepsInv(Start(now), actions);
    var s := Run(Start(now), actions);
    if s.phase.Polling? && s.queue != [] && s.pipe == 0 && s.pendingWakes == 0 {
      SleepBounds(s);
    }
  }

  lemma SleepBounds(s: State)
    requires s.phase.Polling? && s.queue != [] && s.nextUptime <= s.queue[0].uptime
    requires s.phase.timeout == PollTimeout(s.phase.caller, s.nextUptime, s.phase.start)
    ensures
      var Polling(start, caller, timeout) := s.phase; var head := s.queue[0].uptime;
      && (head != LLONG_MAX && head - start <= LONGEST_DELAY ==> Covers(start, timeout, head))
      && (caller >= 0 ==> 0 <= timeout <= caller)
      && (caller < 0 ==> (timeout < 0 <==> s.nextUptime == LLONG_MAX || s.nextUptime - start > LONGEST_DELAY))
  {
    var Polling(start, caller, timeout) := s.phase;
    var head := s.queue[0].uptime;
    TimeoutCoversDeadline(start, caller, s.nextUptime);
    if head != LLONG_MAX && head - start <= LONGEST_DELAY {
      TimeoutIsEnough(start, caller, s.nextUptime, head);
    }
    if s.nextUptime > start {
      DelayBounds(start, s.nextUptime);
    }
  }

  /** Send one message, let the looper see it and poll again. */
  function FarSchedule(uptime: i64): seq<Action> {
    [Send(uptime, 0, 0)] + ([SenderWakes] + ([StartPoll(-1)] + ([PollReturns(true)] + SecondHalf())))
  }

  function SecondHalf(): seq<Action> {
    [TakeLock] + ([ReadPipe] + ([Dispatch] + ([StartPoll(-1)] + [])))
  }

  lemma RunCons(s: State, a: Action, rest: seq<Action>)
    requires Enabled(s, a) && CanRun(Apply(s, a), rest)
    ensures CanRun(s, [a] + rest) && Run(s, [a] + rest) == Run(Apply(s, a), rest)
  {
    assert ([a] + rest)[1..] == rest;
  }

  /** A message too far ahead leaves the looper asleep with no timer and nothing in the pipe. */
  lemma FarMessageSleepsForever(far: i64)
    requires LONGEST_DELAY < far < LLONG_MAX
    ensures CanRun(Start(0), FarSchedule(far))
    ensures
      var s := Run(Start(0), FarSchedule(far));
      s.phase.Polling? && s.phase.timeout == -1 && |s.queue| == 1 && s.queue[0].uptime == far
      && s.pipe == 0 && s.pendingWakes == 0
  {
    var e := Envelope(far, 0, 0, 0);
    var s1 := State([e], LLONG_MAX, false, 0, 1, 0, Outside, [e], [], []);
    assert Apply(Start(0), Send(far, 0, 0)) == s1;
    var s2 := s1.(pendingWakes := 0, pipe := 1);
    var s3 := s2.(phase := Polling(0, -1, -1));
    var s4 := s2.(phase := Returned(true));
    FarSecondHalf(s4, e);
    RunCons(s3, PollReturns(true), SecondHalf());
    RunCons(s2, StartPoll(-1), [PollReturns(true)] + SecondHalf());
    RunCons(s1, SenderWakes, [StartPoll(-1)] + ([PollReturns(true)] + SecondHalf()));
    RunCons(Start(0), Send(far, 0, 0), [SenderWakes] + ([StartPoll(-1)] + ([PollReturns(true)] + SecondHalf())));
  }

  lemma FarSecondHalf(s4: State, e: Envelope)
    requires s4.queue == [e] && LONGEST_DELAY < e.uptime < LLONG_MAX && s4.now == 0
    requires s4.pipe == 1 && s4.pendingWakes == 0 && s4.phase == Returned(true)
    ensures CanRun(s4, SecondHalf())
    ensures
      var s := Run(s4, SecondHalf());
      s.phase == Polling(0, -1, -1) && s.queue == [e] && s.pipe == 0 && s.pendingWakes == 0
  {
    var s5 := s4.(phase := Draining);
    var s6 := s4.(phase := Dispatching, pipe := 0, nextUptime := LLONG_MAX);
    var s7 := s6.(phase := Outside, nextUptime := e.uptime);
    DelayBounds(0, e.uptime);
    var s8 := s7.(phase := Polling(0, -1, -1));
    assert CanRun(s8, []);
    RunCons(s7, StartPoll(-1), []);
    RunCons(s6, Dispatch, [StartPoll(-1)] + []);
    RunCons(s5, ReadPipe, [Dispatch] + ([StartPoll(-1)] + []));
    RunCons(s4, TakeLock, [ReadPipe] + ([Dispatch] + ([StartPoll(-1)] + [])));
  }
}
