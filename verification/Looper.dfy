/**
 class Looper updated in place.  Each method on messages is one section the
 code runs under the mutex (or one pipe operation) and takes the step that
 LooperProtocol defines; the second half keeps the registered descriptors and
 the responses of one poll.
 */
module Loopers {
  import opened Bits
  import opened Wrappers
  import opened LooperProtocol

  const POLL_CALLBACK: int := -2

  /** `callback` names the callback object; the other fields are as in struct Request. */
  datatype Request = Request(fd: int, ident: int, callback: Option<nat>, data: int)

  datatype Response = Response(events: bv8, request: Request)

  const EVENT_INPUT: bv8 := 1
  const EVENT_OUTPUT: bv8 := 2
  const EVENT_ERROR: bv8 := 4
  const EVENT_HANGUP: bv8 := 8
  const EPOLLIN: bv8 := 1
  const EPOLLOUT: bv8 := 4
  const EPOLLERR: bv8 := 8
  const EPOLLHUP: bv8 := 16

  function ToEpoll(events: bv8): bv8 {
    (if events & EVENT_INPUT != 0 then EPOLLIN else 0) | (if events & EVENT_OUTPUT != 0 then EPOLLOUT else 0)
  }

  function FromEpoll(events: bv8): bv8 {
    (if events & EPOLLIN != 0 then EVENT_INPUT else 0) | (if events & EPOLLOUT != 0 then EVENT_OUTPUT else 0)
    | (if events & EPOLLERR != 0 then EVENT_ERROR else 0) | (if events & EPOLLHUP != 0 then EVENT_HANGUP else 0)
  }

  /** A descriptor is watched for what was asked of it, and reports it under the same names. */
  lemma EpollEventsRoundTrip(events: bv8)
    ensures FromEpoll(ToEpoll(events)) == events & (EVENT_INPUT | EVENT_OUTPUT)
  {
  }

  /** Each of the four conditions is reported exactly if epoll reported it, and nothing else. */
  lemma EventsReported(events: bv8)
    ensures FromEpoll(events) & EVENT_INPUT != 0 <==> events & EPOLLIN != 0
    ensures FromEpoll(events) & EVENT_OUTPUT != 0 <==> events & EPOLLOUT != 0
    ensures FromEpoll(events) & EVENT_ERROR != 0 <==> events & EPOLLERR != 0
    ensures FromEpoll(events) & EVENT_HANGUP != 0 <==> events & EPOLLHUP != 0
    ensures FromEpoll(events) <= 0x0f
  {
  }

  // ------------------------------------------------------------------------
  // Responses
  // ------------------------------------------------------------------------

  /** A callback goes with the identifier POLL_CALLBACK, and no callback with one the caller can be told. */
  predicate GoodRequest(r: Request) {
    if r.ident == POLL_CALLBACK then r.callback.Some? else r.ident >= 0 && r.callback.None?
  }

  /** The responses of the registered descriptors among the events of one poll, in order. */
  function ResponsesFor(events: seq<(int, bv8)>, requests: map<int, Request>): seq<Response> {
    if events == [] then []
    else
      var (fd, epollEvents) := events[|events| - 1];
      var before := ResponsesFor(events[..|events| - 1], requests);
      if fd in requests then before + [Response(FromEpoll(epollEvents), requests[fd])] else before
  }

  /** An event gives its one response, in its place among the others, exactly if its descriptor is registered. */
  lemma {:induction false} ResponseInPlace(
      a: seq<(int, bv8)>, fd: int, events: bv8, b: seq<(int, bv8)>, requests: map<int, Request>)
    ensures ResponsesFor([], requests) == []
    ensures ResponsesFor(a + [(fd, events)] + b, requests) ==
              ResponsesFor(a, requests)
              + (if fd in requests then [Response(FromEpoll(events), requests[fd])] else [])
              + ResponsesFor(b, requests)
    decreases |b|
  {
    hide FromEpoll;
    var all := a + [(fd, events)] + b;
    if b == [] {
      assert all[..|all| - 1] == a && all[|all| - 1] == (fd, events);
    } else {
      var b' := b[..|b| - 1];
      assert all[..|all| - 1] == a + [(fd, events)] + b' && all[|all| - 1] == b[|b| - 1];
      ResponseInPlace(a, fd, events, b', requests);
    }
  }

  function Reported(responses: seq<Response>): seq<Response> {
    if responses == [] then []
    else (if responses[0].request.ident >= 0 then [responses[0]] else []) + Reported(responses[1..])
  }

  function CallbackOwners(responses: seq<Response>): seq<Request> {
    if responses == [] then []
    else
      var before := CallbackOwners(responses[..|responses| - 1]);
      var last := responses[|responses| - 1].request;
      if last.ident == POLL_CALLBACK then before + [last] else before
  }

  lemma NothingKept(sel: Selector)
    ensures Kept([], sel) == [] && Dropped([], sel) == []
  {
  }

  /** One turn of the backwards loop of removeMessages, at index `i`. */
  lemma KeptStep(all: seq<Envelope>, i: nat, sel: Selector)
    requires i < |all|
    ensures
      var k, d := Kept(all[i + 1..], sel), Dropped(all[i + 1..], sel);
      var queue := all[..i + 1] + k;
      && queue[i] == all[i]
      && (if Selects(sel, all[i]) then
            queue[..i] + queue[i + 1..] == all[..i] + Kept(all[i..], sel) && Dropped(all[i..], sel) == [all[i]] + d
          else
            queue == all[..i] + Kept(all[i..], sel) && Dropped(all[i..], sel) == d)
  {
    hide Selects;
    var k := Kept(all[i + 1..], sel);
    var queue := all[..i + 1] + k;
    assert all[i..][0] == all[i] && all[i..][1..] == all[i + 1..];
    assert queue[..i] == all[..i] && queue[i + 1..] == k;
    assert queue == all[..i] + ([all[i]] + k);
  }

  /** What is registered, and what epoll watches for each descriptor. */
  datatype Registrations = Registrations(requests: map<int, Request>, interest: map<int, bv8>)

  /** A call of addFd or removeFd by a callback or another thread. */
  datatype Change =
    | Adds(fd: int, ident: int, events: bv8, callback: Option<nat>, data: int, epollOk: bool)
    | Removes(fd: int, epollOk: bool)

  function Changed(regs: Registrations, allowNonCallbacks: bool, c: Change): Registrations {
    match c
    case Adds(fd, ident, events, callback, data, epollOk) =>
      if epollOk && (callback.Some? || (allowNonCallbacks && ident >= 0)) then
        var request := Request(fd, if callback.Some? then POLL_CALLBACK else ident, callback, data);
        Registrations(regs.requests[fd := request], regs.interest[fd := ToEpoll(events)])
      else regs
    case Removes(fd, epollOk) =>
      if fd in regs.requests && epollOk then Registrations(regs.requests - {fd}, regs.interest - {fd}) else regs
  }

  function ChangedAll(regs: Registrations, allowNonCallbacks: bool, cs: seq<Change>): Registrations {
    if cs == [] then regs
    else Changed(ChangedAll(regs, allowNonCallbacks, cs[..|cs| - 1]), allowNonCallbacks, cs[|cs| - 1])
  }

  /** Around one response: what others change until its callback returns, its result, and the outcome of epoll_ctl. */
  datatype Callback = Callback(changes: seq<Change>, result: int, epollOk: bool)

  function AfterCallback(regs: Registrations, allowNonCallbacks: bool, r: Response, c: Callback): Registrations {
    var regs' := ChangedAll(regs, allowNonCallbacks, c.changes);
    if r.request.ident == POLL_CALLBACK && c.result == 0
    then Changed(regs', allowNonCallbacks, Removes(r.request.fd, c.epollOk))
    else regs'
  }

  /** The registrations after the callback loop has passed the first `n` responses. */
  function AfterCallbacks(regs: Registrations, allowNonCallbacks: bool, responses: seq<Response>, cs: seq<Callback>,
                          n: nat): Registrations
    requires n <= |responses| == |cs|
  {
    if n == 0 then regs
    else
      AfterCallback(AfterCallbacks(regs, allowNonCallbacks, responses, cs, n - 1), allowNonCallbacks,
                    responses[n - 1], cs[n - 1])
  }

  /** A callback that wants its descriptor gone: the result is 0 and epoll lets it go. */
  predicate Unregisters(r: Response, c: Callback) {
    r.request.ident == POLL_CALLBACK && c.result == 0 && c.epollOk
  }

  lemma {:induction false} ChangesWithoutAdding(regs: Registrations, allowNonCallbacks: bool, cs: seq<Change>, fd: int)
    requires forall c | c in cs && c.Adds? :: c.fd != fd
    ensures fd in ChangedAll(regs, allowNonCallbacks, cs).requests ==>
              fd in regs.requests && ChangedAll(regs, allowNonCallbacks, cs).requests[fd] == regs.requests[fd]
    decreases |cs|
  {
    if cs != [] {
      ChangesWithoutAdding(regs, allowNonCallbacks, cs[..|cs| - 1], fd);
    }
  }

  /**
   A callback that returned 0 leaves its descriptor unregistered, even one it
   registered anew itself, until somebody registers it again later.
   */
  lemma {:induction false} UnregisteredStaysGone(
      regs: Registrations, allowNonCallbacks: bool, responses: seq<Response>, cs: seq<Callback>, i: nat, n: nat)
    requires i < n <= |responses| == |cs| && Unregisters(responses[i], cs[i])
    requires forall j, c | i < j < n && c in cs[j].changes && c.Adds? :: c.fd != responses[i].request.fd
    ensures responses[i].request.fd !in AfterCallbacks(regs, allowNonCallbacks, responses, cs, n).requests
    decreases n
  {
    var fd := responses[i].request.fd;
    if i + 1 < n {
      UnregisteredStaysGone(regs, allowNonCallbacks, responses, cs, i, n - 1);
      var before := AfterCallbacks(regs, allowNonCallbacks, responses, cs, n - 1);
      ChangesWithoutAdding(before, allowNonCallbacks, cs[n - 1].changes, fd);
    }
  }

  /** If nobody else changes anything, just the descriptors whose callbacks returned 0 are gone. */
  lemma {:induction false} QuietCallbacks(
      regs: Registrations, allowNonCallbacks: bool, responses: seq<Response>, cs: seq<Callback>, n: nat)
    requires n <= |responses| == |cs| && forall i | 0 <= i < |cs| :: cs[i].changes == []
    ensures
      var after := AfterCallbacks(regs, allowNonCallbacks, responses, cs, n);
      && (forall fd :: fd in after.requests <==>
            fd in regs.requests
            && !exists i | 0 <= i < n :: Unregisters(responses[i], cs[i]) && responses[i].request.fd == fd)
      && (forall fd <- after.requests :: after.requests[fd] == regs.requests[fd])
  {
    if n > 0 {
      QuietCallbacks(regs, allowNonCallbacks, responses, cs, n - 1);
    }
  }

  class Looper {
    const allowNonCallbacks: bool

    // messages
    var messageEnvelopes: seq<Envelope>
    var nextMessageUptime: i64
    var sendingMessage: bool
    var wakePipe: nat

    // the environment and the history of LooperProtocol.State
    var pendingWakes: nat
    var now: i64
    var phase: Phase
    var sent: seq<Envelope>
    var handled: seq<Handled>
    var removed: seq<Envelope>

    // descriptors
    var requests: map<int, Request>
    var interest: map<int, bv8>
    var responses: seq<Response>
    var responseIndex: nat

    ghost function Snapshot(): State
      reads this
    {
      State(messageEnvelopes, nextMessageUptime, sendingMessage, wakePipe, pendingWakes, now, phase,
            sent, handled, removed)
    }

    /** What epoll watches is what is registered, and every registration is one addFd accepts. */
    ghost predicate Registered()
      reads this
    {
      && interest.Keys == requests.Keys
      && responseIndex <= |responses|
      && (forall fd <- requests ::
            requests[fd].fd == fd && GoodRequest(requests[fd]) && (requests[fd].callback.None? ==> allowNonCallbacks))
    }

    constructor (allowNonCallbacks: bool, now: i64)
      ensures Snapshot() == Start(now) && Registered() && requests == map[] && responses == []
    {
      this.allowNonCallbacks := allowNonCallbacks;
      messageEnvelopes, nextMessageUptime, sendingMessage, wakePipe := [], LLONG_MAX, false, 0;
      pendingWakes, this.now, phase, sent, handled, removed := 0, now, Outside, [], [], [];
      requests, interest, responses, responseIndex := map[], map[], [], 0;
    }

    // ----------------------------------------------------------------------
    // Messages
    // ----------------------------------------------------------------------

    /** sendMessageAtTime up to the unlock; the caller then calls WakeAfterSend when told to. */
    method SendMessageAtTime(uptime: i64, handler: nat, what: int) returns (mustWake: bool)
      requires LockFree(Snapshot())
      modifies this`messageEnvelopes, this`pendingWakes, this`sent
      ensures Snapshot() == Apply(old(Snapshot()), Send(uptime, handler, what))
      ensures pendingWakes == old(pendingWakes) + (if mustWake then 1 else 0)
    {
      var i := 0;
      var messageCount := |messageEnvelopes|;
      while i < messageCount && uptime >= messageEnvelopes[i].uptime
        invariant i <= messageCount
        invariant InsertionPoint(messageEnvelopes, uptime, 0) == InsertionPoint(messageEnvelopes, uptime, i)
      {
        i := i + 1;
      }
      var messageEnvelope := Envelope(uptime, handler, what, |sent|);
      messageEnvelopes := InsertAt(messageEnvelopes, i, messageEnvelope);
      sent := sent + [messageEnvelope];
      if sendingMessage {
        return false;
      }
      if i == 0 {
        pendingWakes := pendingWakes + 1;
        return true;
      }
      return false;
    }

    /** wake() by a sender that was told to. */
    method WakeAfterSend()
      requires pendingWakes > 0
      modifies this`wakePipe, this`pendingWakes
      ensures Snapshot() == Apply(old(Snapshot()), SenderWakes)
    {
      if wakePipe < PIPE_CAPACITY {
        wakePipe := wakePipe + 1;
      }
      pendingWakes := pendingWakes - 1;
    }

    /** Both overloads of removeMessages walk the queue from its end. */
    method RemoveMessages(sel: Selector)
      requires LockFree(Snapshot())
      modifies this`messageEnvelopes, this`removed
      ensures Snapshot() == RemoveStep(old(Snapshot()), sel)
    {
      hide Kept, Dropped, Selects;
      NothingKept(sel);
      var all := messageEnvelopes;
      var dropped := [];
      var i := |messageEnvelopes|;
      assert all[i..] == [];
      while i != 0
        invariant i <= |all|
        invariant messageEnvelopes == all[..i] + Kept(all[i..], sel)
        invariant removed == old(removed)
        invariant dropped == Dropped(all[i..], sel)
      {
        i := i - 1;
        KeptStep(all, i, sel);
        var messageEnvelope := messageEnvelopes[i];
        if Selects(sel, messageEnvelope) {
          messageEnvelopes := messageEnvelopes[..i] + messageEnvelopes[i + 1..];
          dropped := [messageEnvelope] + dropped;
        }
      }
      assert all[0..] == all && all[..0] + Kept(all, sel) == Kept(all, sel);
      removed := removed + dropped;
    }

    /** The first half of pollInner: the timeout for epoll_wait. */
    method AdjustTimeout(timeoutMillis: int) returns (timeout: int)
      requires phase.Outside?
      modifies this`phase, this`responses, this`responseIndex
      ensures Snapshot() == Apply(old(Snapshot()), StartPoll(timeoutMillis))
      ensures phase.timeout == timeout && responses == [] && responseIndex == 0
    {
      timeout := timeoutMillis;
      if timeoutMillis != 0 && nextMessageUptime != LLONG_MAX {
        var messageTimeoutMillis := ToMillisecondTimeoutDelay(now, nextMessageUptime);
        if messageTimeoutMillis >= 0 && (timeoutMillis < 0 || messageTimeoutMillis < timeoutMillis) {
          timeout := messageTimeoutMillis;
        }
      }
      responses, responseIndex := [], 0;
      phase := Polling(now, timeoutMillis, timeout);
    }

    /** epoll_wait comes back, with the pipe's event or without. */
    method PollReturned(wake: bool)
      requires phase.Polling? && (wake ==> wakePipe > 0)
      modifies this`phase
      ensures Snapshot() == Apply(old(Snapshot()), PollReturns(wake))
    {
      phase := Returned(wake);
    }

    /** mLock.lock(), and with no pipe to drain on to the dispatch loop. */
    method Lock() returns (drain: bool)
      requires phase.Returned?
      modifies this`phase, this`nextMessageUptime
      ensures Snapshot() == Apply(old(Snapshot()), TakeLock)
      ensures drain <==> phase.Draining?
    {
      drain := phase.wake;
      if drain {
        phase := Draining;
      } else {
        phase, nextMessageUptime := Dispatching, LLONG_MAX;
      }
    }

    /** One read in awoken(); `again` is its loop condition. */
    method ReadWakePipe() returns (again: bool)
      requires phase.Draining?
      modifies this`wakePipe, this`phase, this`nextMessageUptime
      ensures Snapshot() == Apply(old(Snapshot()), ReadPipe)
      ensures again <==> phase.Draining?
      ensures !again ==> wakePipe == 0
    {
      var nRead := if wakePipe < PIPE_READ then wakePipe else PIPE_READ;
      wakePipe := wakePipe - nRead;
      again := nRead == PIPE_READ;
      if !again {
        phase, nextMessageUptime := Dispatching, LLONG_MAX;
      }
    }

    /** One turn of the dispatch loop up to the unlock; Some is the message for its handler. */
    method NextMessage() returns (message: Option<Envelope>)
      requires phase.Dispatching?
      modifies this`messageEnvelopes, this`sendingMessage, this`nextMessageUptime, this`phase, this`handled
      ensures Snapshot() == Apply(old(Snapshot()), Dispatch)
      ensures message == if phase.Handling? then Some(phase.env) else None
    {
      message := None;
      if |messageEnvelopes| == 0 {
        phase := Outside;
        return;
      }
      var messageEnvelope := messageEnvelopes[0];
      if messageEnvelope.uptime <= now {
        messageEnvelopes := messageEnvelopes[1..];
        sendingMessage := true;
        handled := handled + [Handled(messageEnvelope, now, |sent|)];
        phase := Handling(messageEnvelope);
        message := Some(messageEnvelope);
      } else {
        nextMessageUptime := messageEnvelope.uptime;
        phase := Outside;
      }
    }

    method RelockAfterHandler()
      requires phase.Handling?
      modifies this`sendingMessage, this`phase
      ensures Snapshot() == Apply(old(Snapshot()), HandlerReturns)
    {
      sendingMessage := false;
      phase := Dispatching;
    }

    // ----------------------------------------------------------------------
    // Descriptors
    // ----------------------------------------------------------------------

    /** addFd; `epollOk` is the outcome of epoll_ctl. */
    method AddFd(fd: int, ident: int, events: bv8, callback: Option<nat>, data: int, epollOk: bool) returns (r: int)
      requires Registered()
      modifies this`requests, this`interest
      ensures Registered()
      ensures r == if epollOk && (callback.Some? || (allowNonCallbacks && ident >= 0)) then 1 else -1
      ensures r == 1 ==>
                && requests ==
                     old(requests)[fd := Request(fd, if callback.Some? then POLL_CALLBACK else ident, callback, data)]
                && interest == old(interest)[fd := ToEpoll(events)]
      ensures r == -1 ==> requests == old(requests) && interest == old(interest)
    {
      var ident' := ident;
      if callback.None? {
        if !allowNonCallbacks {
          return -1;
        }
        if ident < 0 {
          return -1;
        }
      } else {
        ident' := POLL_CALLBACK;
      }
      if !epollOk {
        return -1;
      }
      interest := interest[fd := ToEpoll(events)];
      requests := requests[fd := Request(fd, ident', callback, data)];
      return 1;
    }

    method RemoveFd(fd: int, epollOk: bool) returns (r: int)
      requires Registered()
      modifies this`requests, this`interest
      ensures Registered()
      ensures r == if fd !in old(requests) then 0 else if epollOk then 1 else -1
      ensures requests == (if r == 1 then old(requests) - {fd} else old(requests))
      ensures interest == (if r == 1 then old(interest) - {fd} else old(interest))
    {
      if fd !in requests {
        return 0;
      }
      if !epollOk {
        return -1;
      }
      interest := interest - {fd};
      requests := requests - {fd};
      return 1;
    }

    /** The event loop of pollInner for descriptors other than the wake pipe. */
    method CollectResponses(events: seq<(int, bv8)>)
      requires Registered() && responses == [] && responseIndex == 0
      modifies this`responses
      ensures Registered() && responses == ResponsesFor(events, requests)
      ensures forall r <- responses :: GoodRequest(r.request)
    {
      for i := 0 to |events|
        invariant responses == ResponsesFor(events[..i], requests)
        invariant forall r <- responses :: GoodRequest(r.request)
      {
        assert events[..i + 1][..i] == events[..i];
        var (fd, epollEvents) := events[i];
        if fd in requests {
          responses := responses + [Response(FromEpoll(epollEvents), requests[fd])];
        }
      }
      assert events[..|events|] == events;
    }

    function Regs(): Registrations
      reads this
    {
      Registrations(requests, interest)
    }

    method MakeChange(c: Change)
      requires Registered()
      modifies this`requests, this`interest
      ensures Registered() && Regs() == Changed(old(Regs()), allowNonCallbacks, c)
    {
      match c {
        case Adds(fd, ident, events, callback, data, epollOk) =>
          var _ := AddFd(fd, ident, events, callback, data, epollOk);
        case Removes(fd, epollOk) =>
          var _ := RemoveFd(fd, epollOk);
      }
    }

    /** handleEvent of one callback, as far as the registrations go. */
    method HandleEvent(changes: seq<Change>)
      requires Registered()
      modifies this`requests, this`interest
      ensures Registered() && Regs() == ChangedAll(old(Regs()), allowNonCallbacks, changes)
    {
      assert changes[..|changes|] == changes;
      for i := 0 to |changes|
        invariant Registered() && Regs() == ChangedAll(old(Regs()), allowNonCallbacks, changes[..i])
      {
        assert changes[..i + 1][..i] == changes[..i];
        MakeChange(changes[i]);
      }
    }

    /**
     The callback loop of pollInner, outside the lock: callbacks and other
     threads may register and remove descriptors as it goes.  No callback that
     is called is NULL.
     */
    method InvokeCallbacks(cs: seq<Callback>) returns (called: seq<Request>)
      requires Registered() && |cs| == |responses|
      requires forall r <- responses :: GoodRequest(r.request)
      modifies this`requests, this`interest
      ensures Registered()
      ensures called == CallbackOwners(responses)
      ensures Regs() == AfterCallbacks(old(Regs()), allowNonCallbacks, responses, cs, |responses|)
    {
      hide GoodRequest, ChangedAll;
      called := [];
      for i := 0 to |responses|
        invariant Registered() && called == CallbackOwners(responses[..i])
        invariant Regs() == AfterCallbacks(old(Regs()), allowNonCallbacks, responses, cs, i)
      {
        assert responses[..i + 1][..i] == responses[..i];
        var request := responses[i].request;
        HandleEvent(cs[i].changes);
        if request.ident == POLL_CALLBACK {
          assert request.callback.Some? by { CalledIsNotNull(responses, i); }
          called := called + [request];
          if cs[i].result == 0 {
            MakeChange(Removes(request.fd, cs[i].epollOk));
          }
        }
      }
      assert responses[..|responses|] == responses;
    }

    /** The loop at the top of pollOnce: the next response to report to the caller, if one is left. */
    method NextReported() returns (r: Option<Response>)
      requires responseIndex <= |responses|
      modifies this`responseIndex
      ensures responseIndex <= |responses|
      ensures r.Some? ==> r.value.request.ident >= 0
      ensures r.Some? ==>
                Reported(responses[old(responseIndex)..]) == [r.value] + Reported(responses[responseIndex..])
      ensures r.None? ==> Reported(responses[old(responseIndex)..]) == [] && responseIndex == |responses|
    {
      while responseIndex < |responses|
        invariant responseIndex <= |responses|
        invariant Reported(responses[old(responseIndex)..]) == Reported(responses[responseIndex..])
      {
        var response := responses[responseIndex];
        assert responses[responseIndex..][1..] == responses[responseIndex + 1..];
        responseIndex := responseIndex + 1;
        if response.request.ident >= 0 {
          return Some(response);
        }
      }
      return None;
    }
  }

  /** A response calls its callback, in its place among the others, exactly if it has one. */
  lemma {:induction false} CallInPlace(a: seq<Response>, r: Response, b: seq<Response>)
    ensures CallbackOwners([]) == []
    ensures CallbackOwners(a + [r] + b) ==
              CallbackOwners(a) + (if r.request.ident == POLL_CALLBACK then [r.request] else []) + CallbackOwners(b)
    decreases |b|
  {
    var all := a + [r] + b;
    if b == [] {
      assert all[..|all| - 1] == a && all[|all| - 1] == r;
    } else {
      var b' := b[..|b| - 1];
      assert all[..|all| - 1] == a + [r] + b' && all[|all| - 1] == b[|b| - 1];
      CallInPlace(a, r, b');
    }
  }

  lemma CalledIsNotNull(responses: seq<Response>, i: nat)
    requires i < |responses| && responses[i].request.ident == POLL_CALLBACK
    requires forall r <- responses :: GoodRequest(r.request)
    ensures responses[i].request.callback.Some?
  {
    assert responses[i] in responses;
  }

  /** Reported and called responses are two disjoint, complete parts of the poll's responses. */
  lemma {:induction false} ReportedOrCalled(responses: seq<Response>)
    requires forall r <- responses :: GoodRequest(r.request)
    ensures |Reported(responses)| + |CallbackOwners(responses)| == |responses|
    decreases |responses|
  {
    if responses != [] {
      var n := |responses| - 1;
      ReportedOrCalled(responses[..n]);
      ReportedSnoc(responses[..n], responses[n]);
      assert responses == responses[..n] + [responses[n]];
    }
  }

  lemma {:induction false} ReportedSnoc(responses: seq<Response>, r: Response)
    ensures Reported(responses + [r]) == Reported(responses) + (if r.request.ident >= 0 then [r] else [])
  {
    var all := responses + [r];
    if responses == [] {
      assert all[1..] == [] && all[0] == r;
    } else {
      assert all[1..] == responses[1..] + [r] && all[0] == responses[0];
      ReportedSnoc(responses[1..], r);
      var head := if responses[0].request.ident >= 0 then [responses[0]] else [];
      var tail := if r.request.ident >= 0 then [r] else [];
      assert Reported(responses) == head + Reported(responses[1..]);
      assert Reported(all) == head + (Reported(responses[1..]) + tail);
    }
  }
}
