/**
 The shared property area: one writer and any number of readers over a serial
 word and a value buffer, interleaved one load, store or byte copy at a time.
 */
module PropertySeqlock {
  import opened Bits

  const PROP_VALUE_MAX: nat := 92
  const COUNTER: int := 0x100_0000
  const HALF_COUNTER: int := 0x80_0000

  function SerialValueLen(serial: u32): nat { serial / COUNTER }

  predicate SerialDirty(serial: u32) { serial % 2 == 1 }

  predicate NulFree(v: seq<u8>) { forall b <- v :: b != 0 }

  /** A value as the writer stores it: its length is strlen, and the terminator goes with it. */
  function CString(v: seq<u8>): seq<u8> { v + [0] }

  /** A finished write: the bytes it stored, and the whole buffer afterwards. */
  datatype Commit = Commit(value: seq<u8>, area: seq<u8>)

  datatype Writer =
    | Idle
    | Storing(value: seq<u8>, stored: nat)

  /** `from` and `to` count the commits at the two loads of the serial; the code does not keep them. */
  datatype Reader =
    | Fresh
    | Copying(serial: u32, buf: seq<u8>, from: nat)
    | Done(len: nat, buf: seq<u8>, from: nat, to: nat)

  datatype State = State(serial: u32, value: seq<u8>, writer: Writer,
                         commits: seq<Commit>, readers: map<nat, Reader>)

  datatype Action =
    | BeginWrite(value: seq<u8>)
    | StoreByte
    | EndWrite
    | Load(id: nat)
    | CopyByte(id: nat)
    | Recheck(id: nat)

  predicate Init(s: State) {
    && |s.value| == PROP_VALUE_MAX && s.writer == Idle
    && |s.commits| == 1
    && s.commits[0].area == s.value
    && |s.commits[0].value| < PROP_VALUE_MAX && NulFree(s.commits[0].value)
    && CString(s.commits[0].value) <= s.value
    && s.serial == |s.commits[0].value| * COUNTER
    && forall id <- s.readers :: s.readers[id] == Fresh
  }

  predicate Enabled(s: State, a: Action) {
    match a
    case BeginWrite(v) => s.writer.Idle? && |v| < PROP_VALUE_MAX && NulFree(v)
    case StoreByte => s.writer.Storing? && s.writer.stored <= |s.writer.value| && s.writer.stored < |s.value|
    case EndWrite => s.writer.Storing? && s.writer.stored == |s.writer.value| + 1 && |s.writer.value| < PROP_VALUE_MAX
    case Load(id) => id in s.readers && !s.readers[id].Copying? && |s.commits| > 0
    case CopyByte(id) =>
      && id in s.readers && s.readers[id].Copying?
      && |s.readers[id].buf| < SerialValueLen(s.readers[id].serial) + 1
      && |s.readers[id].buf| < |s.value|
    case Recheck(id) =>
      && id in s.readers && s.readers[id].Copying? && |s.commits| > 0
      && |s.readers[id].buf| == SerialValueLen(s.readers[id].serial) + 1
  }

  function Apply(s: State, a: Action): State
    requires Enabled(s, a)
  {
    match a
    case BeginWrite(v) =>
      s.(serial := U32(Or(s.serial, 1)), writer := Storing(v, 0))
    case StoreByte =>
      var Storing(v, n) := s.writer;
      s.(value := s.value[n := CString(v)[n]], writer := Storing(v, n + 1))
    case EndWrite =>
      var v := s.writer.value;
      s.(serial := CleanSerial(s.serial, |v|), writer := Idle,
         commits := s.commits + [Commit(v, s.value)])
    case Load(id) => s.(readers := s.readers[id := LoadSerial(s)])
    case CopyByte(id) => s.(readers := s.readers[id := CopyOne(s, s.readers[id])])
    case Recheck(id) => s.(readers := s.readers[id := CheckSerial(s, s.readers[id])])
  }

  function CleanSerial(serial: u32, len: nat): u32 {
    U32(Or(len * COUNTER, And(serial + 1, COUNTER - 1)))
  }

  /** A dirty serial is waited out and loaded again. */
  function LoadSerial(s: State): Reader
    requires |s.commits| > 0
  {
    if SerialDirty(s.serial) then Fresh else Copying(s.serial, [], |s.commits| - 1)
  }

  function CopyOne(s: State, r: Reader): Reader
    requires r.Copying? && |r.buf| < |s.value|
  {
    Copying(r.serial, r.buf + [s.value[|r.buf|]], r.from)
  }

  /** A serial that has moved starts the read over. */
  function CheckSerial(s: State, r: Reader): Reader
    requires r.Copying? && |s.commits| > 0
  {
    if r.serial == s.serial then Done(SerialValueLen(r.serial), r.buf, r.from, |s.commits| - 1) else Fresh
  }

  predicate CanRun(s: State, actions: seq<Action>)
    decreases |actions|
  {
    actions == [] || (Enabled(s, actions[0]) && CanRun(Apply(s, actions[0]), actions[1..]))
  }

  function Run(s: State, actions: seq<Action>): State
    requires CanRun(s, actions)
    decreases |actions|
  {
    if actions == [] then s else Run(Apply(s, actions[0]), actions[1..])
  }

  // ------------------------------------------------------------------------
  // Invariant
  // ------------------------------------------------------------------------

  /** The serial published by commit number `i`: the counter moves by 2 per write, modulo 2^24. */
  function SerialAt(commits: seq<Commit>, i: nat): (serial: int)
    requires i < |commits|
  {
    |commits[i].value| * COUNTER + (2 * i) % COUNTER
  }

  ghost predicate CommitsOk(commits: seq<Commit>) {
    && |commits| > 0
    && (forall i | 0 <= i < |commits| ::
          && |commits[i].area| == PROP_VALUE_MAX && |commits[i].value| < PROP_VALUE_MAX
          && NulFree(commits[i].value) && CString(commits[i].value) <= commits[i].area)
    && (forall i | 0 < i < |commits| :: Overwrites(commits[i - 1], commits[i]))
  }

  /** A write stores the value and its terminator and leaves the rest of the buffer. */
  ghost predicate Overwrites(before: Commit, after: Commit) {
    |after.value| < |before.area| && after.area == CString(after.value) + before.area[|after.value| + 1..]
  }

  ghost predicate WriterOk(s: State)
    requires CommitsOk(s.commits)
  {
    var last := |s.commits| - 1;
    && |s.value| == PROP_VALUE_MAX
    && (match s.writer
        case Idle =>
          s.serial == SerialAt(s.commits, last) && s.value == s.commits[last].area
        case Storing(v, n) =>
          && n <= |v| + 1 <= PROP_VALUE_MAX && NulFree(v)
          && s.serial == SerialAt(s.commits, last) + 1
          && s.value == CString(v)[..n] + s.commits[last].area[n..])
  }

  ghost predicate ReaderOk(s: State, r: Reader)
    requires CommitsOk(s.commits)
  {
    var last := |s.commits| - 1;
    match r
    case Fresh => true
    case Copying(serial, buf, from) =>
      && from <= last
      && serial == SerialAt(s.commits, from)
      && |buf| <= |s.commits[from].value| + 1
      && (from == last && s.writer.Idle? ==> buf <= s.commits[from].area)
    case Done(len, buf, from, to) =>
      && from <= to <= last
      && SerialAt(s.commits, from) == SerialAt(s.commits, to)
      && len == |s.commits[from].value| && |buf| == len + 1
      && (from == to ==> buf <= s.commits[from].area)
  }

  ghost predicate Inv(s: State) {
    && CommitsOk(s.commits)
    && WriterOk(s)
    && forall id <- s.readers :: ReaderOk(s, s.readers[id])
  }

  lemma SerialFits(commits: seq<Commit>, i: nat)
    requires i < |commits| && |commits[i].value| < PROP_VALUE_MAX
    ensures 0 <= SerialAt(commits, i) < TWO32 - 1
    ensures SerialAt(commits, i) % 2 == 0
    ensures SerialValueLen(SerialAt(commits, i)) == |commits[i].value|
  {
  }

  lemma SetDirtyBit(serial: u32)
    requires serial % 2 == 0
    ensures Or(serial, 1) == serial + 1
  {
    assert Or(0, 0) == 0;
    if serial > 0 {
      assert Or(serial / 2, 0) == serial / 2;
    }
  }

  lemma PublishedSerial(commits: seq<Commit>, v: seq<u8>, area: seq<u8>)
    requires |commits| > 0 && |v| < PROP_VALUE_MAX && |commits[|commits| - 1].value| < PROP_VALUE_MAX
    ensures
      var dirty := SerialAt(commits, |commits| - 1) + 1;
      && 0 <= dirty < TWO32
      && CleanSerial(dirty, |v|) == SerialAt(commits + [Commit(v, area)], |commits|)
  {
    SerialFits(commits, |commits| - 1);
    NextCounter(|commits[|commits| - 1].value|, |commits| - 1);
    CleanSerialIs(SerialAt(commits, |commits| - 1) + 1, |v|);
  }

  lemma CleanSerialIs(serial: u32, len: nat)
    requires len < 0x100
    ensures CleanSerial(serial, len) == len * COUNTER + (serial + 1) % COUNTER
  {
    Pow2Of24();
    AndMask(serial + 1, 24);
    OrDisjoint(len, 24, (serial + 1) % COUNTER);
  }

  lemma NextCounter(len: nat, i: nat)
    ensures (len * COUNTER + (2 * i) % COUNTER + 2) % COUNTER == (2 * (i + 1)) % COUNTER
  {
  }

  lemma Pow2Of24()
    ensures Pow2(24) == COUNTER
  {
    assert Pow2(8) == 0x100;
    assert Pow2(16) == 0x1_0000 by { assert Pow2(12) == 0x1000; }
    assert Pow2(20) == 0x10_0000;
  }

  lemma StepKeepsInv(s: State, a: Action)
    requires Inv(s) && Enabled(s, a)
    ensures Inv(Apply(s, a))
  {
    match a {
      case BeginWrite(v) => WriterStepKeepsInv(s, a);
      case StoreByte => WriterStepKeepsInv(s, a);
      case EndWrite => EndWriteKeepsInv(s);
      case Load(id) => ReaderStepKeepsInv(s, a, id);
      case CopyByte(id) => ReaderStepKeepsInv(s, a, id);
      case Recheck(id) => ReaderStepKeepsInv(s, a, id);
    }
  }

  lemma WriterStepKeepsInv(s: State, a: Action)
    requires Inv(s) && Enabled(s, a) && (a.BeginWrite? || a.StoreByte?)
    ensures Inv(Apply(s, a))
  {
    var last := |s.commits| - 1;
    var s' := Apply(s, a);
    if a.BeginWrite? {
      SerialFits(s.commits, last);
      SetDirtyBit(s.serial);
    } else {
      var Storing(v, n) := s.writer;
      assert CString(v)[..n + 1] == CString(v)[..n] + [CString(v)[n]];
    }
    assert WriterOk(s');
    forall id <- s.readers
      ensures ReaderOk(s', s.readers[id])
    {
      assert ReaderOk(s, s.readers[id]);
    }
  }

  lemma EndWriteKeepsInv(s: State)
    requires Inv(s) && Enabled(s, EndWrite)
    ensures Inv(Apply(s, EndWrite))
  {
    PublishedSerial(s.commits, s.writer.value, s.value);
    EndWriteKeepsReaders(s);
  }

  /** A reader's step changes only that reader. */
  lemma ReaderStepKeepsInv(s: State, a: Action, id: nat)
    requires Inv(s) && Enabled(s, a)
    requires a == Load(id) || a == CopyByte(id) || a == Recheck(id)
    ensures Inv(Apply(s, a))
  {
    match a {
      case Load(_) => LoadOk(s);
      case CopyByte(_) => CopyOk(s, s.readers[id]);
      case Recheck(_) => CheckOk(s, s.readers[id]);
    }
    var s' := Apply(s, a);
    assert ReaderOk(s, s'.readers[id]);
    OtherReaders(s, id, s'.readers[id]);
  }

  lemma OtherReaders(s: State, id: nat, r: Reader)
    requires Inv(s) && ReaderOk(s, r)
    ensures Inv(s.(readers := s.readers[id := r]))
  {
    var s' := s.(readers := s.readers[id := r]);
    forall j <- s'.readers
      ensures ReaderOk(s', s'.readers[j])
    {
      assert ReaderOk(s, s'.readers[j]);
    }
  }

  lemma LoadOk(s: State)
    requires Inv(s)
    ensures ReaderOk(s, LoadSerial(s))
  {
    SerialFits(s.commits, |s.commits| - 1);
  }

  lemma CopyOk(s: State, r: Reader)
    requires Inv(s) && ReaderOk(s, r) && r.Copying?
    requires |r.buf| < SerialValueLen(r.serial) + 1 && |r.buf| < |s.value|
    ensures ReaderOk(s, CopyOne(s, r))
  {
    SerialFits(s.commits, r.from);
  }

  lemma CheckOk(s: State, r: Reader)
    requires Inv(s) && ReaderOk(s, r) && r.Copying?
    requires |r.buf| == SerialValueLen(r.serial) + 1
    ensures ReaderOk(s, CheckSerial(s, r))
  {
    SerialFits(s.commits, |s.commits| - 1);
    SerialFits(s.commits, r.from);
  }

  lemma EndWriteKeepsReaders(s: State)
    requires Inv(s) && Enabled(s, EndWrite)
    ensures
      var s' := Apply(s, EndWrite);
      CommitsOk(s'.commits) && forall id <- s'.readers :: ReaderOk(s', s'.readers[id])
  {
    var s' := Apply(s, EndWrite);
    forall i | 0 < i < |s'.commits|
      ensures Overwrites(s'.commits[i - 1], s'.commits[i])
    {
    }
    forall id <- s.readers
      ensures ReaderOk(s', s.readers[id])
    {
      assert ReaderOk(s, s.readers[id]);
    }
  }

  lemma {:induction false} RunKeepsInv(s: State, actions: seq<Action>)
    requires Inv(s) && CanRun(s, actions)
    ensures Inv(Run(s, actions))
    decreases |actions|
  {
    if actions != [] {
      StepKeepsInv(s, actions[0]);
      RunKeepsInv(Apply(s, actions[0]), actions[1..]);
    }
  }

  lemma InitEstablishesInv(s: State)
    requires Init(s)
    ensures Inv(s)
  {
  }

  // ------------------------------------------------------------------------
  // Main results
  // ------------------------------------------------------------------------

  /** Two commits publish one serial exactly when the lengths agree and the writes between wrap the counter. */
  lemma SameSerial(commits: seq<Commit>, i: nat, j: nat)
    requires CommitsOk(commits) && i <= j < |commits|
    ensures SerialAt(commits, i) == SerialAt(commits, j) <==>
              |commits[i].value| == |commits[j].value| && (j - i) % HALF_COUNTER == 0
  {
    SerialFits(commits, i);
    SerialFits(commits, j);
    SerialParts(|commits[i].value|, (2 * i) % COUNTER, |commits[j].value|, (2 * j) % COUNTER);
    SameCounter(i, j);
  }

  lemma SerialParts(len: nat, c: nat, len': nat, c': nat)
    requires c < COUNTER && c' < COUNTER
    ensures len * COUNTER + c == len' * COUNTER + c' <==> len == len' && c == c'
  {
    DivModUnique(len * COUNTER + c, COUNTER, len, c);
    DivModUnique(len' * COUNTER + c', COUNTER, len', c');
  }

  lemma SameCounter(i: nat, j: nat)
    requires i <= j
    ensures (2 * i) % COUNTER == (2 * j) % COUNTER <==> (j - i) % HALF_COUNTER == 0
  {
  }

  /**
   Seqlock safety.  In every run, a read that returns during which fewer than
   2^23 writes completed got the bytes and the terminator of one committed
   value, the one current at both of its loads of the serial.
   */
  lemma ReadReturnsCommittedValue(s0: State, actions: seq<Action>, id: nat)
    requires Init(s0) && CanRun(s0, actions)
    requires id in Run(s0, actions).readers && Run(s0, actions).readers[id].Done?
    ensures
      var s := Run(s0, actions); var r := s.readers[id];
      && r.from <= r.to < |s.commits| && r.len < |s.commits[r.from].area|
      && (r.to - r.from) % HALF_COUNTER == 0
      && r.len == |s.commits[r.from].value| && |r.buf| == r.len + 1
      && (r.to - r.from < HALF_COUNTER ==>
            r.from == r.to && r.buf == CString(s.commits[r.from].value) && NulFree(s.commits[r.from].value))
  {
    InitEstablishesInv(s0);
    RunKeepsInv(s0, actions);
    var s := Run(s0, actions);
    var r := s.readers[id];
    assert ReaderOk(s, r);
    SameSerial(s.commits, r.from, r.to);
    if r.to - r.from < HALF_COUNTER {
      assert r.from == r.to;
      var c := s.commits[r.from];
      assert c.area[..r.len + 1] == CString(c.value);
    }
  }

  /** The rest of a write with `n` bytes to store. */
  function FinishSteps(n: nat): seq<Action> {
    if n == 0 then [EndWrite] + [] else [StoreByte] + FinishSteps(n - 1)
  }

  function Write(v: seq<u8>): seq<Action> { [BeginWrite(v)] + FinishSteps(|v| + 1) }

  /** `n` complete writes of one value. */
  function Writes(v: seq<u8>, n: nat): seq<Action> {
    if n == 0 then [] else Write(v) + Writes(v, n - 1)
  }

  lemma {:induction false} RunAppend(s: State, a: seq<Action>, b: seq<Action>)
    requires CanRun(s, a) && CanRun(Run(s, a), b)
    ensures CanRun(s, a + b) && Run(s, a + b) == Run(Run(s, a), b)
    decreases |a|
  {
    if a == [] {
      assert a + b == b;
    } else {
      assert (a + b)[0] == a[0] && (a + b)[1..] == a[1..] + b;
      RunAppend(Apply(s, a[0]), a[1..], b);
    }
  }

  /** A later state with one more commit, of `v`, and an idle writer. */
  ghost predicate Wrote(s: State, t: State, v: seq<u8>) {
    && Inv(t) && t.writer.Idle? && t.readers == s.readers
    && s.commits <= t.commits && |t.commits| == |s.commits| + 1
    && t.commits[|s.commits|].value == v
  }

  /** A write under way can always be completed. */
  lemma {:induction false} WriterFinishes(s: State, n: nat)
    requires Inv(s) && s.writer.Storing? && n == |s.writer.value| + 1 - s.writer.stored
    ensures CanRun(s, FinishSteps(n)) && Wrote(s, Run(s, FinishSteps(n)), s.writer.value)
    decreases n
  {
    if n == 0 {
      StepKeepsInv(s, EndWrite);
      RunCons(s, EndWrite, []);
    } else {
      var s1 := Apply(s, StoreByte);
      StepKeepsInv(s, StoreByte);
      WriterFinishes(s1, n - 1);
      RunCons(s, StoreByte, FinishSteps(n - 1));
    }
  }

  lemma OneWrite(s: State, v: seq<u8>)
    requires Inv(s) && s.writer.Idle? && |v| < PROP_VALUE_MAX && NulFree(v)
    ensures CanRun(s, Write(v)) && Wrote(s, Run(s, Write(v)), v)
  {
    hide Inv, Or, FinishSteps, CanRun, Run;
    var s1 := Apply(s, BeginWrite(v));
    StepKeepsInv(s, BeginWrite(v));
    WriterFinishes(s1, |v| + 1);
    RunCons(s, BeginWrite(v), FinishSteps(|v| + 1));
  }

  /** The rest of a read with `n` bytes to copy. */
  function CopyRest(id: nat, n: nat): seq<Action> {
    if n == 0 then [Recheck(id)] + [] else [CopyByte(id)] + CopyRest(id, n - 1)
  }

  /** With no writer in between, a read under way ends: it returns, or it starts over if the serial has moved. */
  lemma {:induction false} ReaderFinishes(s: State, id: nat, n: nat)
    requires |s.commits| > 0 && id in s.readers && s.readers[id].Copying?
    requires |s.readers[id].buf| + n == SerialValueLen(s.readers[id].serial) + 1 <= |s.value|
    ensures CanRun(s, CopyRest(id, n))
    ensures
      var t := Run(s, CopyRest(id, n)); var r := s.readers[id];
      && id in t.readers && t == s.(readers := t.readers)
      && t.readers[id] ==
           if r.serial == s.serial
           then Done(|r.buf| + n - 1, r.buf + s.value[|r.buf|..|r.buf| + n], r.from, |s.commits| - 1)
           else Fresh
    decreases n
  {
    var r := s.readers[id];
    if n == 0 {
      assert r.buf + s.value[|r.buf|..|r.buf|] == r.buf;
      RunCons(s, Recheck(id), []);
    } else {
      var s1 := Apply(s, CopyByte(id));
      ReaderFinishes(s1, id, n - 1);
      RunCons(s, CopyByte(id), CopyRest(id, n - 1));
      OneMoreByte(r.buf, s.value, n);
    }
  }

  lemma OneMoreByte(buf: seq<u8>, value: seq<u8>, n: nat)
    requires 0 < n && |buf| + n <= |value|
    ensures buf + [value[|buf|]] + value[|buf| + 1..|buf| + n] == buf + value[|buf|..|buf| + n]
  {
  }

  function ReadAll(id: nat, n: nat): seq<Action> { [Load(id)] + CopyRest(id, n) }

  /**
   Progress.  From any state a run can reach with an idle writer, a new read
   returns the last committed value as soon as it has been copied.
   */
  lemma ReadGetsLastValue(s0: State, actions: seq<Action>, id: nat)
    requires Init(s0) && CanRun(s0, actions)
    requires Run(s0, actions).writer.Idle? && id in Run(s0, actions).readers && !Run(s0, actions).readers[id].Copying?
    ensures
      var s := Run(s0, actions); var last := |s.commits| - 1;
      && last >= 0
      && var v := s.commits[last].value;
      && CanRun(s, ReadAll(id, |v| + 1))
      && id in Run(s, ReadAll(id, |v| + 1)).readers
      && Run(s, ReadAll(id, |v| + 1)).readers[id] == Done(|v|, CString(v), last, last)
  {
    InitEstablishesInv(s0);
    RunKeepsInv(s0, actions);
    IdleRead(Run(s0, actions), id);
  }

  lemma IdleRead(s: State, id: nat)
    requires Inv(s) && s.writer.Idle? && id in s.readers && !s.readers[id].Copying?
    ensures
      var last := |s.commits| - 1; var v := s.commits[last].value; var t := ReadAll(id, |v| + 1);
      CanRun(s, t) && id in Run(s, t).readers && Run(s, t).readers[id] == Done(|v|, CString(v), last, last)
  {
    var last := |s.commits| - 1;
    var c := s.commits[last];
    SerialFits(s.commits, last);
    var s1 := Apply(s, Load(id));
    StepKeepsInv(s, Load(id));
    ReaderFinishes(s1, id, |c.value| + 1);
    RunCons(s, Load(id), CopyRest(id, |c.value| + 1));
    assert [] + s.value[0..|c.value| + 1] == CString(c.value);
  }

  /** What is written is what the next read returns. */
  lemma WriteThenRead(s0: State, actions: seq<Action>, id: nat, v: seq<u8>)
    requires Init(s0) && CanRun(s0, actions) && |v| < PROP_VALUE_MAX && NulFree(v)
    requires Run(s0, actions).writer.Idle? && id in Run(s0, actions).readers && !Run(s0, actions).readers[id].Copying?
    ensures
      var s := Run(s0, actions); var more := Write(v) + ReadAll(id, |v| + 1);
      && CanRun(s, more) && id in Run(s, more).readers
      && Run(s, more).readers[id] == Done(|v|, CString(v), |s.commits|, |s.commits|)
  {
    InitEstablishesInv(s0);
    RunKeepsInv(s0, actions);
    var s := Run(s0, actions);
    OneWrite(s, v);
    IdleRead(Run(s, Write(v)), id);
    RunAppend(s, Write(v), ReadAll(id, |v| + 1));
  }

  lemma {:induction false} ManyWrites(s: State, v: seq<u8>, n: nat)
    requires Inv(s) && s.writer.Idle? && |v| < PROP_VALUE_MAX && NulFree(v)
    ensures CanRun(s, Writes(v, n))
    ensures
      var t := Run(s, Writes(v, n));
      && Inv(t) && t.writer.Idle? && t.readers == s.readers
      && s.commits <= t.commits && |t.commits| == |s.commits| + n
      && forall i | |s.commits| <= i < |t.commits| :: t.commits[i].value == v
    decreases n
  {
    if n > 0 {
      OneWrite(s, v);
      var s1 := Run(s, Write(v));
      ManyWrites(s1, v, n - 1);
      RunAppend(s, Write(v), Writes(v, n - 1));
    }
  }

  /** Load the serial and the first byte; 2^23 writes; then the rest of the read. */
  function TornSchedule(id: nat, v: seq<u8>): seq<Action> {
    HalfRead(id) + (Writes(v, HALF_COUNTER) + CopyRest(id, 2))
  }

  function HalfRead(id: nat): seq<Action> {
    [Load(id)] + ([CopyByte(id)] + [])
  }

  /**
   The bound is sharp: from any initial state holding a two-byte value, a read
   during which exactly 2^23 writes complete can return the first byte of the
   one value with the second of the other, which no write committed if the two
   values differ in both.
   */
  lemma TornReadAfterWrap(s: State, id: nat, v: seq<u8>)
    requires Init(s) && id in s.readers && |s.commits[0].value| == 2 && |v| == 2 && NulFree(v)
    ensures CanRun(s, TornSchedule(id, v))
    ensures
      var t := Run(s, TornSchedule(id, v));
      && id in t.readers
      && t.readers[id].Done? && |t.readers[id].buf| == 3
      && t.readers[id].to - t.readers[id].from == HALF_COUNTER && t.readers[id].len == 2
      && t.readers[id].buf[..2] == [s.commits[0].value[0], v[1]]
      && (forall i | 0 <= i < |t.commits| :: t.commits[i].value == if i == 0 then s.commits[0].value else v)
      && (v[0] != s.commits[0].value[0] && v[1] != s.commits[0].value[1] ==>
            forall i | 0 <= i < |t.commits| :: t.readers[id].buf[..2] != t.commits[i].value)
  {
    InitEstablishesInv(s);
    StartRead(s, id);
    var s2 := Run(s, HalfRead(id));
    ManyWrites(s2, v, HALF_COUNTER);
    var t2 := Run(s2, Writes(v, HALF_COUNTER));
    WrappedSerial(t2);
    FinishRead(t2, id);
    RunAppend(s2, Writes(v, HALF_COUNTER), CopyRest(id, 2));
    RunAppend(s, HalfRead(id), Writes(v, HALF_COUNTER) + CopyRest(id, 2));
    SecondByte(t2, v);
  }

  lemma StartRead(s: State, id: nat)
    requires Inv(s) && s.writer.Idle? && id in s.readers && s.readers[id].Fresh?
    requires |s.commits| == 1
    ensures CanRun(s, HalfRead(id))
    ensures
      var t := Run(s, HalfRead(id));
      && Inv(t) && t.writer.Idle? && t.commits == s.commits && t.serial == s.serial
      && id in t.readers && t.readers[id] == Copying(s.serial, [s.value[0]], 0)
  {
    SerialFits(s.commits, 0);
    var s1 := Apply(s, Load(id));
    RunCons(s1, CopyByte(id), []);
    RunCons(s, Load(id), [CopyByte(id)] + []);
    RunKeepsInv(s, HalfRead(id));
  }

  lemma WrappedSerial(t: State)
    requires Inv(t) && t.writer.Idle? && |t.commits| == HALF_COUNTER + 1
    requires |t.commits[0].value| == |t.commits[HALF_COUNTER].value|
    ensures t.serial == SerialAt(t.commits, 0) && SerialValueLen(t.serial) == |t.commits[0].value|
  {
    SameSerial(t.commits, 0, HALF_COUNTER);
    SerialFits(t.commits, 0);
  }

  lemma SecondByte(t: State, v: seq<u8>)
    requires Inv(t) && t.writer.Idle? && |v| == 2 && t.commits[|t.commits| - 1].value == v
    ensures t.value[1] == v[1]
  {
    var c := t.commits[|t.commits| - 1];
    assert CString(c.value) <= c.area && CString(c.value)[1] == v[1];
  }

  lemma RunCons(s: State, a: Action, rest: seq<Action>)
    requires Enabled(s, a) && CanRun(Apply(s, a), rest)
    ensures CanRun(s, [a] + rest) && Run(s, [a] + rest) == Run(Apply(s, a), rest)
  {
    assert ([a] + rest)[1..] == rest;
  }

  lemma FinishRead(t: State, id: nat)
    requires Inv(t) && id in t.readers && t.readers[id].Copying?
    requires t.readers[id].serial == t.serial && SerialValueLen(t.serial) == 2 && |t.readers[id].buf| == 1
    ensures
      var after := CopyRest(id, 2);
      && CanRun(t, after)
      && Run(t, after).commits == t.commits && id in Run(t, after).readers
      && Run(t, after).readers[id] ==
         Done(2, t.readers[id].buf + [t.value[1], t.value[2]], t.readers[id].from, |t.commits| - 1)
  {
    hide CopyRest, CanRun, Run;
    ReaderFinishes(t, id, 2);
    assert t.value[1..3] == [t.value[1], t.value[2]];
  }

  // ------------------------------------------------------------------------
  // __system_property_find
  // ------------------------------------------------------------------------

  function TocNameLen(entry: u32): nat { entry / COUNTER }

  function TocOffset(entry: u32): nat { entry % COUNTER }

  /** `names` gives the name stored in the prop_info at each offset. */
  datatype PropArea = PropArea(count: nat, toc: seq<u32>, names: map<nat, seq<u8>>)

  /** Every listed entry points at a prop_info and carries the length of its name. */
  predicate WellFormed(pa: PropArea) {
    && pa.count <= |pa.toc|
    && forall i | 0 <= i < pa.count ::
         && TocOffset(pa.toc[i]) in pa.names
         && TocNameLen(pa.toc[i]) == |pa.names[TocOffset(pa.toc[i])]|
  }

  const PROP_NAME_MAX: nat := 32
  const PA_COUNT_MAX: nat := 247
  const PA_INFO_START: nat := 1024
  const SIZEOF_PROP_INFO: nat := 128

  function InfoOffset(i: nat): nat { PA_INFO_START + i * SIZEOF_PROP_INFO }

  /** A new property in _property_set: name, then table entry, then count. */
  function Publish(pa: PropArea, name: seq<u8>): PropArea
    requires pa.count < |pa.toc|
  {
    var offset := InfoOffset(pa.count);
    PropArea(pa.count + 1, pa.toc[pa.count := U32(Or(|name| * COUNTER, offset))], pa.names[offset := name])
  }

  ghost predicate Listed(pa: PropArea, name: seq<u8>, info: nat)
    requires WellFormed(pa)
  {
    exists i | 0 <= i < pa.count :: info == TocOffset(pa.toc[i]) && pa.names[info] == name
  }

  /** The area as the writer fills it: the entries in order, with names that fit and differ. */
  ghost predicate Filled(pa: PropArea) {
    && WellFormed(pa) && pa.count <= PA_COUNT_MAX == |pa.toc|
    && (forall i | 0 <= i < pa.count :: TocOffset(pa.toc[i]) == InfoOffset(i))
    && (forall i | 0 <= i < pa.count :: 0 < |pa.names[InfoOffset(i)]| < PROP_NAME_MAX)
    && (forall i, j | 0 <= i < j < pa.count :: pa.names[InfoOffset(i)] != pa.names[InfoOffset(j)])
  }

  /** A new entry keeps the area well formed, is found under its name, and moves no other property. */
  lemma PublishAddsJustOne(pa: PropArea, name: seq<u8>)
    requires Filled(pa) && pa.count < PA_COUNT_MAX && 0 < |name| < PROP_NAME_MAX
    requires forall info :: !Listed(pa, name, info)
    ensures Filled(Publish(pa, name))
    ensures forall n, info :: Listed(Publish(pa, name), n, info) <==>
              Listed(pa, n, info) || (n == name && info == InfoOffset(pa.count))
  {
    var pa' := Publish(pa, name);
    EntryFields(|name|, pa.count);
    forall i | 0 <= i < pa.count
      ensures TocOffset(pa'.toc[i]) == InfoOffset(i) && pa'.names[InfoOffset(i)] == pa.names[InfoOffset(i)] != name
    {
      assert InfoOffset(i) != InfoOffset(pa.count);
      assert !Listed(pa, name, InfoOffset(i));
      assert InfoOffset(i) == TocOffset(pa.toc[i]);
    }
    assert Filled(pa');
    PublishedAreListed(pa, name);
  }

  lemma PublishedAreListed(pa: PropArea, name: seq<u8>)
    requires WellFormed(pa) && pa.count < |pa.toc| && WellFormed(Publish(pa, name))
    requires forall i | 0 <= i < pa.count :: TocOffset(pa.toc[i]) != InfoOffset(pa.count)
    requires TocOffset(Publish(pa, name).toc[pa.count]) == InfoOffset(pa.count)
    ensures forall n, info :: Listed(Publish(pa, name), n, info) <==>
              Listed(pa, n, info) || (n == name && info == InfoOffset(pa.count))
  {
    hide TocOffset, TocNameLen, InfoOffset;
    var pa' := Publish(pa, name);
    forall n, info
      ensures Listed(pa', n, info) <==> Listed(pa, n, info) || (n == name && info == InfoOffset(pa.count))
    {
      if Listed(pa, n, info) {
        var i :| 0 <= i < pa.count && info == TocOffset(pa.toc[i]) && pa.names[info] == n;
        assert info == TocOffset(pa'.toc[i]) && pa'.names[info] == n;
      }
      if Listed(pa', n, info) {
        var i :| 0 <= i < pa'.count && info == TocOffset(pa'.toc[i]) && pa'.names[info] == n;
        assert i < pa.count ==> info == TocOffset(pa.toc[i]) && pa.names[info] == n;
      }
      assert pa'.names[TocOffset(pa'.toc[pa.count])] == name;
    }
  }

  lemma EntryFields(len: nat, i: nat)
    requires len < PROP_NAME_MAX && i < PA_COUNT_MAX
    ensures
      var entry := U32(Or(len * COUNTER, InfoOffset(i)));
      TocNameLen(entry) == len && TocOffset(entry) == InfoOffset(i)
  {
    hide Or, Pow2;
    Pow2Of24();
    OrDisjoint(len, 24, InfoOffset(i));
    Fields(len, InfoOffset(i));
  }

  lemma Fields(len: nat, offset: nat)
    requires len < PROP_NAME_MAX && offset < COUNTER
    ensures len * COUNTER + offset < TWO32
    ensures TocNameLen(len * COUNTER + offset) == len && TocOffset(len * COUNTER + offset) == offset
  {
    DivModUnique(len * COUNTER + offset, COUNTER, len, offset);
  }

  /** The offset of the first listed property with that exact name, if there is one. */
  method Find(pa: PropArea, name: seq<u8>) returns (found: bool, info: nat)
    requires WellFormed(pa)
    ensures found <==> exists i :: 0 <= i < pa.count && pa.names[TocOffset(pa.toc[i])] == name
    ensures found ==>
              exists i :: 0 <= i < pa.count && info == TocOffset(pa.toc[i]) && pa.names[info] == name
                          && forall j :: 0 <= j < i ==> pa.names[TocOffset(pa.toc[j])] != name
  {
    var count, p := pa.count, 0;
    while count != 0
      invariant p + count == pa.count
      invariant forall j :: 0 <= j < p ==> pa.names[TocOffset(pa.toc[j])] != name
      decreases count
    {
      count := count - 1;
      var entry := pa.toc[p];
      p := p + 1;
      if TocNameLen(entry) != |name| {
        continue;
      }
      if name != pa.names[TocOffset(entry)][..|name|] {
        continue;
      }
      assert pa.names[TocOffset(pa.toc[p - 1])] == name;
      return true, TocOffset(entry);
    }
    return false, 0;
  }
}
