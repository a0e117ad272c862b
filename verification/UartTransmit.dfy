/**
 The transmit half of the Avalon UART driver without flow control, as a step system: writer substeps
 and transmit interrupts interleave in any order. The write lock admits one writer to the ring, but a
 call releases it before its last step, so any number of calls may still have to enable interrupts.
 */
module UartTransmit {
  import opened RingBuffers

  const BUF_LEN: nat := 64

  /** The driver's index arithmetic. */
  lemma NextIsMod(i: nat)
    requires i < BUF_LEN
    ensures Next(BUF_LEN, i) == (i + 1) % BUF_LEN
  {}

  /** A write call: its bytes, how many are in the ring, and the mode. */
  datatype Call = Call(data: seq<Byte>, ptr: nat, nonblock: bool)

  /** Where the writer is. `next` is the index it will publish. */
  datatype Pc =
    | UTop
    | UFull(next: nat)
    | UWait(next: nat)
    | UStore(next: nat)
    | UPublish(next: nat)
    | UPost(refused: bool)

  datatype Writer = NoWriter | Writing(call: Call, pc: Pc)

  /** The transmit bits of the control register. */
  datatype Control = Control(trdy: bool, dcts: bool)

  /**
   `ctrl` is the driver's copy of the register and `stored` the value last written to it. `unkicked`
   says that the writer published bytes since it last enabled interrupts, `enabling` counts the calls
   past the lock, `sent` is what was stored to TXDATA, and `reported` is what the results of the calls
   say was written, in order.
   */
  datatype Uart = Uart(start: nat, end: nat, buf: seq<Byte>, ctrl: Control, stored: Control, writer: Writer,
                       unkicked: bool, enabling: nat, sent: seq<Byte>, reported: seq<Byte>)

  datatype Step = StartWrite(data: seq<Byte>, nonblock: bool) | WriterStep | Enable | TxIrq

  predicate Indices(u: Uart) { u.start < BUF_LEN && u.end < BUF_LEN && |u.buf| == BUF_LEN }

  /** No index of the next step leaves its buffer. */
  predicate Defined(u: Uart) {
    && Indices(u)
    && (u.writer.Writing? && u.writer.pc.UStore? ==> u.writer.call.ptr < |u.writer.call.data|)
    && (u.writer.Writing? && u.writer.pc.UPost? ==> u.writer.call.ptr <= |u.writer.call.data|)
  }

  predicate CanTake(u: Uart, step: Step) {
    match step
    case StartWrite(_, _) => u.writer.NoWriter?
    case WriterStep => u.writer.Writing?
    case Enable => u.enabling > 0
    case TxIrq => true
  }

  function Kicked(u: Uart): Uart { u.(ctrl := Control(true, true), stored := Control(true, true)) }

  /** One substep of the writer. */
  function WriterNext(u: Uart): Uart
    requires Defined(u) && u.writer.Writing?
  {
    var call := u.writer.call;
    match u.writer.pc
    case UTop =>
      var next := Next(BUF_LEN, u.end);
      if call.ptr >= |call.data| then u.(writer := Writing(call, UPost(false)))
      else if next != u.start then u.(writer := Writing(call, UStore(next)))
      else if call.nonblock then u.(writer := Writing(call, UPost(true)))
      else u.(writer := Writing(call, UFull(next)))
    case UFull(next) => Kicked(u).(unkicked := false, writer := Writing(call, UWait(next)))
    case UWait(next) => if next == u.start then u else u.(writer := Writing(call, UStore(next)))
    case UStore(next) => u.(buf := u.buf[u.end := call.data[call.ptr]], writer := Writing(call, UPublish(next)))
    case UPublish(next) => u.(end := next, unkicked := true, writer := Writing(call.(ptr := call.ptr + 1), UTop))
    case UPost(_) =>
      u.(writer := NoWriter, unkicked := false, enabling := u.enabling + 1,
         reported := u.reported + call.data[..call.ptr])
  }

  /** One byte moves to the device. */
  function Popped(u: Uart): Uart
    requires Indices(u)
  {
    u.(sent := u.sent + [u.buf[u.start]], start := Next(BUF_LEN, u.start), ctrl := u.ctrl.(trdy := true))
  }

  /** Interrupts go off once nothing is left, and the register is stored. */
  function Settled(u: Uart): Uart {
    if u.start == u.end then u.(ctrl := Control(false, false), stored := Control(false, false))
    else u.(stored := u.ctrl)
  }

  /** The transmit interrupt. */
  function Interrupted(u: Uart): Uart
    requires Indices(u)
  {
    Settled(if u.start == u.end then u else Popped(u))
  }

  function After(u: Uart, step: Step): Uart
    requires Defined(u) && CanTake(u, step)
  {
    match step
    case StartWrite(data, nonblock) => u.(writer := Writing(Call(data, 0, nonblock), UTop))
    case WriterStep => WriterNext(u)
    case Enable => Kicked(u).(enabling := u.enabling - 1)
    case TxIrq => Interrupted(u)
  }

  // ----- The invariant -----

  /** All bytes accepted so far. */
  ghost function Accepted(u: Uart): seq<Byte>
    requires u.writer.Writing? ==> u.writer.call.ptr <= |u.writer.call.data|
  {
    u.reported + if u.writer.Writing? then u.writer.call.data[..u.writer.call.ptr] else []
  }

  /** What the writer knows at each point. */
  ghost predicate WriterOk(u: Uart)
    requires Indices(u)
  {
    match u.writer
    case NoWriter => !u.unkicked
    case Writing(call, pc) =>
      && call.ptr <= |call.data|
      && match pc
         case UTop => true
         case UFull(next) => !call.nonblock && call.ptr < |call.data| && next == Next(BUF_LEN, u.end)
         case UWait(next) =>
           && !call.nonblock && call.ptr < |call.data| && next == Next(BUF_LEN, u.end)
           && !u.unkicked && (u.start != u.end ==> u.stored.trdy)
         case UStore(next) => call.ptr < |call.data| && next == Next(BUF_LEN, u.end) && next != u.start
         case UPublish(next) =>
           && call.ptr < |call.data| && next == Next(BUF_LEN, u.end) && next != u.start
           && u.buf[u.end] == call.data[call.ptr]
         case UPost(refused) => if refused then call.nonblock && call.ptr < |call.data| else call.ptr == |call.data|
  }

  ghost predicate Inv(u: Uart) {
    && Indices(u)
    && WriterOk(u)
    && u.stored == u.ctrl
    && u.sent + Contents(u.buf, u.start, u.end) == Accepted(u)
    && (u.start != u.end && !u.stored.trdy ==> u.unkicked || u.enabling > 0)
  }

  ghost predicate Init(u: Uart) {
    && u.start == u.end == 0 && |u.buf| == BUF_LEN && u.ctrl == u.stored == Control(false, true)
    && u.writer == NoWriter && !u.unkicked && u.enabling == 0 && u.sent == u.reported == []
  }

  lemma StoreKeeps(u: Uart)
    requires Inv(u) && u.writer.Writing? && u.writer.pc.UStore?
    ensures Inv(WriterNext(u))
  {
    WriteFree(u.buf, u.start, u.end, u.end, u.writer.call.data[u.writer.call.ptr]);
  }

  /** One more byte of data on both sides of the account. */
  lemma AcceptOne(sent: seq<Byte>, held: seq<Byte>, reported: seq<Byte>, data: seq<Byte>, ptr: nat)
    requires ptr < |data| && sent + held == reported + data[..ptr]
    ensures sent + (held + [data[ptr]]) == reported + data[..ptr + 1]
  {
    assert data[..ptr + 1] == data[..ptr] + [data[ptr]];
    AppendBoth(sent, held, reported, data[..ptr], [data[ptr]]);
  }

  lemma PublishKeeps(u: Uart)
    requires Inv(u) && u.writer.Writing? && u.writer.pc.UPublish?
    ensures Inv(WriterNext(u))
  {
    PublishOne(u.buf, u.start, u.end);
    AcceptOne(u.sent, Contents(u.buf, u.start, u.end), u.reported, u.writer.call.data, u.writer.call.ptr);
  }

  lemma WriterKeeps(u: Uart)
    requires Inv(u) && u.writer.Writing?
    ensures Inv(WriterNext(u))
  {
    match u.writer.pc
    case UStore(_) => StoreKeeps(u);
    case UPublish(_) => PublishKeeps(u);
    case _ =>
  }

  lemma PopMoves(u: Uart)
    requires Indices(u) && u.start != u.end
    ensures var u' := Popped(u);
            && u'.sent + Contents(u'.buf, u'.start, u'.end) == u.sent + Contents(u.buf, u.start, u.end)
            && Used(BUF_LEN, u'.start, u'.end) == Used(BUF_LEN, u.start, u.end) - 1
  {
    ConsumeOne(u.buf, u.start, u.end);
    MoveOne(u.sent, u.buf[u.start], Contents(u.buf, Next(BUF_LEN, u.start), u.end));
  }

  /** A slot the writer knows to be free stays free, and whoever waits has interrupts on. */
  lemma PopSparesWriter(u: Uart)
    requires Indices(u) && WriterOk(u) && u.start != u.end
    ensures WriterOk(Settled(Popped(u))) && Accepted(Settled(Popped(u))) == Accepted(u)
  {}

  lemma InterruptKeeps(u: Uart)
    requires Inv(u)
    ensures Inv(Interrupted(u))
  {
    if u.start != u.end {
      PopMoves(u);
      PopSparesWriter(u);
    }
  }

  /** A step keeps the invariant; an enable step turns both bits on, an interrupt that ends empty turns them off. */
  lemma StepKeeps(u: Uart, step: Step)
    requires Inv(u) && CanTake(u, step)
    ensures Inv(After(u, step))
    ensures step.Enable? ==> After(u, step).stored == Control(true, true)
    ensures step.TxIrq? && After(u, step).start == After(u, step).end ==> After(u, step).stored == Control(false, false)
  {
    match step
    case WriterStep => WriterKeeps(u);
    case TxIrq => InterruptKeeps(u);
    case _ =>
  }

  // ----- Runs -----

  datatype Trace = Begin(now: Uart) | Then(before: Trace, step: Step, now: Uart)

  /** A run of the driver. Where a step would index outside a buffer nothing is said about what follows. */
  ghost predicate Run(t: Trace)
    decreases t
  {
    match t
    case Begin(u) => Init(u)
    case Then(before, step, u) => Run(before) && Leads(before.now, step, u)
  }

  ghost predicate Leads(u: Uart, step: Step, u': Uart) {
    Defined(u) ==> CanTake(u, step) && u' == After(u, step)
  }

  lemma {:induction false} RunHolds(t: Trace)
    requires Run(t)
    ensures Inv(t.now) && Defined(t.now)
    decreases t
  {
    match t
    case Begin(_) =>
    case Then(before, step, _) =>
      RunHolds(before);
      StepKeeps(before.now, step);
  }

  ghost predicate SoundAt(t: Trace, v: Trace) { v == t ==> Run(v) && Inv(v.now) }

  /** t is a run and ends in a state with the invariant; said so that proofs unfold it only where they ask. */
  ghost predicate Sound(t: Trace) { forall v {:trigger SoundAt(t, v)} :: SoundAt(t, v) }

  lemma SoundIff(t: Trace)
    ensures Sound(t) <==> Run(t) && Inv(t.now)
  {
    if Sound(t) {
      assert SoundAt(t, t);
    }
  }

  /** t' is t, continued by any number of steps. */
  ghost predicate Extends(t: Trace, t': Trace)
    decreases t'
  {
    t' == t || (t'.Then? && Extends(t, t'.before))
  }

  lemma {:induction false} ExtendsTransitive(a: Trace, b: Trace, c: Trace)
    requires Extends(a, b) && Extends(b, c)
    ensures Extends(a, c)
    decreases c
  {
    if c != b {
      ExtendsTransitive(a, b, c.before);
    }
  }

  /** No step takes back what was sent or reported. */
  lemma {:induction false} ExtendsGrows(t: Trace, t': Trace)
    requires Run(t') && Extends(t, t')
    ensures t.now.sent <= t'.now.sent && t.now.reported <= t'.now.reported
    decreases t'
  {
    if t' != t {
      ExtendsGrows(t, t'.before);
      RunHolds(t'.before);
    }
  }

  /** Some state from the end of t to the end of t' satisfies P. */
  ghost predicate Visits(t: Trace, t': Trace, P: Uart -> bool)
    decreases t'
  {
    P(t'.now) || (t'.Then? && Extends(t, t'.before) && Visits(t, t'.before, P))
  }

  lemma {:induction false} VisitsLater(a: Trace, b: Trace, c: Trace, P: Uart -> bool)
    requires Visits(a, b, P) && Extends(a, b) && Extends(b, c)
    ensures Visits(a, c, P)
    decreases c
  {
    if c != b {
      VisitsLater(a, b, c.before, P);
      ExtendsTransitive(a, b, c.before);
    }
  }

  lemma {:induction false} VisitsEarlier(a: Trace, b: Trace, c: Trace, P: Uart -> bool)
    requires Visits(b, c, P) && Extends(a, b)
    ensures Visits(a, c, P)
    decreases c
  {
    if !P(c.now) {
      VisitsEarlier(a, b, c.before, P);
      ExtendsTransitive(a, b, c.before);
    }
  }

  predicate RingFull(u: Uart) { (u.end + 1) % 64 == u.start }

  /** The run up to the start of the latest call. */
  ghost function WriteStart(t: Trace): Trace
    decreases t
  {
    if t.Then? && !t.step.StartWrite? then WriteStart(t.before) else t
  }

  lemma {:induction false} WriteStartWithin(a: Trace, t: Trace)
    requires Extends(a, t) && a.Then? && a.step.StartWrite?
    ensures Extends(a, WriteStart(t)) && Extends(WriteStart(t), t)
    decreases t
  {
    if t != a && !t.step.StartWrite? {
      WriteStartWithin(a, t.before);
    }
  }

  lemma {:induction false} WriteStartBefore(t: Trace)
    ensures Extends(WriteStart(t), t)
    decreases t
  {
    if t.Then? && !t.step.StartWrite? {
      WriteStartBefore(t.before);
    }
  }

  /** The writer has found the ring full. */
  predicate Stopped(u: Uart) {
    u.writer.Writing? && (u.writer.pc.UFull? || u.writer.pc.UWait? || u.writer.pc == UPost(true))
  }

  /** In every run a call waits, or is refused, only if the ring was full at some time since it began. */
  lemma {:induction false} RefusalsHaveReasons(t: Trace)
    requires Run(t) && Stopped(t.now)
    ensures Visits(WriteStart(t), t, RingFull)
    decreases t
  {
    if t.Then? {
      RunHolds(t.before);
      WriteStartBefore(t.before);
      if Stopped(t.before.now) && !t.step.StartWrite? {
        RefusalsHaveReasons(t.before);
      } else {
        assert RingFull(t.before.now);
      }
    }
  }

  /**
   In every run, what was stored to TXDATA, then the ring, is what the calls reported, each in order,
   then what the current call has put in the ring; and at most 63 bytes wait.
   */
  lemma TransmitIsFifo(t: Trace)
    requires Run(t)
    ensures var u := t.now;
            && Inv(u)
            && u.sent + Contents(u.buf, u.start, u.end) == Accepted(u)
            && u.reported <= Accepted(u)
            && Used(BUF_LEN, u.start, u.end) <= 63
  {
    RunHolds(t);
  }

  /**
   With bytes in the ring and transmit interrupts off, some call has its enable step still to come: one
   past the lock, or the writer, which has published bytes and is not waiting for space.
   */
  lemma NothingStranded(t: Trace)
    requires Run(t)
    requires t.now.start != t.now.end && !t.now.stored.trdy
    ensures t.now.enabling > 0 || (t.now.unkicked && t.now.writer.Writing? && !t.now.writer.pc.UWait?)
  {
    RunHolds(t);
  }

  /** A writer blocked on a full ring always has transmit interrupts on, so it cannot deadlock. */
  lemma BlockedWriterIsServed(t: Trace)
    requires Run(t) && t.now.writer.Writing? && t.now.writer.pc.UWait?
    ensures Defined(t.now)
    ensures WriterNext(t.now) == t.now ==> t.now.stored.trdy && Used(BUF_LEN, t.now.start, t.now.end) == 63
    ensures var u := After(t.now, TxIrq);
            Defined(u) && u.writer == t.now.writer && WriterNext(u) != u
  {
    RunHolds(t);
    InterruptKeeps(t.now);
  }

  /** A call that posts has accepted all its bytes, or is non-blocking and found the ring full. */
  lemma ResultIsOwnCount(t: Trace)
    requires Run(t) && t.now.writer.Writing? && t.now.writer.pc.UPost?
    ensures Defined(t.now)
    ensures var call := t.now.writer.call;
            && call.ptr <= |call.data|
            && (t.now.writer.pc.refused <==> call.ptr < |call.data|)
            && (call.ptr < |call.data| ==> call.nonblock)
            && After(t.now, WriterStep).reported == t.now.reported + call.data[..call.ptr] == Accepted(t.now)
  {
    RunHolds(t);
  }

  /** In every run, a store only fills a free slot. */
  lemma StoreSparesUnsent(t: Trace)
    requires Run(t) && t.now.writer.Writing? && t.now.writer.pc.UStore?
    ensures var u := t.now; Defined(u) && !Occupied(BUF_LEN, u.start, u.end, u.end) && Free(BUF_LEN, u.start, u.end) > 0
  {
    RunHolds(t);
  }

  /** With no writer the reported stream is what was sent, then what is in the ring. */
  lemma IdleStream(u: Uart)
    requires Inv(u) && u.writer.NoWriter?
    ensures u.start == u.end ==> u.sent == u.reported
    ensures u.start != u.end ==> u.sent < u.reported
  {
    assert u.sent + Contents(u.buf, u.start, u.end) == u.reported;
    assert u.reported[..|u.sent|] == u.sent;
  }

  /** n transmit interrupts in a row. */
  function Interrupts(u: Uart, n: nat): Uart
    requires Indices(u)
    decreases n
  {
    if n == 0 then u else Interrupts(Interrupted(u), n - 1)
  }

  /** No call is under way, and bytes wait. */
  ghost predicate Draining(u: Uart) { Inv(u) && u.writer.NoWriter? && u.enabling == 0 && u.start != u.end }

  lemma InterruptDrains(u: Uart) returns (u': Uart)
    requires Draining(u)
    ensures u' == Interrupted(u) && Indices(u') && u.stored.trdy && u'.reported == u.reported
    ensures Used(BUF_LEN, u'.start, u'.end) == Used(BUF_LEN, u.start, u.end) - 1
    ensures u'.start != u'.end ==> Draining(u')
    ensures u'.start == u'.end ==> u'.sent == u'.reported && u'.stored == Control(false, false)
  {
    u' := Interrupted(u);
    InterruptKeeps(u);
    PopMoves(u);
    if u'.start == u'.end {
      IdleStream(u');
    }
  }

  /**
   Once no call is under way, transmit interrupts are on while bytes wait, and as many interrupts as
   there are bytes send all that was reported and leave the interrupts off.
   */
  lemma {:induction false} InterruptsDrain(u: Uart, n: nat)
    requires Draining(u) && n == Used(BUF_LEN, u.start, u.end)
    ensures var u' := Interrupts(u, n);
            u.stored.trdy && u'.start == u'.end && u'.sent == u.reported && u'.stored == Control(false, false)
    decreases n
  {
    var u1 := InterruptDrains(u);
    if u1.start != u1.end {
      InterruptsDrain(u1, n - 1);
    }
  }
}
