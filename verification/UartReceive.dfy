/**
 The receive half of the Avalon UART driver, which does not keep its data in every run: exactly which
 runs lose bytes, and how. One reader at a time holds the read lock; calls that have released it may still
 have to enable interrupts.
 */
module UartReceive {
  import opened RingBuffers

  const BUF_LEN: nat := 64

  /** A read call: the size of its buffer, the bytes already in it, and the mode. */
  datatype Call = Call(want: nat, got: seq<Byte>, nonblock: bool)

  /** Where the reader is. `byte` has been copied and its slot not yet given up. */
  datatype Pc = RLoop | RCopy | RAdvance(byte: Byte) | RDecide | RBlock | RPost(refused: bool)

  datatype Reader = NoReader | Reading(call: Call, pc: Pc)

  /**
   The receive ring, the RRDY interrupt-enable bit, the reader, and the number of calls past the lock.
   `taken` is every byte the interrupt routine accepted from the device, and `handed` what finished calls
   returned, in order.
   */
  datatype Uart = Uart(start: nat, end: nat, buf: seq<Byte>, rrdy: bool, reader: Reader, enabling: nat,
                       taken: seq<Byte>, handed: seq<Byte>)

  /** The interrupt routine finds a byte, with or without a parity or framing error. */
  datatype Step = StartRead(want: nat, nonblock: bool) | ReaderStep | Enable | RxIrq(error: bool, byte: Byte)

  predicate Indices(u: Uart) { u.start < BUF_LEN && u.end < BUF_LEN && |u.buf| == BUF_LEN }

  predicate Full(u: Uart)
    requires Indices(u)
  {
    Next(BUF_LEN, u.end) == u.start
  }

  predicate CanTake(u: Uart, step: Step) {
    match step
    case StartRead(_, _) => u.reader.NoReader?
    case ReaderStep => u.reader.Reading?
    case Enable => u.enabling > 0
    case RxIrq(_, _) => true
  }

  /** One byte enters the ring, whether or not there is room, and interrupts go off if it is full then. */
  function Received(u: Uart, b: Byte): Uart
    requires Indices(u)
  {
    var end := Next(BUF_LEN, u.end);
    u.(buf := u.buf[u.end := b], end := end, taken := u.taken + [b],
       rrdy := if Next(BUF_LEN, end) == u.start then false else u.rrdy)
  }

  /** One substep of the reader. */
  function ReaderNext(u: Uart): Uart
    requires Indices(u) && u.reader.Reading?
  {
    var call := u.reader.call;
    match u.reader.pc
    case RLoop =>
      u.(reader := Reading(call, if |call.got| < call.want && u.start != u.end then RCopy else RDecide))
    case RCopy => u.(reader := Reading(call, RAdvance(u.buf[u.start])))
    case RAdvance(b) =>
      u.(start := Next(BUF_LEN, u.start), reader := Reading(call.(got := call.got + [b]), RLoop))
    case RDecide =>
      if call.got == [] && u.start == u.end then
        u.(reader := Reading(call, if call.nonblock then RPost(true) else RBlock))
      else u.(reader := Reading(call, if call.got == [] && call.want > 0 then RLoop else RPost(false)))
    case RBlock => u.(rrdy := true, reader := Reading(call, if call.want > 0 then RLoop else RPost(false)))
    case RPost(_) => u.(reader := NoReader, enabling := u.enabling + 1, handed := u.handed + call.got)
  }

  function After(u: Uart, step: Step): Uart
    requires Indices(u) && CanTake(u, step)
  {
    match step
    case StartRead(want, nonblock) => u.(reader := Reading(Call(want, [], nonblock), RLoop))
    case ReaderStep => ReaderNext(u)
    case Enable => u.(rrdy := true, enabling := u.enabling - 1)
    case RxIrq(error, b) => if error then u else Received(u, b)
  }

  // ----- What is kept -----

  ghost function Delivered(u: Uart): seq<Byte> {
    u.handed + if u.reader.Reading? then u.reader.call.got else []
  }

  /** What readers were given, then the ring, is what was taken from the device. */
  ghost predicate Kept(u: Uart) {
    Indices(u) && Delivered(u) + Contents(u.buf, u.start, u.end) == u.taken
  }

  /** What the reader knows of the byte at the front of the ring. */
  ghost predicate ReaderOk(u: Uart)
    requires Indices(u)
  {
    u.reader.Reading? ==>
      match u.reader.pc
      case RCopy => u.start != u.end
      case RAdvance(b) => u.start != u.end && u.buf[u.start] == b
      case _ => true
  }

  ghost predicate Inv(u: Uart) { Kept(u) && ReaderOk(u) }

  lemma ReceiveKeeps(u: Uart, b: Byte)
    requires Inv(u) && !Full(u)
    ensures Inv(Received(u, b))
  {
    var buf := u.buf[u.end := b];
    WriteFree(u.buf, u.start, u.end, u.end, b);
    PublishOne(buf, u.start, u.end);
    var held := Contents(u.buf, u.start, u.end);
    assert Delivered(u) + (held + [b]) == Delivered(u) + held + [b];
  }

  /** A byte that comes when the ring is full empties it: all that was waiting is gone. */
  lemma OverrunLoses(u: Uart, b: Byte)
    requires Kept(u) && Full(u)
    ensures var u' := Received(u, b);
            Contents(u'.buf, u'.start, u'.end) == [] && |Delivered(u')| == |u'.taken| - BUF_LEN && !Kept(u')
  {
    var u' := Received(u, b);
    assert |Contents(u.buf, u.start, u.end)| == BUF_LEN - 1;
    assert |Delivered(u) + Contents(u.buf, u.start, u.end)| == |u.taken|;
  }

  /** The interrupt routine keeps every unread byte if and only if the ring is not full when it is called. */
  lemma ReceiveKeepsIff(u: Uart, b: Byte)
    requires Inv(u)
    ensures Kept(Received(u, b)) <==> !Full(u)
  {
    if Full(u) {
      OverrunLoses(u, b);
    } else {
      ReceiveKeeps(u, b);
    }
  }

  lemma AdvanceKeeps(u: Uart)
    requires Inv(u) && u.reader.Reading? && u.reader.pc.RAdvance?
    ensures Inv(ReaderNext(u))
  {
    var call, b := u.reader.call, u.reader.pc.byte;
    ConsumeOne(u.buf, u.start, u.end);
    var rest := Contents(u.buf, Next(BUF_LEN, u.start), u.end);
    assert u.handed + call.got + ([b] + rest) == u.handed + (call.got + [b]) + rest;
  }

  lemma PostKeeps(u: Uart)
    requires Inv(u) && u.reader.Reading? && u.reader.pc.RPost?
    ensures Inv(ReaderNext(u))
  {
    assert u.handed + u.reader.call.got + [] == u.handed + u.reader.call.got;
  }

  lemma ReaderKeeps(u: Uart)
    requires Inv(u) && u.reader.Reading?
    ensures Inv(ReaderNext(u))
  {
    match u.reader.pc
    case RAdvance(_) => AdvanceKeeps(u);
    case RPost(_) => PostKeeps(u);
    case _ =>
  }

  /** The step hands the interrupt routine a byte when the ring is full. */
  predicate Overruns(u: Uart, step: Step)
    requires Indices(u)
  {
    step.RxIrq? && !step.error && Full(u)
  }

  lemma StepKeeps(u: Uart, step: Step)
    requires Inv(u) && CanTake(u, step) && !Overruns(u, step)
    ensures Inv(After(u, step))
  {
    match step
    case ReaderStep => ReaderKeeps(u);
    case RxIrq(error, b) =>
      if !error {
        ReceiveKeeps(u, b);
      }
    case _ =>
  }

  // ----- Runs -----

  datatype Trace = Begin(now: Uart) | Then(before: Trace, step: Step, now: Uart)

  ghost predicate Init(u: Uart) {
    && u.start == u.end == 0 && |u.buf| == BUF_LEN && u.rrdy
    && u.reader == NoReader && u.enabling == 0 && u.taken == u.handed == []
  }

  ghost predicate Run(t: Trace)
    decreases t
  {
    match t
    case Begin(u) => Init(u)
    case Then(before, step, u) =>
      Run(before) && Indices(before.now) && CanTake(before.now, step) && u == After(before.now, step)
  }

  lemma {:induction false} RunIndices(t: Trace)
    requires Run(t)
    ensures Indices(t.now)
    decreases t
  {
    if t.Then? {
      RunIndices(t.before);
    }
  }

  /** In every state of the run nothing has been lost. */
  ghost predicate AlwaysKept(t: Trace)
    decreases t
  {
    Kept(t.now) && (t.Then? ==> AlwaysKept(t.before))
  }

  /** No step of the run overruns the ring. */
  ghost predicate NeverOverruns(t: Trace)
    decreases t
  {
    t.Then? ==> NeverOverruns(t.before) && (Indices(t.before.now) ==> !Overruns(t.before.now, t.step))
  }

  lemma {:induction false} NoOverrunKeeps(t: Trace)
    requires Run(t) && NeverOverruns(t)
    ensures Inv(t.now) && AlwaysKept(t)
    decreases t
  {
    if t.Then? {
      NoOverrunKeeps(t.before);
      StepKeeps(t.before.now, t.step);
    }
  }

  lemma {:induction false} KeptNeverOverruns(t: Trace)
    requires Run(t) && AlwaysKept(t)
    ensures NeverOverruns(t)
    decreases t
  {
    if t.Then? {
      KeptNeverOverruns(t.before);
      if Overruns(t.before.now, t.step) {
        OverrunLoses(t.before.now, t.step.byte);
      }
    }
  }

  /** In every run: nothing is ever lost if and only if no byte comes when the ring is full. */
  lemma NothingLostIff(t: Trace)
    requires Run(t)
    ensures AlwaysKept(t) <==> NeverOverruns(t)
  {
    if NeverOverruns(t) {
      NoOverrunKeeps(t);
    }
    if AlwaysKept(t) {
      KeptNeverOverruns(t);
    }
  }

  // ----- What calls return, in every run -----

  /** What a call knows of itself, whether or not bytes were lost. */
  ghost predicate CallOk(u: Uart) {
    u.reader.Reading? ==>
      var call := u.reader.call;
      && |call.got| <= call.want
      && match u.reader.pc
         case RCopy => |call.got| < call.want
         case RAdvance(_) => |call.got| < call.want
         case RBlock => !call.nonblock && call.got == []
         case RPost(refused) => if refused then call.nonblock && call.got == [] else call.got != [] || call.want == 0
         case _ => true
  }

  /**
   In every run: a call that gives up the lock has at most as many bytes as it asked for; only one that may
   not block is refused, and then it has none; one that is not refused has some if it asked for any.
   */
  lemma {:induction false} CallsReturnRightly(t: Trace)
    requires Run(t)
    ensures CallOk(t.now)
    decreases t
  {
    if t.Then? {
      CallsReturnRightly(t.before);
    }
  }

  /** A call stops copying exactly when its buffer is full or the ring is empty, and is refused only then. */
  lemma StopsCopyingIff(t: Trace)
    requires Run(t) && t.now.reader.Reading?
    ensures Indices(t.now)
    ensures var u, u' := t.now, ReaderNext(t.now);
            && (u.reader.pc.RLoop? ==>
                  (u'.reader.pc.RDecide? <==> |u.reader.call.got| == u.reader.call.want || u.start == u.end))
            && (u.reader.pc.RDecide? && u'.reader.pc == RPost(true) ==> u.start == u.end)
  {
    RunIndices(t);
    CallsReturnRightly(t);
  }

  // ----- Interrupts that respect the enable bit -----

  /** The interrupt routine only finds a byte while RRDY interrupts are enabled. */
  ghost predicate Masked(t: Trace)
    decreases t
  {
    t.Then? ==> Masked(t.before) && (t.step.RxIrq? ==> t.before.now.rrdy)
  }

  /** The step enables RRDY interrupts while the ring is full. */
  predicate EnablesFull(u: Uart, step: Step)
    requires Indices(u)
  {
    Full(u) && (step.Enable? || (step.ReaderStep? && u.reader.Reading? && u.reader.pc.RBlock?))
  }

  ghost predicate NeverEnablesFull(t: Trace)
    decreases t
  {
    t.Then? ==> NeverEnablesFull(t.before) && (Indices(t.before.now) ==> !EnablesFull(t.before.now, t.step))
  }

  lemma StepMasks(u: Uart, step: Step)
    requires Inv(u) && CanTake(u, step) && (Full(u) ==> !u.rrdy) && !EnablesFull(u, step) && !Overruns(u, step)
    ensures var u' := After(u, step); Indices(u') && (Full(u') ==> !u'.rrdy)
  {}

  /** With such interrupts, and no call that enables them on a full ring, nothing is lost. */
  lemma {:induction false} MaskedKeeps(t: Trace)
    requires Run(t) && Masked(t) && NeverEnablesFull(t)
    ensures NeverOverruns(t) && Inv(t.now) && (Full(t.now) ==> !t.now.rrdy)
    decreases t
  {
    if t.Then? {
      MaskedKeeps(t.before);
      StepMasks(t.before.now, t.step);
    }
    NoOverrunKeeps(t);
  }

  // ----- A run in which a reader's last step lets bytes be lost -----

  /** n bytes arrive. */
  ghost function Arrivals(t: Trace, n: nat): (r: Trace)
    requires Indices(t.now)
    ensures Indices(r.now)
    decreases n
  {
    if n == 0 then t
    else
      var t1 := Arrivals(t, n - 1);
      Then(t1, RxIrq(false, 0), Received(t1.now, 0))
  }

  lemma ReceivedUsed(u: Uart, b: Byte)
    requires Indices(u) && !Full(u)
    ensures var u' := Received(u, b);
            && Used(BUF_LEN, u'.start, u'.end) == Used(BUF_LEN, u.start, u.end) + 1
            && (Full(u') <==> Used(BUF_LEN, u'.start, u'.end) == BUF_LEN - 1)
            && u'.rrdy == (u.rrdy && !Full(u'))
  {}

  lemma {:induction false} ArrivalsFill(t: Trace, n: nat)
    requires Run(t) && Masked(t) && Indices(t.now) && t.now.rrdy
    requires Used(BUF_LEN, t.now.start, t.now.end) + n < BUF_LEN && !Full(t.now)
    ensures var r := Arrivals(t, n);
            && Run(r) && Masked(r) && r.now.reader == t.now.reader && r.now.enabling == t.now.enabling
            && Used(BUF_LEN, r.now.start, r.now.end) == Used(BUF_LEN, t.now.start, t.now.end) + n
            && (Full(r.now) <==> Used(BUF_LEN, r.now.start, r.now.end) == BUF_LEN - 1)
            && (!Full(r.now) ==> r.now.rrdy)
    decreases n
  {
    if n > 0 {
      ArrivalsFill(t, n - 1);
      ReceivedUsed(Arrivals(t, n - 1).now, 0);
    }
  }

  function Initial(): Uart { Uart(0, 0, seq(BUF_LEN, _ => 0), true, NoReader, 0, [], []) }

  /** One reader step appended to a run. */
  ghost function Read(t: Trace): Trace
    requires Indices(t.now) && t.now.reader.Reading?
  {
    Then(t, ReaderStep, ReaderNext(t.now))
  }

  lemma ReaderIndices(u: Uart)
    requires Indices(u) && u.reader.Reading?
    ensures Indices(ReaderNext(u))
  {}

  lemma RunOn(t: Trace, step: Step, u: Uart)
    requires Run(t) && Masked(t) && Indices(t.now) && CanTake(t.now, step) && u == After(t.now, step)
    requires step.RxIrq? ==> t.now.rrdy
    ensures Run(Then(t, step, u)) && Masked(Then(t, step, u))
  {}

  lemma ReadOn(t: Trace)
    requires Run(t) && Masked(t) && Indices(t.now) && t.now.reader.Reading?
    ensures Run(Read(t)) && Masked(Read(t)) && Indices(Read(t).now)
  {
    ReaderIndices(t.now);
    RunOn(t, ReaderStep, ReaderNext(t.now));
  }

  /** Three reader steps take the byte at the front. */
  lemma ReadByte(t: Trace, call: Call) returns (t': Trace)
    requires Run(t) && Masked(t) && Indices(t.now) && t.now.reader == Reading(call, RLoop)
    requires |call.got| < call.want && t.now.start != t.now.end
    ensures Run(t') && Masked(t') && Indices(t'.now) && t'.now.start == Next(BUF_LEN, t.now.start)
    ensures t'.now == t.now.(start := t'.now.start, reader := t'.now.reader)
    ensures t'.now.reader == Reading(call.(got := call.got + [t.now.buf[t.now.start]]), RLoop)
  {
    ReadOn(t);
    ReadOn(Read(t));
    ReadOn(Read(Read(t)));
    t' := Read(Read(Read(t)));
  }

  /** Three more end the call. */
  lemma EndCall(t: Trace, call: Call) returns (t': Trace)
    requires Run(t) && Masked(t) && Indices(t.now) && t.now.reader == Reading(call, RLoop)
    requires |call.got| == call.want > 0
    ensures Run(t') && Masked(t') && Indices(t'.now) && t'.now.reader == NoReader
    ensures t'.now.start == t.now.start && t'.now.end == t.now.end && t'.now.rrdy == t.now.rrdy
    ensures t'.now.enabling == t.now.enabling + 1
  {
    ReadOn(t);
    ReadOn(Read(t));
    ReadOn(Read(Read(t)));
    t' := Read(Read(Read(t)));
  }

  /** One byte arrives and a call for one begins. */
  lemma CallBegins() returns (t: Trace, call: Call)
    ensures Run(t) && Masked(t) && Indices(t.now) && t.now.start == 0 && t.now.end == 1 && t.now.rrdy
    ensures t.now.enabling == 0 && call == Call(1, [], false) && t.now.reader == Reading(call, RLoop)
  {
    var t0 := Begin(Initial());
    assert Run(t0) && Masked(t0);
    var t1 := Then(t0, RxIrq(false, 0), Received(t0.now, 0));
    assert Run(t1) && Masked(t1);
    call := Call(1, [], false);
    t := Then(t1, StartRead(1, false), After(t1.now, StartRead(1, false)));
  }

  /** One byte arrives and a call reads it; the call has released the lock and not yet enabled interrupts. */
  lemma ReadOne() returns (t: Trace)
    ensures Run(t) && Masked(t) && Indices(t.now) && t.now.start == t.now.end == 1 && t.now.rrdy && t.now.enabling == 1
  {
    var call;
    t, call := CallBegins();
    var b := t.now.buf[t.now.start];
    t := ReadByte(t, call);
    t := EndCall(t, call.(got := call.got + [b]));
  }

  /**
   Even when interrupts respect the enable bit: a call reads a byte and releases the lock, 63 bytes arrive
   and fill the ring, the call's last step enables interrupts again, and the next byte overruns.
   */
  lemma ReenableOverruns() returns (t: Trace)
    ensures Run(t) && Masked(t) && !NeverOverruns(t) && !AlwaysKept(t)
  {
    var t1 := ReadOne();
    ArrivalsFill(t1, 63);
    var full := Arrivals(t1, 63);
    var enabled := Then(full, Enable, After(full.now, Enable));
    assert Run(enabled) && Masked(enabled) && Full(enabled.now) && enabled.now.rrdy;
    t := Then(enabled, RxIrq(false, 0), Received(enabled.now, 0));
    assert Overruns(enabled.now, t.step);
    NothingLostIff(t);
  }

  lemma {:induction false} ArrivalsEnableNothing(t: Trace, n: nat)
    requires Indices(t.now) && NeverEnablesFull(t)
    ensures NeverEnablesFull(Arrivals(t, n))
    decreases n
  {
    if n > 0 {
      ArrivalsEnableNothing(t, n - 1);
    }
  }

  /**
   And even with no call at all: the interrupt handler looks at the status register only, so a transmit
   interrupt also takes a byte that is ready while RRDY interrupts are off. 63 bytes fill the ring, which
   turns them off, and the next such byte overruns.
   */
  lemma SharedInterruptOverruns() returns (t: Trace)
    ensures Run(t) && NeverEnablesFull(t) && !Masked(t) && !NeverOverruns(t) && !AlwaysKept(t)
  {
    var t0 := Begin(Initial());
    assert Run(t0) && Masked(t0);
    ArrivalsFill(t0, 63);
    ArrivalsEnableNothing(t0, 63);
    var full := Arrivals(t0, 63);
    MaskedKeeps(full);
    t := Then(full, RxIrq(false, 0), Received(full.now, 0));
    assert Overruns(full.now, t.step);
    NothingLostIff(t);
  }

  // ----- The interrupt routine as it runs -----

  class Receiver {
    const rxBuf: array<Byte>
    var rxStart: nat
    var rxEnd: nat
    var rrdy: bool

    ghost predicate Matches(u: Uart)
      reads this, rxBuf
    {
      Indices(u) && rxStart == u.start && rxEnd == u.end && rxBuf[..] == u.buf && rrdy == u.rrdy
    }

    constructor ()
      ensures Matches(Initial()) && fresh(rxBuf)
    {
      rxBuf := new Byte[BUF_LEN](_ => 0);
      rxStart, rxEnd, rrdy := 0, 0, true;
      new;
      assert rxBuf[..] == Initial().buf;
    }

    /** The receive interrupt: data with a parity or framing error is discarded. */
    method ReceiveIrq(parity: bool, framing: bool, data: Byte, ghost u: Uart)
      requires Matches(u)
      modifies this`rxEnd, this`rrdy, rxBuf
      ensures Matches(After(u, RxIrq(parity || framing, data)))
    {
      if parity || framing {
        return;
      }
      var next := (rxEnd + 1) % BUF_LEN;
      rxBuf[rxEnd] := data;
      rxEnd := next;
      next := (rxEnd + 1) % BUF_LEN;
      if next == rxStart {
        rrdy := false;
      }
    }
  }
}
