/**
 The whole JTAG UART driver: transmit and receive halves, the control register, and the host timer,
 under every interleaving of foreground substeps and interrupt passes.
 */
module JtagUart {
  import opened RingBuffers
  import T = JtagTransmit
  import R = JtagReceive

  /** The interrupt-enable bits last stored to the control register. */
  datatype Control = Control(re: bool, we: bool)

  datatype State = State(tx: T.Tx, rx: R.Rx, host: T.Host, control: Control)

  /** A pass of the interrupt routine reads RI, WI and the write space, and the DATA words it needs. */
  datatype Step =
    | StartWrite(data: seq<Byte>, nonblock: bool)
    | WriterStep
    | StartRead(space: nat, nonblock: bool)
    | ReaderStep
    | ReaderEnable
    | IrqPass(ri: bool, wi: bool, wspace: nat, words: seq<R.DataWord>)
    | HostTimer(active: bool)

  const INT_MAX: nat := 0x7fff_ffff

  ghost predicate Init(s: State) {
    && s.tx.inn == s.tx.out == 0 && |s.tx.buf| == T.BUF_LEN && !s.tx.we
    && s.tx.writer == T.NoWriter && !s.tx.unkicked && s.tx.sent == s.tx.reported == []
    && s.rx.inn == s.rx.out == 0 && |s.rx.buf| == T.BUF_LEN && s.rx.re
    && s.rx.reader == R.NoReader && s.rx.reenabling == 0 && s.rx.taken == s.rx.handed == []
    && s.host.inactive == 0 && s.control == Control(true, false)
  }

  ghost predicate Inv(s: State) {
    T.Inv(s.tx) && R.Inv(s.rx) && s.control == Control(s.rx.re, s.tx.we)
  }

  /** Stores the enable bits of the shadow to the control register. */
  function Stored(s: State): State { s.(control := Control(s.rx.re, s.tx.we)) }

  /** No step from here indexes outside a buffer. */
  predicate Defined(s: State) { T.Defined(s.tx) && R.Defined(s.rx) }

  /** The step can be taken. */
  predicate Enabled(s: State, step: Step)
    requires Defined(s)
  {
    match step
    case StartWrite(_, _) => s.tx.writer.NoWriter?
    case WriterStep => s.tx.writer.Writing?
    case StartRead(_, _) => s.rx.reader.NoReader?
    case ReaderStep => s.rx.reader.Reading?
    case ReaderEnable => s.rx.reenabling > 0
    case IrqPass(ri, _, _, words) => if ri then R.ExactWords(s.rx, words) else words == []
    case HostTimer(_) => true
  }

  /** The device only returns words in dev. */
  predicate From(dev: R.DataWord -> bool, step: Step) {
    step.IrqPass? ==> forall w :: w in step.words ==> dev(w)
  }

  /** A timer tick: activity resets the count, otherwise it grows up to a limit. */
  function Tick(host: T.Host, active: bool): T.Host {
    if active then host.(inactive := 0)
    else if host.inactive < INT_MAX - 2 then host.(inactive := host.inactive + 1)
    else host
  }

  function After(s: State, step: Step): State
    requires Defined(s) && Enabled(s, step)
  {
    match step
    case StartWrite(data, nonblock) => s.(tx := T.StartWrite(s.tx, data, nonblock))
    case WriterStep =>
      var tx' := T.WriterStep(s.tx, s.host);
      if s.tx.writer.pc.WKick? then Stored(s.(tx := tx')) else s.(tx := tx')
    case StartRead(space, nonblock) => s.(rx := R.StartRead(s.rx, space, nonblock))
    case ReaderStep => s.(rx := R.ReaderStep(s.rx, s.host))
    case ReaderEnable => Stored(s.(rx := R.Reenable(s.rx)))
    case IrqPass(ri, wi, wspace, words) =>
      var rx' := if ri then R.Fill(s.rx, R.ASSUMED, words) else s.rx;
      var s1 := if rx'.re == s.rx.re then s.(rx := rx') else Stored(s.(rx := rx'));
      var tx' := if wi then T.Drain(s.tx, wspace) else s.tx;
      if tx'.we == s.tx.we then s1.(tx := tx') else Stored(s1.(tx := tx'))
    case HostTimer(active) =>
      var s' := s.(host := Tick(s.host, active));
      if active then Stored(s') else s'
  }

  // ----- Runs -----

  /** A run: its first state, or a run continued by one step. `now` is its last state. */
  datatype Trace = Start(now: State) | Then(before: Trace, step: Step, now: State)

  /**
   A run of the driver over a device that returns only words in dev. Where a step would index outside
   a buffer nothing is said about what follows.
   */
  ghost predicate Run(dev: R.DataWord -> bool, t: Trace)
    decreases t
  {
    match t
    case Start(s) => Init(s)
    case Then(before, step, s) => Run(dev, before) && Leads(dev, before.now, step, s)
  }

  ghost predicate Leads(dev: R.DataWord -> bool, s: State, step: Step, s': State) {
    Defined(s) ==> Enabled(s, step) && From(dev, step) && s' == After(s, step)
  }

  lemma InitHolds(s: State)
    requires Init(s)
    ensures Inv(s) && R.Recoverable(s.rx)
  {}

  lemma IrqKeeps(s: State, step: Step)
    requires Inv(s) && Enabled(s, step) && step.IrqPass?
    ensures Inv(After(s, step))
  {
    R.FillKeeps(s.rx, R.ASSUMED, step.words);
    T.DrainKeeps(s.tx, step.wspace);
  }

  lemma NextKeeps(s: State, step: Step)
    requires Inv(s) && Enabled(s, step)
    ensures Inv(After(s, step))
  {
    match step
    case StartWrite(data, nonblock) => T.StartKeeps(s.tx, data, nonblock);
    case WriterStep => T.WriterKeeps(s.tx, s.host);
    case StartRead(space, nonblock) => R.StartKeeps(s.rx, space, nonblock);
    case ReaderStep => R.ReaderKeeps(s.rx, s.host);
    case ReaderEnable =>
    case IrqPass(_, _, _, _) => IrqKeeps(s, step);
    case HostTimer(_) =>
  }

  lemma LeadsKeeps(dev: R.DataWord -> bool, s: State, step: Step, s': State)
    requires Inv(s) && Leads(dev, s, step, s')
    ensures Inv(s')
  {
    NextKeeps(s, step);
  }

  /** Every state that any run reaches satisfies the invariant. */
  lemma {:induction false} RunHolds(dev: R.DataWord -> bool, t: Trace)
    requires Run(dev, t)
    ensures Inv(t.now)
    decreases t
  {
    match t
    case Start(s) => InitHolds(s);
    case Then(before, step, s) =>
      RunHolds(dev, before);
      LeadsKeeps(dev, before.now, step, s);
  }

  ghost predicate SoundAt(dev: R.DataWord -> bool, t: Trace, u: Trace) { u == t ==> Run(dev, u) && Inv(u.now) }

  /** t is a run and ends in a state with the invariant; said so that proofs unfold it only where they ask. */
  ghost predicate Sound(dev: R.DataWord -> bool, t: Trace) {
    forall u {:trigger SoundAt(dev, t, u)} :: SoundAt(dev, t, u)
  }

  lemma SoundIff(dev: R.DataWord -> bool, t: Trace)
    ensures Sound(dev, t) <==> Run(dev, t) && Inv(t.now)
  {
    if Sound(dev, t) {
      assert SoundAt(dev, t, t);
    }
  }

  // ----- Longer and shorter runs -----

  /** t' is t, continued by any number of steps. */
  ghost predicate Extends(t: Trace, t': Trace)
    decreases t'
  {
    t' == t || (t'.Then? && Extends(t, t'.before))
  }

  lemma {:induction false} ExtendsTransitive(a: Trace, b: Trace, c: Trace)
    requires Extends(a, b) && Extends(b, c)
    ensures Extends(a, c)
    decreases c
  {
    if c != b {
      ExtendsTransitive(a, b, c.before);
    }
  }

  /** The streams of s' continue those of s. */
  ghost predicate Grown(s: State, s': State) {
    && s.tx.sent <= s'.tx.sent && s.tx.reported <= s'.tx.reported
    && s.rx.taken <= s'.rx.taken && s.rx.handed <= s'.rx.handed
  }

  lemma IrqGrows(s: State, step: Step)
    requires Inv(s) && Enabled(s, step) && step.IrqPass?
    ensures Grown(s, After(s, step))
  {
    T.DrainSends(s.tx, step.wspace);
    T.DrainSpares(s.tx, step.wspace);
    if step.ri {
      R.FillTakes(s.rx, R.ASSUMED, step.words);
      R.FillSpares(s.rx, R.ASSUMED, step.words);
    }
  }

  lemma StepGrows(s: State, step: Step)
    requires Inv(s) && Enabled(s, step)
    ensures Grown(s, After(s, step))
  {
    match step
    case WriterStep => T.WriterGrows(s.tx, s.host);
    case ReaderStep => R.ReaderGrows(s.rx, s.host);
    case IrqPass(_, _, _, _) => IrqGrows(s, step);
    case _ =>
  }

  /** No step takes back what was sent, reported, taken or handed over. */
  lemma {:induction false} ExtendsGrows(dev: R.DataWord -> bool, t: Trace, t': Trace)
    requires Run(dev, t') && Extends(t, t')
    ensures Grown(t.now, t'.now)
    decreases t'
  {
    if t' != t {
      ExtendsGrows(dev, t, t'.before);
      RunHolds(dev, t'.before);
      StepGrows(t'.before.now, t'.step);
    }
  }

  /** Some state from the end of t to the end of t' satisfies P. */
  ghost predicate Visits(t: Trace, t': Trace, P: State -> bool)
    decreases t'
  {
    P(t'.now) || (t'.Then? && Extends(t, t'.before) && Visits(t, t'.before, P))
  }

  lemma VisitsOn(t: Trace, t': Trace, step: Step, s: State, P: State -> bool)
    requires Extends(t, t')
    ensures Visits(t, t', P) || P(s) ==> Visits(t, Then(t', step, s), P)
  {}

  lemma {:induction false} VisitsLater(a: Trace, b: Trace, c: Trace, P: State -> bool)
    requires Visits(a, b, P) && Extends(a, b) && Extends(b, c)
    ensures Visits(a, c, P)
    decreases c
  {
    if c != b {
      VisitsLater(a, b, c.before, P);
      ExtendsTransitive(a, b, c.before);
    }
  }

  lemma {:induction false} VisitsEarlier(a: Trace, b: Trace, c: Trace, P: State -> bool)
    requires Visits(b, c, P) && Extends(a, b)
    ensures Visits(a, c, P)
    decreases c
  {
    if !P(c.now) {
      VisitsEarlier(a, b, c.before, P);
      ExtendsTransitive(a, b, c.before);
    }
  }

  // ----- What the driver promises, for every reachable state -----

  /**
   Transmit: what the device received, then the ring, is exactly what the finished calls reported as
   written, each in order, then what the current call has put in the ring.
   */
  lemma TransmitIsFifo(dev: R.DataWord -> bool, t: Trace)
    requires Run(dev, t)
    ensures var tx := t.now.tx;
            && T.Inv(tx)
            && tx.sent + Contents(tx.buf, tx.out, tx.inn) == T.Accepted(tx)
            && tx.reported <= tx.sent + Contents(tx.buf, tx.out, tx.inn)
  {
    RunHolds(dev, t);
  }

  /** Receive: what readers were given, then the ring, is exactly what was taken from the device. */
  lemma ReceiveIsFifo(dev: R.DataWord -> bool, t: Trace)
    requires Run(dev, t)
    ensures var rx := t.now.rx;
            && R.Inv(rx)
            && R.Delivered(rx) + Contents(rx.buf, rx.out, rx.inn) == rx.taken
            && rx.handed <= rx.taken
  {
    RunHolds(dev, t);
  }

  /**
   No stranded data: with bytes in the ring and write interrupts off, a writer has published bytes and
   has its enable step still to come. The control register always holds the shadow's bits.
   */
  lemma NothingStranded(dev: R.DataWord -> bool, t: Trace)
    requires Run(dev, t)
    ensures var s := t.now;
            && s.control == Control(s.rx.re, s.tx.we)
            && (s.tx.out != s.tx.inn && !s.control.we ==>
                  && s.tx.unkicked && s.tx.writer.Writing?
                  && var pc := s.tx.writer.pc; pc.WTop? || pc.WSnapped? || pc.WCopying? || pc.WKick?)
  {
    RunHolds(dev, t);
  }

  /** In every run, however stale the snapshots, a copy only fills free slots. */
  lemma CopiesSpareUnsent(dev: R.DataWord -> bool, t: Trace)
    requires Run(dev, t)
    requires var w := t.now.tx.writer; w.Writing? && w.pc.WCopying? && w.pc.done < w.pc.n
    ensures var tx := t.now.tx;
            !Occupied(T.BUF_LEN, tx.out, tx.inn, tx.writer.pc.inn + tx.writer.pc.done)
  {
    RunHolds(dev, t);
    T.CopySparesUnsent(t.now.tx);
  }

  /**
   A writer waiting in vain for space always finds a full ring, write interrupts on and the host within its
   limit, and one write pass with any space lets it go on.
   */
  lemma BlockedWriterIsServed(dev: R.DataWord -> bool, t: Trace, wspace: nat)
    requires Run(dev, t) && t.now.tx.writer.Writing? && t.now.tx.writer.pc.WSpin? && wspace > 0
    requires T.Defined(t.now.tx) && T.WriterStep(t.now.tx, t.now.host) == t.now.tx
    ensures Inv(t.now) && t.now.control.we && RingFull(t.now) && !HostGone(t.now)
    ensures var s' := After(t.now, IrqPass(false, true, wspace, []));
            && Inv(s') && s'.tx.writer == t.now.tx.writer
            && T.WriterStep(s'.tx, s'.host).writer == T.Writing(t.now.tx.writer.call, T.WWoken)
  {
    RunHolds(dev, t);
    T.SpinningWriterIsServed(t.now.tx, t.now.host, wspace);
    FullIff(t.now.tx);
    NextKeeps(t.now, IrqPass(false, true, wspace, []));
  }

  // ----- Why a call ends early -----

  predicate HostSilent(s: State) { s.host.inactive > 0 }
  predicate HostGone(s: State) { s.host.inactive >= s.host.timeout }
  predicate RingFull(s: State) { (s.tx.inn + 1) % 2048 == s.tx.out }
  predicate RingEmpty(s: State) { s.rx.inn == s.rx.out }

  /** The run up to the start of the latest write call. */
  ghost function WriteStart(t: Trace): Trace
    decreases t
  {
    if t.Then? && !t.step.StartWrite? then WriteStart(t.before) else t
  }

  lemma {:induction false} WriteStartWithin(a: Trace, t: Trace)
    requires Extends(a, t) && a.Then? && a.step.StartWrite?
    ensures Extends(a, WriteStart(t)) && Extends(WriteStart(t), t)
    decreases t
  {
    if t != a && !t.step.StartWrite? {
      WriteStartWithin(a, t.before);
    }
  }

  lemma {:induction false} WriteStartBefore(t: Trace)
    ensures Extends(WriteStart(t), t)
    decreases t
  {
    if t.Then? && !t.step.StartWrite? {
      WriteStartBefore(t.before);
    }
  }

  /** What the run shows about a write call that has stopped copying with bytes left. */
  ghost predicate WriteReasons(t: Trace) {
    var w, start := t.now.tx.writer, WriteStart(t);
    w.Writing? && w.call.ptr < |w.call.data| ==>
      && (w.pc.WSnapped? && w.call.out == (w.pc.inn + 1) % 2048 ==> Visits(start, t, RingFull))
      && (w.pc.WKick? || w.pc.WCheck? || w.pc.WSpin? || w.pc.WWoken? || w.pc.WReturn? ==> Visits(start, t, RingFull))
      && (w.pc.WReturn? && !w.call.nonblock ==> Visits(start, t, HostSilent))
      && ((w.pc.WWoken? || w.pc.WReturn?) && !w.call.nonblock && RingFull(t.now) ==> Visits(start, t, HostGone))
  }

  lemma WriteReasonsKept(t: Trace, step: Step, s': State)
    requires WriteReasons(t) && !step.StartWrite? && s'.tx.writer == t.now.tx.writer
    requires RingFull(s') ==> RingFull(t.now)
    ensures WriteReasons(Then(t, step, s'))
  {
    WriteStartBefore(t);
  }

  lemma WriterStepReasons(t: Trace)
    requires Inv(t.now) && WriteReasons(t) && Enabled(t.now, WriterStep)
    ensures WriteReasons(Then(t, WriterStep, After(t.now, WriterStep)))
  {
    WriteStartBefore(t);
    var pc := t.now.tx.writer.pc;
    if pc.WSpin? {
      SpinReasons(t);
    } else if pc.WWoken? {
      WokenReasons(t);
    } else if pc.WTop? {
      TopReasons(t);
    } else if pc.WSnapped? {
      SnapshotReasons(t);
    } else {
      CopyingReasons(t);
    }
  }

  lemma TopReasons(t: Trace)
    requires Inv(t.now) && WriteReasons(t) && Enabled(t.now, WriterStep) && Extends(WriteStart(t), t)
    requires t.now.tx.writer.pc.WTop?
    ensures WriteReasons(Then(t, WriterStep, After(t.now, WriterStep)))
  {}

  lemma NoSpaceIff(inn: nat, out: nat)
    requires inn < 2048 && out < 2048
    ensures T.Space(inn, out) == 0 <==> out == (inn + 1) % 2048
  {}

  lemma SnapshotReasons(t: Trace)
    requires Inv(t.now) && WriteReasons(t) && Enabled(t.now, WriterStep) && Extends(WriteStart(t), t)
    requires t.now.tx.writer.pc.WSnapped?
    ensures WriteReasons(Then(t, WriterStep, After(t.now, WriterStep)))
  {
    NoSpaceIff(t.now.tx.writer.pc.inn, t.now.tx.writer.call.out);
  }

  /** A snapshot that left no space is out of date unless the ring is full now. */
  lemma SnapshotOfFull(s: State)
    requires Inv(s) && s.tx.writer.Writing? && s.tx.writer.call.ptr < |s.tx.writer.call.data|
    requires T.SawFull(s.tx, s.tx.writer.call)
    ensures s.tx.writer.call.out == s.tx.out <==> RingFull(s)
  {}

  lemma SpinReasons(t: Trace)
    requires Inv(t.now) && WriteReasons(t) && Enabled(t.now, WriterStep) && Extends(WriteStart(t), t)
    requires t.now.tx.writer.pc.WSpin?
    ensures WriteReasons(Then(t, WriterStep, After(t.now, WriterStep)))
  {
    SnapshotOfFull(t.now);
  }

  lemma WokenReasons(t: Trace)
    requires Inv(t.now) && WriteReasons(t) && Enabled(t.now, WriterStep) && Extends(WriteStart(t), t)
    requires t.now.tx.writer.pc.WWoken?
    ensures WriteReasons(Then(t, WriterStep, After(t.now, WriterStep)))
  {
    var start, s' := WriteStart(t), After(t.now, WriterStep);
    VisitsOn(start, t, WriterStep, s', RingFull);
    VisitsOn(start, t, WriterStep, s', HostSilent);
    VisitsOn(start, t, WriterStep, s', HostGone);
  }

  lemma CopyingReasons(t: Trace)
    requires Inv(t.now) && WriteReasons(t) && Enabled(t.now, WriterStep) && Extends(WriteStart(t), t)
    requires var pc := t.now.tx.writer.pc; pc.WCopying? || pc.WKick? || pc.WCheck? || pc.WReturn?
    ensures WriteReasons(Then(t, WriterStep, After(t.now, WriterStep)))
  {}

  lemma FullIff(tx: T.Tx)
    requires T.Indices(tx)
    ensures (tx.inn + 1) % 2048 == tx.out <==> Used(T.BUF_LEN, tx.out, tx.inn) == T.BUF_LEN - 1
  {}

  lemma FullLater(s: State, step: Step)
    requires Inv(s) && Enabled(s, step) && step.IrqPass?
    ensures var s' := After(s, step); s'.tx.writer == s.tx.writer && (RingFull(s') ==> RingFull(s))
  {
    FullBefore(s.tx, step.wspace);
  }

  lemma FullBefore(tx: T.Tx, wspace: nat)
    requires T.Indices(tx)
    ensures var tx' := T.Drain(tx, wspace);
            tx'.writer == tx.writer && ((tx'.inn + 1) % 2048 == tx'.out ==> (tx.inn + 1) % 2048 == tx.out)
  {
    T.DrainUsed(tx, wspace);
    FullIff(tx);
    FullIff(T.Drain(tx, wspace));
  }

  lemma IrqWriteReasons(t: Trace, step: Step)
    requires Inv(t.now) && WriteReasons(t) && Enabled(t.now, step) && step.IrqPass?
    ensures WriteReasons(Then(t, step, After(t.now, step)))
  {
    var s' := After(t.now, step);
    FullLater(t.now, step);
    WriteReasonsKept(t, step, s');
  }

  /**
   In every run: a write call stops copying early only if the ring was full at some time since it began, and
   a blocking one returns early only if the host was inactive at some time since, and with the ring still
   full only if the host had been inactive up to the limit.
   */
  lemma {:induction false} ShortWritesHaveReasons(dev: R.DataWord -> bool, t: Trace)
    requires Run(dev, t)
    ensures WriteReasons(t)
    decreases t
  {
    if t.Then? {
      RunHolds(dev, t.before);
      ShortWritesHaveReasons(dev, t.before);
      match t.step
      case StartWrite(_, _) =>
      case WriterStep => WriterStepReasons(t.before);
      case IrqPass(_, _, _, _) => IrqWriteReasons(t.before, t.step);
      case _ => WriteReasonsKept(t.before, t.step, t.now);
    }
  }

  /** The run up to the start of the latest read call. */
  ghost function ReadStart(t: Trace): Trace
    decreases t
  {
    if t.Then? && !t.step.StartRead? then ReadStart(t.before) else t
  }

  lemma {:induction false} ReadStartWithin(a: Trace, t: Trace)
    requires Extends(a, t) && a.Then? && a.step.StartRead?
    ensures Extends(a, ReadStart(t)) && Extends(ReadStart(t), t)
    decreases t
  {
    if t != a && !t.step.StartRead? {
      ReadStartWithin(a, t.before);
    }
  }

  lemma {:induction false} ReadStartBefore(t: Trace)
    ensures Extends(ReadStart(t), t)
    decreases t
  {
    if t.Then? && !t.step.StartRead? {
      ReadStartBefore(t.before);
    }
  }

  /** What the run shows about a read call that has found no data, or waited for some. */
  ghost predicate ReadReasons(t: Trace) {
    var r, start := t.now.rx.reader, ReadStart(t);
    r.Reading? ==>
      && (r.pc.RSnapped? && r.pc.inn == r.pc.out ==> Visits(start, t, RingEmpty))
      && (r.pc.RSpin? || r.pc.RSpun? || (r.pc.RDone? && r.call.space > 0) ==> Visits(start, t, RingEmpty))
      && (r.pc.RSpun? && RingEmpty(t.now) ==> Visits(start, t, HostGone))
      && (r.pc.RDone? && r.call.space > 0 && r.call.got == [] && !r.call.nonblock ==> Visits(start, t, HostGone))
  }

  lemma ReadReasonsKept(t: Trace, step: Step, s': State)
    requires ReadReasons(t) && !step.StartRead? && s'.rx.reader == t.now.rx.reader
    requires RingEmpty(s') ==> RingEmpty(t.now)
    ensures ReadReasons(Then(t, step, s'))
  {
    ReadStartBefore(t);
  }

  lemma ReaderStepReasons(t: Trace)
    requires Inv(t.now) && ReadReasons(t) && Enabled(t.now, ReaderStep)
    ensures ReadReasons(Then(t, ReaderStep, After(t.now, ReaderStep)))
  {
    ReadStartBefore(t);
  }

  lemma IrqReasons(t: Trace, step: Step)
    requires Inv(t.now) && ReadReasons(t) && Enabled(t.now, step) && step.IrqPass?
    ensures ReadReasons(Then(t, step, After(t.now, step)))
  {
    if step.ri {
      R.FillUsed(t.now.rx, R.ASSUMED, step.words);
    }
    ReadReasonsKept(t, step, After(t.now, step));
  }

  /**
   In every run: a read call returns with room left only if the ring was empty at some time since it began,
   and a blocking one with nothing only if the host had been inactive up to the limit at some time since.
   */
  lemma {:induction false} ShortReadsHaveReasons(dev: R.DataWord -> bool, t: Trace)
    requires Run(dev, t)
    ensures ReadReasons(t)
    decreases t
  {
    if t.Then? {
      RunHolds(dev, t.before);
      ShortReadsHaveReasons(dev, t.before);
      match t.step
      case StartRead(_, _) =>
      case ReaderStep => ReaderStepReasons(t.before);
      case IrqPass(_, _, _, _) => IrqReasons(t.before, t.step);
      case _ => ReadReasonsKept(t.before, t.step, t.now);
    }
  }

  // ----- Who turns receive interrupts on -----

  /** The calls that have handed over bytes. */
  ghost function Served(t: Trace): nat
    decreases t
  {
    if t.Start? then 0 else Served(t.before) + if t.now.rx.handed != t.before.now.rx.handed then 1 else 0
  }

  /** The enable steps of readers. */
  ghost function Enables(t: Trace): nat
    decreases t
  {
    if t.Start? then 0 else Enables(t.before) + if t.step.ReaderEnable? then 1 else 0
  }

  lemma EnableStep(s: State, step: Step)
    requires Inv(s) && Enabled(s, step)
    ensures var s' := After(s, step);
            s'.rx.reenabling + (if step.ReaderEnable? then 1 else 0)
            == s.rx.reenabling + if s'.rx.handed != s.rx.handed then 1 else 0
  {
    match step
    case IrqPass(_, _, _, words) => R.FillSpares(s.rx, R.ASSUMED, words);
    case ReaderStep => R.HandsOver(s.rx, s.host);
    case _ =>
  }

  /** Each call that hands over bytes turns receive interrupts on once, at once or later, and no other call does. */
  lemma {:induction false} EnablesMatchReads(dev: R.DataWord -> bool, t: Trace)
    requires Run(dev, t)
    ensures Enables(t) + t.now.rx.reenabling == Served(t)
    decreases t
  {
    if t.Then? {
      RunHolds(dev, t.before);
      EnablesMatchReads(dev, t.before);
      EnableStep(t.before.now, t.step);
    }
  }

  // ----- The host timer -----

  /** The timer ticks without activity since the last one with activity. */
  ghost function IdleTicks(t: Trace): nat
    decreases t
  {
    if t.Start? || t.step == HostTimer(true) then 0
    else IdleTicks(t.before) + if t.step == HostTimer(false) then 1 else 0
  }

  /** The driver counts them, up to two below the largest int. */
  lemma {:induction false} InactiveCountsIdleTicks(dev: R.DataWord -> bool, t: Trace)
    requires Run(dev, t)
    ensures var n := IdleTicks(t); t.now.host.inactive == if n < 0x7fff_fffd then n else 0x7fff_fffd
    decreases t
  {
    if t.Then? {
      RunHolds(dev, t.before);
      InactiveCountsIdleTicks(dev, t.before);
    }
  }

  // ----- With no writer, interrupts alone empty the ring -----

  /** t' is t, continued by steps that start no write call. */
  ghost predicate NoWriteStarts(t: Trace, t': Trace)
    decreases t'
  {
    t' == t || (t'.Then? && !t'.step.StartWrite? && NoWriteStarts(t, t'.before))
  }

  /** The write space a step reports to a write pass. */
  function Offer(step: Step): nat { if step.IrqPass? && step.wi then step.wspace else 0 }

  /** The write space that the steps after t report to write passes, added up. */
  ghost function Offered(t: Trace, t': Trace): nat
    requires NoWriteStarts(t, t')
    decreases t'
  {
    if t' == t then 0 else Offered(t, t'.before) + Offer(t'.step)
  }

  ghost function Waiting(s: State): nat
    requires T.Indices(s.tx)
  {
    Used(T.BUF_LEN, s.tx.out, s.tx.inn)
  }

  lemma StepDrains(s: State, step: Step)
    requires Inv(s) && Enabled(s, step) && s.tx.writer.NoWriter? && !step.StartWrite?
    ensures var s', n := After(s, step), Offer(step);
            && T.Indices(s'.tx) && s'.tx.writer.NoWriter? && s'.tx.reported == s.tx.reported
            && Waiting(s') == if n < Waiting(s) then Waiting(s) - n else 0
  {
    if step.IrqPass? {
      T.DrainUsed(s.tx, step.wspace);
      T.DrainSpares(s.tx, step.wspace);
    }
  }

  lemma IdleDelivers(s: State)
    requires Inv(s) && s.tx.writer.NoWriter?
    ensures Waiting(s) > 0 ==> s.control.we
    ensures Waiting(s) == 0 <==> s.tx.sent == s.tx.reported
  {
    T.IdleStream(s.tx);
    assert |Contents(s.tx.buf, s.tx.out, s.tx.inn)| == Waiting(s);
  }

  /**
   With no writer, whatever readers, the timer and the device do: write interrupts are on while bytes wait,
   each unit of write space sends one of them, and everything reported is sent exactly when the space
   offered covers what was waiting.
   */
  lemma {:induction false} PassesDrain(dev: R.DataWord -> bool, t: Trace, t': Trace)
    requires Run(dev, t') && NoWriteStarts(t, t') && t.now.tx.writer.NoWriter?
    ensures Inv(t.now) && Inv(t'.now) && t'.now.tx.writer.NoWriter? && t'.now.tx.reported == t.now.tx.reported
    ensures var n := Offered(t, t');
            && Waiting(t'.now) == (if n < Waiting(t.now) then Waiting(t.now) - n else 0)
            && (Waiting(t'.now) > 0 ==> t'.now.control.we)
            && (t'.now.tx.sent == t.now.tx.reported <==> n >= Waiting(t.now))
    decreases t'
  {
    RunHolds(dev, t');
    if t' != t {
      RunHolds(dev, t'.before);
      PassesDrain(dev, t, t'.before);
      StepDrains(t'.before.now, t'.step);
    }
    IdleDelivers(t'.now);
  }

  // ----- Receive interrupts come back exactly on devices that do not mislead -----

  /** No word without data reports bytes available. */
  ghost predicate Honest(dev: R.DataWord -> bool) { forall w :: dev(w) ==> !R.Misleading(w) }

  lemma NextRecoverable(dev: R.DataWord -> bool, s: State, step: Step)
    requires Honest(dev) && Inv(s) && Enabled(s, step) && From(dev, step) && R.Recoverable(s.rx)
    ensures Inv(After(s, step)) && R.Recoverable(After(s, step).rx)
  {
    NextKeeps(s, step);
    match step
    case ReaderStep => R.ReaderRecoverable(s.rx, s.host);
    case IrqPass(ri, _, _, words) =>
      if ri {
        R.FillRecoverable(s.rx, R.ASSUMED, words);
      }
    case _ =>
  }

  lemma LeadsRecoverable(dev: R.DataWord -> bool, s: State, step: Step, s': State)
    requires Honest(dev) && Inv(s) && R.Recoverable(s.rx) && Leads(dev, s, step, s')
    ensures Inv(s') && R.Recoverable(s'.rx)
  {
    NextRecoverable(dev, s, step);
  }

  lemma {:induction false} RunRecoverable(dev: R.DataWord -> bool, t: Trace)
    requires Honest(dev) && Run(dev, t)
    ensures Inv(t.now) && R.Recoverable(t.now.rx)
    decreases t
  {
    match t
    case Start(s) => InitHolds(s);
    case Then(before, step, s) =>
      RunRecoverable(dev, before);
      LeadsRecoverable(dev, before.now, step, s);
  }

  function Initial(timeout: nat): State {
    var empty: seq<Byte> := seq(T.BUF_LEN, _ => 0);
    State(T.Tx(0, 0, empty, false, T.NoWriter, false, [], []), R.Rx(0, 0, empty, true, R.NoReader, 0, [], []),
          T.Host(0, timeout), Control(true, false))
  }

  /** One misleading word, read by the first interrupt, shuts receiving off with an empty ring and no reader. */
  lemma MisledShutsOff(dev: R.DataWord -> bool, w: R.DataWord, timeout: nat)
    requires dev(w) && R.Misleading(w)
    ensures var s := Initial(timeout);
            var step := IrqPass(true, false, 0, [w]);
            && Init(s) && Defined(s) && Enabled(s, step)
            && Run(dev, Then(Start(s), step, After(s, step)))
            && R.Indices(After(s, step).rx) && !R.Recoverable(After(s, step).rx)
            && After(s, step).rx.inn == After(s, step).rx.out
  {
    assert Run(dev, Start(Initial(timeout)));
  }

  ghost predicate AlwaysRecoverable(dev: R.DataWord -> bool) {
    forall t :: Run(dev, t) ==> R.Indices(t.now.rx) && R.Recoverable(t.now.rx)
  }

  /** Receiving is never shut off for good, in any run, if and only if the device never misleads. */
  lemma RecoverableIffHonest(dev: R.DataWord -> bool)
    ensures AlwaysRecoverable(dev) <==> Honest(dev)
  {
    if Honest(dev) {
      forall t | Run(dev, t)
        ensures R.Indices(t.now.rx) && R.Recoverable(t.now.rx)
      {
        RunRecoverable(dev, t);
      }
    } else {
      var w :| dev(w) && R.Misleading(w);
      MisledShutsOff(dev, w, 10);
    }
  }

  /**
   On such a device a reader waiting in vain for data always has an empty ring and the host within its limit,
   with receive interrupts on or some call about to turn them on, and one read pass that takes a byte lets
   it go on.
   */
  lemma BlockedReaderIsServed(dev: R.DataWord -> bool, t: Trace, words: seq<R.DataWord>)
    requires Honest(dev) && Run(dev, t) && t.now.rx.reader.Reading? && t.now.rx.reader.pc.RSpin?
    requires R.Defined(t.now.rx) && R.ReaderStep(t.now.rx, t.now.host) == t.now.rx
    requires R.ExactWords(t.now.rx, words) && R.ValidBytes(words) != []
    ensures Inv(t.now) && RingEmpty(t.now) && !HostGone(t.now) && (t.now.control.re || t.now.rx.reenabling > 0)
    ensures var s' := After(t.now, IrqPass(true, false, 0, words));
            && Inv(s') && s'.rx.reader == t.now.rx.reader
            && R.ReaderStep(s'.rx, s'.host).reader
               == R.Reading(t.now.rx.reader.call, R.RSpun(t.now.rx.reader.pc.inn))
  {
    RunRecoverable(dev, t);
    R.SpinningReaderIsServed(t.now.rx, t.now.host, words);
    NextKeeps(t.now, IrqPass(true, false, 0, words));
  }
}
