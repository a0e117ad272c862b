/**
 The driver routines as they run: fields and buffers updated in place, with a place for interrupts
 between every two accesses to shared state. Each routine extends a run of the step system, so
 everything proved of runs holds of it.
 */
module JtagDriver {
  import opened RingBuffers
  import T = JtagTransmit
  import R = JtagReceive
  import opened JtagUart

  predicate AnyWord(w: R.DataWord) { true }

  // ----- The receive loop, one word at a time -----

  /** Receives every word of ws. */
  function ReceiveAll(rx: R.Rx, ws: seq<R.DataWord>): (rx': R.Rx)
    requires R.Indices(rx)
    ensures R.Indices(rx')
    decreases |ws|
  {
    if ws == [] then rx else ReceiveAll(R.Receive(rx, ws[0].byte), ws[1..])
  }

  /** Each word of ws is valid and finds room. */
  predicate Receivable(rx: R.Rx, ws: seq<R.DataWord>)
    requires R.Indices(rx)
    decreases |ws|
  {
    ws == [] || (!R.Full(rx) && ws[0].valid && Receivable(R.Receive(rx, ws[0].byte), ws[1..]))
  }

  lemma {:induction false} ReceiveOneMore(rx: R.Rx, ws: seq<R.DataWord>, w: R.DataWord)
    requires R.Indices(rx) && Receivable(rx, ws) && !R.Full(ReceiveAll(rx, ws)) && w.valid
    ensures Receivable(rx, ws + [w])
    ensures ReceiveAll(rx, ws + [w]) == R.Receive(ReceiveAll(rx, ws), w.byte)
    decreases |ws|
  {
    if ws == [] {
      assert (ws + [w])[1..] == [];
    } else {
      ReceiveOneMore(R.Receive(rx, ws[0].byte), ws[1..], w);
      assert (ws + [w])[1..] == ws[1..] + [w];
    }
  }

  /** After the words ws the pass continues from the state they lead to. */
  lemma {:induction false} FillFrom(rx: R.Rx, last: R.DataWord, ws: seq<R.DataWord>, tail: seq<R.DataWord>)
    requires R.Indices(rx) && Receivable(rx, ws)
    ensures var rx', last' := ReceiveAll(rx, ws), if ws == [] then last else ws[|ws| - 1];
            && R.Fill(rx, last, ws + tail) == R.Fill(rx', last', tail)
            && (R.ExactWords(rx, ws + tail) <==> R.ExactWords(rx', tail))
    decreases |ws|
  {
    if ws == [] {
      assert ws + tail == tail;
    } else {
      FillFrom(R.Receive(rx, ws[0].byte), ws[0], ws[1..], tail);
      assert (ws + tail)[1..] == ws[1..] + tail;
    }
  }

  // ----- What interrupts leave alone -----

  /** The foreground's own part of the state. */
  ghost predicate ForegroundSame(s: State, s': State) {
    && s'.tx.writer == s.tx.writer && s'.tx.inn == s.tx.inn && s'.tx.buf == s.tx.buf
    && s'.tx.unkicked == s.tx.unkicked && s'.tx.reported == s.tx.reported
    && s'.rx.reader == s.rx.reader && s'.rx.out == s.rx.out
    && s'.rx.reenabling == s.rx.reenabling && s'.rx.handed == s.rx.handed
  }

  /** A read-interrupt pass in terms of the receive half alone. */
  lemma AfterReceive(t: Trace, words: seq<R.DataWord>)
    requires Sound(AnyWord, t) && Defined(t.now) && R.ExactWords(t.now.rx, words)
    ensures var s, step, rx' := t.now, IrqPass(true, false, 0, words), R.Fill(t.now.rx, R.ASSUMED, words);
            && Enabled(s, step) && After(s, step) == s.(rx := rx', control := Control(rx'.re, s.tx.we))
            && ForegroundSame(s, After(s, step))
  {
    SoundIff(AnyWord, t);
    R.FillSpares(t.now.rx, R.ASSUMED, words);
  }

  /** A write-interrupt pass in terms of the transmit half alone. */
  lemma AfterTransmit(t: Trace, wspace: nat)
    requires Sound(AnyWord, t) && Defined(t.now)
    ensures var s, step, tx' := t.now, IrqPass(false, true, wspace, []), T.Drain(t.now.tx, wspace);
            && Enabled(s, step) && After(s, step) == s.(tx := tx', control := Control(s.rx.re, tx'.we))
            && ForegroundSame(s, After(s, step))
  {
    SoundIff(AnyWord, t);
    T.DrainSpares(t.now.tx, wspace);
  }

  lemma AfterTimer(t: Trace, active: bool)
    requires Sound(AnyWord, t) && Defined(t.now)
    ensures var s, step := t.now, HostTimer(active);
            && Enabled(s, step) && After(s, step) == s.(host := Tick(s.host, active))
            && ForegroundSame(s, After(s, step))
  {
    SoundIff(AnyWord, t);
  }

  lemma AfterStep(t: Trace, step: Step)
    requires Sound(AnyWord, t) && Defined(t.now) && Enabled(t.now, step)
    ensures Sound(AnyWord, Then(t, step, After(t.now, step))) && Defined(After(t.now, step))
  {
    var t' := Then(t, step, After(t.now, step));
    SoundIff(AnyWord, t);
    NextKeeps(t.now, step);
    SoundIff(AnyWord, t');
  }

  lemma StartSound(s: State)
    requires Init(s)
    ensures Sound(AnyWord, Start(s)) && Defined(s)
  {
    InitHolds(s);
    SoundIff(AnyWord, Start(s));
  }

  lemma SoundGrows(t: Trace, t': Trace)
    requires Sound(AnyWord, t') && Extends(t, t')
    ensures t.now.tx.sent <= t'.now.tx.sent
  {
    SoundIff(AnyWord, t');
    ExtendsGrows(AnyWord, t, t');
  }

  /** Why a write call that began at t0 is about to return with bytes left. */
  lemma WriteVisits(t0: Trace, a: Trace, t: Trace)
    requires Sound(AnyWord, t) && Extends(a, t) && a.Then? && a.step.StartWrite? && a.before == t0
    requires var w := t.now.tx.writer; w.Writing? && w.pc.WReturn? && w.call.ptr < |w.call.data|
    ensures Visits(t0, t, RingFull) && (!t.now.tx.writer.call.nonblock ==> Visits(t0, t, HostSilent))
  {
    SoundIff(AnyWord, t);
    ShortWritesHaveReasons(AnyWord, t);
    WriteStartWithin(a, t);
    ExtendsTransitive(t0, a, WriteStart(t));
    VisitsEarlier(t0, WriteStart(t), t, RingFull);
    if !t.now.tx.writer.call.nonblock {
      VisitsEarlier(t0, WriteStart(t), t, HostSilent);
    }
  }

  /** Why a read call that began at t0 is about to return with room left, or with nothing. */
  lemma ReadVisits(t0: Trace, a: Trace, t: Trace)
    requires Sound(AnyWord, t) && Extends(a, t) && a.Then? && a.step.StartRead? && a.before == t0
    requires var r := t.now.rx.reader; r.Reading? && r.pc.RDone? && r.call.space > 0
    ensures Visits(t0, t, RingEmpty)
    ensures var call := t.now.rx.reader.call; call.got == [] && !call.nonblock ==> Visits(t0, t, HostGone)
  {
    SoundIff(AnyWord, t);
    ShortReadsHaveReasons(AnyWord, t);
    ReadStartWithin(a, t);
    ExtendsTransitive(t0, a, ReadStart(t));
    VisitsEarlier(t0, ReadStart(t), t, RingEmpty);
    var call := t.now.rx.reader.call;
    if call.got == [] && !call.nonblock {
      VisitsEarlier(t0, ReadStart(t), t, HostGone);
    }
  }

  /** With no writer the reported stream is what was sent, then what is in the ring. */
  lemma SoundIdle(t: Trace)
    requires Sound(AnyWord, t) && t.now.tx.writer.NoWriter?
    ensures var tx := t.now.tx;
            (tx.out == tx.inn ==> tx.sent == tx.reported) && (tx.out != tx.inn ==> tx.sent < tx.reported)
  {
    SoundIff(AnyWord, t);
    T.IdleStream(t.now.tx);
  }

  /** The result of watching a call for a while: it returned, or it is still waiting for the device. */
  datatype Outcome = Returned(rc: T.Rc) | StillWaiting

  datatype Verdict = Again | Finished | Blocked

  /** A writer's steps leave the reader's side alone, and the other way round. */
  ghost predicate ReadSideSame(s: State, s': State) {
    && s'.rx.reader == s.rx.reader && s'.rx.out == s.rx.out
    && s'.rx.reenabling == s.rx.reenabling && s'.rx.handed == s.rx.handed
  }

  ghost predicate WriteSideSame(s: State, s': State) {
    && s'.tx.writer == s.tx.writer && s'.tx.inn == s.tx.inn && s'.tx.buf == s.tx.buf
    && s'.tx.unkicked == s.tx.unkicked && s'.tx.reported == s.tx.reported
  }

  // ----- The driver -----

  class Driver {
    const txBuf: array<Byte>
    const rxBuf: array<Byte>
    const timeout: nat
    var txIn: nat
    var txOut: nat
    var rxIn: nat
    var rxOut: nat
    var enableRe: bool
    var enableWe: bool
    var hostInactive: nat
    /** The device side: enable bits last stored to the control register, bytes stored to DATA. */
    var control: Control
    var dataOut: seq<Byte>
    /** The run so far. */
    ghost var trace: Trace

    ghost function Now(): State
      reads this
    {
      trace.now
    }

    ghost predicate TransmitMatches(tx: T.Tx)
      reads this, txBuf
    {
      txIn == tx.inn && txOut == tx.out && txBuf[..] == tx.buf && enableWe == tx.we && dataOut == tx.sent
    }

    ghost predicate ReceiveMatches(rx: R.Rx)
      reads this, rxBuf
    {
      rxIn == rx.inn && rxOut == rx.out && rxBuf[..] == rx.buf && enableRe == rx.re
    }

    ghost predicate Recorded()
      reads this
    {
      Sound(AnyWord, trace) && Defined(trace.now)
    }

    ghost predicate Valid()
      reads this, txBuf, rxBuf
    {
      && txBuf != rxBuf && Recorded()
      && TransmitMatches(Now().tx) && ReceiveMatches(Now().rx)
      && Now().host == T.Host(hostInactive, timeout) && Now().control == control
    }

    constructor (limit: nat)
      ensures Valid() && fresh(txBuf) && fresh(rxBuf) && timeout == limit && Now() == Initial(limit)
    {
      txBuf := new Byte[T.BUF_LEN](_ => 0);
      rxBuf := new Byte[T.BUF_LEN](_ => 0);
      timeout := limit;
      txIn, txOut, rxIn, rxOut := 0, 0, 0, 0;
      enableRe, enableWe := true, false;
      control := Control(true, false);
      hostInactive, dataOut := 0, [];
      trace := Start(Initial(limit));
      new;
      StartSound(Initial(limit));
      assert txBuf[..] == Initial(limit).tx.buf && rxBuf[..] == Initial(limit).rx.buf;
    }

    /** Records one step of the run. */
    ghost method Take(step: Step)
      requires Recorded() && Enabled(Now(), step)
      modifies this`trace
      ensures Recorded() && trace == Then(old(trace), step, After(old(Now()), step))
    {
      AfterStep(trace, step);
      trace := Then(trace, step, After(Now(), step));
    }

    /** The receive loop: take bytes from the device until it has none or the ring is full. */
    method ReceiveLoop(ghost rx0: R.Rx) returns (data: R.DataWord, ghost rx: R.Rx, ghost words: seq<R.DataWord>)
      requires R.Indices(rx0) && ReceiveMatches(rx0)
      modifies this`rxIn, rxBuf
      ensures ReceiveMatches(rx) && R.ExactWords(rx0, words)
      ensures R.Finish(rx, data) == R.Fill(rx0, R.ASSUMED, words)
    {
      words, rx, data := [], rx0, R.ASSUMED;
      while true
        invariant R.Indices(rx) && Receivable(rx0, words) && rx == ReceiveAll(rx0, words)
        invariant ReceiveMatches(rx)
        invariant data == if words == [] then R.ASSUMED else words[|words| - 1]
        decreases Free(T.BUF_LEN, rxOut, rxIn)
      {
        var next := (rxIn + 1) % T.BUF_LEN;
        T.NextIsMod(rxIn);
        if next == rxOut {
          FillFrom(rx0, R.ASSUMED, words, []);
          assert words + [] == words;
          return;
        }
        data := *;
        if !data.valid {
          FillFrom(rx0, R.ASSUMED, words, [data]);
          words := words + [data];
          return;
        }
        ReceiveOneMore(rx0, words, data);
        rxBuf[rxIn] := data.byte;
        rxIn := (rxIn + 1) % T.BUF_LEN;
        rx := R.Receive(rx, data.byte);
        words := words + [data];
      }
    }

    /** The read half of the interrupt routine. */
    method ReceivePass() returns (ghost words: seq<R.DataWord>)
      requires Valid()
      modifies this`rxIn, this`enableRe, this`control, this`trace, rxBuf
      ensures Valid() && R.ExactWords(old(Now()).rx, words)
      ensures Now() == After(old(Now()), IrqPass(true, false, 0, words))
      ensures trace == Then(old(trace), IrqPass(true, false, 0, words), Now())
      ensures ForegroundSame(old(Now()), Now())
    {
      var data;
      ghost var rx;
      data, rx, words := ReceiveLoop(Now().rx);
      if data.avail != 0 {
        enableRe := false;
        control := Control(enableRe, enableWe);
      }
      AfterReceive(trace, words);
      Take(IrqPass(true, false, 0, words));
    }

    /** The transmit loop: store bytes to the device while it has space. */
    method TransmitLoop(space0: nat, ghost tx0: T.Tx) returns (space: nat, ghost tx: T.Tx)
      requires T.Indices(tx0) && TransmitMatches(tx0)
      modifies this`txOut, this`dataOut
      ensures T.Indices(tx) && TransmitMatches(tx) && tx.we == tx0.we
      ensures T.Drain(tx0, space0) == T.Drain(tx, space) && (space == 0 || tx.out == tx.inn)
    {
      space, tx := space0, tx0;
      while space > 0 && txOut != txIn
        invariant T.Indices(tx) && TransmitMatches(tx) && T.Drain(tx, space) == T.Drain(tx0, space0)
        decreases space
      {
        dataOut := dataOut + [txBuf[txOut]];
        T.NextIsMod(txOut);
        txOut := (txOut + 1) % T.BUF_LEN;
        tx := T.Send(tx);
        space := space - 1;
      }
    }

    /** The write half of the interrupt routine: fill the device, and disable once the ring is empty. */
    method TransmitPass() returns (ghost wspace: nat)
      requires Valid()
      modifies this`txOut, this`enableWe, this`control, this`dataOut, this`trace
      ensures Valid()
      ensures Now() == After(old(Now()), IrqPass(false, true, wspace, []))
      ensures trace == Then(old(trace), IrqPass(false, true, wspace, []), Now())
      ensures ForegroundSame(old(Now()), Now())
    {
      var space0: nat := *;
      wspace := space0;
      ghost var tx;
      var space;
      space, tx := TransmitLoop(space0, Now().tx);
      if space > 0 {
        enableWe := false;
        control := Control(enableRe, enableWe);
      }
      AfterTransmit(trace, wspace);
      Take(IrqPass(false, true, wspace, []));
    }

    /** The one-second host check. */
    method HostCheck() returns (ghost active: bool)
      requires Valid()
      modifies this`control, this`hostInactive, this`trace
      ensures Valid()
      ensures Now() == After(old(Now()), HostTimer(active))
      ensures trace == Then(old(trace), HostTimer(active), Now())
      ensures ForegroundSame(old(Now()), Now())
    {
      var activity: bool := *;
      active := activity;
      if activity {
        control := Control(enableRe, enableWe);
        hostInactive := 0;
      } else if hostInactive < INT_MAX - 2 {
        hostInactive := hostInactive + 1;
      }
      AfterTimer(trace, active);
      Take(HostTimer(active));
    }

    /** One interrupt, of any kind. */
    method Interrupt()
      requires Valid()
      modifies this`txOut, this`rxIn, this`enableRe, this`enableWe, this`control, this`hostInactive, this`dataOut,
               this`trace, rxBuf
      ensures Valid() && ForegroundSame(old(Now()), Now())
      ensures Extends(old(trace), trace)
    {
      var kind: int := *;
      if kind == 0 {
        ghost var words := ReceivePass();
      } else if kind == 1 {
        ghost var wspace := TransmitPass();
      } else {
        ghost var active := HostCheck();
      }
    }

    /** Any number of interrupts, in any order. */
    method Interrupts()
      requires Valid()
      modifies this`txOut, this`rxIn, this`enableRe, this`enableWe, this`control, this`hostInactive, this`dataOut,
               this`trace, rxBuf
      ensures Valid() && ForegroundSame(old(Now()), Now())
      ensures Extends(old(trace), trace)
    {
      var pending: nat := *;
      while pending > 0
        invariant Valid() && ForegroundSame(old(Now()), Now()) && Extends(old(trace), trace)
      {
        ghost var before := trace;
        Interrupt();
        ExtendsTransitive(old(trace), before, trace);
        pending := pending - 1;
      }
    }

    // ----- Writing -----

    ghost predicate WriterIs(call: T.WriteCall, pc: T.WriterPc)
      reads this
    {
      Now().tx.writer == T.Writing(call, pc)
    }

    /** Copies a chunk into the ring byte by byte and then publishes it. */
    method CopyChunk(data: seq<Byte>, ptr: nat, inn: nat, n: nat, ghost call: T.WriteCall)
      requires Valid() && WriterIs(call, T.WCopying(inn, n, 0)) && call.data == data && call.ptr == ptr
      modifies this, txBuf, rxBuf
      ensures Valid() && WriterIs(call.(ptr := ptr + n), T.WTop) && ptr + n <= |data|
      ensures ReadSideSame(old(Now()), Now()) && Now().tx.reported == old(Now()).tx.reported
      ensures Extends(old(trace), trace)
    {
      for done := 0 to n
        invariant Valid() && WriterIs(call, T.WCopying(inn, n, done)) && Extends(old(trace), trace)
        invariant ReadSideSame(old(Now()), Now()) && Now().tx.reported == old(Now()).tx.reported
      {
        CopyByte(data, ptr, inn, n, done, call);
        ghost var before := trace;
        Interrupts();
        ExtendsTransitive(old(trace), before, trace);
      }
      T.AdvanceIsMod(inn, n);
      txIn := (inn + n) % T.BUF_LEN;
      Take(WriterStep);
    }

    method CopyByte(data: seq<Byte>, ptr: nat, inn: nat, n: nat, done: nat, ghost call: T.WriteCall)
      requires Valid() && WriterIs(call, T.WCopying(inn, n, done)) && done < n
      requires call.data == data && call.ptr == ptr
      modifies this`trace, txBuf
      ensures Valid() && WriterIs(call, T.WCopying(inn, n, done + 1))
      ensures ReadSideSame(old(Now()), Now()) && Now().tx.reported == old(Now()).tx.reported
      ensures trace == Then(old(trace), WriterStep, Now())
    {
      txBuf[inn + done] := data[ptr + done];
      Take(WriterStep);
    }

    /** Reads the indices and works out the contiguous space, which later interrupts can only enlarge. */
    method Snapshot(data: seq<Byte>, ptr: nat, ghost call: T.WriteCall) returns (inn: nat, out: nat, n: nat)
      requires Valid() && WriterIs(call, T.WTop) && call.data == data && call.ptr == ptr < |data|
      modifies this, rxBuf
      ensures Valid() && n <= |data| - ptr
      ensures WriterIs(call.(out := out), if n == 0 then T.WKick else T.WCopying(inn, n, 0))
      ensures ReadSideSame(old(Now()), Now()) && Now().tx.reported == old(Now()).tx.reported
      ensures Extends(old(trace), trace)
    {
      inn := txIn;
      out := txOut;
      Take(WriterStep);
      ghost var before := trace;
      Interrupts();
      ExtendsTransitive(old(trace), before, trace);
      n := T.Space(inn, out);
      n := if n > |data| - ptr then |data| - ptr else n;
      Take(WriterStep);
    }

    /** Copies one chunk, unless the ring is seen full. */
    method WriteChunk(data: seq<Byte>, ptr0: nat, nonblock: bool, ghost out0: nat)
        returns (ptr: nat, out: nat, more: bool)
      requires Valid() && WriterIs(T.WriteCall(data, ptr0, out0, nonblock), T.WTop) && ptr0 < |data|
      modifies this, txBuf, rxBuf
      ensures Valid() && ptr0 <= ptr <= |data| && (more ==> ptr0 < ptr)
      ensures WriterIs(T.WriteCall(data, ptr, out, nonblock), if more then T.WTop else T.WKick)
      ensures ReadSideSame(old(Now()), Now()) && Now().tx.reported == old(Now()).tx.reported
      ensures Extends(old(trace), trace)
    {
      ghost var call := T.WriteCall(data, ptr0, out0, nonblock);
      var inn, n;
      inn, out, n := Snapshot(data, ptr0, call);
      ptr, more := ptr0 + n, n > 0;
      if more {
        ghost var seen := trace;
        CopyChunk(data, ptr0, inn, n, call.(out := out));
        ExtendsTransitive(old(trace), seen, trace);
        ghost var copied := trace;
        Interrupts();
        ExtendsTransitive(old(trace), copied, trace);
      }
    }

    /** Copies as much as fits and stops before enabling interrupts. */
    method FillRing(data: seq<Byte>, ptr0: nat, out0: nat, nonblock: bool) returns (ptr: nat, out: nat)
      requires Valid() && WriterIs(T.WriteCall(data, ptr0, out0, nonblock), T.WTop) && ptr0 <= |data|
      modifies this, txBuf, rxBuf
      ensures Valid() && WriterIs(T.WriteCall(data, ptr, out, nonblock), T.WKick) && ptr0 <= ptr <= |data|
      ensures ReadSideSame(old(Now()), Now()) && Now().tx.reported == old(Now()).tx.reported
      ensures Extends(old(trace), trace)
    {
      ptr, out := ptr0, out0;
      while ptr < |data|
        invariant Valid() && WriterIs(T.WriteCall(data, ptr, out, nonblock), T.WTop) && ptr0 <= ptr <= |data|
        invariant Extends(old(trace), trace)
        invariant ReadSideSame(old(Now()), Now()) && Now().tx.reported == old(Now()).tx.reported
        decreases |data| - ptr
      {
        ghost var before := trace;
        var more;
        ptr, out, more := WriteChunk(data, ptr, nonblock, out);
        ExtendsTransitive(old(trace), before, trace);
        if !more {
          return;
        }
      }
      Take(WriterStep);
    }

    /** Waits, for at most `patience` polls, until bytes have left the ring or the host is gone. */
    method AwaitSpace(out: nat, patience: nat, ghost call: T.WriteCall) returns (left: nat, woken: bool)
      requires Valid() && WriterIs(call, T.WSpin) && call.out == out
      modifies this, rxBuf
      ensures Valid() && left <= patience && WriterIs(call, if woken then T.WWoken else T.WSpin)
      ensures woken ==> left < patience
      ensures ReadSideSame(old(Now()), Now()) && Now().tx.reported == old(Now()).tx.reported
      ensures Extends(old(trace), trace)
    {
      left, woken := patience, false;
      while left > 0 && !woken
        invariant Valid() && left <= patience && WriterIs(call, if woken then T.WWoken else T.WSpin)
        invariant Extends(old(trace), trace)
        invariant woken ==> left < patience
        invariant ReadSideSame(old(Now()), Now()) && Now().tx.reported == old(Now()).tx.reported
        decreases left
      {
        woken := !(out == txOut && hostInactive < timeout);
        Take(WriterStep);
        ghost var before := trace;
        Interrupts();
        ExtendsTransitive(old(trace), before, trace);
        left := left - 1;
      }
    }

    /** Turns write interrupts on, and decides whether the call has to wait. */
    method EnableWrite(ghost call: T.WriteCall)
      requires Valid() && WriterIs(call, T.WKick)
      modifies this, rxBuf
      ensures Valid()
      ensures WriterIs(call, if call.ptr < |call.data| && !call.nonblock then T.WSpin else T.WReturn)
      ensures ReadSideSame(old(Now()), Now()) && Now().tx.reported == old(Now()).tx.reported
      ensures Extends(old(trace), trace)
    {
      enableWe := true;
      control := Control(enableRe, enableWe);
      Take(WriterStep);
      ghost var before := trace;
      Interrupts();
      ExtendsTransitive(old(trace), before, trace);
      Take(WriterStep);
    }

    /** What the write loop does next. */
    ghost predicate WriterGoesOn(call: T.WriteCall, verdict: Verdict)
      reads this
    {
      match verdict
      case Again => WriterIs(call, T.WTop)
      case Finished => WriterIs(call, T.WReturn)
      case Blocked => WriterIs(call, T.WSpin)
    }

    /** Waits for space, and gives up if the host has been inactive. */
    method WaitForHost(out: nat, patience: nat, ghost call: T.WriteCall) returns (left: nat, verdict: Verdict)
      requires Valid() && WriterIs(call, T.WSpin) && call.out == out
      modifies this, rxBuf
      ensures Valid() && WriterGoesOn(call, verdict) && left <= patience && (verdict.Again? ==> left < patience)
      ensures ReadSideSame(old(Now()), Now()) && Now().tx.reported == old(Now()).tx.reported
      ensures Extends(old(trace), trace)
    {
      var woken;
      left, woken := AwaitSpace(out, patience, call);
      if woken {
        verdict := if hostInactive == 0 then Again else Finished;
        Take(WriterStep);
      } else {
        verdict := Blocked;
      }
    }

    /** One round of the write loop: fill the ring, enable interrupts, and wait if bytes are left. */
    method WriteRound(data: seq<Byte>, ptr0: nat, out0: nat, nonblock: bool, patience: nat)
        returns (ptr: nat, out: nat, left: nat, verdict: Verdict)
      requires Valid() && WriterIs(T.WriteCall(data, ptr0, out0, nonblock), T.WTop) && ptr0 <= |data|
      modifies this, txBuf, rxBuf
      ensures Valid() && ptr <= |data| && (verdict.Again? ==> left < patience) && (verdict.Blocked? ==> !nonblock)
      ensures WriterGoesOn(T.WriteCall(data, ptr, out, nonblock), verdict)
      ensures ReadSideSame(old(Now()), Now()) && Now().tx.reported == old(Now()).tx.reported
      ensures Extends(old(trace), trace)
    {
      ptr, out := FillRing(data, ptr0, out0, nonblock);
      ghost var filled := trace;
      Interrupts();
      ExtendsTransitive(old(trace), filled, trace);
      ghost var call := T.WriteCall(data, ptr, out, nonblock);
      ghost var kicking := trace;
      EnableWrite(call);
      ExtendsTransitive(old(trace), kicking, trace);
      ghost var kicked := trace;
      Interrupts();
      ExtendsTransitive(old(trace), kicked, trace);
      if ptr < |data| && !nonblock {
        ghost var waiting := trace;
        left, verdict := WaitForHost(out, patience, call);
        ExtendsTransitive(old(trace), waiting, trace);
      } else {
        left, verdict := patience, Finished;
      }
    }

    /** The result of a finished call, and the last step of its run. */
    method FinishWrite(data: seq<Byte>, ptr: nat, nonblock: bool, ghost call: T.WriteCall) returns (rc: T.Rc)
      requires Valid() && WriterIs(call, T.WReturn)
      requires call.data == data && call.ptr == ptr <= |data| && call.nonblock == nonblock
      modifies this`trace
      ensures Valid() && ReadSideSame(old(Now()), Now()) && Now().tx.writer.NoWriter?
      ensures Now().tx.reported == old(Now()).tx.reported + T.Claimed(data, rc)
      ensures rc == if ptr > 0 then T.Count(ptr) else if nonblock then T.WouldBlock else T.IoError
      ensures trace == Then(old(trace), WriterStep, Now())
    {
      rc := if ptr != 0 then T.Count(ptr) else if nonblock then T.WouldBlock else T.IoError;
      Take(WriterStep);
    }

    /**
     The write call. When it returns, its result names the number of leading bytes of data that have
     been accepted, and those bytes are what the call adds to the reported stream. Not all of them are only
     if the ring was full at some time during the call, and, if the call may block, the host was inactive.
     */
    method Write(data: seq<Byte>, nonblock: bool, patience: nat) returns (outcome: Outcome)
      requires Valid() && Now().tx.writer.NoWriter?
      modifies this, txBuf, rxBuf
      ensures Valid() && ReadSideSame(old(Now()), Now())
      ensures outcome.Returned? ==>
                && Now().tx.writer.NoWriter?
                && Now().tx.reported == old(Now()).tx.reported + T.Claimed(data, outcome.rc)
                && (outcome.rc.Count? ==> 0 < outcome.rc.n <= |data|)
                && (!outcome.rc.Count? ==> outcome.rc == if nonblock then T.WouldBlock else T.IoError)
      ensures outcome.Returned? && data != [] && !Visits(old(trace), trace, RingFull) ==>
                outcome.rc == T.Count(|data|)
      ensures outcome.Returned? && data != [] && !nonblock && !Visits(old(trace), trace, HostSilent) ==>
                outcome.rc == T.Count(|data|)
      ensures outcome.StillWaiting? ==>
                !nonblock && Now().tx.writer.Writing? && Now().tx.writer.call.data == data && Now().tx.writer.pc.WSpin?
      ensures Extends(old(trace), trace) && old(dataOut) <= dataOut
    {
      Take(StartWrite(data, nonblock));
      ghost var begun := trace;
      var ptr: nat, out: nat, verdict;
      ptr, out, verdict := WriteLoop(data, nonblock, patience);
      ExtendsTransitive(old(trace), begun, trace);
      if verdict.Blocked? {
        SoundGrows(old(trace), trace);
        return StillWaiting;
      }
      ghost var ending := trace;
      var rc := FinishWrite(data, ptr, nonblock, T.WriteCall(data, ptr, out, nonblock));
      if ptr < |data| {
        WriteVisits(old(trace), begun, ending);
      }
      SoundGrows(old(trace), trace);
      outcome := Returned(rc);
    }

    /** Rounds until the call is done, or the observation ends. */
    method WriteLoop(data: seq<Byte>, nonblock: bool, patience: nat) returns (ptr: nat, out: nat, verdict: Verdict)
      requires Valid() && WriterIs(T.WriteCall(data, 0, 0, nonblock), T.WTop)
      modifies this, txBuf, rxBuf
      ensures Valid() && ReadSideSame(old(Now()), Now()) && ptr <= |data| && !verdict.Again?
      ensures WriterGoesOn(T.WriteCall(data, ptr, out, nonblock), verdict) && (verdict.Blocked? ==> !nonblock)
      ensures Now().tx.reported == old(Now()).tx.reported && Extends(old(trace), trace)
    {
      var left: nat;
      ptr, out, left, verdict := 0, 0, patience, Again;
      while verdict.Again?
        invariant Valid() && ReadSideSame(old(Now()), Now()) && ptr <= |data| && (verdict.Blocked? ==> !nonblock)
        invariant WriterGoesOn(T.WriteCall(data, ptr, out, nonblock), verdict)
        invariant Now().tx.reported == old(Now()).tx.reported && Extends(old(trace), trace)
        decreases verdict.Again?, left
      {
        ghost var before := trace;
        ptr, out, left, verdict := WriteRound(data, ptr, out, nonblock, left);
        ExtendsTransitive(old(trace), before, trace);
      }
    }

    // ----- Reading -----

    ghost predicate ReaderIs(call: R.ReadCall, pc: R.ReaderPc)
      reads this
    {
      Now().rx.reader == R.Reading(call, pc)
    }

    ghost predicate ReaderSpins(call: R.ReadCall)
      reads this
    {
      Now().rx.reader.Reading? && Now().rx.reader.call == call && Now().rx.reader.pc.RSpin?
    }

    /** The reader's side apart from the reader itself. */
    ghost predicate Undisturbed(s: State)
      reads this
    {
      WriteSideSame(s, Now()) && Now().rx.handed == s.rx.handed && Now().rx.reenabling == s.rx.reenabling
    }

    /** Copies a chunk out of the ring byte by byte and then frees its slots. */
    method CopyOut(out: nat, n: nat, ghost call: R.ReadCall) returns (chunk: seq<Byte>)
      requires Valid() && ReaderIs(call, R.RCopying(out, n, []))
      modifies this, rxBuf
      ensures Valid() && Undisturbed(old(Now())) && |chunk| == n <= call.space
      ensures ReaderIs(call.(space := call.space - n, got := call.got + chunk), R.RTop)
      ensures Extends(old(trace), trace)
    {
      chunk := [];
      for done := 0 to n
        invariant Valid() && Undisturbed(old(Now())) && |chunk| == done && Extends(old(trace), trace)
        invariant ReaderIs(call, R.RCopying(out, n, chunk))
      {
        ghost var before := trace;
        chunk := CopyOutByte(out, n, chunk, call);
        ExtendsTransitive(old(trace), before, trace);
      }
      T.AdvanceIsMod(out, n);
      rxOut := (out + n) % T.BUF_LEN;
      Take(ReaderStep);
    }

    method CopyOutByte(out: nat, n: nat, chunk: seq<Byte>, ghost call: R.ReadCall) returns (longer: seq<Byte>)
      requires Valid() && ReaderIs(call, R.RCopying(out, n, chunk)) && |chunk| < n
      modifies this, rxBuf
      ensures Valid() && Undisturbed(old(Now())) && |longer| == |chunk| + 1
      ensures ReaderIs(call, R.RCopying(out, n, longer))
      ensures Extends(old(trace), trace)
    {
      longer := chunk + [rxBuf[out + |chunk|]];
      Take(ReaderStep);
      ghost var before := trace;
      Interrupts();
      ExtendsTransitive(old(trace), before, trace);
    }

    /** Reads the indices and works out the contiguous data, which later interrupts can only extend. */
    method SnapshotData(space: nat, ghost call: R.ReadCall) returns (inn: nat, out: nat, n: nat)
      requires Valid() && ReaderIs(call, R.RTop) && call.space == space > 0
      modifies this, rxBuf
      ensures Valid() && Undisturbed(old(Now())) && n <= space
      ensures ReaderIs(call, if n > 0 then R.RCopying(out, n, [])
                             else if call.got != [] || call.nonblock then R.RDone else R.RSpin(inn))
      ensures Extends(old(trace), trace)
    {
      inn := rxIn;
      out := rxOut;
      Take(ReaderStep);
      ghost var before := trace;
      Interrupts();
      ExtendsTransitive(old(trace), before, trace);
      n := R.Available(inn, out);
      n := if n > space then space else n;
      Take(ReaderStep);
    }

    /** Reads one chunk. With nothing there it ends done, or spinning on the in index it saw. */
    method ReadChunk(want: nat, nonblock: bool, buffer: seq<Byte>) returns (longer: seq<Byte>, inn: nat, more: bool)
      requires Valid() && |buffer| < want
      requires ReaderIs(R.ReadCall(want, want - |buffer|, buffer, nonblock), R.RTop)
      modifies this, rxBuf
      ensures Valid() && Undisturbed(old(Now())) && |longer| <= want
      ensures more ==> |buffer| < |longer| && ReaderIs(R.ReadCall(want, want - |longer|, longer, nonblock), R.RTop)
      ensures !more ==> longer == buffer &&
                        ReaderIs(R.ReadCall(want, want - |buffer|, buffer, nonblock),
                                 if buffer != [] || nonblock then R.RDone else R.RSpin(inn))
      ensures Extends(old(trace), trace)
    {
      ghost var call := R.ReadCall(want, want - |buffer|, buffer, nonblock);
      var out, n;
      inn, out, n := SnapshotData(want - |buffer|, call);
      more := n > 0;
      if more {
        ghost var seen := trace;
        var chunk := CopyOut(out, n, call);
        ExtendsTransitive(old(trace), seen, trace);
        longer := buffer + chunk;
        ghost var copied := trace;
        Interrupts();
        ExtendsTransitive(old(trace), copied, trace);
      } else {
        longer := buffer;
      }
    }

    /** Reads as much as is there. Ends done, or spinning on an in index when nothing at all was there. */
    method DrainRing(want: nat, nonblock: bool) returns (buffer: seq<Byte>, inn: nat)
      requires Valid() && ReaderIs(R.ReadCall(want, want, [], nonblock), R.RTop) && want > 0
      modifies this, rxBuf
      ensures Valid() && Undisturbed(old(Now())) && |buffer| <= want
      ensures ReaderIs(R.ReadCall(want, want - |buffer|, buffer, nonblock),
                       if buffer != [] || nonblock then R.RDone else R.RSpin(inn))
      ensures Extends(old(trace), trace)
    {
      buffer, inn := [], 0;
      while |buffer| < want
        invariant Valid() && Undisturbed(old(Now())) && |buffer| <= want
        invariant ReaderIs(R.ReadCall(want, want - |buffer|, buffer, nonblock), R.RTop) && Extends(old(trace), trace)
        decreases want - |buffer|
      {
        var more;
        ghost var before := trace;
        buffer, inn, more := ReadChunk(want, nonblock, buffer);
        ExtendsTransitive(old(trace), before, trace);
        if !more {
          return;
        }
      }
      Take(ReaderStep);
    }

    /** Spins, for at most `patience` polls, until data arrives or the host is gone. */
    method SpinForData(inn: nat, patience: nat, ghost call: R.ReadCall) returns (left: nat, woken: bool)
      requires Valid() && ReaderIs(call, R.RSpin(inn))
      modifies this, rxBuf
      ensures Valid() && Undisturbed(old(Now())) && (woken ==> left < patience)
      ensures ReaderIs(call, if woken then R.RSpun(inn) else R.RSpin(inn))
      ensures Extends(old(trace), trace)
    {
      left, woken := patience, false;
      while left > 0 && !woken
        invariant Valid() && Undisturbed(old(Now())) && left <= patience && (woken ==> left < patience)
        invariant ReaderIs(call, if woken then R.RSpun(inn) else R.RSpin(inn)) && Extends(old(trace), trace)
        decreases left
      {
        ghost var before := trace;
        woken := PollData(inn, call);
        ExtendsTransitive(old(trace), before, trace);
        left := left - 1;
      }
    }

    method PollData(inn: nat, ghost call: R.ReadCall) returns (woken: bool)
      requires Valid() && ReaderIs(call, R.RSpin(inn))
      modifies this, rxBuf
      ensures Valid() && Undisturbed(old(Now()))
      ensures ReaderIs(call, if woken then R.RSpun(inn) else R.RSpin(inn))
      ensures Extends(old(trace), trace)
    {
      woken := !(inn == rxIn && hostInactive < timeout);
      Take(ReaderStep);
      ghost var before := trace;
      Interrupts();
      ExtendsTransitive(old(trace), before, trace);
    }

    /** Waits for data, and gives up if none has come. */
    method AwaitData(inn: nat, patience: nat, ghost call: R.ReadCall) returns (left: nat, verdict: Verdict)
      requires Valid() && ReaderIs(call, R.RSpin(inn))
      modifies this, rxBuf
      ensures Valid() && Undisturbed(old(Now())) && (verdict.Again? ==> left < patience)
      ensures verdict.Again? ==> ReaderIs(call, R.RTop)
      ensures verdict.Finished? ==> ReaderIs(call, R.RDone)
      ensures verdict.Blocked? ==> ReaderSpins(call)
      ensures Extends(old(trace), trace)
    {
      var woken;
      left, woken := SpinForData(inn, patience, call);
      if woken {
        verdict := if inn == rxIn then Finished else Again;
        Take(ReaderStep);
      } else {
        verdict := Blocked;
      }
    }

    /** Gives up the lock and, if bytes were read, turns receive interrupts back on. */
    method FinishRead(buffer: seq<Byte>, nonblock: bool, ghost call: R.ReadCall) returns (rc: T.Rc)
      requires Valid() && ReaderIs(call, R.RDone) && call.got == buffer && call.nonblock == nonblock
      modifies this, rxBuf
      ensures Valid() && WriteSideSame(old(Now()), Now()) && Now().rx.reader.NoReader?
      ensures Now().rx.handed == old(Now()).rx.handed + buffer && Now().rx.reenabling == old(Now()).rx.reenabling
      ensures rc == if buffer != [] then T.Count(|buffer|) else if nonblock then T.WouldBlock else T.IoError
      ensures Extends(old(trace), trace)
    {
      rc := if buffer != [] then T.Count(|buffer|) else if nonblock then T.WouldBlock else T.IoError;
      Take(ReaderStep);
      ghost var before := trace;
      Interrupts();
      ExtendsTransitive(old(trace), before, trace);
      if buffer != [] {
        EnableRead();
      }
    }

    method EnableRead()
      requires Valid() && Now().rx.reenabling > 0
      modifies this`enableRe, this`control, this`trace
      ensures Valid() && WriteSideSame(old(Now()), Now())
      ensures Now().rx.reader == old(Now()).rx.reader && Now().rx.handed == old(Now()).rx.handed
      ensures Now().rx.reenabling == old(Now()).rx.reenabling - 1
      ensures trace == Then(old(trace), ReaderEnable, Now())
    {
      enableRe := true;
      control := Control(enableRe, enableWe);
      Take(ReaderEnable);
    }

    /**
     The read call. When it returns, the buffer holds the next bytes of the received stream, at most
     as many as fit, and the result is their number or the reason why there are none. There is room left
     only if the ring was empty at some time during the call; a call that may block returns nothing only if
     the host had been inactive up to the limit at some time.
     */
    method Read(want: nat, nonblock: bool, patience: nat) returns (outcome: Outcome, buffer: seq<Byte>)
      requires Valid() && Now().rx.reader.NoReader?
      modifies this, rxBuf
      ensures Valid() && WriteSideSame(old(Now()), Now())
      ensures outcome.Returned? ==>
                && Now().rx.reader.NoReader? && |buffer| <= want
                && Now().rx.handed == old(Now()).rx.handed + buffer
                && Now().rx.reenabling == old(Now()).rx.reenabling
                && outcome.rc == if buffer != [] then T.Count(|buffer|)
                                 else if nonblock then T.WouldBlock else T.IoError
      ensures outcome.Returned? && !Visits(old(trace), trace, RingEmpty) ==> |buffer| == want
      ensures outcome.Returned? && want > 0 && !nonblock && !Visits(old(trace), trace, HostGone) ==> buffer != []
      ensures outcome.StillWaiting? ==>
                !nonblock && Now().rx.reader.Reading? && Now().rx.reader.call.want == want && Now().rx.reader.pc.RSpin?
      ensures Extends(old(trace), trace) && old(dataOut) <= dataOut
    {
      Take(StartRead(want, nonblock));
      ghost var begun := trace;
      var verdict := Finished;
      if want == 0 {
        buffer := [];
        Take(ReaderStep);
      } else {
        buffer, verdict := ReadLoop(want, nonblock, patience);
      }
      ExtendsTransitive(old(trace), begun, trace);
      if verdict.Blocked? {
        outcome := StillWaiting;
      } else {
        var rc := EndRead(want, nonblock, buffer, old(trace), begun);
        outcome := Returned(rc);
      }
      SoundGrows(old(trace), trace);
    }

    /** Finishes a call that began at t0, and says why it has room left. */
    method EndRead(want: nat, nonblock: bool, buffer: seq<Byte>, ghost t0: Trace, ghost begun: Trace)
        returns (rc: T.Rc)
      requires Valid() && |buffer| <= want
      requires ReaderIs(R.ReadCall(want, want - |buffer|, buffer, nonblock), R.RDone)
      requires begun.Then? && begun.step.StartRead? && begun.before == t0
      requires Extends(begun, trace) && Extends(t0, trace)
      modifies this, rxBuf
      ensures Valid() && WriteSideSame(old(Now()), Now()) && Now().rx.reader.NoReader?
      ensures Now().rx.handed == old(Now()).rx.handed + buffer && Now().rx.reenabling == old(Now()).rx.reenabling
      ensures rc == if buffer != [] then T.Count(|buffer|) else if nonblock then T.WouldBlock else T.IoError
      ensures Extends(t0, trace) && (|buffer| < want ==> Visits(t0, trace, RingEmpty))
      ensures buffer == [] && want > 0 && !nonblock ==> Visits(t0, trace, HostGone)
    {
      ghost var ending := trace;
      rc := FinishRead(buffer, nonblock, R.ReadCall(want, want - |buffer|, buffer, nonblock));
      ExtendsTransitive(t0, ending, trace);
      if |buffer| < want {
        ReadVisits(t0, begun, ending);
        VisitsLater(t0, ending, trace, RingEmpty);
        if buffer == [] && !nonblock {
          VisitsLater(t0, ending, trace, HostGone);
        }
      }
    }

    /** Rounds until there is something to return, or the observation ends. */
    method ReadLoop(want: nat, nonblock: bool, patience: nat) returns (buffer: seq<Byte>, verdict: Verdict)
      requires Valid() && ReaderIs(R.ReadCall(want, want, [], nonblock), R.RTop) && want > 0
      modifies this, rxBuf
      ensures Valid() && Undisturbed(old(Now())) && |buffer| <= want && !verdict.Again?
      ensures verdict.Finished? ==> ReaderIs(R.ReadCall(want, want - |buffer|, buffer, nonblock), R.RDone)
      ensures verdict.Blocked? ==> !nonblock && ReaderSpins(R.ReadCall(want, want, [], nonblock))
      ensures Extends(old(trace), trace)
    {
      var left;
      buffer, left, verdict := [], patience, Again;
      while verdict.Again?
        invariant Valid() && Undisturbed(old(Now())) && |buffer| <= want && Extends(old(trace), trace)
        invariant verdict.Again? ==> buffer == [] && ReaderIs(R.ReadCall(want, want, [], nonblock), R.RTop)
        invariant verdict.Finished? ==> ReaderIs(R.ReadCall(want, want - |buffer|, buffer, nonblock), R.RDone)
        invariant verdict.Blocked? ==> !nonblock && ReaderSpins(R.ReadCall(want, want, [], nonblock))
        decreases verdict.Again?, left
      {
        ghost var before := trace;
        buffer, left, verdict := ReadRound(want, nonblock, left);
        ExtendsTransitive(old(trace), before, trace);
      }
    }

    /** One round of the read loop. */
    method ReadRound(want: nat, nonblock: bool, patience: nat) returns (buffer: seq<Byte>, left: nat, verdict: Verdict)
      requires Valid() && ReaderIs(R.ReadCall(want, want, [], nonblock), R.RTop) && want > 0
      modifies this, rxBuf
      ensures Valid() && Undisturbed(old(Now())) && |buffer| <= want && (verdict.Again? ==> left < patience)
      ensures verdict.Again? ==> buffer == [] && ReaderIs(R.ReadCall(want, want, [], nonblock), R.RTop)
      ensures verdict.Finished? ==> ReaderIs(R.ReadCall(want, want - |buffer|, buffer, nonblock), R.RDone)
      ensures verdict.Blocked? ==> !nonblock && ReaderSpins(R.ReadCall(want, want, [], nonblock))
      ensures Extends(old(trace), trace)
    {
      var inn;
      buffer, inn := DrainRing(want, nonblock);
      if buffer != [] || nonblock {
        return buffer, patience, Finished;
      }
      ghost var drained := trace;
      left, verdict := AwaitData(inn, patience, R.ReadCall(want, want, [], nonblock));
      ExtendsTransitive(old(trace), drained, trace);
    }

    // ----- Closing -----

    /**
     The close call: waits until the ring is empty or the host is gone. It succeeds exactly when every byte
     any write reported has reached the device or the host is gone; otherwise it refuses, or waits.
     */
    method Close(nonblock: bool, patience: nat) returns (outcome: Outcome)
      requires Valid() && Now().tx.writer.NoWriter?
      modifies this, rxBuf
      ensures Valid() && Now().tx.reported == old(Now()).tx.reported
      ensures outcome == if dataOut == Now().tx.reported || hostInactive >= timeout then Returned(T.Count(0))
                         else if nonblock then Returned(T.WouldBlock) else StillWaiting
      ensures Extends(old(trace), trace) && old(dataOut) <= dataOut
    {
      var left := patience;
      while txOut != txIn && hostInactive < timeout
        invariant Valid() && Now().tx.writer.NoWriter? && Now().tx.reported == old(Now()).tx.reported
        invariant Extends(old(trace), trace)
        decreases left
      {
        SoundIdle(trace);
        SoundGrows(old(trace), trace);
        if nonblock {
          return Returned(T.WouldBlock);
        }
        if left == 0 {
          return StillWaiting;
        }
        ghost var before := trace;
        Interrupts();
        ExtendsTransitive(old(trace), before, trace);
        left := left - 1;
      }
      SoundIdle(trace);
      SoundGrows(old(trace), trace);
      outcome := Returned(T.Count(0));
    }
  }
}
