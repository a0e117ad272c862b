/**
 The transmit routines of the UART driver as they run, with a place for interrupts between every two
 accesses to shared state. Each extends a run of the step system.
 */
module UartDriver {
  import opened RingBuffers
  import opened UartTransmit

  /** What a write call returns: a byte count, and whether errno was set to EWOULDBLOCK. */
  datatype Outcome = Returned(n: nat, wouldBlock: bool) | StillWaiting

  lemma BeginSound(u: Uart)
    requires Init(u)
    ensures Sound(Begin(u)) && Defined(u)
  {
    SoundIff(Begin(u));
  }

  lemma AfterStep(t: Trace, step: Step)
    requires Sound(t) && Defined(t.now) && CanTake(t.now, step)
    ensures Sound(Then(t, step, After(t.now, step))) && Defined(After(t.now, step))
  {
    SoundIff(t);
    StepKeeps(t.now, step);
    SoundIff(Then(t, step, After(t.now, step)));
  }

  lemma SoundGrows(t: Trace, t': Trace)
    requires Sound(t') && Extends(t, t')
    ensures t.now.sent <= t'.now.sent
  {
    SoundIff(t');
    ExtendsGrows(t, t');
  }

  /** With no writer the reported stream is what was sent, then what is in the ring. */
  lemma SoundIdle(t: Trace)
    requires Sound(t) && t.now.writer.NoWriter?
    ensures var u := t.now;
            (u.start == u.end ==> u.sent == u.reported) && (u.start != u.end ==> u.sent < u.reported)
  {
    SoundIff(t);
    IdleStream(t.now);
  }

  /** A call that posts has accepted everything, or is non-blocking and was refused. */
  lemma SoundPost(t: Trace, call: Call, refused: bool)
    requires Sound(t) && t.now.writer == Writing(call, UPost(refused))
    ensures call.ptr <= |call.data| && (refused <==> call.ptr < |call.data|) && (refused ==> call.nonblock)
  {
    SoundIff(t);
  }

  /** Why a call that began at t0 is refused. */
  lemma SoundRefusal(t0: Trace, a: Trace, t: Trace)
    requires Sound(t) && Extends(a, t) && a.Then? && a.step.StartWrite? && a.before == t0
    requires t.now.writer.Writing? && t.now.writer.pc == UPost(true)
    ensures Visits(t0, t, RingFull)
  {
    SoundIff(t);
    RefusalsHaveReasons(t);
    WriteStartWithin(a, t);
    ExtendsTransitive(t0, a, WriteStart(t));
    VisitsEarlier(t0, WriteStart(t), t, RingFull);
  }

  class Driver {
    const txBuf: array<Byte>
    var txStart: nat
    var txEnd: nat
    var ctrl: Control
    /** The device side: the transmit bits of the control register, and the bytes stored to TXDATA. */
    var register: Control
    var txData: seq<Byte>
    /** The run so far. */
    ghost var trace: Trace

    ghost function Now(): Uart
      reads this
    {
      trace.now
    }

    ghost predicate Recorded()
      reads this
    {
      Sound(trace) && Defined(trace.now)
    }

    ghost predicate Matches(u: Uart)
      reads this, txBuf
    {
      && txStart == u.start && txEnd == u.end && txBuf[..] == u.buf
      && ctrl == u.ctrl && register == u.stored && txData == u.sent
    }

    ghost predicate Valid()
      reads this, txBuf
    {
      Recorded() && Matches(Now())
    }

    constructor ()
      ensures Valid() && fresh(txBuf) && Init(Now())
    {
      txBuf := new Byte[BUF_LEN](_ => 0);
      txStart, txEnd := 0, 0;
      ctrl, register, txData := Control(false, true), Control(false, true), [];
      trace := Begin(Uart(0, 0, seq(BUF_LEN, _ => 0), Control(false, true), Control(false, true), NoWriter, false, 0,
                          [], []));
      new;
      assert txBuf[..] == Now().buf;
      BeginSound(Now());
    }

    /** Records one step of the run. */
    ghost method Take(step: Step)
      requires Recorded() && CanTake(Now(), step)
      modifies this`trace
      ensures Recorded() && Defined(old(Now())) && trace == Then(old(trace), step, After(old(Now()), step))
    {
      AfterStep(trace, step);
      trace := Then(trace, step, After(Now(), step));
    }

    /** The foreground's own part of the state. */
    ghost predicate Undisturbed(u: Uart)
      reads this
    {
      && Now().writer == u.writer && Now().end == u.end && Now().buf == u.buf
      && Now().unkicked == u.unkicked && Now().enabling == u.enabling && Now().reported == u.reported
    }

    /** The transmit interrupt. */
    method TransmitIrq()
      requires Valid()
      modifies this`txStart, this`ctrl, this`register, this`txData, this`trace
      ensures Valid() && trace == Then(old(trace), TxIrq, Interrupted(old(Now()))) && Undisturbed(old(Now()))
    {
      if txStart != txEnd {
        txData := txData + [txBuf[txStart]];
        NextIsMod(txStart);
        txStart := (txStart + 1) % BUF_LEN;
        ctrl := ctrl.(trdy := true);
      }
      if txStart == txEnd {
        ctrl := Control(false, false);
      }
      register := ctrl;
      Take(TxIrq);
    }

    /** Any number of interrupts, each with any status. */
    method Interrupts()
      requires Valid()
      modifies this`txStart, this`ctrl, this`register, this`txData, this`trace
      ensures Valid() && Undisturbed(old(Now()))
      ensures Extends(old(trace), trace)
    {
      var pending: nat := *;
      while pending > 0
        invariant Valid() && Undisturbed(old(Now())) && Extends(old(trace), trace)
      {
        var trdy: bool, dcts: bool := *, *;
        if trdy || dcts {
          TransmitIrq();
        }
        pending := pending - 1;
      }
    }

    ghost predicate WriterIs(call: Call, pc: Pc)
      reads this
    {
      Now().writer == Writing(call, pc)
    }

    /** What a writer's steps leave alone until it gives up the lock. */
    ghost predicate SameCalls(u: Uart)
      reads this
    {
      Now().enabling == u.enabling && Now().reported == u.reported
    }

    /** Turns transmit interrupts on, with interrupts disabled meanwhile. */
    method EnableTransmit(ghost step: Step)
      requires Valid() && (step.WriterStep? || step.Enable?) && CanTake(Now(), step)
      requires step.WriterStep? ==> Now().writer.pc.UFull?
      modifies this`ctrl, this`register, this`trace
      ensures Valid() && Defined(old(Now())) && trace == Then(old(trace), step, After(old(Now()), step))
    {
      ctrl := Control(true, true);
      register := ctrl;
      Take(step);
    }

    /** Waits for a free slot, for at most `patience` polls. */
    method AwaitSpace(next: nat, patience: nat, ghost call: Call) returns (left: nat, free: bool)
      requires Valid() && WriterIs(call, UWait(next))
      modifies this
      ensures Valid() && SameCalls(old(Now())) && WriterIs(call, if free then UStore(next) else UWait(next))
      ensures left <= patience
      ensures Extends(old(trace), trace)
    {
      left, free := patience, false;
      while left > 0 && !free
        invariant Valid() && SameCalls(old(Now())) && WriterIs(call, if free then UStore(next) else UWait(next))
        invariant left <= patience && Extends(old(trace), trace)
        decreases left
      {
        ghost var before := trace;
        Interrupts();
        ExtendsTransitive(old(trace), before, trace);
        free := next != txStart;
        Take(WriterStep);
        left := left - 1;
      }
    }

    /** Stores one byte and publishes it. */
    method Put(b: Byte, next: nat, ghost call: Call)
      requires Valid() && WriterIs(call, UStore(next)) && call.ptr < |call.data| && call.data[call.ptr] == b
      modifies this, txBuf
      ensures Valid() && SameCalls(old(Now())) && WriterIs(call.(ptr := call.ptr + 1), UTop)
      ensures Extends(old(trace), trace)
    {
      txBuf[txEnd] := b;
      Take(WriterStep);
      ghost var before := trace;
      Interrupts();
      ExtendsTransitive(old(trace), before, trace);
      txEnd := next;
      Take(WriterStep);
    }

    /** Finds a free slot: `found`, or the ring is full and the call gives up or has watched long enough. */
    method FindSlot(data: seq<Byte>, ptr: nat, nonblock: bool, patience: nat)
        returns (next: nat, found: bool, left: nat)
      requires Valid() && WriterIs(Call(data, ptr, nonblock), UTop) && ptr < |data|
      modifies this
      ensures Valid() && SameCalls(old(Now())) && left <= patience
      ensures found ==> WriterIs(Call(data, ptr, nonblock), UStore(next))
      ensures !found ==> WriterAt(Call(data, ptr, nonblock), false)
      ensures Extends(old(trace), trace)
    {
      ghost var call := Call(data, ptr, nonblock);
      NextIsMod(txEnd);
      next, left := (txEnd + 1) % BUF_LEN, patience;
      found := next != txStart;
      Take(WriterStep);
      ghost var before := trace;
      Interrupts();
      ExtendsTransitive(old(trace), before, trace);
      if !found && !nonblock {
        EnableTransmit(WriterStep);
        ghost var enabled := trace;
        left, found := AwaitSpace(next, left, call);
        ExtendsTransitive(old(trace), enabled, trace);
      }
    }

    /** One round of the write loop. */
    method WriteByte(data: seq<Byte>, ptr: nat, nonblock: bool, patience: nat) returns (found: bool, left: nat)
      requires Valid() && WriterIs(Call(data, ptr, nonblock), UTop) && ptr < |data|
      modifies this, txBuf
      ensures Valid() && SameCalls(old(Now())) && left <= patience
      ensures WriterAt(Call(data, if found then ptr + 1 else ptr, nonblock), found)
      ensures Extends(old(trace), trace)
    {
      Interrupts();
      var next;
      ghost var looking := trace;
      next, found, left := FindSlot(data, ptr, nonblock, patience);
      ExtendsTransitive(old(trace), looking, trace);
      if found {
        ghost var free := trace;
        Interrupts();
        ExtendsTransitive(old(trace), free, trace);
        ghost var putting := trace;
        Put(data[ptr], next, Call(data, ptr, nonblock));
        ExtendsTransitive(old(trace), putting, trace);
      }
    }

    /** Releases the lock and then enables interrupts. */
    method Finish(data: seq<Byte>, ptr: nat, nonblock: bool, ghost refused: bool)
      requires Valid() && WriterIs(Call(data, ptr, nonblock), UPost(refused))
      modifies this
      ensures Valid() && Now().writer.NoWriter? && ptr <= |data|
      ensures Now().reported == old(Now()).reported + data[..ptr] && Now().enabling == old(Now()).enabling
      ensures refused <==> ptr < |data|
      ensures refused ==> nonblock
      ensures Extends(old(trace), trace)
    {
      SoundPost(trace, Call(data, ptr, nonblock), refused);
      Take(WriterStep);
      ghost var posted := trace;
      Interrupts();
      ExtendsTransitive(old(trace), posted, trace);
      EnableTransmit(Enable);
      ghost var enabled := trace;
      Interrupts();
      ExtendsTransitive(old(trace), enabled, trace);
    }

    /**
     The write call. When it returns, its result is the number of leading bytes of data that have been
     accepted, and those are what the call adds to the reported stream; it is short of the length
     exactly when EWOULDBLOCK is raised, which a blocking call never does, and no call unless the ring was
     full at some time.
     */
    method Write(data: seq<Byte>, nonblock: bool, patience: nat) returns (outcome: Outcome)
      requires Valid() && Now().writer.NoWriter?
      modifies this, txBuf
      ensures Valid() && Now().enabling == old(Now()).enabling
      ensures outcome.Returned? ==>
                && Now().writer.NoWriter? && outcome.n <= |data|
                && Now().reported == old(Now()).reported + data[..outcome.n]
                && (outcome.wouldBlock <==> outcome.n < |data|)
                && (outcome.wouldBlock ==> nonblock && Visits(old(trace), trace, RingFull))
      ensures outcome.StillWaiting? ==>
                !nonblock && Now().writer.Writing? && Now().writer.call.data == data && Now().writer.pc.UWait?
      ensures Extends(old(trace), trace) && old(txData) <= txData
    {
      Take(StartWrite(data, nonblock));
      ghost var begun := trace;
      var ptr, found := WriteLoop(data, nonblock, patience);
      ExtendsTransitive(old(trace), begun, trace);
      if !found && !nonblock {
        SoundGrows(old(trace), trace);
        return StillWaiting;
      }
      if found {
        Take(WriterStep);
      } else {
        SoundRefusal(old(trace), begun, trace);
      }
      ghost var ending := trace;
      Finish(data, ptr, nonblock, !found);
      ExtendsTransitive(old(trace), ending, trace);
      if !found {
        VisitsLater(old(trace), ending, trace, RingFull);
      }
      SoundGrows(old(trace), trace);
      outcome := Returned(ptr, !found);
    }

    /** Byte after byte, until all are in the ring, the call is refused, or the observation ends. */
    method WriteLoop(data: seq<Byte>, nonblock: bool, patience: nat) returns (ptr: nat, found: bool)
      requires Valid() && WriterIs(Call(data, 0, nonblock), UTop)
      modifies this, txBuf
      ensures Valid() && SameCalls(old(Now())) && ptr <= |data| && (found <==> ptr == |data|)
      ensures WriterAt(Call(data, ptr, nonblock), found)
      ensures Extends(old(trace), trace)
    {
      var left;
      ptr, left, found := 0, patience, true;
      while ptr < |data| && found
        invariant Valid() && SameCalls(old(Now())) && ptr <= |data| && Extends(old(trace), trace)
        invariant WriterAt(Call(data, ptr, nonblock), found) && (!found ==> ptr < |data|)
        decreases |data| - ptr, found
      {
        ghost var before := trace;
        found, left := WriteByte(data, ptr, nonblock, left);
        ExtendsTransitive(old(trace), before, trace);
        if found {
          ptr := ptr + 1;
        }
      }
    }

    /** Ready for the next byte; or refused, or waiting for a slot. */
    ghost predicate WriterAt(call: Call, found: bool)
      reads this
    {
      if found then WriterIs(call, UTop)
      else if call.nonblock then WriterIs(call, UPost(true))
      else Now().writer.Writing? && Now().writer.call == call && Now().writer.pc.UWait?
    }

    /** The close call: waits until every reported byte has been stored to the device, or refuses to wait. */
    method Close(nonblock: bool, patience: nat) returns (outcome: Outcome)
      requires Valid() && Now().writer.NoWriter?
      modifies this
      ensures Valid() && Now().writer.NoWriter? && Now().reported == old(Now()).reported
      ensures outcome == if txData == Now().reported then Returned(0, false)
                         else if nonblock then Returned(0, true) else StillWaiting
      ensures Extends(old(trace), trace) && old(txData) <= txData
    {
      var left := patience;
      while txStart != txEnd
        invariant Valid() && Undisturbed(old(Now())) && Extends(old(trace), trace)
        decreases left
      {
        SoundIdle(trace);
        SoundGrows(old(trace), trace);
        if nonblock {
          return Returned(0, true);
        }
        if left == 0 {
          return StillWaiting;
        }
        ghost var before := trace;
        Interrupts();
        ExtendsTransitive(old(trace), before, trace);
        left := left - 1;
      }
      SoundIdle(trace);
      SoundGrows(old(trace), trace);
      outcome := Returned(0, false);
    }
  }
}
