/**
 The transmit half of the JTAG UART driver as a step system: one writer at a time (it holds the
 write lock), whose substeps interleave with interrupt passes in any order.
 */
module JtagTransmit {
  import opened RingBuffers

  const BUF_LEN: nat := 2048

  /** The driver's index arithmetic. */
  lemma AdvanceIsMod(i: nat, n: nat)
    requires i < BUF_LEN && i + n <= BUF_LEN
    ensures Advance(BUF_LEN, i, n) == (i + n) % BUF_LEN
  {}

  lemma NextIsMod(i: nat)
    requires i < BUF_LEN
    ensures Next(BUF_LEN, i) == (i + 1) % BUF_LEN
  {}

  /** Result of a read or write call: a byte count, -EWOULDBLOCK or -EIO. */
  datatype Rc = Count(n: nat) | WouldBlock | IoError

  /** Host presence: the seconds it has been inactive, and the limit after which callers give up. */
  datatype Host = Host(inactive: nat, timeout: nat)

  /** A write call: its bytes, how many are in the ring, the last snapshot of the out index, and the mode. */
  datatype WriteCall = WriteCall(data: seq<Byte>, ptr: nat, out: nat, nonblock: bool)

  /** Where the writer is: `done` bytes of the chunk of n at inn have been copied. */
  datatype WriterPc =
    | WTop
    | WSnapped(inn: nat)
    | WCopying(inn: nat, n: nat, done: nat)
    | WKick
    | WCheck
    | WSpin
    | WWoken
    | WReturn

  datatype Writer = NoWriter | Writing(call: WriteCall, pc: WriterPc)

  /**
   The transmit ring, the write-interrupt enable bit, and the writer. `unkicked` says that bytes were
   published since interrupts were last enabled, `sent` is what was stored to the DATA register, and
   `reported` is what the results of the finished calls say was written, in order.
   */
  datatype Tx = Tx(inn: nat, out: nat, buf: seq<Byte>, we: bool, writer: Writer, unkicked: bool,
                   sent: seq<Byte>, reported: seq<Byte>)

  /** The bytes of a finished call that its result claims. */
  function Claimed(data: seq<Byte>, rc: Rc): seq<Byte> {
    if rc.Count? && rc.n <= |data| then data[..rc.n] else []
  }

  /** All bytes accepted so far: those reported, then those the current call has put in the ring. */
  ghost function Accepted(tx: Tx): seq<Byte>
    requires tx.writer.Writing? ==> tx.writer.call.ptr <= |tx.writer.call.data|
  {
    tx.reported + if tx.writer.Writing? then tx.writer.call.data[..tx.writer.call.ptr] else []
  }

  /** The contiguous space after inn, as computed from a snapshot of the out index. */
  function Space(inn: nat, out: nat): (n: nat)
    requires inn < BUF_LEN && out < BUF_LEN
    ensures n <= Free(BUF_LEN, out, inn) && inn + n <= BUF_LEN
    ensures n == 0 <==> Free(BUF_LEN, out, inn) == 0
  {
    if inn < out then out - 1 - inn
    else if out > 0 then BUF_LEN - inn
    else BUF_LEN - 1 - inn
  }

  function WriteResult(call: WriteCall): Rc {
    if call.ptr != 0 then Count(call.ptr) else if call.nonblock then WouldBlock else IoError
  }

  predicate Indices(tx: Tx) { tx.inn < BUF_LEN && tx.out < BUF_LEN && |tx.buf| == BUF_LEN }

  function StartWrite(tx: Tx, data: seq<Byte>, nonblock: bool): Tx {
    tx.(writer := Writing(WriteCall(data, 0, 0, nonblock), WTop))
  }

  /** A call with bytes left has seen the ring full. */
  predicate SawFull(tx: Tx, call: WriteCall)
    requires Indices(tx)
  {
    call.ptr < |call.data| ==> call.out < BUF_LEN && Free(BUF_LEN, call.out, tx.inn) == 0
  }

  /** What the writer knows about its own call at each point. */
  ghost predicate WriterOk(tx: Tx)
    requires Indices(tx)
  {
    match tx.writer
    case NoWriter => !tx.unkicked
    case Writing(call, pc) =>
      && call.ptr <= |call.data|
      && (tx.unkicked ==> pc.WTop? || pc.WSnapped? || pc.WCopying? || pc.WKick?)
      && match pc
         case WSnapped(inn) =>
           && inn == tx.inn && call.out < BUF_LEN && call.ptr < |call.data|
           && Free(BUF_LEN, call.out, inn) <= Free(BUF_LEN, tx.out, inn)
         case WCopying(inn, n, done) =>
           && inn == tx.inn && 0 < n <= Free(BUF_LEN, tx.out, inn) && inn + n <= BUF_LEN
           && call.ptr + n <= |call.data| && done <= n
           && tx.buf[inn..inn + done] == call.data[call.ptr..call.ptr + done]
         case WKick => SawFull(tx, call)
         case WCheck => SawFull(tx, call)
         case WSpin => call.ptr < |call.data| && !call.nonblock && SawFull(tx, call)
         case WWoken => call.ptr < |call.data| && !call.nonblock && SawFull(tx, call)
         case WReturn => SawFull(tx, call)
         case WTop => true
  }

  ghost predicate Inv(tx: Tx) {
    && Indices(tx)
    && WriterOk(tx)
    && tx.sent + Contents(tx.buf, tx.out, tx.inn) == Accepted(tx)
    && (tx.out != tx.inn && !tx.we ==> tx.unkicked)
  }

  /** No index of the next writer substep leaves its buffer. */
  predicate Defined(tx: Tx) {
    Indices(tx) && match tx.writer
    case NoWriter => true
    case Writing(call, pc) =>
      match pc
      case WSnapped(inn) => inn < BUF_LEN && call.out < BUF_LEN && call.ptr <= |call.data|
      case WCopying(inn, n, done) =>
        inn < BUF_LEN && inn + n <= BUF_LEN && call.ptr + n <= |call.data| && done <= n
      case _ => true
  }

  /** One substep of the writer. */
  function WriterStep(tx: Tx, host: Host): Tx
    requires Defined(tx) && tx.writer.Writing?
  {
    var call := tx.writer.call;
    match tx.writer.pc
    case WTop =>
      if call.ptr < |call.data| then tx.(writer := Writing(call.(out := tx.out), WSnapped(tx.inn)))
      else tx.(writer := Writing(call, WKick))
    case WSnapped(inn) =>
      var n := Space(inn, call.out);
      var count := |call.data| - call.ptr;
      if n == 0 then tx.(writer := Writing(call, WKick))
      else tx.(writer := Writing(call, WCopying(inn, if n > count then count else n, 0)))
    case WCopying(inn, n, done) =>
      if done < n then
        tx.(buf := tx.buf[inn + done := call.data[call.ptr + done]],
            writer := Writing(call, WCopying(inn, n, done + 1)))
      else
        tx.(inn := Advance(BUF_LEN, inn, n), unkicked := true,
            writer := Writing(call.(ptr := call.ptr + n), WTop))
    case WKick => tx.(we := true, unkicked := false, writer := Writing(call, WCheck))
    case WCheck =>
      if call.ptr < |call.data| && !call.nonblock then tx.(writer := Writing(call, WSpin))
      else tx.(writer := Writing(call, WReturn))
    case WSpin =>
      if call.out == tx.out && host.inactive < host.timeout then tx
      else tx.(writer := Writing(call, WWoken))
    case WWoken => tx.(writer := Writing(call, if host.inactive != 0 then WReturn else WTop))
    case WReturn =>
      tx.(writer := NoWriter, reported := tx.reported + Claimed(call.data, WriteResult(call)))
  }

  /** One byte moves from the front of the ring to the device. */
  function Send(tx: Tx): Tx
    requires Indices(tx)
  {
    tx.(sent := tx.sent + [tx.buf[tx.out]], out := Next(BUF_LEN, tx.out))
  }

  /** The write-interrupt pass: send while the device has space, and disable once nothing is left. */
  function Drain(tx: Tx, space: nat): Tx
    requires Indices(tx)
    decreases space
  {
    if space == 0 then tx
    else if tx.out == tx.inn then tx.(we := false)
    else Drain(Send(tx), space - 1)
  }

  // ----- Preservation -----

  lemma StartKeeps(tx: Tx, data: seq<Byte>, nonblock: bool)
    requires Inv(tx) && tx.writer.NoWriter?
    ensures Inv(StartWrite(tx, data, nonblock))
  {}

  lemma CopyEffects(buf: seq<Byte>, out: nat, inn: nat, data: seq<Byte>, ptr: nat, done: nat)
    requires |buf| == BUF_LEN && out < BUF_LEN && inn + done < BUF_LEN && done < Free(BUF_LEN, out, inn)
    requires ptr + done < |data| && buf[inn..inn + done] == data[ptr..ptr + done]
    ensures var buf' := buf[inn + done := data[ptr + done]];
            && Contents(buf', out, inn) == Contents(buf, out, inn)
            && buf'[inn..inn + (done + 1)] == data[ptr..ptr + (done + 1)]
  {
    FreeSlots(BUF_LEN, out, inn, done);
    WriteFree(buf, out, inn, inn + done, data[ptr + done]);
    CopyOne(buf, data, inn, ptr, done);
  }

  lemma CopyKeeps(tx: Tx, host: Host)
    requires Inv(tx) && tx.writer.Writing? && tx.writer.pc.WCopying? && tx.writer.pc.done < tx.writer.pc.n
    ensures Inv(WriterStep(tx, host))
  {
    var call, pc := tx.writer.call, tx.writer.pc;
    CopyEffects(tx.buf, tx.out, tx.inn, call.data, call.ptr, pc.done);
  }

  lemma PublishEffects(buf: seq<Byte>, out: nat, inn: nat, n: nat, sent: seq<Byte>, reported: seq<Byte>,
                       data: seq<Byte>, ptr: nat)
    requires |buf| == BUF_LEN && out < BUF_LEN && inn < BUF_LEN && inn + n <= BUF_LEN && n <= Free(BUF_LEN, out, inn)
    requires ptr + n <= |data| && buf[inn..inn + n] == data[ptr..ptr + n]
    requires sent + Contents(buf, out, inn) == reported + data[..ptr]
    ensures sent + Contents(buf, out, Advance(BUF_LEN, inn, n)) == reported + data[..ptr + n]
  {
    Publish(buf, out, inn, n);
    AppendBoth(sent, Contents(buf, out, inn), reported, data[..ptr], data[ptr..ptr + n]);
    assert data[..ptr + n] == data[..ptr] + data[ptr..ptr + n];
  }

  lemma PublishKeeps(tx: Tx, host: Host)
    requires Inv(tx) && tx.writer.Writing? && tx.writer.pc.WCopying? && tx.writer.pc.done == tx.writer.pc.n
    ensures Inv(WriterStep(tx, host))
  {
    var call, pc := tx.writer.call, tx.writer.pc;
    PublishEffects(tx.buf, tx.out, tx.inn, pc.n, tx.sent, tx.reported, call.data, call.ptr);
  }

  lemma ReturnKeeps(tx: Tx, host: Host)
    requires Inv(tx) && tx.writer.Writing? && tx.writer.pc.WReturn?
    ensures Inv(WriterStep(tx, host))
  {
    var call := tx.writer.call;
    assert Claimed(call.data, WriteResult(call)) == call.data[..call.ptr];
  }

  /**
   A call reports a count exactly when bytes of it were accepted, and then it is their number; otherwise the
   error of its mode.
   */
  lemma ResultIsOwnCount(tx: Tx)
    requires Inv(tx) && tx.writer.Writing?
    ensures var call := tx.writer.call;
            && (WriteResult(call).Count? <==> call.ptr > 0)
            && (WriteResult(call).Count? ==> WriteResult(call).n == call.ptr <= |call.data|)
            && (!WriteResult(call).Count? ==> WriteResult(call) == if call.nonblock then WouldBlock else IoError)
            && Accepted(tx) == tx.reported + Claimed(call.data, WriteResult(call))
  {}

  lemma SnapshotKeeps(tx: Tx, host: Host)
    requires Inv(tx) && tx.writer.Writing? && tx.writer.pc.WSnapped?
    ensures Inv(WriterStep(tx, host))
  {}

  lemma TopKeeps(tx: Tx, host: Host)
    requires Inv(tx) && tx.writer.Writing? && tx.writer.pc.WTop?
    ensures Inv(WriterStep(tx, host))
  {}

  lemma WriterKeeps(tx: Tx, host: Host)
    requires Inv(tx) && tx.writer.Writing?
    ensures Inv(WriterStep(tx, host))
  {
    match tx.writer.pc
    case WCopying(inn, n, done) =>
      if done < n {
        CopyKeeps(tx, host);
      } else {
        PublishKeeps(tx, host);
      }
    case WReturn => ReturnKeeps(tx, host);
    case WTop => TopKeeps(tx, host);
    case WSnapped(_) => SnapshotKeeps(tx, host);
    case _ =>
  }

  lemma SendMoves(tx: Tx)
    requires Indices(tx) && tx.out != tx.inn
    ensures var tx' := Send(tx);
            && tx'.sent + Contents(tx'.buf, tx'.out, tx'.inn) == tx.sent + Contents(tx.buf, tx.out, tx.inn)
            && Used(BUF_LEN, tx'.out, tx'.inn) == Used(BUF_LEN, tx.out, tx.inn) - 1
  {
    Consume(tx.buf, tx.out, tx.inn, 1);
    var rest := Contents(tx.buf, Next(BUF_LEN, tx.out), tx.inn);
    assert tx.buf[tx.out..tx.out + 1] == [tx.buf[tx.out]];
    assert tx.sent + ([tx.buf[tx.out]] + rest) == tx.sent + [tx.buf[tx.out]] + rest;
  }

  /** Sending only adds free space, so snapshots stay conservative. */
  lemma SendKeepsWriter(tx: Tx)
    requires Inv(tx) && tx.out != tx.inn
    ensures WriterOk(Send(tx)) && Accepted(Send(tx)) == Accepted(tx)
  {}

  lemma SendKeeps(tx: Tx)
    requires Inv(tx) && tx.out != tx.inn
    ensures Inv(Send(tx))
  {
    SendMoves(tx);
    SendKeepsWriter(tx);
  }

  lemma {:induction false} DrainKeeps(tx: Tx, space: nat)
    requires Inv(tx)
    ensures Inv(Drain(tx, space))
    decreases space
  {
    if space > 0 && tx.out != tx.inn {
      SendKeeps(tx);
      DrainKeeps(Send(tx), space - 1);
    }
  }

  // ----- Consequences -----

  /** However stale its snapshot, a copy never touches a slot that holds an unsent byte. */
  lemma CopySparesUnsent(tx: Tx)
    requires Inv(tx) && tx.writer.Writing? && tx.writer.pc.WCopying? && tx.writer.pc.done < tx.writer.pc.n
    ensures !Occupied(BUF_LEN, tx.out, tx.inn, tx.writer.pc.inn + tx.writer.pc.done)
  {
    FreeSlots(BUF_LEN, tx.out, tx.inn, tx.writer.pc.done);
  }

  /** A pass sends min(space, used) bytes from the front of the ring, in order. */
  lemma {:induction false} DrainSends(tx: Tx, space: nat)
    requires Indices(tx)
    ensures var used := Used(BUF_LEN, tx.out, tx.inn);
            Drain(tx, space).sent == tx.sent + Contents(tx.buf, tx.out, tx.inn)[..if space < used then space else used]
    decreases space
  {
    if space > 0 && tx.out != tx.inn {
      var tx', b := Send(tx), tx.buf[tx.out];
      SendMoves(tx);
      var used' := Used(BUF_LEN, tx'.out, tx'.inn);
      var m := if space - 1 < used' then space - 1 else used';
      var held, held' := Contents(tx.buf, tx.out, tx.inn), Contents(tx'.buf, tx'.out, tx'.inn);
      assert held == [b] + held' by { Consume(tx.buf, tx.out, tx.inn, 1); }
      DrainSends(tx', space - 1);
      TakeAcross(tx.sent, b, held', m);
    }
  }

  /** A pass leaves the writer's side alone. */
  lemma {:induction false} DrainSpares(tx: Tx, space: nat)
    requires Indices(tx)
    ensures var tx' := Drain(tx, space);
            && tx'.writer == tx.writer && tx'.inn == tx.inn && tx'.buf == tx.buf
            && tx'.unkicked == tx.unkicked && tx'.reported == tx.reported
    decreases space
  {
    if space > 0 && tx.out != tx.inn {
      DrainSpares(Send(tx), space - 1);
    }
  }

  /** A writer's step sends nothing, and takes back nothing that was reported. */
  lemma WriterGrows(tx: Tx, host: Host)
    requires Inv(tx) && tx.writer.Writing?
    ensures var tx' := WriterStep(tx, host); tx'.sent == tx.sent && tx.reported <= tx'.reported
  {}

  /** A pass clears the enable bit exactly when the device had room for more than the ring held. */
  lemma {:induction false} DrainDisables(tx: Tx, space: nat)
    requires Indices(tx)
    ensures Drain(tx, space).we <==> tx.we && space <= Used(BUF_LEN, tx.out, tx.inn)
    decreases space
  {
    if space > 0 && tx.out != tx.inn {
      SendMoves(tx);
      DrainDisables(Send(tx), space - 1);
    }
  }

  lemma {:induction false} DrainUsed(tx: Tx, space: nat)
    requires Indices(tx)
    ensures var tx', used := Drain(tx, space), Used(BUF_LEN, tx.out, tx.inn);
            && Indices(tx') && tx'.inn == tx.inn && tx'.writer == tx.writer
            && Used(BUF_LEN, tx'.out, tx'.inn) == if space < used then used - space else 0
    decreases space
  {
    if space > 0 && tx.out != tx.inn {
      SendMoves(tx);
      DrainUsed(Send(tx), space - 1);
    }
  }

  /** A writer that waits in vain has a full ring and write interrupts on, and a pass that sends lets it go on. */
  lemma SpinningWriterIsServed(tx: Tx, host: Host, space: nat)
    requires Inv(tx) && tx.writer.Writing? && tx.writer.pc.WSpin?
    ensures WriterStep(tx, host) == tx ==> tx.we && Used(BUF_LEN, tx.out, tx.inn) == BUF_LEN - 1
    ensures var tx' := Drain(tx, space);
            && Inv(tx') && tx'.writer == tx.writer
            && (WriterStep(tx, host) == tx && space > 0 ==>
                  WriterStep(tx', host).writer == Writing(tx.writer.call, WWoken))
  {
    DrainKeeps(tx, space);
    DrainUsed(tx, space);
  }

  /** With no writer the reported stream is what was sent, then what is in the ring. */
  lemma IdleStream(tx: Tx)
    requires Inv(tx) && tx.writer.NoWriter?
    ensures tx.out == tx.inn ==> tx.sent == tx.reported
    ensures tx.out != tx.inn ==> tx.sent < tx.reported
  {
    var held := Contents(tx.buf, tx.out, tx.inn);
    assert tx.sent + held == tx.reported;
    assert tx.reported[..|tx.sent|] == tx.sent;
  }
}
