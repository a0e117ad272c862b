/**
 The receive half of the JTAG UART driver as a step system: one reader at a time (it holds the read
 lock), whose substeps interleave with interrupt passes in any order. Readers re-enable receive
 interrupts after giving up the lock.
 */
module JtagReceive {
  import opened RingBuffers
  import opened JtagTransmit

  /** One read of the DATA register. */
  datatype DataWord = DataWord(valid: bool, avail: nat, byte: Byte)

  /** A read call: the size of its buffer, the room left in it, the bytes already in it, and the mode. */
  datatype ReadCall = ReadCall(want: nat, space: nat, got: seq<Byte>, nonblock: bool)

  /** Where the reader is: the bytes `done` of the chunk of n at out have been copied. */
  datatype ReaderPc =
    | RTop
    | RSnapped(inn: nat, out: nat)
    | RCopying(out: nat, n: nat, done: seq<Byte>)
    | RSpin(inn: nat)
    | RSpun(inn: nat)
    | RDone

  datatype Reader = NoReader | Reading(call: ReadCall, pc: ReaderPc)

  /**
   The receive ring, the read-interrupt enable bit, the reader, and the number of calls that have
   released the lock with bytes in hand and not yet re-enabled interrupts. `taken` is every valid byte
   read from the device, and `handed` what the results of the finished calls say was read, in order.
   */
  datatype Rx = Rx(inn: nat, out: nat, buf: seq<Byte>, re: bool, reader: Reader, reenabling: nat,
                   taken: seq<Byte>, handed: seq<Byte>)

  /** All bytes delivered so far: those of finished calls, then those the current call holds. */
  ghost function Delivered(rx: Rx): seq<Byte> {
    rx.handed + if rx.reader.Reading? then rx.reader.call.got else []
  }

  predicate Indices(rx: Rx) { rx.inn < BUF_LEN && rx.out < BUF_LEN && |rx.buf| == BUF_LEN }

  predicate Full(rx: Rx)
    requires Indices(rx)
  {
    Next(BUF_LEN, rx.inn) == rx.out
  }

  /** The contiguous data after out, as computed from a snapshot of the in index. */
  function Available(inn: nat, out: nat): (n: nat)
    requires inn < BUF_LEN && out < BUF_LEN
    ensures n <= Used(BUF_LEN, out, inn) && out + n <= BUF_LEN
    ensures n == 0 <==> Used(BUF_LEN, out, inn) == 0
  {
    if inn >= out then inn - out else BUF_LEN - out
  }

  function ReadResult(call: ReadCall): Rc {
    if call.got != [] then Count(|call.got|) else if call.nonblock then WouldBlock else IoError
  }

  function StartRead(rx: Rx, space: nat, nonblock: bool): Rx {
    rx.(reader := Reading(ReadCall(space, space, [], nonblock), RTop))
  }

  ghost predicate ReaderOk(rx: Rx)
    requires Indices(rx)
  {
    match rx.reader
    case NoReader => true
    case Reading(call, pc) =>
      && call.space + |call.got| == call.want
      && match pc
      case RSnapped(inn, out) =>
        && out == rx.out && inn < BUF_LEN && call.space > 0
        && Used(BUF_LEN, out, inn) <= Used(BUF_LEN, out, rx.inn)
      case RCopying(out, n, done) =>
        && out == rx.out && 0 < n <= Used(BUF_LEN, out, rx.inn) && out + n <= BUF_LEN && n <= call.space
        && |done| <= n && done == rx.buf[out..out + |done|]
      case RSpin(inn) => inn == rx.out && call.got == [] && call.space > 0 && !call.nonblock
      case RSpun(inn) => inn == rx.out && call.got == [] && call.space > 0 && !call.nonblock
      case _ => true
  }

  ghost predicate Inv(rx: Rx) {
    && Indices(rx)
    && ReaderOk(rx)
    && Delivered(rx) + Contents(rx.buf, rx.out, rx.inn) == rx.taken
  }

  /** No index of the next reader substep leaves its buffer. */
  predicate Defined(rx: Rx) {
    Indices(rx) && match rx.reader
    case NoReader => true
    case Reading(call, pc) =>
      match pc
      case RSnapped(inn, out) => inn < BUF_LEN && out < BUF_LEN
      case RCopying(out, n, done) => out < BUF_LEN && out + n <= BUF_LEN && n <= call.space && |done| <= n
      case _ => true
  }

  /** One substep of the reader. */
  function ReaderStep(rx: Rx, host: Host): Rx
    requires Defined(rx) && rx.reader.Reading?
  {
    var call := rx.reader.call;
    match rx.reader.pc
    case RTop =>
      rx.(reader := Reading(call, if call.space > 0 then RSnapped(rx.inn, rx.out) else RDone))
    case RSnapped(inn, out) =>
      var n := Available(inn, out);
      if n == 0 then rx.(reader := Reading(call, if call.got != [] || call.nonblock then RDone else RSpin(inn)))
      else rx.(reader := Reading(call, RCopying(out, if n > call.space then call.space else n, [])))
    case RCopying(out, n, done) =>
      if |done| < n then rx.(reader := Reading(call, RCopying(out, n, done + [rx.buf[out + |done|]])))
      else
        rx.(out := Advance(BUF_LEN, out, n),
            reader := Reading(call.(space := call.space - n, got := call.got + done), RTop))
    case RSpin(inn) =>
      if inn == rx.inn && host.inactive < host.timeout then rx
      else rx.(reader := Reading(call, RSpun(inn)))
    case RSpun(inn) => rx.(reader := Reading(call, if inn == rx.inn then RDone else RTop))
    case RDone =>
      rx.(reader := NoReader, handed := rx.handed + Claimed(call.got, ReadResult(call)),
          reenabling := rx.reenabling + if call.got != [] then 1 else 0)
  }

  /** A call that returned bytes re-enables receive interrupts. */
  function Reenable(rx: Rx): Rx
    requires rx.reenabling > 0
  {
    rx.(re := true, reenabling := rx.reenabling - 1)
  }

  /** One valid byte enters the ring. */
  function Receive(rx: Rx, b: Byte): Rx
    requires Indices(rx)
  {
    rx.(buf := rx.buf[rx.inn := b], inn := Next(BUF_LEN, rx.inn), taken := rx.taken + [b])
  }

  /** The DATA value assumed at the start of a read-interrupt pass: one byte available. */
  const ASSUMED := DataWord(false, 1, 0)

  /** After the receive loop: bytes still available mean that receive interrupts go off. */
  function Finish(rx: Rx, last: DataWord): Rx {
    if last.avail != 0 then rx.(re := false) else rx
  }

  /** The read-interrupt pass over the words the device returns; `last` is the latest DATA value. */
  function Fill(rx: Rx, last: DataWord, words: seq<DataWord>): Rx
    requires Indices(rx)
    decreases |words|
  {
    if Full(rx) || words == [] then Finish(rx, last)
    else if !words[0].valid then Finish(rx, words[0])
    else Fill(Receive(rx, words[0].byte), words[0], words[1..])
  }

  /** The words are exactly those a pass reads: up to the first invalid one, or until the ring is full. */
  predicate ExactWords(rx: Rx, words: seq<DataWord>)
    requires Indices(rx)
    decreases |words|
  {
    if Full(rx) then words == []
    else words != [] &&
         if words[0].valid then ExactWords(Receive(rx, words[0].byte), words[1..]) else |words| == 1
  }

  // ----- Preservation -----

  lemma StartKeeps(rx: Rx, space: nat, nonblock: bool)
    requires Inv(rx) && rx.reader.NoReader?
    ensures Inv(StartRead(rx, space, nonblock))
  {}

  lemma ConsumeKeeps(rx: Rx, host: Host)
    requires Inv(rx) && rx.reader.Reading? && rx.reader.pc.RCopying? && |rx.reader.pc.done| == rx.reader.pc.n
    ensures Inv(ReaderStep(rx, host))
  {
    var call, pc := rx.reader.call, rx.reader.pc;
    Consume(rx.buf, rx.out, rx.inn, pc.n);
    var rest := Contents(rx.buf, Advance(BUF_LEN, rx.out, pc.n), rx.inn);
    MoveAcross(rx.handed, call.got, pc.done, rest);
  }

  lemma MoveAcross(a: seq<Byte>, b: seq<Byte>, c: seq<Byte>, d: seq<Byte>)
    ensures (a + (b + c)) + d == (a + b) + (c + d)
  {}

  lemma DoneKeeps(rx: Rx, host: Host)
    requires Inv(rx) && rx.reader.Reading? && rx.reader.pc.RDone?
    ensures Inv(ReaderStep(rx, host))
  {
    var call := rx.reader.call;
    assert Claimed(call.got, ReadResult(call)) == call.got;
  }

  /**
   A call reports a count exactly when it holds bytes, it is their number, and they fit its buffer; otherwise
   it reports the error of its mode.
   */
  lemma ResultIsOwnCount(rx: Rx)
    requires Inv(rx) && rx.reader.Reading?
    ensures var call := rx.reader.call;
            && (ReadResult(call).Count? <==> call.got != [])
            && (ReadResult(call).Count? ==> ReadResult(call).n == |call.got| <= call.want)
            && (!ReadResult(call).Count? ==> ReadResult(call) == if call.nonblock then WouldBlock else IoError)
            && Delivered(rx) == rx.handed + Claimed(call.got, ReadResult(call))
  {}

  lemma SnapshotKeeps(rx: Rx, host: Host)
    requires Inv(rx) && rx.reader.Reading? && (rx.reader.pc.RTop? || rx.reader.pc.RSnapped?)
    ensures Inv(ReaderStep(rx, host))
  {}

  lemma CopyKeeps(rx: Rx, host: Host)
    requires Inv(rx) && rx.reader.Reading? && rx.reader.pc.RCopying? && |rx.reader.pc.done| < rx.reader.pc.n
    ensures Inv(ReaderStep(rx, host))
  {
    var pc := rx.reader.pc;
    var i := pc.out + |pc.done|;
    assert rx.buf[pc.out..i + 1] == rx.buf[pc.out..i] + [rx.buf[i]];
  }

  lemma ReaderKeeps(rx: Rx, host: Host)
    requires Inv(rx) && rx.reader.Reading?
    ensures Inv(ReaderStep(rx, host))
  {
    match rx.reader.pc
    case RCopying(out, n, done) =>
      if |done| == n {
        ConsumeKeeps(rx, host);
      } else {
        CopyKeeps(rx, host);
      }
    case RTop => SnapshotKeeps(rx, host);
    case RSnapped(_, _) => SnapshotKeeps(rx, host);
    case RDone => DoneKeeps(rx, host);
    case _ =>
  }

  lemma ReceiveKeeps(rx: Rx, b: Byte)
    requires Inv(rx) && !Full(rx)
    ensures Inv(Receive(rx, b))
  {
    var buf := rx.buf[rx.inn := b];
    WriteFree(rx.buf, rx.out, rx.inn, rx.inn, b);
    Publish(buf, rx.out, rx.inn, 1);
    assert buf[rx.inn..rx.inn + 1] == [b];
    var held := Contents(buf, rx.out, rx.inn);
    assert Delivered(rx) + (held + [b]) == (Delivered(rx) + held) + [b];
  }

  lemma {:induction false} FillKeeps(rx: Rx, last: DataWord, words: seq<DataWord>)
    requires Inv(rx)
    ensures Inv(Fill(rx, last, words))
    decreases |words|
  {
    if !Full(rx) && words != [] && words[0].valid {
      ReceiveKeeps(rx, words[0].byte);
      FillKeeps(Receive(rx, words[0].byte), words[0], words[1..]);
    }
  }

  // ----- Nothing is lost, and nothing is taken while the ring is full -----

  /** The bytes of the valid words. */
  function ValidBytes(words: seq<DataWord>): seq<Byte>
    decreases |words|
  {
    if words == [] then [] else (if words[0].valid then [words[0].byte] else []) + ValidBytes(words[1..])
  }

  /** Every valid byte a pass takes from the device enters the history, none twice. */
  lemma {:induction false} FillTakes(rx: Rx, last: DataWord, words: seq<DataWord>)
    requires Indices(rx) && ExactWords(rx, words)
    ensures Fill(rx, last, words).taken == rx.taken + ValidBytes(words)
    decreases |words|
  {
    if !Full(rx) {
      if words[0].valid {
        FillTakes(Receive(rx, words[0].byte), words[0], words[1..]);
        assert rx.taken + [words[0].byte] + ValidBytes(words[1..]) == rx.taken + ValidBytes(words);
      } else {
        assert words[1..] == [];
      }
    }
  }

  /** A pass leaves the reader's side alone. */
  lemma {:induction false} FillSpares(rx: Rx, last: DataWord, words: seq<DataWord>)
    requires Indices(rx)
    ensures var rx' := Fill(rx, last, words);
            && rx'.reader == rx.reader && rx'.out == rx.out
            && rx'.reenabling == rx.reenabling && rx'.handed == rx.handed
    decreases |words|
  {
    if !Full(rx) && words != [] && words[0].valid {
      FillSpares(Receive(rx, words[0].byte), words[0], words[1..]);
    }
  }

  /** A reader's step takes nothing from the device, and takes back nothing that was handed over. */
  lemma ReaderGrows(rx: Rx, host: Host)
    requires Inv(rx) && rx.reader.Reading?
    ensures var rx' := ReaderStep(rx, host); rx'.taken == rx.taken && rx.handed <= rx'.handed
  {}

  /** A step that hands over bytes is the end of a call that has some. */
  lemma HandsOver(rx: Rx, host: Host)
    requires Inv(rx) && rx.reader.Reading?
    ensures var rx' := ReaderStep(rx, host);
            && rx'.reenabling == rx.reenabling + (if rx'.handed != rx.handed then 1 else 0)
            && (rx'.handed != rx.handed <==> rx.reader.pc.RDone? && rx.reader.call.got != [])
  {
    var call := rx.reader.call;
    assert Claimed(call.got, ReadResult(call)) == call.got;
    assert |rx.handed + call.got| == |rx.handed| + |call.got|;
  }

  /** With a full ring a pass reads nothing: it only switches receive interrupts off. */
  lemma FullTakesNothing(rx: Rx, words: seq<DataWord>)
    requires Indices(rx) && Full(rx)
    ensures ExactWords(rx, words) <==> words == []
    ensures Fill(rx, ASSUMED, []) == rx.(re := false)
  {}

  // ----- When receive interrupts are off -----

  /** Receive interrupts are on, or the ring is full, or some call with bytes in hand will turn them on. */
  ghost predicate Recoverable(rx: Rx)
    requires Indices(rx)
  {
    rx.re || Full(rx) || rx.reenabling > 0 || (rx.reader.Reading? && rx.reader.call.got != [])
  }

  /** A word without data that nevertheless reports bytes available. */
  predicate Misleading(word: DataWord) { !word.valid && word.avail != 0 }

  lemma {:induction false} FillRecoverable(rx: Rx, last: DataWord, words: seq<DataWord>)
    requires Inv(rx) && Recoverable(rx) && ExactWords(rx, words)
    requires forall w :: w in words ==> !Misleading(w)
    ensures Inv(Fill(rx, last, words)) && Recoverable(Fill(rx, last, words))
    decreases |words|
  {
    if !Full(rx) && words[0].valid {
      var rx' := Receive(rx, words[0].byte);
      ReceiveKeeps(rx, words[0].byte);
      FillRecoverable(rx', words[0], words[1..]);
    } else if !Full(rx) {
      assert !Misleading(words[0]);
    }
  }

  lemma ReaderRecoverable(rx: Rx, host: Host)
    requires Inv(rx) && rx.reader.Reading? && Recoverable(rx)
    ensures Inv(ReaderStep(rx, host)) && Recoverable(ReaderStep(rx, host))
  {
    ReaderKeeps(rx, host);
  }

  lemma {:induction false} FillUsed(rx: Rx, last: DataWord, words: seq<DataWord>)
    requires Indices(rx) && ExactWords(rx, words)
    ensures var rx' := Fill(rx, last, words);
            && Indices(rx') && rx'.out == rx.out && rx'.reader == rx.reader
            && Used(BUF_LEN, rx'.out, rx'.inn) == Used(BUF_LEN, rx.out, rx.inn) + |ValidBytes(words)|
    decreases |words|
  {
    if !Full(rx) {
      if words[0].valid {
        FillUsed(Receive(rx, words[0].byte), words[0], words[1..]);
      } else {
        assert words[1..] == [];
      }
    }
  }

  /**
   A reader that waits in vain has an empty ring, with receive interrupts on or an enable to come, and a
   pass that takes a byte lets it go on.
   */
  lemma SpinningReaderIsServed(rx: Rx, host: Host, words: seq<DataWord>)
    requires Inv(rx) && Recoverable(rx) && rx.reader.Reading? && rx.reader.pc.RSpin? && ExactWords(rx, words)
    ensures ReaderStep(rx, host) == rx ==> rx.out == rx.inn && (rx.re || rx.reenabling > 0)
    ensures var rx' := Fill(rx, ASSUMED, words);
            && Inv(rx') && rx'.reader == rx.reader
            && (ReaderStep(rx, host) == rx && ValidBytes(words) != [] ==>
                  ReaderStep(rx', host).reader == Reading(rx.reader.call, RSpun(rx.reader.pc.inn)))
  {
    FillKeeps(rx, ASSUMED, words);
    FillUsed(rx, ASSUMED, words);
  }
}
