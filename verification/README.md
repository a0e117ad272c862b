# Synesthesia Moksha: verified models

Dafny models of the parts of Synesthesia Moksha that carry the most reasoning, with proofs. A modelled
routine that loops over mutable state is an imperative method here, proved against a specification, and
the theorems about the specification hold for all inputs and all runs.

- **FFT** (`Rings`, `Fourier`, `ComplexNumbers`, `Fft`, `Twiddles`, `RootInstances`). The recursive
  transform over strided views of two buffers that swap roles at every level equals the plain DFT; the
  inverse undoes it in both directions; real inputs give conjugate-symmetric spectra; power is conserved.
  Arithmetic is exact, over pairs of reals. The library's cosine and sine are parameters; that they give the
  powers of a principal root follows from the addition formulas and the value -1 at half of the turn that
  the code divides, and is met for N = 4 by an explicit instance; the theorems over rings also have one
  for N = 16, the integers modulo 17.
- **JTAG UART driver** (`RingBuffers`, `JtagTransmit`, `JtagReceive`, `JtagUart`, `JtagDriver`). A step
  system in which writer and reader substeps (snapshot, copy of each single byte, publication, enable)
  interleave with interrupt passes and the host timer in any order, with register reads unconstrained;
  and the driver routines themselves, each proved to continue the run of that system.
- **Avalon UART driver** (`UartTransmit`, `UartDriver`, `UartReceive`). The same for the other UART's
  transmit half, without flow control, with any number of calls that have released the lock and still have
  to enable interrupts; and for its receive half, exactly which runs lose bytes.
- **Alarms** (`Options`, `Alarms`, `AlarmScheduler`). The 32-bit tick counter, due times and rollover flags refine a
  scheduler over an unbounded clock. The scheduler object records its history, to which the theorems apply.
- **File descriptors** (`FileDescriptors`, `FdPool`). Allocation, exclusive locks and redirection over
  every history of calls from start-up.
- **Printing** (`IntegerPrinting`, `LogFormat`). Integer conversions read back as the value printed, and
  the format machine reads back as the list of items a format was written for.
- **Time of day** (`TimeOfDay`). Elapsed time, and exactly when set-then-get and monotonicity hold.
- **CEA data blocks** (`Octets`, `HdmiVendor`, `CeaBlocks`, `CeaDecoder`). The block walk of the EDID
  decoder undoes the encoding of section 7.5 of CEA-861-D, HDMI vendor blocks and extended blocks
  included, and stays in bounds exactly on the blocks described.

`dafny verify dfyconfig.toml` checks the whole project.

## How to read it

Concurrency is modelled by traces: a trace is a start state followed by any sequence of enabled steps, and
the theorems quantify over all traces. Where a step would index outside a buffer a trace says nothing
about what follows, and the invariants show that this never happens. In `JtagDriver` and `UartDriver` a
call to `Interrupts` stands between every two accesses to shared state, and the ghost field `trace` is the
run so far; every routine ensures that the new run extends the old one.

Where code and comments disagree the models follow the code:

- `alt_fd_lock` promises that no other descriptor refers to the device; its scan stops before the
  high-water mark, so this holds exactly under the condition of `GrantIsExclusiveIff`.
- The same comment says that closing the holder releases the lock; for the standard descriptors it does
  not, as `CloseReleasesLockIff` states.
- `alt_fcntl` refuses only negative descriptors, so flags can be set on a free slot. Free slots are then
  not clear and a failed open does not restore the one it tried: `ApplyClearIff`, `FailedOpenRestoresIff`.
- `settimeofday` promises that an immediate `gettimeofday` returns the value set; one multiplies in 32
  bits and the other in 64, so this holds exactly under the condition of `SetThenGetIff`.
- An alarm request of 2^32 - 1 ticks is exact only under the condition of `StartIsExactIff`.
- The JTAG interrupt routine takes RAVAIL to mean a full ring even on a word without RVALID;
  `RecoverableIffHonest` states what that requires of the device.
- A comment in `altera_avalon_uart_rxirq` says that interrupts are off while the ring is full and are enabled
  again when data is removed. A read also enables them when the ring has filled again, and the handler takes
  a ready byte even while they are off; either way the whole ring is discarded: `NothingLostIff`,
  `ReenableOverruns`, `SharedInterruptOverruns`.
- The vendor case of the EDID decoder reads its fields whatever the block's length, and its list of 3D
  formats can be longer than the sixteen slots: `SeventeenFormatsFail`, `TruncatedVendorFails`.
  `VendorInBoundsIff` says on which blocks it stays in bounds; the results of the walk are stated for those.
- A JTAG write of zero bytes returns -EIO or -EWOULDBLOCK, as does a read into an empty buffer.

## Model

| member | source | states |
|---|---|---|
| `Fft.FftRec` | wxp/verif/tb/dpi/fft.c:56-103 | for every power of two N, stride, offset and initial scratch, X at the strided positions is the plain DFT of x at those positions, x is unchanged, and X and XX change nowhere else |
| `Fft.HalfTransforms` | wxp/verif/tb/dpi/fft.c:67-71 | after the two half-size calls with swapped buffers both half spectra are in XX: the second call has not disturbed the first one's results |
| `Fft.HalvesApart` | wxp/verif/tb/dpi/fft.c:70-71 | changes confined to the even and then the odd half of a stride are confined to the stride, and the second spares what the first wrote |
| `Fft.Combine` | wxp/verif/tb/dpi/fft.c:73-88 | the butterfly loop turns two half spectra in XX into the full spectrum in X, in place and only on the stride |
| `Fft.ButterflyIndices` | wxp/verif/tb/dpi/fft.c:76-77 | the four index formulas address entry k and k + N/2 of the stride and entry k of its even and odd halves |
| `Fft.SpectrumButterflies` | wxp/verif/tb/dpi/fft.c:73-88 | with exact twiddles, one butterfly stage over the half spectra is the full spectrum |
| `Fft.TwoPointFft` | wxp/verif/tb/dpi/fft.c:90-99 | the base case is the two-point DFT on the stride, and nothing else changes |
| `Fft.Fft` | wxp/verif/tb/dpi/fft.c:43-53 | the first N entries of X are the DFT of x, the rest is unchanged |
| `Fft.SwapAndScale` | wxp/verif/tb/dpi/fft.c:114-121 | the swap loop leaves entry j as old entry N - j (0 for 0) divided by N, the middle entry included |
| `Fft.MirroredIsInverse` | wxp/verif/tb/dpi/fft.c:112-121 | a mirrored and scaled forward transform is the inverse transform, at the conjugate root |
| `Fft.Ifft` | wxp/verif/tb/dpi/fft.c:106-122 | x is the inverse DFT of X, which is unchanged |
| `Fft.TransformAndBack` | wxp/verif/tb/dpi/fft.c:43-122 | ifft of fft is the input, exactly, for every power of two N and every x |
| `Fft.BackAndTransform` | wxp/verif/tb/dpi/fft.c:43-122 | fft of ifft is the given spectrum, exactly |
| `Fft.CalcFft` | wxp/verif/tb/dpi/syn_dpi.c:238-276 | the real and imaginary outputs are the DFT of the packed real samples, and output N - k is the conjugate of output k |
| `Fft.RealSpectrum` | wxp/verif/tb/dpi/syn_dpi.c:251-259 | the spectrum of a real signal is conjugate symmetric |
| `Fft.PowerConserved` | wxp/verif/tb/dpi/fft.c:43-103 | Parseval: the power of the spectrum is exactly N times the power of the input |
| `Twiddles.CircularIsExact` | wxp/verif/tb/dpi/fft.c:34-80 | for any cosine and sine with the addition formulas and the value -1 at half of the turn the code divides, the hypotheses on the twiddle factors hold for every power of two, at the root cos(turn/N) - i sin(turn/N) |
| `Twiddles.SpectrumByAngles` | wxp/verif/tb/dpi/fft.c:43-103 | with such a library output k is the sum over j of x[j] (cos(turn j k / N) - i sin(turn j k / N)) |
| `Twiddles.SamplesByAngles` | wxp/verif/tb/dpi/syn_dpi.c:238-276 | of real samples the outputs are the correlations with the cosine and, negated, with the sine |
| `Twiddles.FirstTwiddle` | wxp/verif/tb/dpi/fft.c:34-80 | for any sine between the first two partial sums of its power series and any N from 8 on, the first twiddle factor is a turn by 2 pi / N, to eight digits |
| `Fourier.Butterfly` | wxp/verif/tb/dpi/fft.c:73-84 | over any commutative ring, entries k and k + N/2 of the DFT are the sum and difference of the half-size entries, the second rotated by w^k |
| `Fourier.RootSum` | wxp/verif/tb/dpi/fft.c:106-122 | the powers of a principal root to a non-multiple of N sum to zero, which the inverse relies on |
| `Fourier.TwiceTransformed` | wxp/verif/tb/dpi/fft.c:112-121 | transforming twice gives N times the mirrored input, the reciprocity the inverse uses |
| `Fourier.InverseAfterForward` | wxp/verif/tb/dpi/fft.c:106-122 | over any commutative ring with 1/N the inverse sum undoes the forward sum |
| `Fourier.ForwardAfterInverse` | wxp/verif/tb/dpi/fft.c:106-122 | and the forward sum undoes the inverse sum |
| `Fourier.EnergyConserved` | wxp/verif/tb/dpi/fft.c:43-103 | the inner product of a spectrum with its conjugate is N times that of the input, over any ring with a conjugation |
| `RootInstances.FourPointsExact` | wxp/verif/tb/dpi/fft.c:78-80 | over the complex numbers the hypotheses on the root and on cosine and sine hold for N = 4 with w = -i |
| `RootInstances.SixteenPointsInvert` | wxp/verif/tb/dpi/fft.c:106-122 | over the integers modulo 17, 3 is a principal sixteenth root, and forward and inverse sums undo each other on every sequence of 16 |
| `JtagTransmit.CopySparesUnsent` | wxp/dgn/sw/limbus_bsp/drivers/src/altera_avalon_jtag_uart_write.c:105-122 | however stale the snapshot of the out index, a copied byte never lands in a slot that holds an unsent byte |
| `JtagTransmit.WriterKeeps` | wxp/dgn/sw/limbus_bsp/drivers/src/altera_avalon_jtag_uart_write.c:100-191 | every writer substep keeps: sent bytes, then the ring, equal the bytes accepted; and a non-empty ring with WE off has bytes published and not yet kicked |
| `JtagTransmit.DrainKeeps` | wxp/dgn/sw/limbus_bsp/drivers/src/altera_avalon_jtag_uart_init.c:174-194 | a write-interrupt pass of any size keeps the same |
| `JtagTransmit.DrainSends` | wxp/dgn/sw/limbus_bsp/drivers/src/altera_avalon_jtag_uart_init.c:174-184 | a pass sends the first min(space, used) bytes of the ring, in order |
| `JtagTransmit.DrainDisables` | wxp/dgn/sw/limbus_bsp/drivers/src/altera_avalon_jtag_uart_init.c:186-194 | a pass clears WE if and only if the device had room for more than the ring held |
| `JtagTransmit.ResultIsOwnCount` | wxp/dgn/sw/limbus_bsp/drivers/src/altera_avalon_jtag_uart_write.c:199-214 | a call returns a count if and only if bytes of it were accepted, and then exactly their number; otherwise the error of its mode |
| `JtagTransmit.IdleStream` | wxp/dgn/sw/limbus_bsp/drivers/src/altera_avalon_jtag_uart_write.c:197-214 | with no writer the bytes reported are those sent followed by the ring |
| `JtagReceive.ReaderKeeps` | wxp/dgn/sw/limbus_bsp/drivers/src/altera_avalon_jtag_uart_read.c:115-195 | every reader substep keeps: bytes delivered, then the ring, equal the bytes taken from the device |
| `JtagReceive.FillKeeps` | wxp/dgn/sw/limbus_bsp/drivers/src/altera_avalon_jtag_uart_init.c:132-166 | a read-interrupt pass over any device words keeps the same |
| `JtagReceive.FillTakes` | wxp/dgn/sw/limbus_bsp/drivers/src/altera_avalon_jtag_uart_init.c:132-154 | a pass takes exactly the bytes of the valid words, in order, none lost and none twice |
| `JtagReceive.FullTakesNothing` | wxp/dgn/sw/limbus_bsp/drivers/src/altera_avalon_jtag_uart_init.c:134-139 | with a full ring a pass reads no word at all and only switches RE off |
| `JtagReceive.ResultIsOwnCount` | wxp/dgn/sw/limbus_bsp/drivers/src/altera_avalon_jtag_uart_read.c:197-202 | a call returns a count if and only if it holds bytes, and then their number, which fits its buffer; otherwise the error of its mode |
| `JtagReceive.FillRecoverable` | wxp/dgn/sw/limbus_bsp/drivers/src/altera_avalon_jtag_uart_init.c:156-166 | on words that do not mislead, RE off after a pass means a full ring or a reader that will turn it on |
| `JtagUart.RunHolds` | wxp/dgn/sw/limbus_bsp/drivers/src/altera_avalon_jtag_uart_init.c:117-196 | every state of every interleaving of writer, reader, interrupt and timer steps satisfies both halves' invariants and keeps the control register equal to the shadow |
| `JtagUart.TransmitIsFifo` | wxp/dgn/sw/limbus_bsp/drivers/src/altera_avalon_jtag_uart_write.c:100-139 | in every interleaving, bytes stored to DATA, then the ring, equal the bytes the calls reported, in order, then those of the current call |
| `JtagUart.ReceiveIsFifo` | wxp/dgn/sw/limbus_bsp/drivers/src/altera_avalon_jtag_uart_read.c:119-142 | in every interleaving, bytes handed to readers, then the ring, equal the valid bytes taken |
| `JtagUart.NothingStranded` | wxp/dgn/sw/limbus_bsp/drivers/src/altera_avalon_jtag_uart_init.c:174-194 | in every reachable state a non-empty transmit ring with WE off means a writer has published and has its enable step to come |
| `JtagUart.CopiesSpareUnsent` | wxp/dgn/sw/limbus_bsp/drivers/inc/altera_avalon_jtag_uart.h:105-108 | no interleaving lets a copy touch an unsent byte, so the copies need no critical section |
| `JtagUart.BlockedWriterIsServed` | wxp/dgn/sw/limbus_bsp/drivers/src/altera_avalon_jtag_uart_write.c:183-188 | in every run a writer waiting in vain for space has a full ring, WE on and the host within its limit, and one write pass with any space lets it go on |
| `JtagUart.BlockedReaderIsServed` | wxp/dgn/sw/limbus_bsp/drivers/src/altera_avalon_jtag_uart_read.c:173-178 | on a device that never misleads, a reader waiting in vain for data has an empty ring, the host within its limit and RE on or an enable to come, and one read pass that takes a byte lets it go on |
| `JtagUart.PassesDrain` | wxp/dgn/sw/limbus_bsp/drivers/src/altera_avalon_jtag_uart_init.c:174-194 | once no writer is under way, whatever readers, timer and device do: WE is on while bytes wait, the ring shrinks by the write space the passes report, and everything reported has been sent if and only if that space adds up to the bytes that waited |
| `JtagUart.ExtendsGrows` | wxp/dgn/sw/limbus_bsp/drivers/src/altera_avalon_jtag_uart_init.c:117-196 | however a run is continued, nothing sent, reported, taken or handed over is taken back |
| `JtagUart.ShortWritesHaveReasons` | wxp/dgn/sw/limbus_bsp/drivers/src/altera_avalon_jtag_uart_write.c:100-191 | in every run a write call ends short only if the ring was full at some time since it began; a blocking one only if the host was inactive at some time since, and with the ring still full only if the host had reached its limit |
| `JtagUart.ShortReadsHaveReasons` | wxp/dgn/sw/limbus_bsp/drivers/src/altera_avalon_jtag_uart_read.c:115-184 | in every run a read call returns with room left only if the ring was empty at some time since it began, and a blocking one with nothing only if the host had reached its limit at some time since |
| `JtagUart.EnablesMatchReads` | wxp/dgn/sw/limbus_bsp/drivers/src/altera_avalon_jtag_uart_read.c:186-195 | in every run the calls that handed over bytes turn RE on, once each, and no others do |
| `JtagUart.InactiveCountsIdleTicks` | wxp/dgn/sw/limbus_bsp/drivers/src/altera_avalon_jtag_uart_init.c:203-225 | in every run host_inactive is the number of timer ticks without activity since the last one with activity, up to INT_MAX - 2 |
| `JtagUart.RunRecoverable` | wxp/dgn/sw/limbus_bsp/drivers/src/altera_avalon_jtag_uart_read.c:186-195 | on a device that never reports bytes available without data, RE off always means a full ring or a reader with bytes in hand or yet to enable |
| `JtagUart.MisledShutsOff` | wxp/dgn/sw/limbus_bsp/drivers/src/altera_avalon_jtag_uart_init.c:146-166 | one word without RVALID but with RAVAIL switches receiving off with an empty ring and no reader |
| `JtagUart.RecoverableIffHonest` | wxp/dgn/sw/limbus_bsp/drivers/src/altera_avalon_jtag_uart_init.c:146-166 | receiving is never shut off for good, in any run, if and only if the device never returns such a word |
| `JtagDriver.Driver.constructor` | wxp/dgn/sw/limbus_bsp/drivers/src/altera_avalon_jtag_uart_init.c:66-100 | start-up with RE enabled begins a run |
| `JtagDriver.Driver.ReceivePass` | wxp/dgn/sw/limbus_bsp/drivers/src/altera_avalon_jtag_uart_init.c:125-167 | the in-place receive loop and the RE update continue the run by one read pass |
| `JtagDriver.Driver.TransmitPass` | wxp/dgn/sw/limbus_bsp/drivers/src/altera_avalon_jtag_uart_init.c:169-195 | the in-place transmit loop and the WE update continue the run by one write pass |
| `JtagDriver.Driver.HostCheck` | wxp/dgn/sw/limbus_bsp/drivers/src/altera_avalon_jtag_uart_init.c:203-225 | the timeout routine continues the run by one timer step |
| `JtagDriver.Driver.Interrupts` | wxp/dgn/sw/limbus_bsp/drivers/src/altera_avalon_jtag_uart_init.c:106-225 | any number of interrupts of any kind continue the run and leave the foreground its own part of the state |
| `JtagDriver.Driver.CopyChunk` | wxp/dgn/sw/limbus_bsp/drivers/src/altera_avalon_jtag_uart_write.c:122-126 | byte-by-byte copy with interrupts in between, then publication of the chunk, as a continuation of the run |
| `JtagDriver.Driver.FillRing` | wxp/dgn/sw/limbus_bsp/drivers/src/altera_avalon_jtag_uart_write.c:103-127 | copies until all bytes are in or the ring was seen full, as a continuation of the run |
| `JtagDriver.Driver.Write` | wxp/dgn/sw/limbus_bsp/drivers/src/altera_avalon_jtag_uart_write.c:83-215 | the call continues the run, takes back no byte stored to DATA, and its result counts the leading bytes of its data that it added to the reported stream; unless the ring was full during the call that is all of them, and for a blocking call unless the host was inactive; it waits only for a full ring |
| `JtagDriver.Driver.DrainRing` | wxp/dgn/sw/limbus_bsp/drivers/src/altera_avalon_jtag_uart_read.c:120-142 | reads until the buffer is full or the ring was seen empty, as a continuation of the run |
| `JtagDriver.Driver.Read` | wxp/dgn/sw/limbus_bsp/drivers/src/altera_avalon_jtag_uart_read.c:100-203 | the call continues the run; the bytes in its buffer are what it added to the delivered stream, and its result is their number or the error of its mode; the buffer is full unless the ring was empty during the call, and a blocking call has something unless the host was gone |
| `JtagDriver.Driver.Close` | wxp/dgn/sw/limbus_bsp/drivers/src/altera_avalon_jtag_uart_init.c:241-254 | continues the run; returns 0 if and only if every reported byte has been stored to DATA or the host is gone, else -EWOULDBLOCK or waits, as its mode says |
| `UartTransmit.StepKeeps` | wxp/dgn/sw/limbus_bsp/drivers/src/altera_avalon_uart_init.c:206-283 | every step keeps: stored bytes, then the ring, equal the bytes accepted; and a non-empty ring with TRDY off has an enable step to come; enabling sets both bits and an interrupt that empties the ring clears both |
| `UartTransmit.TransmitIsFifo` | wxp/dgn/sw/limbus_bsp/drivers/src/altera_avalon_uart_write.c:152-207 | in every interleaving, bytes stored to TXDATA, then the ring, equal the bytes reported, then those of the current call, and at most 63 wait |
| `UartTransmit.NothingStranded` | wxp/dgn/sw/limbus_bsp/drivers/src/altera_avalon_uart_init.c:271-283 | a non-empty ring with TRDY off means a call is past the lock with its enable to come, or a writer has published and is not waiting |
| `UartTransmit.BlockedWriterIsServed` | wxp/dgn/sw/limbus_bsp/drivers/src/altera_avalon_uart_write.c:171-197 | a writer that finds no space has TRDY on and 63 bytes ahead of it, and one transmit interrupt lets it go on |
| `UartTransmit.InterruptsDrain` | wxp/dgn/sw/limbus_bsp/drivers/src/altera_avalon_uart_init.c:206-283 | once no call is under way TRDY is on while bytes wait, and that many interrupts send everything reported and leave TRDY off |
| `UartTransmit.ExtendsGrows` | wxp/dgn/sw/limbus_bsp/drivers/src/altera_avalon_uart_init.c:206-283 | however a run is continued, nothing sent or reported is taken back |
| `UartTransmit.RefusalsHaveReasons` | wxp/dgn/sw/limbus_bsp/drivers/src/altera_avalon_uart_write.c:165-197 | in every run a call waits, or is refused, only if the ring was full at some time since it began |
| `UartTransmit.StoreSparesUnsent` | wxp/dgn/sw/limbus_bsp/drivers/src/altera_avalon_uart_write.c:201-206 | a store only fills a free slot |
| `UartTransmit.ResultIsOwnCount` | wxp/dgn/sw/limbus_bsp/drivers/src/altera_avalon_uart_write.c:209-229 | a call ends with all its bytes accepted, or non-blocking with fewer and errno raised; the count is its own |
| `UartDriver.Driver.TransmitIrq` | wxp/dgn/sw/limbus_bsp/drivers/src/altera_avalon_uart_init.c:206-283 | the in-place routine without flow control continues the run by one interrupt step |
| `UartDriver.Driver.Write` | wxp/dgn/sw/limbus_bsp/drivers/src/altera_avalon_uart_write.c:123-230 | the call continues the run, takes back no byte stored to TXDATA, and its result counts the bytes it added to the reported stream and is short exactly when EWOULDBLOCK is raised, which needs a full ring and a non-blocking call |
| `UartDriver.Driver.Close` | wxp/dgn/sw/limbus_bsp/drivers/src/altera_avalon_uart_init.c:298-310 | continues the run; returns 0 if and only if every reported byte has been stored to TXDATA, else -EWOULDBLOCK or waits, as its mode says |
| `UartReceive.ReceiveKeepsIff` | wxp/dgn/sw/limbus_bsp/drivers/src/altera_avalon_uart_init.c:153-198 | the receive interrupt keeps every unread byte in order if and only if the ring is not full when it is called |
| `UartReceive.OverrunLoses` | wxp/dgn/sw/limbus_bsp/drivers/src/altera_avalon_uart_init.c:178-184 | on a full ring it empties the ring: all 63 bytes waiting and the new one are lost |
| `UartReceive.NothingLostIff` | wxp/dgn/sw/limbus_bsp/drivers/src/altera_avalon_uart_read.c:157-229 | in every interleaving of readers, enable steps and interrupts, bytes read, then the ring, equal the bytes taken in every state if and only if no byte ever comes when the ring is full |
| `UartReceive.MaskedKeeps` | wxp/dgn/sw/limbus_bsp/drivers/src/altera_avalon_uart_init.c:188-197 | with interrupts only while RRDY is on, nothing is lost as long as no call enables it on a full ring |
| `UartReceive.ReenableOverruns` | wxp/dgn/sw/limbus_bsp/drivers/src/altera_avalon_uart_read.c:219-229 | a run with such interrupts that loses bytes: the ring fills between a call's release of the lock and its enable step |
| `UartReceive.SharedInterruptOverruns` | wxp/dgn/sw/limbus_bsp/drivers/src/altera_avalon_uart_init.c:122-134 | a run without any call that loses bytes: the handler takes a byte that is ready even while RRDY interrupts are off, as on a transmit interrupt |
| `UartReceive.CallsReturnRightly` | wxp/dgn/sw/limbus_bsp/drivers/src/altera_avalon_uart_read.c:157-238 | in every run, lossy ones included, a call returns at most what it asked for; only a non-blocking one is refused, with nothing; others return something if they asked for any |
| `UartReceive.StopsCopyingIff` | wxp/dgn/sw/limbus_bsp/drivers/src/altera_avalon_uart_read.c:164-186 | a call stops copying if and only if its buffer is full or the ring is empty, and is refused only on an empty ring |
| `UartReceive.Receiver.ReceiveIrq` | wxp/dgn/sw/limbus_bsp/drivers/src/altera_avalon_uart_init.c:153-198 | the in-place routine is one receive interrupt step, data with a parity or framing error discarded |
| `Alarms.StartedIsDue` | wxp/dgn/sw/limbus_bsp/HAL/src/alt_alarm_start.c:78-96 | due time and rollover flag stand for tick now + nticks + 1 of an unbounded clock, for nticks up to 2^32 - 2 |
| `Alarms.TickIsExact` | wxp/dgn/sw/limbus_bsp/HAL/src/alt_tick.c:96-115 | at each tick the 32-bit comparison holds if and only if the alarm is due then, and otherwise the flag still says in which epoch it is due |
| `Alarms.RearmedIsDue` | wxp/dgn/sw/limbus_bsp/HAL/src/alt_tick.c:125-138 | an alarm rearmed after a call stands for exactly the returned interval later |
| `Alarms.TickRefines` | wxp/dgn/sw/limbus_bsp/HAL/src/alt_tick.c:87-148 | a tick over the whole list calls, keeps and removes the same alarms as the unbounded reference |
| `Alarms.RunRefines` | wxp/dgn/sw/limbus_bsp/HAL/src/alt_tick.c:66-148 | so does any run of starts of up to 2^32 - 2 ticks, stops and ticks, over any number of wraps |
| `Alarms.TickPerAlarm` | wxp/dgn/sw/limbus_bsp/HAL/src/alt_tick.c:100-141 | whatever else is in the list, a tick calls an alarm once if it is due and not at all otherwise, removes it if and only if its callback then returns zero, and its 32-bit fields stand for its next due tick |
| `Alarms.RunSchedule` | wxp/dgn/sw/limbus_bsp/HAL/src/alt_tick.c:87-148 | in every run that leaves an alarm alone, the log holds exactly the calls of its schedule, one each, from whatever due tick its fields stand for |
| `Alarms.AlarmsAreExact` | wxp/dgn/sw/limbus_bsp/HAL/src/alt_tick.c:96-141 | in every run, whatever other alarms are started and for how long, an alarm started for up to 2^32 - 2 ticks is called at T + nticks + 1 and then exactly at the intervals its callback returns: never early, late, skipped or twice |
| `Alarms.StoppedIsSilent` | wxp/dgn/sw/limbus_bsp/HAL/src/alt_tick.c:66-141 | a stopped alarm is never called again, in any run that does not start it again, whatever other alarms do |
| `Alarms.HistoryIsExact` | wxp/dgn/sw/limbus_bsp/HAL/src/alt_tick.c:66-148 | the same exactness for any one start within any history of starts, stops and ticks from start-up, other alarms unrestricted |
| `Alarms.HistoryIsSilent` | wxp/dgn/sw/limbus_bsp/HAL/src/alt_tick.c:66-148 | and the same silence for any stop within such a history |
| `Alarms.StartIsExactIff` | wxp/dgn/sw/limbus_bsp/HAL/src/alt_alarm_start.c:80-96 | the first call of a request of nticks is exact if and only if nticks is below 2^32 - 1 or the request is made at the last tick before a wrap |
| `Alarms.LongestIsEarly` | wxp/dgn/sw/limbus_bsp/HAL/src/alt_alarm_start.c:80-96 | at every other tick a request of 2^32 - 1 is called at the very next one |
| `AlarmScheduler.Scheduler.Start` | wxp/dgn/sw/limbus_bsp/HAL/src/alt_alarm_start.c:64-112 | fills the alarm and puts it at the head of the list, which is one start step of the recorded history; reports a missing clock or alarm and then changes nothing |
| `AlarmScheduler.Scheduler.Process` | wxp/dgn/sw/limbus_bsp/HAL/src/alt_tick.c:104-139 | the in-place step on one alarm: whether it is called, and its new fields or removal |
| `AlarmScheduler.Scheduler.Tick` | wxp/dgn/sw/limbus_bsp/HAL/src/alt_tick.c:87-148 | the list walk leaves exactly the alarms of the specified tick, in order, and calls exactly the specified ones, which is one tick step of the recorded history |
| `AlarmScheduler.Scheduler.Stop` | wxp/dgn/sw/limbus_bsp/HAL/src/alt_tick.c:66-73 | removes exactly the alarm, which is one stop step of the recorded history |
| `FileDescriptors.InitialHolds` | wxp/dgn/sw/limbus_bsp/HAL/src/alt_dev.c:118-149 | the table at start-up has three standard slots on the null device and 29 free and clear ones, and satisfies the invariant |
| `FileDescriptors.OpenTakesLowestFree` | wxp/dgn/sw/limbus_bsp/HAL/src/alt_get_fd.c:77-89 | a successful open returns the lowest free slot, never in use and never 0 to 2, and leaves the others alone |
| `FileDescriptors.OpenResult` | wxp/dgn/sw/limbus_bsp/HAL/src/alt_open.c:105-171 | an open fails with ENODEV without a device, EMFILE if all slots are in use, EACCES if and only if some descriptor holds the lock on the device, or the driver's error, in this order; otherwise the new slot has the device, the caller's flags, the device bit and no lock |
| `FileDescriptors.FailedOpenRestoresIff` | wxp/dgn/sw/limbus_bsp/HAL/src/alt_open.c:159-166 | a failed open restores every device, and the whole table if and only if no device was found or the slot it tried carried no flags; otherwise it clears just those |
| `FileDescriptors.ApplyClearIff` | wxp/dgn/sw/limbus_bsp/HAL/src/alt_fcntl.c:78-92 | a call keeps free slots clear of flags if and only if it is not a flag update that sets a bit on a free descriptor |
| `FileDescriptors.TidyOpensRestore` | wxp/dgn/sw/limbus_bsp/HAL/src/alt_open.c:159-166 | in every history without such an update free slots have no flags and every failed open leaves every slot as it was |
| `FileDescriptors.MarkedSlotIsNotRestored` | wxp/dgn/sw/limbus_bsp/HAL/src/alt_fcntl.c:86-92 | a history from start-up with such an update, after which a failed open does not restore the slot |
| `FileDescriptors.LockedOpenFails` | wxp/dgn/sw/limbus_bsp/HAL/src/alt_open.c:64-92 | every open of a locked device fails |
| `FileDescriptors.OpenKeeps` | wxp/dgn/sw/limbus_bsp/HAL/src/alt_open.c:105-171 | open keeps: allocated slots lie at or below the high-water mark, free ones carry neither the lock nor the device bit, at most one holder per device, and a holder with sharers lies strictly below the mark |
| `FileDescriptors.LockKeeps` | wxp/dgn/sw/limbus_bsp/HAL/src/alt_fd_lock.c:54-75 | so does the lock request, although its scan stops short of the mark |
| `FileDescriptors.RedirectKeeps` | wxp/dgn/sw/limbus_bsp/HAL/src/alt_io_redirect.c:58-72 | so does copying a descriptor into a standard slot |
| `FileDescriptors.RedirectEffects` | wxp/dgn/sw/limbus_bsp/HAL/src/alt_io_redirect.c:58-72 | after a redirection the standard slot has the opened device and the caller's flags, the slot used is free and clear, all others are unchanged; a failed one changes no device; the next open uses the same slot |
| `FileDescriptors.FirstOpenReturnsThree` | wxp/dgn/sw/limbus_bsp/HAL/src/alt_io_redirect.c:85-94 | however the three start-up redirections go, the first open after them returns 3 or its driver's error |
| `FileDescriptors.SetFlagsKeeps` | wxp/dgn/sw/limbus_bsp/HAL/src/alt_fcntl.c:86-92 | a flag update on any descriptor, in use or not, sets just its append and non-blocking bits to the given values and keeps the invariant |
| `FileDescriptors.ReleaseKeeps` | wxp/dgn/sw/limbus_bsp/HAL/src/alt_release_fd.c:44-51 | so does release |
| `FileDescriptors.HistoryHolds` | wxp/dgn/sw/limbus_bsp/HAL/src/alt_fd_lock.c:54-75 | the invariant holds after every sequence of open, close, lock, unlock, flag update (on any descriptor) and redirect |
| `FileDescriptors.LocksAreExclusive` | wxp/dgn/sw/limbus_bsp/HAL/src/alt_fd_lock.c:54-75 | after every such sequence at most one descriptor per device holds the lock and every open of its device fails |
| `FileDescriptors.GrantIsExclusiveIff` | wxp/dgn/sw/limbus_bsp/HAL/src/alt_fd_lock.c:61-69 | a granted lock excludes every other descriptor if and only if the slot at the mark is not another one of the device |
| `FileDescriptors.SharedLockIsGranted` | wxp/dgn/sw/limbus_bsp/HAL/src/alt_fd_lock.c:61-69 | two opens of one device from start-up after which the lower descriptor is granted the lock |
| `FileDescriptors.CloseReleasesLockIff` | wxp/dgn/sw/limbus_bsp/HAL/src/alt_release_fd.c:44-51 | closing a holder releases the lock, so that the device can be opened again, if and only if it is not one of the standard descriptors |
| `FileDescriptors.UnlockReleases` | wxp/dgn/sw/limbus_bsp/HAL/src/alt_fd_unlock.c:52-56 | an unlock by the holder clears just its lock bit, and the device can then be opened if and only if a slot is free and the driver agrees |
| `FileDescriptors.LockAndUnlock` | wxp/dgn/sw/limbus_bsp/HAL/src/alt_fd_lock.c:54-75 | a refused lock request is -EACCES, changes nothing and the device is shared; a granted one sets just the lock bit, and an unlock restores the table |
| `FileDescriptors.LockOutlivesClose` | wxp/dgn/sw/limbus_bsp/HAL/src/alt_fd_lock.c:43-50 | standard output redirected, locked and closed, after which the device stays locked |
| `FdPool.Pool.GetFd` | wxp/dgn/sw/limbus_bsp/HAL/src/alt_get_fd.c:54-101 | the scan loop claims the first free slot and raises the mark, or reports -EMFILE |
| `FdPool.Pool.FileLocked` | wxp/dgn/sw/limbus_bsp/HAL/src/alt_open.c:64-92 | the scan finds a holder other than the descriptor itself, up to and including the mark |
| `FdPool.Pool.OpenDev` | wxp/dgn/sw/limbus_bsp/HAL/src/alt_open.c:105-171 | the call computes the specified table and result, on every path |
| `FdPool.Pool.FdLock` | wxp/dgn/sw/limbus_bsp/HAL/src/alt_fd_lock.c:54-75 | the scan below the mark decides as specified |
| `FdPool.Pool.Ioctl` | wxp/dgn/sw/limbus_bsp/HAL/src/alt_ioctl.c:106-168 | only lock requests on device descriptors reach the lock code; every other one leaves the table alone and gets the driver's answer, -ENOTTY without an ioctl, or -EBADFD |
| `FdPool.Pool.SetFl` | wxp/dgn/sw/limbus_bsp/HAL/src/alt_fcntl.c:78-101 | F_SETFL replaces exactly the append and non-blocking flags of any descriptor, in use or not, or reports a bad one |
| `FdPool.Pool.Close` | wxp/dgn/sw/limbus_bsp/HAL/src/alt_close.c:64-101 | the slot is released whatever the driver answers, and the answer is reported |
| `FdPool.Pool.IoRedirect` | wxp/dgn/sw/limbus_bsp/HAL/src/alt_io_redirect.c:85-94 | the three redirections in the source's order; from start-up they lead to the table of which FirstOpenReturnsThree speaks |
| `IntegerPrinting.CountDigits` | wxp/dgn/sw/limbus_bsp/HAL/src/alt_log_printf.c:247-255 | the place value never overflows 32 bits and is the largest power of the base not above v; the count is the number of canonical digits |
| `IntegerPrinting.PrintDigits` | wxp/dgn/sw/limbus_bsp/HAL/src/alt_log_printf.c:281-296 | the digit loop prints the canonical digits: right value, no leading zero |
| `IntegerPrinting.CanonicalUnique` | wxp/dgn/sw/limbus_bsp/HAL/src/alt_log_printf.c:281-296 | a number has only one notation without leading zeros |
| `IntegerPrinting.PrintInteger` | wxp/dgn/sw/limbus_bsp/HAL/src/alt_log_printf.c:206-297 | for every 32-bit argument, sign mode, base, case, padding and width the output is the specified field and reads back as the argument's meaning, INT_MIN included |
| `IntegerPrinting.FieldReadsBack` | wxp/dgn/sw/limbus_bsp/HAL/src/alt_log_printf.c:257-296 | every field reads back as the number printed |
| `IntegerPrinting.FieldLength` | wxp/dgn/sw/limbus_bsp/HAL/src/alt_log_printf.c:257-279 | the field is max(width, digits and sign) long |
| `IntegerPrinting.FieldLooks` | wxp/dgn/sw/limbus_bsp/HAL/src/alt_log_printf.c:257-296 | a field consists of a sign and digits of the asked for case, with blanks only without the zero flag |
| `IntegerPrinting.FieldDetermines` | wxp/dgn/sw/limbus_bsp/HAL/src/alt_log_printf.c:206-297 | under one format equal fields mean equal arguments |
| `IntegerPrinting.RepChar` | wxp/dgn/sw/limbus_bsp/HAL/src/alt_log_printf.c:106-110 | prints r copies, none for a negative r |
| `IntegerPrinting.PrintHex` | wxp/dgn/sw/limbus_bsp/HAL/src/alt_printf.c:84-113 | alt_printf's %x prints what the log printf prints for %x without a width, and reads back as the argument |
| `LogFormat.ParseUndoesWriting` | wxp/dgn/sw/limbus_bsp/HAL/src/alt_log_printf.c:130-205 | for every list of literals and conversions, the format machine reads the format written for it as exactly that list |
| `LogFormat.IntegerDirectiveReadsBack` | wxp/dgn/sw/limbus_bsp/HAL/src/alt_log_printf.c:124-235 | letter by letter, for every argument, flag and width: %d and %i read back in decimal as the signed number, %u as the unsigned one, %o in octal, %x and %X in hexadecimal |
| `LogFormat.IntegerDirectiveLooks` | wxp/dgn/sw/limbus_bsp/HAL/src/alt_log_printf.c:164-296 | hexadecimal letters are capitals for %X and small otherwise; at least the width; no blanks with the zero flag, no leading zero without it |
| `LogFormat.TextDirectivePrints` | wxp/dgn/sw/limbus_bsp/HAL/src/alt_log_printf.c:319-333 | %c prints its character and %s its string, behind blanks up to the width |
| `LogFormat.WidthReadsBack` | wxp/dgn/sw/limbus_bsp/HAL/src/alt_log_printf.c:176-196 | the text of a width is its decimal notation |
| `LogFormat.PrecisionIsIgnored` | wxp/dgn/sw/limbus_bsp/HAL/src/alt_log_printf.c:172-200 | a precision and the modifier l are read and make no difference |
| `LogFormat.UnknownDirective` | wxp/dgn/sw/limbus_bsp/HAL/src/alt_log_printf.c:202-338 | a directive of another letter prints nothing and takes no argument |
| `LogFormat.PrintFormat` | wxp/dgn/sw/limbus_bsp/HAL/src/alt_log_printf.c:114-341 | the character loop prints, for every format, the literals and fields that the format denotes, one argument each, in order |
| `LogFormat.PrintAlt` | wxp/dgn/sw/limbus_bsp/HAL/src/alt_printf.c:50-128 | alt_printf's loop prints, for every format, the literals and fields that the format denotes to it |
| `LogFormat.AltOthersPrintNothing` | wxp/dgn/sw/limbus_bsp/HAL/src/alt_printf.c:72-128 | directives alt_printf does not know and a last lone percent sign print nothing and take no argument |
| `LogFormat.PrintfsAgree` | wxp/dgn/sw/limbus_bsp/HAL/src/alt_printf.c:60-122 | a format whose directives are only %%, %c, %s and %x denotes the same to both printfs |
| `TimeOfDay.Normalise` | wxp/dgn/sw/limbus_bsp/HAL/src/alt_gettod.c:95-112 | the two loops give the normal form of the total, or zero exactly when a borrow is pending before the epoch |
| `TimeOfDay.ReadingIsElapsed` | wxp/dgn/sw/limbus_bsp/HAL/src/alt_gettod.c:89-112 | outside the clamp and 32-bit overflow the reading is normal and its total is the reset time plus nticks * 10^6 / rate |
| `TimeOfDay.ReadingIsNormal` | wxp/dgn/sw/limbus_bsp/HAL/src/alt_gettod.c:95-112 | every reading has 0 <= usec < 10^6 |
| `TimeOfDay.ReadingsAreMonotone` | wxp/dgn/sw/limbus_bsp/HAL/src/alt_gettod.c:89-112 | outside the clamp two readings differ by exactly the ticks between them |
| `TimeOfDay.MonotoneIff` | wxp/dgn/sw/limbus_bsp/HAL/src/alt_gettod.c:95-107 | a later reading is at least an earlier one if and only if it is not the case that the clamp hid a negative time which then shows |
| `TimeOfDay.ClampCanRunBackwards` | wxp/dgn/sw/limbus_bsp/HAL/src/alt_gettod.c:95-107 | a reset time before the epoch for which one tick takes the clock backwards |
| `TimeOfDay.SetThenGetIff` | wxp/dgn/sw/limbus_bsp/HAL/src/alt_settod.c:82-84 | set followed at once by get returns t if and only if t is normal and the multiples of 2^32 that the 32-bit product drops make whole seconds (or t is zero and the clamp hides the loss) |
| `TimeOfDay.SetThenGet` | wxp/dgn/sw/limbus_bsp/HAL/src/alt_settod.c:72-96 | it does while nticks * 10^6 / rate is below 2^32 |
| `TimeOfDay.SetThenGetCanDiffer` | wxp/dgn/sw/limbus_bsp/HAL/src/alt_settod.c:82-84 | a tick count at a thousand ticks a second where it does not |
| `TimeOfDay.Clock.GetTimeOfDay` | wxp/dgn/sw/limbus_bsp/HAL/src/alt_gettod.c:71-124 | the call returns the reading, and the zone if asked for, or -ENOTSUP without a clock |
| `TimeOfDay.Clock.SetTimeOfDay` | wxp/dgn/sw/limbus_bsp/HAL/src/alt_settod.c:72-96 | the call stores reset time and zone, or ENOSYS and changes nothing without a clock |
| `CeaBlocks.CollectionRecovered` | wxp/dgn/sw/ledos_main/ledos/adv7513/edid/edid.c:115-333 | for all well-formed blocks that tile bytes 4 to dtd - 1, dtd at most 127: the walk stays in bounds if and only if every block fits; and then it records exactly their tags in order in at most 62 slots, each known extended tag in its slot, and ends with the fields of the last block of each kind |
| `CeaBlocks.CollectionInBounds` | wxp/dgn/sw/ledos_main/ledos/adv7513/edid/edid.c:115-333 | it stays in bounds when every block fits in its own bytes |
| `CeaBlocks.CollectionUpToUnknownTag` | wxp/dgn/sw/ledos_main/ledos/adv7513/edid/edid.c:115-333 | the same round trip for blocks up to the first byte with the tag 0 or 6, which ends the walk whatever is behind it |
| `CeaBlocks.CollectionAcrossOffset` | wxp/dgn/sw/ledos_main/ledos/adv7513/edid/edid.c:115-333 | the same when the last block starts before the offset and goes on behind it |
| `CeaBlocks.NoCollection` | wxp/dgn/sw/ledos_main/ledos/adv7513/edid/edid.c:98-115 | an offset of at most 4 means that nothing is walked |
| `CeaBlocks.LaidInBoundsIff` | wxp/dgn/sw/ledos_main/ledos/adv7513/edid/edid.c:119-333 | the walk's accesses (tags, audio, video, vendor, speaker and extended blocks) stay in bounds if and only if each vendor and extended block fits |
| `CeaBlocks.FitsAnywhereIff` | wxp/dgn/sw/ledos_main/ledos/adv7513/edid/edid.c:151-326 | a block fits wherever it stands if and only if it fits in its own bytes |
| `CeaBlocks.FixedFormsFit` | wxp/dgn/sw/ledos_main/ledos/adv7513/edid/edid.c:119-326 | audio, video, speaker, HDMI, capability and colorimetry blocks fit wherever they stand |
| `CeaBlocks.SeventeenFormatsOverrun` | wxp/dgn/sw/ledos_main/ledos/adv7513/edid/edid.c:253-267 | a vendor block of 29 bytes, wherever it stands, that lists seventeen 3D formats, which the sixteen slots do not hold |
| `CeaBlocks.SeventeenFormatsFail` | wxp/dgn/sw/ledos_main/ledos/adv7513/edid/edid.c:115-273 | an extension whose only block is that one: the walk leaves its bounds |
| `CeaBlocks.TruncatedVendorFails` | wxp/dgn/sw/ledos_main/ledos/adv7513/edid/edid.c:115-154 | every extension whose well-formed blocks fill bytes 4 to 126 and end in the vendor block with payload 3, before the checksum 12: the decoder reads past the end |
| `CeaBlocks.ExtendedTagsRecovered` | wxp/dgn/sw/ledos_main/ledos/adv7513/edid/edid.c:287-324 | each known extended tag is recorded in the slot of its block's tag, and no other slot changes |
| `CeaBlocks.TagsRecovered` | wxp/dgn/sw/ledos_main/ledos/adv7513/edid/edid.c:118-333 | the walk records exactly the tags, in order |
| `CeaBlocks.LastRecovered` | wxp/dgn/sw/ledos_main/ledos/adv7513/edid/edid.c:121-326 | the last block of each kind is what the fields hold: audio descriptors, video descriptors, speakers, the HDMI record with its 3D formats or the mark of another vendor, video capability and colorimetry |
| `CeaBlocks.AudioKeepsOthers` | wxp/dgn/sw/ledos_main/ledos/adv7513/edid/edid.c:121-139 | an audio block leaves the resolution of formats other than PCM, the bitrate of formats other than 2 to 8, and the slots behind its descriptors as they were |
| `CeaBlocks.FieldsKept` | wxp/dgn/sw/ledos_main/ledos/adv7513/edid/edid.c:119-333 | fields that no block fills keep their values |
| `CeaBlocks.EveryPayloadIsABlock` | wxp/dgn/sw/ledos_main/ledos/adv7513/edid/edid.c:120-149 | any 1 to 31 bytes after a known tag are the payload of a well-formed block, so the round trip covers every such collection |
| `HdmiVendor.VendorInBoundsIff` | wxp/dgn/sw/ledos_main/ledos/adv7513/edid/edid.c:151-273 | the decoder stays in bounds on a vendor block if and only if the bytes the block makes it read are there and it lists at most sixteen 3D formats |
| `HdmiVendor.ShortListsFit` | wxp/dgn/sw/ledos_main/ledos/adv7513/edid/edid.c:253-267 | a list of at most sixteen bytes never has too many formats: the block stays in bounds if its bytes are there |
| `HdmiVendor.VicsInBoundsIff` | wxp/dgn/sw/ledos_main/ledos/adv7513/edid/edid.c:253-267 | the list loop stays in bounds if and only if the list ends inside the buffer and its entries have slots |
| `HdmiVendor.ListReadsBack` | wxp/dgn/sw/ledos_main/ledos/adv7513/edid/edid.c:253-267 | an encoded list of 3D formats reads back entry by entry and ends where announced |
| `HdmiVendor.DescriptorRecovered` | wxp/dgn/sw/ledos_main/ledos/adv7513/edid/edid.c:151-273 | every field of an encoded HDMI descriptor of any length is recovered: block length, address, capabilities, clock, both latencies, video and 3D parts, and the list of formats; what the block does not reach reads as absent, and without a 3D part the list stays |
| `HdmiVendor.OtherVendorsIgnored` | wxp/dgn/sw/ledos_main/ledos/adv7513/edid/edid.c:154-158 | of a block that does not start with 3, 12, 0 only an identifier of zero is recorded |
| `HdmiVendor.OtherSlotsKept` | wxp/dgn/sw/ledos_main/ledos/adv7513/edid/edid.c:251-267 | slots that no listed format fills keep what they held |
| `HdmiVendor.DescriptorInBounds` | wxp/dgn/sw/ledos_main/ledos/adv7513/edid/edid.c:151-273 | on an encoded HDMI descriptor every access stays in bounds |
| `HdmiVendor.ReachMoves` | wxp/dgn/sw/ledos_main/ledos/adv7513/edid/edid.c:151-273 | a vendor block whose own bytes suffice needs the same ones wherever it stands |
| `CeaDecoder.Cea.DecodeVendor` | wxp/dgn/sw/ledos_main/ledos/adv7513/edid/edid.c:151-273 | the vendor case fills the record and the 3D slots as specified |
| `CeaDecoder.Cea.DecodeVics` | wxp/dgn/sw/ledos_main/ledos/adv7513/edid/edid.c:253-267 | the list loop stores exactly the listed formats from the first slot on and leaves the other slots alone |
| `CeaDecoder.Cea.DecodeExtended` | wxp/dgn/sw/ledos_main/ledos/adv7513/edid/edid.c:287-324 | the extended case records the extended tag and the capability or colorimetry fields as specified |
| `CeaDecoder.Cea.DecodeAudio` | wxp/dgn/sw/ledos_main/ledos/adv7513/edid/edid.c:121-139 | the loop fills the descriptor slots as specified and no others |
| `CeaDecoder.Cea.DecodeVideo` | wxp/dgn/sw/ledos_main/ledos/adv7513/edid/edid.c:141-149 | likewise for video |
| `CeaDecoder.Cea.DecodeBlocks` | wxp/dgn/sw/ledos_main/ledos/adv7513/edid/edid.c:115-333 | the loop terminates and records what the specified walk records, every kind of block included; an unknown tag ends it |
| `CeaDecoder.Cea.Decode` | wxp/dgn/sw/ledos_main/ledos/adv7513/edid/edid.c:84-333 | version 3 extensions are decoded, header bits included; others are refused with -1 and change nothing |

## Left out

- Floating-point rounding, libm, malloc failure and the simulator's array handles: the FFT works on exact complex numbers and plain arrays.
- Twiddles.CircularIsExact: a cosine and sine with the addition formulas are a hypothesis and not constructed over `real`; the turn is the decimal in the source, which differs from 2 pi by rounding. Over the complex numbers exact twiddle factors are exhibited for N = 4 only.
- FFT sizes that are not powers of two from 2 up: the recursion does not terminate for them.
- JtagDriver.Driver.Write: observed for `patience` polls and then reported as still waiting, because whether a spin ends depends on the device; the same holds of Read, Close and the UART driver's Write and Close.
- The interrupt routine's outer loop: each pass is a step of its own, which allows more interleavings than the routine has; that it ends depends on the device.
- Event flags, semaphores and irq enable/disable: critical sections are single steps, and the locks admit one reader and one writer to the rings.
- UartReceive.Receiver.ReceiveIrq: the read routine itself is modelled by the substeps of `ReaderNext` and not run in place; exactly when the receive half keeps its data is proved.
- UART flow control: it is off in this system.
- Small-driver variants, the uC/OS-II wait paths and the option that discards characters when the host is gone: other build configurations.
- AlarmScheduler.Scheduler.Tick: callbacks do not edit the list, and removed alarms are unlinked when the walk ends rather than during it; which alarms are called, kept and changed is the same.
- AlarmScheduler.Scheduler.Start: excludes an alarm that is in the list already, because inserting a linked node a second time breaks the source's list.
- The linked-list macros: lists are sequences.
- FileDescriptors.HistoryHolds: close and ioctl are called on negative descriptors or ones in use, because on a free slot the source follows a null device pointer; no call is made on a descriptor of 32 or more.
- The private field of a descriptor, the fcntl command that reads flags and unknown ones, open modes other than append and non-blocking, and file-system paths: device lookup is a parameter.
- LogFormat.PrintFormat: widths are unbounded integers, and callers supply arguments of the types the format asks for, as C requires.
- IntegerPrinting.PrintHex: masks and shifts are stated as remainders and repeated halving.
- TimeOfDay.ReadingIsElapsed: asks that no 32-bit sum of seconds overflows; the wrap itself is modelled in `Raw` and `Normalised`.
- CeaDecoder.Cea.Decode: stops before the detailed timings (edid.c:335 on), flat field decodes whose own accesses are not part of what is said to stay in bounds; asks for an extension on which the walk stays in bounds, as the source does not check.
- EDID base block decoding and printing, the ADV7513, codec and fgyrus register programming, HAL stubs, sbrk, profiling, sleep, and the image and raw file dumps: flat field by field code, or code that talks to devices only.
