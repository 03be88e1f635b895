# Verification of the core, its tools and its drivers

A Dafny model of the RISC-V core of this repository, of the scripts that prepare its
programs, and of the software around it, with proofs of what they are for.

* **JTAG UART driver** (`RingBuffer`, `JtagUart`, `UartSession`): the interrupt-driven
  driver as a class. Between any two reads of shared variables in `write`, `read` and
  `close`, before they return and between calls any number of interrupt and timer runs may
  happen, and between any two device accesses the host may act. Ghost streams record what
  crossed the device registers, and a history what the timer saw of the host. Both rings are
  lossless queues, no slot is overwritten under a stale index and no interrupt enable is
  lost; the interrupt routine leaves nothing that a last look at the device would show. Every
  call of a session has one answer: a write takes over a beginning of its payload, and at
  least what there was room for, a read hands back the next bytes of the stream, and at least
  those waiting, and a blocking call gives up only on a host that the timer found inactive. While only the last write is cut short the
  register trace is a prefix of the small driver's.
* **The core** (`Words`, `Isa`, `Rtl`, `Core`, `Hardware`, `Decoding`, `AluCorrect`,
  `ByteMemory`, `CoreIsa`, `Conformance`, `TrapStack`, `CsrAccess`, `FaultInjection`): one function per
  combinational module, a next-state function for a clock edge, and the storage that is
  rewritten in place (`Hardware`). `CoreIsa.ClockExecutes` says what a clock does, `Isa`
  defines the instruction set on a byte memory without reference to the core, and
  `Conformance.CoreExecutesIsa` says exactly where the two agree: a load is right only if
  the RAM's output register, loaded by the load before it, presents the addressed bytes,
  accesses that cross a doubleword are right only if what they cannot reach does not matter,
  and a jump to an address that is no multiple of four, for which the instruction set demands
  an exception (misa has no C, components/csr_dec.sv:4), is carried out (components/except_f.sv:9-10).
  The execution environment is taken to be one that carries out misaligned loads and stores;
  section 2.6 of the RISC-V Unprivileged ISA also permits environments where they trap.
* **The load patch** (`LoadPatch`, `PatchedCore`, `Text`, `PatchText`): the core's RAM answers
  one clock late, so a script repeats every load. The patch is proved on programs (a
  simulation over whole runs), down to the clocks of the core with the patched machine code
  in its instruction memory (`PatchedCore.CoreRunsProgram`), and on the assembly text, including exactly which register names, and which
  symbols in address operands, make the text rewriting go wrong.
* **Alarms** (`AlarmClock`, `AlarmList`): 32-bit times with a rollover flag against the
  true tick count, and the circular list that a tick edits while it walks it.
* **File descriptors** (`FdPool`, `FdDriver`): the pool with its exclusive locks.
* **Greedy routing** (`Dtn`), **SDRAM start-up** (`Sdram`), **the in-place pair sort**
  (`PairQueue`), **time of day** (`TimeOfDay`), **number printing and parsing**
  (`Arithmetic`, `Printers`, `LogPrinter`, `HostParse`, with `Text` and `Options`).

Three things that the code does not do as one would expect are proved with their exact
condition: `SRAW`/`SRAIW` shift a zero-extended word (`AluCorrect.Alu32Sra`), `BLT`/`BGE`
look at the wrapped difference only (`AluCorrect.BranchDecision`), and a granted device
lock ignores the descriptor at the high-water mark (`FdPool.LockGrantedIff`). Likewise the
longest alarm delay (`AlarmClock.PunctualIff`), the wrap in `settimeofday`
(`TimeOfDay.SetGetIdentityIff`), names within names and within symbols in the load patch
(`PatchText.PatchedIffNoCollision`), misaligned jump targets (`Conformance.CoreExecutesIsa`), immediates of CSR instructions
(`CsrAccess.OperandIff`), loads without the patch (`LoadPatch.UnpatchedIff`), and
the last pair in `find` (`PairQueue.Queue.Find`).
Two comments of the source differ from its code, and the model follows the code: the
comment on memRead calls 01 signed and 11 unsigned, the code reads 11 as signed
(components/maindec.sv:162-163), and the comment on locks (de0_nano/nios/software/hw_io_bsp/HAL/src/alt_fd_lock.c:43-45)
promises more than the loop delivers.

Assumptions about hardware outside the repository: an interrupt bit of the UART is up only
when that interrupt is enabled and its FIFO has work; a read that returns no valid byte
reports an empty FIFO; the RAM's output register changes only on a read.

## Model

| member | source | states |
|---|---|---|
| `RingBuffer.Length` | de0_nano/nios/software/hw_io_bsp/drivers/inc/altera_avalon_jtag_uart.h:109-114 | the number of bytes between two indices of a 2048-slot ring |
| `RingBuffer.Advance` | de0_nano/nios/software/hw_io_bsp/drivers/src/altera_avalon_jtag_uart_init.c:150 | the next index, with the wrap at 2048 |
| `RingBuffer.SameHead` | de0_nano/nios/software/hw_io_bsp/drivers/src/altera_avalon_jtag_uart_write.c:183-184 | rings that end at the same place and hold as much start at the same place |
| `RingBuffer.Room` | de0_nano/nios/software/hw_io_bsp/drivers/src/altera_avalon_jtag_uart_write.c:109-114 | the three-way room computation never lets a producer pass the end of the buffer or fill the last slot, and is zero exactly when the ring is full |
| `RingBuffer.Run` | de0_nano/nios/software/hw_io_bsp/drivers/src/altera_avalon_jtag_uart_read.c:125-128 | the run a consumer computes stays inside buffer and ring, and is zero exactly when the ring is empty |
| `JtagUartDriver.GivenUpAfterSilence` | de0_nano/nios/software/hw_io_bsp/drivers/src/altera_avalon_jtag_uart_init.c:203-225 | the host is given up only after as many silent timer runs in a row as the timeout asks for |
| `JtagUartDriver.JtagUart.constructor` | de0_nano/nios/software/hw_io_bsp/drivers/src/altera_avalon_jtag_uart_init.c:66-97 | start-up establishes the invariant: both rings empty, read interrupts on |
| `JtagUartDriver.JtagUart.HostStep` | de0_nano/nios/software/hw_io_bsp/drivers/src/altera_avalon_jtag_uart_init.c:119-147 | assumed device: the host may send bytes and drain the FIFO between any two register accesses; what it has sent stays as it is |
| `JtagUartDriver.JtagUart.ReadControl` | de0_nano/nios/software/hw_io_bsp/drivers/src/altera_avalon_jtag_uart_init.c:119-128 | assumed device: an interrupt bit is up only when enabled and its FIFO has work; each reading is recorded |
| `JtagUartDriver.JtagUart.WriteControl` | de0_nano/nios/software/hw_io_bsp/drivers/src/altera_avalon_jtag_uart_init.c:161-165 | the control register takes the driver's enable bits |
| `JtagUartDriver.JtagUart.ReadData` | de0_nano/nios/software/hw_io_bsp/drivers/src/altera_avalon_jtag_uart_init.c:144-149 | assumed device: one byte leaves the receive FIFO; an invalid read reports nothing left |
| `JtagUartDriver.JtagUart.WriteData` | de0_nano/nios/software/hw_io_bsp/drivers/src/altera_avalon_jtag_uart_init.c:176 | a byte enters the transmit FIFO, which must have space |
| `JtagUartDriver.JtagUart.TakeByte` | de0_nano/nios/software/hw_io_bsp/drivers/src/altera_avalon_jtag_uart_init.c:149-150 | the byte joins the receive ring at its end, and no waiting byte is overwritten |
| `JtagUartDriver.JtagUart.ReceiveOne` | de0_nano/nios/software/hw_io_bsp/drivers/src/altera_avalon_jtag_uart_init.c:137-154 | one turn of the receive loop keeps the whole invariant; a byte is taken only when it can be stored |
| `JtagUartDriver.JtagUart.DrainFifo` | de0_nano/nios/software/hw_io_bsp/drivers/src/altera_avalon_jtag_uart_init.c:130-154 | the receive loop ends only with a full ring or an empty FIFO |
| `JtagUartDriver.JtagUart.ServiceReceive` | de0_nano/nios/software/hw_io_bsp/drivers/src/altera_avalon_jtag_uart_init.c:125-167 | receive interrupts go off only with a full ring, and the routine makes progress |
| `JtagUartDriver.JtagUart.PushByte` | de0_nano/nios/software/hw_io_bsp/drivers/src/altera_avalon_jtag_uart_init.c:174-184 | bytes pushed followed by the ring are unchanged: the oldest byte moved from ring to register |
| `JtagUartDriver.JtagUart.PushBytes` | de0_nano/nios/software/hw_io_bsp/drivers/src/altera_avalon_jtag_uart_init.c:174-184 | the transmit loop writes as many bytes as there are and the FIFO had space for, in order |
| `JtagUartDriver.JtagUart.ServiceTransmit` | de0_nano/nios/software/hw_io_bsp/drivers/src/altera_avalon_jtag_uart_init.c:169-195 | so does the routine, which switches its interrupt off exactly when the bytes ran out first, and makes progress |
| `JtagUartDriver.JtagUart.SwitchOffTransmit` | de0_nano/nios/software/hw_io_bsp/drivers/src/altera_avalon_jtag_uart_init.c:186-194 | write interrupts go off only when the transmit ring is empty |
| `JtagUartDriver.JtagUart.Service` | de0_nano/nios/software/hw_io_bsp/drivers/src/altera_avalon_jtag_uart_init.c:125-195 | one round of the interrupt loop keeps the invariant and decreases what is left to do |
| `JtagUartDriver.JtagUart.Isr` | de0_nano/nios/software/hw_io_bsp/drivers/src/altera_avalon_jtag_uart_init.c:105-197 | the interrupt routine keeps the invariant, terminates whatever the host does meanwhile, returns only after a reading that shows nothing pending, and makes progress after every reading before it |
| `JtagUartDriver.JtagUart.Timeout` | de0_nano/nios/software/hw_io_bsp/drivers/src/altera_avalon_jtag_uart_init.c:203-225 | the timer callback keeps the invariant, and resets the count of silent runs when the host is active and adds one to it, up to its limit, when not |
| `JtagUartDriver.JtagUart.Interference` | de0_nano/nios/software/hw_io_bsp/drivers/src/altera_avalon_jtag_uart_init.c:105-225 | any number of interrupt and timer runs keeps the invariant and touches only the interrupt side's variables |
| `JtagUartDriver.JtagUart.AwaitTransmit` | de0_nano/nios/software/hw_io_bsp/drivers/src/altera_avalon_jtag_uart_write.c:183-184 | the spin ends only after the interrupt side moved tx_out or the host was seen inactive, and goes on only while tx_out stood and the host was seen active, with interrupts between the two reads of its guard |
| `JtagUartDriver.JtagUart.AwaitRoom` | de0_nano/nios/software/hw_io_bsp/drivers/src/altera_avalon_jtag_uart_write.c:183-187 | the spin and the test for the host after it |
| `JtagUartDriver.JtagUart.CopyIn` | de0_nano/nios/software/hw_io_bsp/drivers/src/altera_avalon_jtag_uart_write.c:122 | the copy reaches only free slots although the snapshot of tx_out is stale, and survives every interleaved interrupt run |
| `JtagUartDriver.JtagUart.StoreAhead` | de0_nano/nios/software/hw_io_bsp/drivers/src/altera_avalon_jtag_uart_write.c:122 | one byte into a slot outside the ring leaves the ring as it is |
| `JtagUartDriver.JtagUart.Publish` | de0_nano/nios/software/hw_io_bsp/drivers/src/altera_avalon_jtag_uart_write.c:126 | moving tx_in appends exactly the copied run to the accepted stream |
| `JtagUartDriver.JtagUart.CopyRun` | de0_nano/nios/software/hw_io_bsp/drivers/src/altera_avalon_jtag_uart_write.c:122-126 | a pass of the copy loop accepts exactly its run, in order |
| `JtagUartDriver.JtagUart.FillOnce` | de0_nano/nios/software/hw_io_bsp/drivers/src/altera_avalon_jtag_uart_write.c:103-127 | from stale snapshots of both indices, exactly the next bytes of the caller are accepted, none only when the ring was full |
| `JtagUartDriver.JtagUart.FillRing` | de0_nano/nios/software/hw_io_bsp/drivers/src/altera_avalon_jtag_uart_write.c:103-127 | the inner loop accepts a contiguous piece of the data, in order, and at least what there was room for |
| `JtagUartDriver.JtagUart.KickTransmit` | de0_nano/nios/software/hw_io_bsp/drivers/src/altera_avalon_jtag_uart_write.c:136-139 | after enabling, unsent bytes have their interrupt on without exception |
| `JtagUartDriver.JtagUart.FillAndKick` | de0_nano/nios/software/hw_io_bsp/drivers/src/altera_avalon_jtag_uart_write.c:100-139 | one turn of the outer loop: a contiguous piece accepted, no writer left between publishing and enabling |
| `JtagUartDriver.JtagUart.Offer` | de0_nano/nios/software/hw_io_bsp/drivers/src/altera_avalon_jtag_uart_write.c:95-189 | the outer loop accepts a beginning of the data, at least what there was room for, and leaves the rest only when non-blocking or when the host was seen inactive during the call |
| `JtagUartDriver.JtagUart.Write` | de0_nano/nios/software/hw_io_bsp/drivers/src/altera_avalon_jtag_uart_write.c:83-215 | under every interleaving, interrupts between any two statements included, exactly the first `done` bytes are accepted, at least as many as there was room for, with the source's return value; an incomplete write means non-blocking or a host seen inactive during the call, and only a blocking one with bytes left and a host seen active goes on |
| `JtagUartDriver.JtagUart.CopyOut` | de0_nano/nios/software/hw_io_bsp/drivers/src/altera_avalon_jtag_uart_read.c:136 | the copied bytes are the oldest received ones although reception continues during the copy |
| `JtagUartDriver.JtagUart.Consume` | de0_nano/nios/software/hw_io_bsp/drivers/src/altera_avalon_jtag_uart_read.c:140 | moving rx_out delivers exactly those bytes |
| `JtagUartDriver.JtagUart.TakeRun` | de0_nano/nios/software/hw_io_bsp/drivers/src/altera_avalon_jtag_uart_read.c:133-140 | a pass of the copy loop delivers what it copied, and leaves the rest of the caller's buffer alone |
| `JtagUartDriver.JtagUart.DrainOnce` | de0_nano/nios/software/hw_io_bsp/drivers/src/altera_avalon_jtag_uart_read.c:122-140 | from a stale snapshot, no byte that has not arrived is handed over |
| `JtagUartDriver.JtagUart.DrainRing` | de0_nano/nios/software/hw_io_bsp/drivers/src/altera_avalon_jtag_uart_read.c:120-142 | the inner loop delivers a contiguous piece of the received stream, and at least what was waiting as far as it fits |
| `JtagUartDriver.JtagUart.EnableReceive` | de0_nano/nios/software/hw_io_bsp/drivers/src/altera_avalon_jtag_uart_read.c:191-194 | after enabling, switched-off receive interrupts mean a full ring without exception |
| `JtagUartDriver.JtagUart.AwaitReceive` | de0_nano/nios/software/hw_io_bsp/drivers/src/altera_avalon_jtag_uart_read.c:173-174 | the spin ends only after bytes arrived or the host was seen inactive for the timeout, and goes on only while there were none and the host was seen active |
| `JtagUartDriver.JtagUart.Attempt` | de0_nano/nios/software/hw_io_bsp/drivers/src/altera_avalon_jtag_uart_read.c:115-179 | one turn of the outer loop: empty the ring, or else wait, and ask for another turn only when bytes arrived |
| `JtagUartDriver.JtagUart.Collect` | de0_nano/nios/software/hw_io_bsp/drivers/src/altera_avalon_jtag_uart_read.c:115-179 | nothing is lost while waiting; an empty result means no space, non-blocking or a host seen inactive for the timeout during the call |
| `JtagUartDriver.JtagUart.Read` | de0_nano/nios/software/hw_io_bsp/drivers/src/altera_avalon_jtag_uart_read.c:100-203 | under every interleaving the caller gets exactly the next bytes of the stream, at least those waiting as far as they fit, with the source's return value and the same reasons for an empty result; only a blocking read without a byte and a host seen active goes on |
| `JtagUartDriver.JtagUart.Close` | de0_nano/nios/software/hw_io_bsp/drivers/src/altera_avalon_jtag_uart_init.c:241-254 | returning 0 means everything accepted was sent, or the host was seen inactive; anything else that bytes were still unsent at the call and the host was seen active, -EWOULDBLOCK non-blocking and waiting on blocking |
| `UartSession.FlattenSnoc` | de0_nano/nios/software/hw_io_bsp/drivers/src/altera_avalon_jtag_uart_write.c:191-215 | one more call appends its bytes to the stream of all calls |
| `UartSession.FlattenPrefix` | de0_nano/nios/software/hw_io_bsp/drivers/src/altera_avalon_jtag_uart_write.c:191-215 | the first calls make up a prefix of the stream |
| `UartSession.SmallJtagUart.Write` | de0_nano/nios/software/hw_io_bsp/drivers/src/altera_avalon_jtag_uart_write.c:63-75 | the small driver's trace grows by a beginning of the bytes it was given, at least what there was space for, and by all of them when it returns |
| `UartSession.SmallSession` | de0_nano/nios/software/hw_io_bsp/drivers/src/altera_avalon_jtag_uart_write.c:63-75 | a run of the small driver writes its payloads one after another, and ends early only inside one |
| `UartSession.CutShort` | de0_nano/nios/software/hw_io_bsp/drivers/src/altera_avalon_jtag_uart_write.c:63-75 | a trace that ends inside a payload is a proper prefix of all payloads |
| `UartSession.RoomFoundNext` | de0_nano/nios/software/hw_io_bsp/drivers/src/altera_avalon_jtag_uart_write.c:109-114 | each write of a session finds all slots free but those of bytes accepted before it |
| `UartSession.WrittenBegins` | de0_nano/nios/software/hw_io_bsp/drivers/src/altera_avalon_jtag_uart_write.c:83-215 | the pieces of the record are as many as the write calls, each a beginning of its payload |
| `UartSession.WrittenFollows` | de0_nano/nios/software/hw_io_bsp/drivers/src/altera_avalon_jtag_uart_write.c:83-215 | likewise for a session that stopped early |
| `UartSession.EntryAdded` | de0_nano/nios/software/hw_io_bsp/drivers/src/altera_avalon_jtag_uart_write.c:83-215 | one more entry of the record adds its bytes to its stream and none to the other |
| `UartSession.Session` | de0_nano/nios/software/hw_io_bsp/drivers/src/altera_avalon_jtag_uart_init.c:66-254 | over any run of calls, with interrupts inside and between them: one answer for each call, the accepted and delivered bytes are those of the answers in order, a blocking call gave up only on a host seen inactive, no interrupt is lost, and, when only the last write is cut short, the register trace is a prefix of the small driver's |
| `UartSession.Perform` | de0_nano/nios/software/hw_io_bsp/drivers/src/altera_avalon_jtag_uart_write.c:83-215 | one call of a run: its answer, and the streams grow by exactly the answer's bytes |
| `UartSession.OneMore` | de0_nano/nios/software/hw_io_bsp/drivers/src/altera_avalon_jtag_uart_init.c:66-254 | the next call of a run keeps record and streams together |
| `UartSession.PerformWrite` | de0_nano/nios/software/hw_io_bsp/drivers/src/altera_avalon_jtag_uart_write.c:83-215 | a write answers with the beginning of its payload that it took over, at least what it found room for, and its return value |
| `UartSession.PerformRead` | de0_nano/nios/software/hw_io_bsp/drivers/src/altera_avalon_jtag_uart_read.c:100-203 | a read answers with as many bytes as fit or at least those it found waiting, at the front of the caller's buffer and next in the stream, and its return value |
| `UartSession.TraceIsPrefixOfSmall` | de0_nano/nios/software/hw_io_bsp/drivers/src/altera_avalon_jtag_uart_write.c:52-77 | a prefix of what the writes took over, all but the last being whole, is a prefix of all payloads |
| `Words.LanesRoundTrip` | components/datamemory.sv:14-18 | splitting a word into bytes and joining them are inverse |
| `Words.ValueOfLowBytes` | components/datamemory.sv:14-18 | the low bytes of a number have its value |
| `Words.LowBytesOfValue` | components/datamemory.sv:14-18 | the bytes of a value are those bytes |
| `Words.BitwiseXorTwice` | components/wideXOR.sv:1-5 | XOR with the same mask twice is the identity, at any width |
| `Words.XorTwice` | components/decode.sv:52-54 | flipping the same bits twice restores a 64-bit word |
| `Words.XorAssociative` | components/decode.sv:52-54 | two flips are one flip with the masks combined |
| `Decoding.STypeImmediate` | components/signext.sv:8-9 | immediate decoding inverts the S encoding |
| `Decoding.BTypeImmediate` | components/signext.sv:11-12 | immediate decoding inverts the B encoding, halved |
| `Decoding.ITypeImmediate` | components/signext.sv:14-17 | immediate decoding inverts the I encoding of loads, JALR and arithmetic |
| `Decoding.UTypeImmediate` | components/signext.sv:23-25 | immediate decoding inverts the U encoding |
| `Decoding.JTypeImmediate` | components/signext.sv:20-21 | immediate decoding inverts the J encoding, halved |
| `Decoding.STypeFields` | components/signext.sv:8-9 | the scattered S immediate of an encoded instruction is the one encoded |
| `Decoding.BTypeFields` | components/signext.sv:11-12 | the scattered B immediate of an encoded instruction is the one encoded |
| `Decoding.JTypeFields` | components/signext.sv:20-21 | the scattered J immediate of an encoded instruction is the one encoded |
| `Decoding.RTypeFields` | components/decode.sv:24-33 | the register fields of an encoded instruction are the ones encoded |
| `Decoding.ITypeFields` | components/decode.sv:24-33 | likewise for the I form |
| `AluCorrect.DecodesRegisterForm` | components/aludec.sv:8-85 | ALU decoding of the register forms selects the operation |
| `AluCorrect.DecodesImmediateForm` | components/aludec.sv:8-85 | ALU decoding of the immediate forms selects the operation whatever the upper immediate bits say |
| `AluCorrect.Alu64` | components/alu.sv:10-68 | the 64-bit result is the instruction set's, for all ten operations and all operands |
| `AluCorrect.Add32` | components/execute.sv:16-34 | ADDW and SUBW on zero-extended halves give the sign-extended 32-bit result |
| `AluCorrect.Sll32` | components/execute.sv:16-34 | SLLW gives the sign-extended 32-bit result |
| `AluCorrect.Srl32` | components/alu.sv:47-51 | SRLW gives the sign-extended 32-bit result |
| `AluCorrect.Alu32` | components/execute.sv:16-34 | the 32-bit forms but the arithmetic shift are the instruction set's |
| `AluCorrect.Alu32Sra` | components/alu.sv:47-51 | SRAW is the instruction set's if and only if the low half is not negative or the amount is zero |
| `AluCorrect.Sra32Departs` | components/alu.sv:47-51 | a concrete SRAW that departs |
| `AluCorrect.BranchDecision` | components/branching.sv:4-17 | the decision from the flags is the instruction set's if and only if, for BLT and BGE, the signed difference does not overflow |
| `AluCorrect.BranchDeparts` | components/branching.sv:9-10 | a concrete BLT that departs |
| `ByteMemory.AlignDetectsCrossing` | components/except_e.sv:10-17 | the alignment signal is raised exactly for accesses that cross a doubleword |
| `ByteMemory.LoadDatum` | components/memReadMask.sv:9-24 | for every offset, shift, mask and extension give the little-endian datum of the bytes presented, zeros standing for those beyond the word |
| `ByteMemory.StoreDatum` | components/memWriteMask.sv:5-8 | for every address, shifted data under the byte enables write exactly those bytes of the datum that lie in the word |
| `ByteMemory.ExtendInjective` | components/memReadMask.sv:9-24 | different bytes extend to different words |
| `ByteMemory.LoadPresented` | components/core.sv:171-172 | within a doubleword, the word address and byte offset select the addressed bytes of memory |
| `ByteMemory.AccessAgrees` | components/core.sv:164-175 | one access gives the same datum and memory as a byte memory |
| `ByteMemory.RamIsByteMemory` | components/datamemory.sv:14-48 | for any sequence of accesses that do not cross, the 64-bit RAM is a little-endian byte memory |
| `CoreIsa.CycleOp` | components/datapath.sv:55-127 | one clock of an encoded register instruction: destination and next pc |
| `CoreIsa.CycleOpImm` | components/datapath.sv:55-127 | likewise for register-immediate instructions |
| `CoreIsa.CycleShiftImm` | components/aludec.sv:8-85 | likewise for SLLI, SRLI and SRAI |
| `CoreIsa.CycleOp32` | components/execute.sv:16-34 | likewise for the 32-bit register forms |
| `CoreIsa.CycleAddImm32` | components/execute.sv:16-34 | likewise for ADDIW |
| `CoreIsa.CycleShiftImm32` | components/execute.sv:16-34 | likewise for the 32-bit immediate shifts |
| `CoreIsa.CycleUpper` | components/decode.sv:44-48 | likewise for LUI and AUIPC |
| `CoreIsa.CycleJump` | components/decode.sv:44-48 | likewise for JAL and JALR: link and target |
| `CoreIsa.CycleBranch` | components/execute.sv:39-41 | likewise for branches: target or next instruction |
| `CoreIsa.CycleLoad` | components/datapath.sv:101-124 | likewise for loads, which write back what the RAM output register holds |
| `CoreIsa.CycleStore` | components/datapath.sv:112-115 | likewise for stores |
| `CoreIsa.ClockExecutes` | components/datapath.sv:55-127 | one undisturbed clock is the cycle of the instruction at the pc, for every instruction and state but accesses that trap |
| `Isa.PcStaysAligned` | components/fetch.sv:15-20 | an instruction that retires takes an aligned program counter to an aligned one |
| `Isa.OddOffsets` | components/signext.sv:11-21 | the jump and branch offsets that are misaligned are the odd numbers of halfwords |
| `Conformance.LoadWithinDoubleword` | components/datamemory.sv:28-48 | within its doubleword a load finds its bytes if and only if they equal those of the word in the RAM's output register |
| `Conformance.StoreWithinDoubleword` | components/datamemory.sv:14-26 | within its doubleword a store loses no byte |
| `Conformance.StoreRest` | components/datamemory.sv:14-26 | a store that loses bytes leaves the right memory if and only if they are there already |
| `Conformance.Result32Conforms` | components/alu.sv:47-51 | a 32-bit form writes the instruction set's value if and only if it is no negative arithmetic shift or writes x0 |
| `Conformance.Forms32Conform` | components/alu.sv:47-51 | the same for pc, registers and memory after a 32-bit register form or shift |
| `Conformance.TargetDiffers` | components/execute.sv:39-41 | a taken branch reaches the next instruction only with offset four |
| `Conformance.BranchConforms` | components/branching.sv:4-17 | a branch leaves the instruction set's state if and only if its decision is right or does not matter |
| `Conformance.LoadConforms` | components/datapath.sv:101-124 | a load that does not trap leaves the instruction set's state if and only if it writes x0 or the RAM's output register presents the addressed bytes |
| `Conformance.StoreConforms` | components/datapath.sv:112-115 | a store that does not trap leaves the byte memory of the instruction set if and only if no byte is lost |
| `Conformance.CrossingTraps` | components/except_e.sv:10-17 | an access beyond its doubleword traps while MIE is set, with cause 4 for loads and 6 for stores |
| `Conformance.NoTrap` | components/except_controller.sv:54-75 | but for accesses beyond their doubleword no instruction traps |
| `Conformance.MisalignedJumps` | components/except_f.sv:9-10 | a jump or taken branch to a misaligned target, for which section 2.5 demands an exception, is carried out without a trap |
| `Conformance.JumpDeparts` | components/except_f.sv:9-10 | a concrete JAL that departs |
| `Conformance.CoreExecutesIsa` | components/datapath.sv:55-127 | for every encodable instruction and every state: one clock is one instruction of the RISC-V Unprivileged ISA (20191213, sections 2.3 to 2.6, 5.2, 5.3) on pc, registers, byte memory and control registers, if and only if the stated condition on targets, SRAW, SRAIW, BLT, BGE, loads and stores holds; exceptions of the instruction set are answered by a trap with their cause |
| `Conformance.CoreRunExecutesIsa` | components/core.sv:120-155 | any number of undisturbed clocks in which the condition holds is that number of instructions on a byte memory, none of which raises an exception |
| `TrapStack.TrapIsLive` | components/maindec.sv:20-23 | a stalled core neither traps nor returns |
| `TrapStack.DecodesIllegal` | components/maindec.sv:20-149 | exactly the words with an unknown opcode, or a SYSTEM encoding that is no ebreak, ecall, mret or CSR instruction, are decoded as illegal |
| `TrapStack.IllegalTraps` | components/maindec.sv:147-149 | a running core raises the illegal-instruction exception exactly on those words, and takes it, with cause 2, exactly while MIE is set |
| `TrapStack.DecodesSystem` | components/maindec.sv:113-146 | ecall, ebreak, mret, loads and stores are decoded from exactly their words |
| `TrapStack.CauseIsOfWord` | components/exceptDecode.sv:5-48 | the cause of an exception from the word that raises it: 2 undefined, 8 ecall, 3 ebreak, 4 load, 6 store |
| `TrapStack.SystemTraps` | components/except_controller.sv:54-75 | undefined words, ecall and ebreak trap whenever MIE is set |
| `TrapStack.MretReturns` | components/maindec.sv:122-125 | mret raises the return signal and no exception |
| `TrapStack.TrapSaves` | components/core_status.sv:21-56 | a trap sets mcause to the cause of its word, saves pc, mode and MIE, clears MIE and enters machine mode at mtvec |
| `TrapStack.EbreakRaisesFlag` | components/core.sv:76-96 | the ebreak flag goes up exactly when an ebreak is executed |
| `TrapStack.FlagTellsEbreak` | de0_nano/nios/software/hw_io/hello_world_small.c:69-72 | hence what the coprocessor waits for: after any run the flag is up exactly if it was before or an ebreak was executed |
| `TrapStack.ReturnRestores` | components/core_status.sv:38-56 | mret restores pc, mode and MIE |
| `TrapStack.QuietRunKeeps` | components/except_controller.sv:54-75 | with MIE clear, no run without mstatus write, mret or reset takes a trap or changes what a trap saved |
| `TrapStack.TrapRoundTrip` | components/fetch.sv:15-20 | trap, any such run, mret: back at the trapping instruction with its mode and MIE (RISC-V Privileged ISA 20211203, section 3.1.6.1) |
| `CsrAccess.BitwiseBit` | components/atom_alu.sv:1-32 | bitwise operations act on every bit alone |
| `CsrAccess.AtomUpdates` | components/atom_alu.sv:1-32 | the old value comes out, and every bit is written, set or cleared as the instruction says (RISC-V Unprivileged ISA 20191213, chapter 9) |
| `CsrAccess.OperandIff` | components/signext.sv:32-33 | the five-bit immediate that reaches the hardware is the instruction set's if and only if it is below sixteen |
| `CsrAccess.CsrClock` | components/execute.sv:27-34 | one clock at a CSR instruction: the register gets the old value, mstatus and mtvec their writable fields, and nothing else changes |
| `CsrAccess.MstatusUpdated` | components/core_status.sv:38-56 | MIE, MPIE and MPP after a CSR instruction, from their bits before and those of the operand |
| `CsrAccess.ExceptionsEnabled` | software/c_progs/entry.s:48 | csrsi mstatus, 8 sets MIE and changes nothing else of mstatus |
| `CsrAccess.ImmediateDeparts` | components/signext.sv:32-33 | a concrete csrwi whose immediate is extended to bits it does not have |
| `CsrAccess.MtvecUpdated` | components/except_controller.sv:65-68 | mtvec after a CSR instruction, bit by bit: bits 23 to 2 are writable |
| `CsrAccess.HandlerReads` | software/c_progs/entry.s:67-70 | csrr t0, mcause and csrr t1, mepc leave what the last trap has saved |
| `CsrAccess.CsrNumbers` | components/csr_dec.sv:1-25 | which register each number reads; misa is a 64-bit machine with user mode and the base integer set |
| `CsrAccess.MstatusStaysFit` | components/core_status.sv:38-56 | no clock takes a field of mstatus out of its bits |
| `FaultInjection.ArmingResets` | components/core.sv:76-96 | arming in reset sets the counters and keeps registers and memory |
| `FaultInjection.PortArms` | components/core.sv:76-96 | the armed delay is set by a debug access with address bit 12, kept while armed and cleared otherwise |
| `FaultInjection.PortWritesFlag` | components/core.sv:76-96 | the coprocessor writes the ebreak flag with address bits 12 and 0 |
| `FaultInjection.PortReads` | components/core.sv:164-175 | a read access of the coprocessor stops the core and shows the addressed doubleword, as the memory dump expects it |
| `FaultInjection.PortWrites` | components/core.sv:164-175 | a write access stops the core and replaces the addressed doubleword |
| `FaultInjection.FetchesInOrder` | components/imem.sv:1-20 | the instruction memory holds a word for every four bytes |
| `FaultInjection.DelayIsInvisible` | components/core.sv:96-118 | nothing the core computes depends on the armed delay |
| `FaultInjection.ArmedCycle` | components/core.sv:76-96 | before the delay an armed clock is an ordinary clock |
| `FaultInjection.FrozenCycle` | components/maindec.sv:20-23 | at the delay a clock changes nothing at all |
| `FaultInjection.ArmedRun` | components/core.sv:76-96 | with delay D the core makes exactly D steps of the normal run, then stays frozen however long it is clocked |
| `FaultInjection.InjectCycle` | components/decode.sv:24-33 | a register-write cycle flips bits of one register and disarms, and changes nothing else |
| `FaultInjection.FlipTwice` | components/decode.sv:50-54 | repeating any sequence of flips undoes it |
| `FaultInjection.InjectRun` | components/decode.sv:24-33 | any sequence of register-write cycles, at any addresses and with any masks, changes nothing but the register file |
| `FaultInjection.OddFlips` | components/decode.sv:50-54 | the same flip held for k cycles changes the register if and only if k is odd |
| `FaultInjection.FlippedRegister` | components/regfile.sv:14-18 | each register is XORed with the masks addressed to it, combined, and x0 keeps |
| `FaultInjection.PauseFlipResume` | de0_nano/nios/software/hw_io/hello_world_small.c:23-66 | a whole campaign, with any sequence of flips, is the normal run up to the delay, the flips, and the normal run from there |
| `Hardware.RegisterFile.Clock` | components/regfile.sv:14-18 | one edge writes the addressed register, never register 0 |
| `Hardware.DataMemory.Clock` | components/datamemory.sv:28-48 | one edge writes the enabled bytes and loads the output register on a read |
| `Hardware.Chip.ClockRegisters` | components/decode.sv:24-33 | the register write port, with the coprocessor first |
| `Hardware.Chip.ClockMemory` | components/core.sv:164-175 | the memory port, with the coprocessor first |
| `Hardware.Chip.Clock` | components/core.sv:59-212 | rewriting every register in place is exactly the next-state function the other theorems are about |
| `Hardware.Chip.Cycles` | components/core.sv:59-212 | so is any number of edges |
| `LoadPatch.LateStepIsCoreCycle` | components/datamemory.sv:29-49 | the late machine's step at an instruction without control transfer is one undisturbed clock of the core, in registers, memory and RAM output, for every access that does not trap |
| `LoadPatch.TransferIsCoreCycle` | components/execute.sv:39-41 | its step at a branch, call, computed jump or code address is one clock of the core, which goes to the address of the label reached |
| `LoadPatch.PatchOne` | software/parse_helpers.py:8-22 | every instruction is replaced by at least one |
| `LoadPatch.PatchAt` | software/parse_helpers.py:8-22 | the patch of instruction k starts at the position computed for it |
| `LoadPatch.PositionOfEnd` | software/c_progs/rv_binary_patcher.py:21-24 | the positions cover the whole patched program |
| `LoadPatch.PatchWellFormed` | software/parse_helpers.py:8-22 | the patched program is well-formed over the same labels |
| `LoadPatch.ResultAgrees` | software/parse_helpers.py:12-14 | an instruction that does not read t6 computes the same on registers that agree but for t6 |
| `LoadPatch.SamePerform` | components/datapath.sv:101-124 | anything but a load does the same on both machines |
| `LoadPatch.SecondWriteWins` | software/parse_helpers.py:18-19 | a stale value is overwritten by the second load |
| `LoadPatch.AddressKept` | software/parse_helpers.py:18-19 | the first of two equal loads leaves the address of the second alone |
| `LoadPatch.RepeatedLoad` | software/parse_helpers.py:18-19 | a repeated load ends with the addressed word in its destination, whatever the RAM held |
| `LoadPatch.MoveCopies` | software/parse_helpers.py:14 | mv to t6 copies the register |
| `LoadPatch.MovedLoad` | software/parse_helpers.py:12-19 | a load over its own base is right when its base is saved in t6 first |
| `LoadPatch.TransferSimulates` | software/c_progs/rv_binary_patcher.py:21-24 | branches, calls and computed jumps reach the same label on both machines |
| `LoadPatch.RepeatedLoadSimulates` | software/parse_helpers.py:18-19 | the simulation step of a repeated load |
| `LoadPatch.MovedLoadSimulates` | software/parse_helpers.py:12-19 | the simulation step of a moved load |
| `LoadPatch.StepSimulates` | software/parse_helpers.py:8-22 | one original instruction on the ideal core is its patch on the late core |
| `LoadPatch.PatchedRunAgrees` | software/parse_helpers.py:8-22 | for any number of original instructions both runs agree in memory, all registers but t6, and label |
| `LoadPatch.UnpatchedIff` | components/datamemory.sv:28-48 | without the patch a load is right if and only if it writes x0 or the word of the load before it presents the same bytes |
| `LoadPatch.UnpatchedDeparts` | components/datamemory.sv:28-48 | a concrete load that is wrong without the patch |
| `PatchedCore.ResolveFinds` | software/c_progs/rv_binary_patcher.py:21-24 | a jump to the address of a label reaches that address |
| `PatchedCore.OneClock` | components/core.sv:59-212 | with the machine code in the instruction memory, one step of the late machine is one clock of the core, also in its address |
| `PatchedCore.LateRunIsCoreRun` | components/core.sv:59-212 | any number of steps inside the program is that number of clocks |
| `PatchedCore.RepeatedIsSafe` | software/parse_helpers.py:18-19 | both accesses of a repeated load are as safe from traps as the original one |
| `PatchedCore.MovedIsSafe` | software/parse_helpers.py:12-19 | so are those of a moved load |
| `PatchedCore.PatchedRunIsSafe` | software/parse_helpers.py:8-22 | a run of the original that stays inside the program, jumps to labels and does not trap is one of the patch too |
| `PatchedCore.CoreRunsProgram` | software/c_progs/rv_binary_patcher.py:18-26 | the core with the patched program in its instruction memory does for any number of instructions what the original program means: same memory, same registers but t6, and the address of the label reached |
| `PatchText.RewriteLine` | software/parse_helpers.py:8-22 | the script's assignments produce the specified text, or the ValueError or IndexError the original would raise |
| `PatchText.OccursInOperand` | software/parse_helpers.py:12 | a destination occurs in an address operand exactly when it occurs in the offset or in the base register |
| `PatchText.ReplaceInBase` | software/parse_helpers.py:15 | replacement reaches the base register only |
| `PatchText.ReplaceBase` | software/parse_helpers.py:15 | replacing the base register itself gives the operand with the new base |
| `PatchText.ReplacePart` | software/parse_helpers.py:15 | replacing a proper part of the base leaves the rest of its name behind |
| `PatchText.NamesDiffer` | software/parse_helpers.py:12 | different registers have different names |
| `PatchText.OnlyS1` | software/parse_helpers.py:12 | a name is a proper part of another only for s1 in s10 and s11 |
| `PatchText.NumericOffsetIsClean` | software/parse_helpers.py:12 | numeric offsets never name the destination |
| `PatchText.LoadLineSplits` | software/parse_helpers.py:10-11 | splitting a compiler's load line gives mnemonic, destination and operand |
| `PatchText.PatchOfLoad` | software/parse_helpers.py:8-22 | what the patch prints for a load, in terms of its operand |
| `PatchText.PatchPrints` | software/parse_helpers.py:8-22 | where the destination's name occurs neither in the offset nor as a part of the base, the patch prints the lines of the instruction-level patch |
| `PatchText.PatchedLinesDenote` | software/parse_helpers.py:8-22 | and those lines say exactly what the instruction-level patch says |
| `PatchText.CollidingPatchPrints` | software/parse_helpers.py:12-16 | where they collide the patch names t60 or t61, which is no register |
| `PatchText.CollisionNotMeant` | software/parse_helpers.py:12-19 | wherever the name is mistaken the text printed is none that says the instruction-level patch |
| `PatchText.PatchedIffNoCollision` | software/parse_helpers.py:8-22 | a load is patched as meant if and only if its destination's name is no proper part of its base's name and does not occur in the offset, t6 over t6 aside |
| `PatchText.RewritingDeparts` | software/parse_helpers.py:15 | replacing a name that occurs in the offset changes the offset |
| `PatchText.SymbolRenamed` | software/parse_helpers.py:12-19 | for a symbolic offset that contains the destination's name the patch saves the destination and renames the symbol |
| `PatchText.SymbolIsRenamed` | software/parse_helpers.py:12-19 | a concrete load, lw a1,%lo(buf_a1)(a5), that becomes a load from another symbol |
| `PatchText.KeptIff` | software/parse_helpers.py:8-22 | a line is printed as it is if and only if it does not start with the two letters of a load |
| `PatchText.FilePatchedIff` | software/c_progs/rv_binary_patcher.py:20-24 | a file is patched if and only if every line is; otherwise the first line that fails says how |
| `PatchText.FilePatchPrints` | software/c_progs/rv_binary_patcher.py:20-24 | a file is its lines with every load, and no line that does not start like one, replaced by its patch, in order |
| `Text.SplitsInTwo` | software/parse_helpers.py:10 | splitting at blanks undoes joining two words with a tab |
| `Text.SplitAtOne` | software/parse_helpers.py:11 | splitting at a separator undoes joining with it |
| `Text.ReplaceNothing` | software/parse_helpers.py:15 | replacing what does not occur changes nothing |
| `Text.ReplaceHere` | software/parse_helpers.py:15 | an occurrence at the front is replaced |
| `Text.ReplaceItself` | software/parse_helpers.py:15 | replacing a text by itself changes nothing |
| `AlarmClock.ArmWaits` | de0_nano/nios/software/hw_io_bsp/HAL/src/alt_alarm_start.c:80-98 | a new alarm waits for tick n+d+1, with the rollover flag set exactly when that lies in the next wrap |
| `AlarmClock.TickKeepsWaiting` | de0_nano/nios/software/hw_io_bsp/HAL/src/alt_tick.c:96-141 | a tick calls back exactly at the due tick, removes exactly on 0, and keeps the rollover invariant otherwise |
| `AlarmClock.WaitingRunIsPunctual` | de0_nano/nios/software/hw_io_bsp/HAL/src/alt_tick.c:96-141 | over any number of ticks and wraps a waiting alarm calls back at exactly its due ticks |
| `AlarmClock.Punctual` | de0_nano/nios/software/hw_io_bsp/HAL/src/alt_alarm_start.c:80-98 | from start with any delay up to 2^32-2: callbacks at exactly the ticks asked for |
| `AlarmClock.LongestDelay` | de0_nano/nios/software/hw_io_bsp/HAL/src/alt_alarm_start.c:82-96 | the delay 2^32-1 is served a whole wrap too early, except when started at the last count before a wrap |
| `AlarmClock.PunctualIff` | de0_nano/nios/software/hw_io_bsp/HAL/src/alt_alarm_start.c:82-96 | a delay is served as asked if and only if it is below 2^32-1 or the counter stands at 2^32-1 |
| `AlarmList.Insert` | de0_nano/nios/software/hw_io_bsp/HAL/inc/sys/alt_llist.h:90-98 | insertion keeps the circular list well formed and prepends |
| `AlarmList.Remove` | de0_nano/nios/software/hw_io_bsp/HAL/inc/sys/alt_llist.h:105-117 | the neighbours are joined and the entry points to itself |
| `AlarmList.RemoveEntry` | de0_nano/nios/software/hw_io_bsp/HAL/inc/sys/alt_llist.h:105-117 | removal keeps the circular list well formed and deletes that entry, the others in order |
| `AlarmList.RemoveAgain` | de0_nano/nios/software/hw_io_bsp/HAL/inc/sys/alt_llist.h:110-117 | a second removal changes nothing |
| `AlarmList.Neighbours` | de0_nano/nios/software/hw_io_bsp/HAL/inc/sys/alt_llist.h:62-67 | next and previous of an entry are its neighbours in the list |
| `AlarmList.KeptMembers` | de0_nano/nios/software/hw_io_bsp/HAL/src/alt_tick.c:121-124 | an alarm stays exactly when its tick does not remove it |
| `AlarmList.TurnSplits` | de0_nano/nios/software/hw_io_bsp/HAL/src/alt_tick.c:98-141 | in the middle of a walk the list is the alarms kept so far followed by those to come |
| `AlarmList.Timer.constructor` | de0_nano/nios/software/hw_io_bsp/HAL/src/alt_tick.c:44-58 | no alarms, tick rate zero |
| `AlarmList.Timer.InitClock` | de0_nano/nios/software/hw_io_bsp/HAL/inc/sys/alt_alarm.h:92-104 | the tick rate is set once |
| `AlarmList.Timer.Start` | de0_nano/nios/software/hw_io_bsp/HAL/src/alt_alarm_start.c:64-112 | ENOTSUP without a clock, EINVAL without an alarm, otherwise registered first in the list with the specified time and flag |
| `AlarmList.Timer.Stop` | de0_nano/nios/software/hw_io_bsp/HAL/src/alt_tick.c:66-73 | the alarm leaves the list, the others stay in order |
| `AlarmList.Timer.Process` | de0_nano/nios/software/hw_io_bsp/HAL/src/alt_tick.c:100-140 | one turn of the loop ticks one alarm and hands back the next, read before any removal |
| `AlarmList.Timer.TurnList` | de0_nano/nios/software/hw_io_bsp/HAL/src/alt_tick.c:100-140 | one turn as the list sees it: the alarm ticked, and gone exactly if that removed it |
| `AlarmList.Timer.Turn` | de0_nano/nios/software/hw_io_bsp/HAL/src/alt_tick.c:100-140 | one turn keeps the walk's invariant although the list is edited under it |
| `AlarmList.Timer.Walk` | de0_nano/nios/software/hw_io_bsp/HAL/src/alt_tick.c:98-141 | the walk terminates and every alarm registered at its start gets exactly one turn |
| `AlarmList.Timer.Tick` | de0_nano/nios/software/hw_io_bsp/HAL/src/alt_tick.c:87-148 | afterwards the list is, in order, exactly the alarms that did not return 0, each advanced by one tick |
| `AlarmList.Timer.TickTowards` | de0_nano/nios/software/hw_io_bsp/HAL/src/alt_tick.c:87-148 | one tick brings every alarm one step closer to its callbacks |
| `AlarmList.Timer.Ticks` | de0_nano/nios/software/hw_io_bsp/HAL/src/alt_tick.c:87-148 | over any number of ticks every alarm is called back exactly as its own clock says, whatever the others do |
| `AlarmList.Timer.StartAndRun` | de0_nano/nios/software/hw_io_bsp/HAL/src/alt_alarm_start.c:64-112 | end to end: an alarm started with delay d is called back at exactly the ticks asked for |
| `FdPool.FirstFree` | de0_nano/nios/software/hw_io_bsp/HAL/src/alt_get_fd.c:77-89 | the search finds the first free descriptor |
| `FdPool.Open` | de0_nano/nios/software/hw_io_bsp/HAL/src/alt_open.c:105-171 | a returned descriptor is in the pool |
| `FdPool.Marked` | de0_nano/nios/software/hw_io_bsp/HAL/src/alt_open.c:72-72 | a device descriptor starts unlocked and marked as a device, whatever flags the caller passes |
| `FdPool.LockBit` | de0_nano/nios/software/hw_io_bsp/HAL/src/alt_fd_lock.c:69 | locking sets the exclusive bit and keeps the device bit |
| `FdPool.UnlockBit` | de0_nano/nios/software/hw_io_bsp/HAL/src/alt_fd_unlock.c:52-56 | unlocking clears it |
| `FdPool.StatusBits` | de0_nano/nios/software/hw_io_bsp/HAL/src/alt_fcntl.c:86-92 | setting status flags touches neither |
| `FdPool.PreparedFacts` | de0_nano/nios/software/hw_io_bsp/HAL/src/alt_open.c:64-92 | taking a descriptor keeps the pool invariant, and the scan up to the high-water mark misses no lock |
| `FdPool.OpenSucceedsIff` | de0_nano/nios/software/hw_io_bsp/HAL/src/alt_open.c:105-171 | open succeeds if and only if the name is known, a descriptor is free, no descriptor at all holds the device locked, and the driver agrees; it then changes that one descriptor only |
| `FdPool.FailedOpenKeeps` | de0_nano/nios/software/hw_io_bsp/HAL/src/alt_open.c:161-166 | a failed open leaves the allocated set and all their contents unchanged |
| `FdPool.OpenKeepsInv` | de0_nano/nios/software/hw_io_bsp/HAL/src/alt_open.c:105-171 | allocated descriptors above 2 stay at or below the high-water mark |
| `FdPool.LockGrantedIff` | de0_nano/nios/software/hw_io_bsp/HAL/src/alt_fd_lock.c:61-69 | a lock is granted if and only if no rival lies below the high-water mark, and is then exclusive if and only if the descriptor at the mark is no rival |
| `FdPool.LockMissesRival` | de0_nano/nios/software/hw_io_bsp/HAL/src/alt_fd_lock.c:61-69 | a pool of four in which a granted lock is not exclusive |
| `FdPool.LockChangesOne` | de0_nano/nios/software/hw_io_bsp/HAL/src/alt_fd_lock.c:61-75 | locking sets and unlocking clears the exclusive bit of one descriptor, and nothing else changes |
| `FdPool.CloseReleases` | de0_nano/nios/software/hw_io_bsp/HAL/src/alt_close.c:64-101 | closing frees a descriptor above 2 whatever its driver answers, changes no other, and reports the driver's error |
| `FdPool.CloseUnlocks` | de0_nano/nios/software/hw_io_bsp/HAL/src/alt_close.c:84-89 | a sole owner that closes gives its lock up |
| `FdPool.CloseThenOpen` | de0_nano/nios/software/hw_io_bsp/HAL/src/alt_open.c:105-171 | after a close the next open of an unlocked device succeeds |
| `FdPool.RedirectMoves` | de0_nano/nios/software/hw_io_bsp/HAL/src/alt_io_redirect.c:58-72 | a redirected stream is what the open made, with its private pointer and flags, and the descriptor it came from is free again |
| `FdPool.OpenFlagBits` | de0_nano/nios/software/hw_io_bsp/HAL/src/alt_open.c:138-143 | the flags of an opened descriptor are the caller's but for the two bits of the pool |
| `FdPool.SetFlagsBits` | de0_nano/nios/software/hw_io_bsp/HAL/src/alt_fcntl.c:86-92 | F_SETFL takes the status bits from its argument and leaves all others |
| `FdPool.LockKeepsInv` | de0_nano/nios/software/hw_io_bsp/HAL/src/alt_fd_lock.c:54-75 | locking and unlocking keep the pool invariant |
| `FdPool.ReleaseKeepsInv` | de0_nano/nios/software/hw_io_bsp/HAL/src/alt_release_fd.c:44-51 | releasing keeps the pool invariant |
| `FdPool.RedirectKeepsInv` | de0_nano/nios/software/hw_io_bsp/HAL/src/alt_io_redirect.c:58-72 | redirecting keeps the pool invariant |
| `FdPool.CallKeepsInv` | de0_nano/nios/software/hw_io_bsp/HAL/src/alt_open.c:64-171 | every call keeps the pool invariant |
| `FdPool.SoleOwnerStays` | de0_nano/nios/software/hw_io_bsp/HAL/src/alt_fd_lock.c:54-75 | a sole locked owner stays sole through every call but its own close, unlock or redirection |
| `FdPool.RunKeepsInv` | de0_nano/nios/software/hw_io_bsp/HAL/src/alt_open.c:64-171 | and over any run of calls |
| `FdPool.MissedRivalIsReachable` | de0_nano/nios/software/hw_io_bsp/HAL/src/alt_fd_lock.c:61-69 | three redirections and one open lead from start-up to the pool in which a lock misses its rival |
| `FdPool.RunKeepsOwner` | de0_nano/nios/software/hw_io_bsp/HAL/src/alt_open.c:64-171 | and so through any run of such calls |
| `FdDriver.Descriptors.constructor` | de0_nano/nios/software/hw_io_bsp/HAL/src/alt_dev.c:118-149 | the standard streams on the null device, nothing else allocated |
| `FdDriver.Descriptors.GetFd` | de0_nano/nios/software/hw_io_bsp/HAL/src/alt_get_fd.c:54-101 | the loop takes the first free descriptor and raises the high-water mark |
| `FdDriver.Descriptors.ReleaseFd` | de0_nano/nios/software/hw_io_bsp/HAL/src/alt_release_fd.c:44-51 | frees descriptors above 2 only |
| `FdDriver.Descriptors.FileLocked` | de0_nano/nios/software/hw_io_bsp/HAL/src/alt_open.c:64-92 | marks the device and finds a lock exactly if another descriptor holds one |
| `FdDriver.Descriptors.Finish` | de0_nano/nios/software/hw_io_bsp/HAL/src/alt_open.c:159-171 | failure releases the descriptor and sets the error number |
| `FdDriver.Descriptors.Claim` | de0_nano/nios/software/hw_io_bsp/HAL/src/alt_open.c:138-143 | the first flags of a descriptor and the lock check |
| `FdDriver.Descriptors.Open` | de0_nano/nios/software/hw_io_bsp/HAL/src/alt_open.c:105-171 | the imperative open is the specified one, with its error number |
| `FdDriver.Descriptors.Close` | de0_nano/nios/software/hw_io_bsp/HAL/src/alt_close.c:64-101 | the imperative close is the specified one |
| `FdDriver.Descriptors.Lock` | de0_nano/nios/software/hw_io_bsp/HAL/src/alt_fd_lock.c:54-75 | the loop that stops short of the high-water mark is the specified lock |
| `FdDriver.Descriptors.Unlock` | de0_nano/nios/software/hw_io_bsp/HAL/src/alt_fd_unlock.c:52-56 | the imperative unlock is the specified one |
| `FdDriver.Descriptors.Ioctl` | de0_nano/nios/software/hw_io_bsp/HAL/src/alt_ioctl.c:106-168 | lock requests reach the pool for devices only, all others the driver |
| `FdDriver.Descriptors.OpenFd` | de0_nano/nios/software/hw_io_bsp/HAL/src/alt_io_redirect.c:58-72 | a standard stream takes over the opened descriptor, which is released |
| `FdDriver.Descriptors.IoRedirect` | de0_nano/nios/software/hw_io_bsp/HAL/src/alt_io_redirect.c:85-94 | output, input, error, in that order |
| `Dtn.LevelDrawn` | software/c_progs/dtn/dtn.c:58-65 | redrawing a level keeps the size of the network |
| `Dtn.LevelDrawnWired` | software/c_progs/dtn/dtn.c:58-65 | redrawing a level keeps the network wired and the receiver as it is |
| `Dtn.HopLevel` | software/c_progs/dtn/dtn.c:89-117 | a hop stays in its level or goes one on, and leaves the last level only to the receiver |
| `Dtn.HopIsCheapest` | software/c_progs/dtn/dtn.c:89-117 | a hop goes to the cheapest up node of the whole next level, or sideways when there is none |
| `Dtn.RouteLength` | software/c_progs/dtn/dtn.c:69-120 | every node of a route is accounted for by a level or a wait |
| `Dtn.ArrivedLength` | software/c_progs/dtn/dtn.c:69-120 | a route that arrived has 5 + waits nodes |
| `Dtn.CostExtends` | software/c_progs/dtn/dtn.c:108-113 | a leg adds its link cost, or ten for a wait |
| `Dtn.RouteExtends` | software/c_progs/dtn/dtn.c:89-117 | a proper hop extends a proper route |
| `Dtn.Network.DrawNode` | software/c_progs/dtn/dtn.c:59-64 | status and costs are drawn in the program's order |
| `Dtn.Network.RandomStatusLevel` | software/c_progs/dtn/dtn.c:58-65 | exactly one level is redrawn |
| `Dtn.Network.Select` | software/c_progs/dtn/dtn.c:77-85 | the selection loop finds the cheapest up node, the first of its price, or reports that all are down |
| `Dtn.Network.Advance` | software/c_progs/dtn/dtn.c:89-116 | the body of the routing loop makes a proper hop and adds its price, modulo 2^64 |
| `Dtn.Network.Departure` | software/c_progs/dtn/dtn.c:77-87 | a route starts at the cheapest up node of the first level |
| `Dtn.Network.Travel` | software/c_progs/dtn/dtn.c:89-117 | the loop records a proper route in the path |
| `Dtn.Network.GreedyPath` | software/c_progs/dtn/dtn.c:69-120 | the path is a proper greedy route with its cost, of 5 + waits nodes, and fits whenever there are at most 49 waits; with the first level down it is the sender alone |
| `Dtn.Network.Init` | software/c_progs/dtn/dtn.c:127-145 | the initial network, node by node from the random stream: all up, costs below 1024, the receiver's the greatest number |
| `Dtn.Network.DrawCosts` | software/c_progs/dtn/dtn.c:133-134 | costs are ten-bit numbers, the next of the random stream |
| `Dtn.Network.DrawNodes` | software/c_progs/dtn/dtn.c:36-41 | all levels are drawn anew from the random stream |
| `Dtn.Network.CountDown` | software/c_progs/dtn/dtn.c:44-48 | the count tells whether the whole first level is down |
| `Dtn.Network.RandomStatusAll` | software/c_progs/dtn/dtn.c:36-56 | all levels are drawn anew, a random node of the first one is raised exactly if all of it is down, and the sender's costs are drawn last |
| `Dtn.Network.OneRun` | software/c_progs/dtn/dtn.c:154-165 | one run reports a proper route from a ready network, its nodes and nothing else in the path, and its cost |
| `Dtn.Network.ChainExtends` | software/c_progs/dtn/dtn.c:154-165 | each run starts in the network that is redrawn from where the one before has ended |
| `Dtn.Network.Experiment` | software/c_progs/dtn/dtn.c:148-167 | so does every run of the experiment, the first in the initial network and each next one in the redrawn one |
| `Sdram.LatchSettles` | components/memControl.sv:213-293 | the bit the combinational block both reads and drives settles |
| `Sdram.PhaseStep` | components/memControl.sv:111-132 | the start-up phases follow each other, timer by timer |
| `Sdram.PhaseAlways` | components/memControl.sv:133-393 | the phase is known in every cycle after reset, for any start-up time and requests |
| `Sdram.CommandTrace` | components/memControl.sv:133-393 | the commands are exactly NOP for the start-up time, PRE, 2 NOP, eight times REF and 8 NOP, MRS, 2 NOP, and then only NOP, ACT and DESL |
| `Sdram.StartUpOrder` | components/memControl.sv:64-70 | eight refreshes tRC + 1 cycles apart, then one mode register set, every activation after both, no read or write ever |
| `Sdram.ModeWritten` | components/memControl.sv:70 | the mode register takes the declared setting |
| `Sdram.LinesByCommand` | components/memControl.sv:133-300 | address, bank and mask lines of every command: address bit 10 is up for refreshes and activations and down at the precharge |
| `Sdram.RequestsActivate` | components/memControl.sv:253-291 | a request is answered by ACT and then one DESL cycle |
| `PairQueue.SwapIsStable` | software/c_progs/lib/queue.c:47-50 | exchanging neighbours with different keys is a stable permutation |
| `PairQueue.StableSortIsUnique` | software/c_progs/lib/queue.c:44-53 | order and stability determine the result |
| `PairQueue.StableKeepsCounts` | software/c_progs/lib/queue.c:44-53 | a stable permutation keeps every pair as often as it was |
| `PairQueue.SwappedCells` | software/c_progs/lib/queue.c:48-49 | two exchanges of cells exchange two pairs |
| `PairQueue.ComparedBubbles` | software/c_progs/lib/queue.c:46-51 | one comparison moves the greatest pair on and stays stable |
| `PairQueue.PassDone` | software/c_progs/lib/queue.c:45-52 | a pass puts one more pair in place |
| `PairQueue.Queue.constructor` | software/c_progs/lib/queue.c:11-17 | an empty queue |
| `PairQueue.Queue.Enqueue` | software/c_progs/lib/queue.c:22-28 | appends, or ignores the item when full |
| `PairQueue.Queue.Dequeue` | software/c_progs/lib/queue.c:30-35 | drops the first items; asked for more than there are, the size wraps and the queue is one no longer, and only then |
| `PairQueue.Queue.Swap` | software/c_progs/lib/queue.c:37-41 | exchanges two cells |
| `PairQueue.Queue.SwapPairs` | software/c_progs/lib/queue.c:48-49 | both cells of two neighbouring pairs are exchanged, and nothing outside the queue |
| `PairQueue.Queue.Compare` | software/c_progs/lib/queue.c:47-50 | one comparison of two neighbouring pairs in the flat array |
| `PairQueue.Queue.Pass` | software/c_progs/lib/queue.c:46-51 | one pass of the inner loop |
| `PairQueue.Queue.Sort` | software/c_progs/lib/queue.c:44-53 | the pairs end in nondecreasing key order, a stable permutation, with all other cells unchanged |
| `PairQueue.Queue.Find` | software/c_progs/lib/queue.c:55-64 | finds the first pair with the item among all pairs but the last, or reports none |
| `PairQueue.LastPairIsMissed` | software/c_progs/lib/queue.c:55-64 | a queue of two pairs in which the item of the second is not found |
| `TimeOfDay.WallClock.Set` | de0_nano/nios/software/hw_io_bsp/HAL/src/alt_settod.c:72-96 | fails without a clock, otherwise stores time less ticks |
| `TimeOfDay.WallClock.Normalise` | de0_nano/nios/software/hw_io_bsp/HAL/src/alt_gettod.c:95-112 | the two loops bring the microseconds below a second, clamping to zero exactly when there is no second to borrow |
| `TimeOfDay.WallClock.Get` | de0_nano/nios/software/hw_io_bsp/HAL/src/alt_gettod.c:71-124 | fails without a clock, otherwise shows the stored time plus ticks |
| `TimeOfDay.TicksAdd` | de0_nano/nios/software/hw_io_bsp/HAL/src/alt_gettod.c:91-93 | seconds and microseconds of a tick count make up its worth |
| `TimeOfDay.StoredExact` | de0_nano/nios/software/hw_io_bsp/HAL/src/alt_settod.c:82-84 | without wrap, what is stored is exactly the time less the elapsed microseconds |
| `TimeOfDay.SetThenGet` | de0_nano/nios/software/hw_io_bsp/HAL/src/alt_gettod.c:89-112 | set then get at any later tick shows exactly the time set plus the elapsed microseconds, with tv_usec in range and no clamping |
| `TimeOfDay.Monotone` | de0_nano/nios/software/hw_io_bsp/HAL/src/alt_gettod.c:89-112 | two readings differ by exactly the ticks between them |
| `TimeOfDay.WrapSurvives` | de0_nano/nios/software/hw_io_bsp/HAL/src/alt_settod.c:83-84 | the 32-bit product keeps its remainder if and only if its wraps are a multiple of 5^6 |
| `TimeOfDay.SetGetIdentityIff` | de0_nano/nios/software/hw_io_bsp/HAL/src/alt_settod.c:80-84 | for any tick rate and any timeval an immediate reading shows the time just set if and only if that holds or the time is zero and clamped |
| `TimeOfDay.SetGetDeparts` | de0_nano/nios/software/hw_io_bsp/HAL/src/alt_settod.c:80-84 | a time of 2023 at a thousand ticks a second that reads back wrong |
| `Printers.DigitRoundTrip` | de0_nano/nios/software/hw_io_bsp/HAL/src/alt_printf.c:107-110 | a printed digit reads as its value |
| `Printers.NumeralParses` | de0_nano/nios/software/hw_io_bsp/HAL/src/alt_printf.c:84-113 | a numeral reads back as its number, in every base and case |
| `Printers.NumeralIsMinimal` | de0_nano/nios/software/hw_io_bsp/HAL/src/alt_printf.c:98-101 | no leading zero but for zero itself |
| `Printers.NumeralLength` | de0_nano/nios/software/hw_io_bsp/HAL/src/alt_printf.c:98-101 | the number of digits by powers of the base |
| `Printers.LastDigitsIsNumeral` | de0_nano/nios/software/hw_io_bsp/HAL/src/alt_printf.c:103-112 | printing place by place from the first digit gives the numeral |
| `Printers.TopDigit` | de0_nano/nios/software/hw_io_bsp/HAL/src/alt_printf.c:98-101 | the highest place holds zero exactly when the number is below it |
| `Printers.Console.FirstPlace` | de0_nano/nios/software/hw_io_bsp/HAL/src/alt_printf.c:98-101 | the search stops at the first digit that is not zero |
| `Printers.Console.PutHex` | de0_nano/nios/software/hw_io_bsp/HAL/src/alt_printf.c:84-113 | %x prints the minimal numeral |
| `Printers.Console.Printf` | de0_nano/nios/software/hw_io_bsp/HAL/src/alt_printf.c:51-132 | the format loop prints exactly the formatted text |
| `Printers.Console.PutText` | de0_nano/nios/software/hw_io_bsp/HAL/src/alt_printf.c:114-121 | %s prints its text |
| `HostParse.HexText` | de0_nano/nios/software/hw_io/generate_graph.py:50-62 | a printed number has no separator and reads back, with or without prefix |
| `HostParse.HalvesPrinted` | de0_nano/nios/software/hw_io/hello_world_small.c:79 | what the target prints for a doubleword in two halves |
| `HostParse.TwoHalvesParse` | de0_nano/nios/software/hw_io/generate_graph.py:52-55 | two halves joined by an underscore read as high*2^32 + low |
| `HostParse.DecimalParses` | de0_nano/nios/software/hw_io/generate_graph.py:58-61 | decimal numbers read as themselves, and a run that did not finish as its own number |
| `HostParse.HalvesParse` | de0_nano/nios/software/hw_io/generate_graph.py:50-62 | print then parse_num is high*2^32 + low, although the low half is not padded |
| `HostParse.ParseMemdump` | de0_nano/nios/software/hw_io/fault-injection.py:46-56 | the loop rewrites every line, or fails as the original does |
| `HostParse.EightDigitsParse` | de0_nano/nios/software/hw_io/fault-injection.py:52 | a word fills its eight-digit field exactly and reads back |
| `HostParse.SixteenDigitsParse` | de0_nano/nios/software/hw_io/generate_graph.py:57 | sixteen digits read as high*2^32 + low |
| `HostParse.MemLinePrinted` | de0_nano/nios/software/hw_io/hello_world_small.c:99 | what the target prints for a doubleword of memory |
| `HostParse.FourColumnsRead` | de0_nano/nios/software/hw_io/fault-injection.py:52 | the first column reads back as the word's number |
| `HostParse.MemLineRewritten` | de0_nano/nios/software/hw_io/fault-injection.py:50-53 | the line parse_memdump makes of it |
| `HostParse.MemLineParses` | de0_nano/nios/software/hw_io/fault-injection.py:46-56 | print, parse_memdump, parse_num: high*2^32 + low |
| `LogPrinter.FieldWidth` | de0_nano/nios/software/hw_io_bsp/HAL/src/alt_log_printf.c:258-279 | the field has max(width, digits + sign) characters |
| `LogPrinter.FieldReadsBack` | de0_nano/nios/software/hw_io_bsp/HAL/src/alt_log_printf.c:238-297 | without its leading blanks the field reads, as a signed numeral, as the value, also for -2^31; the sign stands before the zeros and after the blanks |
| `LogPrinter.Log.RepChar` | de0_nano/nios/software/hw_io_bsp/HAL/src/alt_log_printf.c:106-110 | the padding loop |
| `LogPrinter.Log.CountDigits` | de0_nano/nios/software/hw_io_bsp/HAL/src/alt_log_printf.c:247-255 | the digit count is the numeral's length, and the largest place value never exceeds the number, so it cannot overflow |
| `LogPrinter.Log.PutDigits` | de0_nano/nios/software/hw_io_bsp/HAL/src/alt_log_printf.c:281-296 | the digit loop terminates and prints every place |
| `LogPrinter.Log.PutDigit` | de0_nano/nios/software/hw_io_bsp/HAL/src/alt_log_printf.c:286-292 | a digit becomes its character |
| `LogPrinter.Log.PutLead` | de0_nano/nios/software/hw_io_bsp/HAL/src/alt_log_printf.c:258-279 | sign and padding in their order |
| `LogPrinter.Log.PrintInteger` | de0_nano/nios/software/hw_io_bsp/HAL/src/alt_log_printf.c:238-297 | the conversion prints exactly the field: sign, padding and minimal numeral |
| `LogPrinter.DigitOfRemainder` | de0_nano/nios/software/hw_io_bsp/HAL/src/alt_log_printf.c:286-295 | division and remainder by the place value give the next digit and what is left |
| `LogPrinter.PlacesAreDigits` | de0_nano/nios/software/hw_io_bsp/HAL/src/alt_log_printf.c:247-255 | a number of n places has n digits |

## Left out

- The uC/OS-II branches, the semaphores, the logging macros and the
  `ALTERA_AVALON_JTAG_UART_IGNORE_FIFO_FULL_ERROR` build of the UART driver.
- JtagUartDriver.JtagUart.Write: a call that spins forever is observed for an arbitrary
  time and then reported as still waiting; that it ever returns while the host is active is not
  claimed. The same holds for `Read` and `Close`. Two writers, or two readers, at once are excluded, as
  the semaphores of the source would.
- JtagUartDriver.JtagUart.ReadControl: the host-activity bit is an arbitrary value, and the
  ioctl of the driver, which changes the timeout, is not modelled.
- Conformance.CoreExecutesIsa: CSR instructions, ecall, ebreak, mret and illegal instructions
  are outside the comparison with the instruction set; the trap behaviour they share is in
  `TrapStack`, and what CSR instructions do to mstatus and mtvec in `CsrAccess`. Interrupts have no implementation in the source. The memory of the instruction
  set is the core's 32 kilobytes, and addresses wrap around it.
- Core.CsrRead: the CSR at 0x340 reads a wire that nothing drives and is modelled as 0.
- FaultInjection.ArmingResets: registers and memory are kept when no instruction at address
  0 executes during reset, which the debug bit of the arming write ensures.
- PatchedCore.CoreRunsProgram: the machine code is a parameter that stands at its addresses and
  encodes the patched program; the assembler and linker that produce it, which may also relax
  or expand instructions, are not modelled.
- LoadPatch.PatchedRunAgrees: code addresses are symbolic (a label stands for one word in both
  programs, as after linking), programs do not name t6 and contain no AUIPC but for code
  addresses, and no access traps; one that crosses a doubleword does what the core's RAM does
  on both machines. A jump to a value that names no label goes to the end label.
- PatchText.PatchedIffNoCollision: the operand is an offset without blanks and commas before a
  register in parentheses, as compilers print it.
- PatchText.FilePatchPrints: the compiler run, the stripping of lines and the reading and
  writing of files are not modelled; blanks are the ASCII ones. A line that starts like a load
  and is none, such as a label, gives the ValueError that the original raises.
- AlarmList.Timer.Start: starting an alarm that is registered already corrupts the list in the
  original and is excluded, as are callbacks that start or stop alarms.
- AlarmList.Timer.Tick: the operating-system hook at its end is empty in this configuration.
- FdDriver.Descriptors.Open: the name lookup in the device and file-system lists is a
  parameter; the two lists are taken to be disjoint, as the source demands. Driver callbacks
  answer with any status and touch nothing of the pool but the private pointer.
- FdDriver.Descriptors.Close: closing a descriptor that is not open dereferences a null pointer
  in the original and is excluded; so are the semaphores around the pool.
- Dtn.Network.GreedyPath: whether the receiver is ever reached depends on the random stream; the
  model stops when the path is full, where the original would write past it. The receiver is up,
  as it always is in the program; with it down the original would redraw nodes that do not exist.
- Dtn.Network.Draw: the random numbers are any stream; the xorshift generator itself is left out.
- Sdram.CommandTrace: the data lanes, and the states ACTIVATING, ACTIVE, READING and WRITING,
  which have no implementation and fall to the default branch.
- PairQueue.Queue.Enqueue: the queue is not circular, so the caller must leave a free cell at the
  end; `sort` needs an even number of cells and `find` a queue that is not empty.
- TimeOfDay.SetThenGet: wrap-around of the tick counter between set and get, times before 1970,
  the overflow of tv_sec after 2^31 seconds, tick rates that do not divide a million, and a set
  later than 2^32 microseconds after reset, for which `SetGetIdentityIff` is the exact answer.
- Printers.Console.Printf: arguments of the wrong kind are the caller's mistake.
- HostParse.ParseNum: of Python's integer syntax only digits with an optional 0x prefix are
  modelled, no signs, blanks or inner underscores; a ValueError and an IndexError both read as
  no value. Splitting whole result files into runs, and plotting, are left out.
- LogPrinter.Log.PrintInteger: the format state machine that fills in a conversion, and %c and %s
  of the log printer.
- Unsupported-call stubs, cache flushes, DMA, flash and performance-counter wrappers, the
  coprocessor's Avalon wrapper, multicycle variants, and Quartus project files.
