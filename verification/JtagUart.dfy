/** The interrupt-driven JTAG UART driver.

    Two rings are shared between the caller's side (`Write`, `Read`, `Close`) and
    the interrupt side (`Isr`, `Timeout`).  `Interference` stands between every
    two statements of the caller's side: any number of interrupt and timer runs.
    `HostStep` stands between any two device accesses: the host may send bytes
    and drain the transmit FIFO at any moment, also while an interrupt runs.

    The ghost fields record what crossed the device registers and what the
    callers were told, so that the rings can be stated as FIFO queues. */
module JtagUartDriver {
  import opened RingBuffer

  const EWOULDBLOCK: int := 11
  const EIO: int := 5
  const INT_MAX: nat := 0x7fff_ffff

  /** The RE and WE bits of the control register. */
  datatype Enables = Enables(re: bool, we: bool)

  /** A call either returns or is still spinning when the observation ends. */
  datatype CallResult = Returned(value: int) | StillWaiting

  /** From zero on, each timer run resets the count of silent runs or adds one to it;
      at its limit it stays. */
  ghost predicate SilenceCounted(history: seq<nat>) {
    && (history != [] ==> history[0] == 0)
    && forall i, j :: 0 <= i && j == i + 1 && j < |history| ==> history[j] == 0 || history[j] <= history[i] + 1
  }

  /** To be given up, the host must have been silent for as many timer runs in a row. */
  lemma {:induction false} GivenUpAfterSilence(history: seq<nat>, k: nat, limit: nat)
    requires SilenceCounted(history) && k < |history| && history[k] >= limit
    ensures limit <= k && forall i :: k - limit < i <= k ==> history[i] > 0
  {
    if limit > 0 {
      assert history[k] <= history[k - 1] + 1;
      GivenUpAfterSilence(history, k - 1, limit - 1);
    }
  }

  /** Neighbouring pieces of a sequence make up one. */
  lemma Joined(data: seq<Byte>, a: nat, b: nat, c: nat)
    requires a <= b <= c <= |data|
    ensures data[a..b] + data[b..c] == data[a..c]
  {
  }

  class JtagUart {
    // driver state
    var timeout: nat
    var hostInactive: nat
    var irqEnable: Enables
    var rxIn: Slot
    var rxOut: Slot
    var txIn: Slot
    var txOut: Slot
    const rxBuf: array<Byte>
    const txBuf: array<Byte>

    // device: the enable bits of the control register, and the two hardware FIFOs
    var control: Enables
    var rxFifo: seq<Byte>
    var txSpace: nat

    // history
    ghost var arrived: seq<Byte>    // sent by the host
    ghost var taken: seq<Byte>      // read from the data register
    ghost var delivered: seq<Byte>  // handed to callers of Read
    ghost var accepted: seq<Byte>   // taken over from callers of Write
    ghost var sent: seq<Byte>       // written to the data register
    ghost var inactivity: seq<nat>  // the values of hostInactive, one per timer run
    ghost var readings: seq<bool>   // whether the interrupt routine saw an interrupt pending

    // what the rings hold, oldest byte first
    ghost var txRing: seq<Byte>
    ghost var rxRing: seq<Byte>

    // where the caller's side is
    ghost var publishing: bool  // a writer has moved txIn and not yet enabled write interrupts
    ghost var consuming: bool   // a reader has moved rxOut and not yet enabled read interrupts

    /** Buffer and indices represent the transmit ring. */
    ghost predicate TxRep()
      reads this`txIn, this`txOut, this`txRing, txBuf
    {
      && txBuf.Length == BUF_LEN && txBuf != rxBuf
      && Holds(txBuf, txOut, txIn, txRing)
    }

    /** Buffer and indices represent the receive ring. */
    ghost predicate RxRep()
      reads this`rxIn, this`rxOut, this`rxRing, rxBuf
    {
      && rxBuf.Length == BUF_LEN && txBuf != rxBuf
      && Holds(rxBuf, rxOut, rxIn, rxRing)
    }

    /** Both directions are lossless first-in first-out queues. */
    ghost predicate Fifo()
      reads this
    {
      && accepted == sent + txRing
      && taken == delivered + rxRing
      && Wire()
    }

    /** The host's bytes wait in the receive FIFO, in order. */
    ghost predicate Wire()
      reads this
    {
      arrived == taken + rxFifo
    }

    /** No wake-up is lost: unsent bytes have their interrupt enabled, and a
        switched-off receive interrupt has a full ring as its reason, except
        while a caller is on its way to the enabling statement. */
    ghost predicate NoLostInterrupt()
      reads this
    {
      && (txRing != [] ==> irqEnable.we || publishing)
      && (!irqEnable.re ==> |rxRing| == BUF_LEN - 1 || consuming)
    }

    /** The history of `hostInactive`: it counts the timer runs without a sign of the host. */
    ghost predicate Noted()
      reads this`inactivity, this`hostInactive
    {
      && inactivity != [] && inactivity[|inactivity| - 1] == hostInactive
      && SilenceCounted(inactivity)
    }

    ghost predicate Inv()
      reads this, txBuf, rxBuf
    {
      && TxRep() && RxRep()
      && Fifo()
      && NoLostInterrupt()
      && Noted()
      && control == irqEnable
    }

    /** What the interrupt side may do behind the caller's back: unsent bytes leave
        the transmit ring, bytes join the receive ring.  It never names `txBuf`,
        `txIn` or `rxOut` in a modifies clause. */
    twostate predicate Interfered()
      reads this
    {
      && |txRing| <= |old(txRing)|
      && old(rxRing) <= rxRing
      && Grown()
    }

    /** What has happened stays: bytes sent by the host, and what the timer saw. */
    twostate predicate Grown()
      reads this
    {
      old(arrived) <= arrived && old(inactivity) <= inactivity
    }

    /** At entry `from` of its history or later, `hostInactive` was at least `limit`. */
    ghost predicate WasInactive(from: nat, limit: nat)
      reads this`inactivity
    {
      exists k :: from <= k < |inactivity| && inactivity[k] >= limit
    }

    /** At entry `from` of its history or later, `hostInactive` was below `limit`. */
    ghost predicate WasActive(from: nat, limit: nat)
      reads this`inactivity
    {
      exists k :: from <= k < |inactivity| && inactivity[k] < limit
    }

    /** Driver start-up: read interrupts on, both rings empty. */
    constructor (timeout: nat, space: nat)
      ensures Inv() && !publishing && !consuming
      ensures accepted == [] && sent == [] && arrived == [] && delivered == []
      ensures fresh(txBuf) && fresh(rxBuf)
    {
      this.timeout, hostInactive := timeout, 0;
      irqEnable, control := Enables(true, false), Enables(true, false);
      rxIn, rxOut, txIn, txOut := 0, 0, 0, 0;
      rxBuf, txBuf := new Byte[BUF_LEN], new Byte[BUF_LEN];
      rxFifo, txSpace := [], space;
      arrived, taken, delivered, accepted, sent := [], [], [], [], [];
      txRing, rxRing := [], [];
      inactivity, readings := [0], [];
      publishing, consuming := false, false;
    }

    // ----- the device -----

    /** The host sends any bytes and drains any part of the transmit FIFO. */
    method HostStep()
      requires Wire()
      modifies this`rxFifo, this`txSpace, this`arrived
      ensures Wire() && txSpace >= old(txSpace)
      ensures old(rxFifo) <= rxFifo && old(arrived) <= arrived
    {
      var more: seq<Byte> := *;
      rxFifo := rxFifo + more;
      arrived := arrived + more;
      var drained: int := *;
      if drained > 0 {
        txSpace := txSpace + drained;
      }
    }

    /** Control register: an interrupt is pending only when it is enabled and its FIFO has work. */
    method ReadControl() returns (ri: bool, wi: bool, space: nat)
      modifies this`readings
      ensures readings == old(readings) + [ri || wi]
      ensures ri ==> control.re && rxFifo != []
      ensures wi ==> control.we && txSpace > 0
      ensures space == txSpace
    {
      ri, wi, space := *, *, txSpace;
      ri := ri && control.re && rxFifo != [];
      wi := wi && control.we && txSpace > 0;
      readings := readings + [ri || wi];
    }

    method WriteControl()
      modifies this`control
      ensures control == irqEnable
    {
      control := irqEnable;
    }

    /** Data register, read side: RVALID, the byte, and RAVAIL after this read. */
    method ReadData() returns (valid: bool, b: Byte, available: nat)
      requires Wire()
      modifies this`rxFifo, this`taken
      ensures Wire()
      ensures valid <==> old(rxFifo) != []
      ensures if valid then available == |rxFifo| else rxFifo == old(rxFifo)
      ensures taken == old(taken) + if valid then [b] else []
      ensures !valid ==> available == 0
    {
      if rxFifo == [] {
        valid, b, available := false, *, 0;
      } else {
        valid, b, available := true, rxFifo[0], |rxFifo| - 1;
        rxFifo := rxFifo[1..];
        taken := taken + [b];
      }
    }

    /** Data register, write side; a byte written into a full FIFO would be lost. */
    method WriteData(b: Byte)
      requires txSpace > 0
      modifies this`txSpace, this`sent
      ensures txSpace == old(txSpace) - 1 && sent == old(sent) + [b]
    {
      txSpace := txSpace - 1;
      sent := sent + [b];
    }

    // ----- the interrupt side -----

    /** What the interrupt routine can still do before it must stop. */
    ghost function Work(): int
      reads this`irqEnable, this`txRing, this`rxRing
    {
      (if irqEnable.re then 1 else 0) + (if irqEnable.we then 1 else 0) + |txRing| - |rxRing|
    }

    /** One byte from the data register into the receive ring. */
    method TakeByte(b: Byte)
      requires RxRep() && Advance(rxIn, 1) != rxOut
      modifies this`rxIn, this`rxRing, rxBuf
      ensures RxRep() && rxRing == old(rxRing) + [b]
      ensures delivered + rxRing == old(delivered + rxRing) + [b]
    {
      rxBuf[rxIn] := b;
      rxIn := Advance(rxIn, 1);
      rxRing := rxRing + [b];
    }

    /** Equal indices mean an empty ring. */
    lemma EmptyIff()
      requires TxRep() && RxRep()
      ensures txRing == [] <==> txOut == txIn
      ensures rxRing == [] <==> rxOut == rxIn
    {
    }

    /** While the transmit ring keeps its length nothing has moved `txOut`. */
    twostate lemma HeadMoved()
      requires old(TxRep()) && TxRep() && txIn == old(txIn) && |txRing| == |old(txRing)|
      ensures txOut == old(txOut)
    {
      SameHead(txOut, old(txOut), txIn);
    }

    lemma RoomLeft()
      requires RxRep() && Advance(rxIn, 1) != rxOut
      ensures |rxRing| < BUF_LEN - 1
    {
    }

    /** Try to move one byte from the FIFO into the ring, which has room. */
    method ReceiveOne() returns (valid: bool, available: nat)
      requires Inv() && Advance(rxIn, 1) != rxOut
      modifies this`rxIn, this`rxFifo, this`txSpace, this`arrived, this`taken, this`rxRing, rxBuf
      ensures Inv() && Interfered() && txSpace >= old(txSpace)
      ensures if valid then |rxRing| == |old(rxRing)| + 1 else rxRing == old(rxRing) && available == 0
      ensures old(rxFifo) != [] ==> valid
      ensures !valid ==> rxFifo == []
    {
      hide TxRep, Noted;
      RoomLeft();
      hide Holds;
      var b;
      valid, b, available := ReadData();
      if valid {
        HostStep();
        TakeByte(b);
      }
    }

    /** Move bytes from the FIFO to the ring until the ring is full or the FIFO empty. */
    method DrainFifo() returns (available: nat)
      requires Inv() && irqEnable.re && rxFifo != []
      modifies this`rxIn, this`rxFifo, this`txSpace, this`arrived, this`taken, this`rxRing, rxBuf
      ensures Inv() && Interfered() && txSpace >= old(txSpace)
      ensures available > 0 ==> |rxRing| == BUF_LEN - 1
      ensures available == 0 ==> |rxRing| > |old(rxRing)|
      ensures |rxRing| == BUF_LEN - 1 || rxFifo == []
    {
      hide Noted;
      available := 1;  // there is data, or the interrupt would not be pending
      while true
        invariant Inv() && Interfered() && txSpace >= old(txSpace)
        invariant |rxRing| == |old(rxRing)| ==> available > 0 && rxFifo != []
        decreases BUF_LEN - |rxRing|
      {
        HostStep();
        if Advance(rxIn, 1) == rxOut {
          break;
        }
        var valid;
        valid, available := ReceiveOne();
        if !valid {
          break;
        }
      }
    }

    method ServiceReceive()
      requires Inv() && irqEnable.re && rxFifo != []
      modifies this`rxIn, this`irqEnable, this`control, this`rxFifo, this`txSpace, this`arrived,
               this`taken, this`rxRing, rxBuf
      ensures Inv() && Interfered() && txSpace >= old(txSpace)
      ensures irqEnable.we == old(irqEnable.we)
      ensures |rxRing| == BUF_LEN - 1 || rxFifo == []
      ensures Work() < old(Work())
    {
      hide Holds, Noted;
      var available := DrainFifo();
      if available > 0 {
        irqEnable := irqEnable.(re := false);
        HostStep();
        WriteControl();
      }
    }

    /** One byte from the transmit ring into the data register. */
    method PushByte()
      requires TxRep() && txSpace > 0 && txOut != txIn
      modifies this`txOut, this`txRing, this`txSpace, this`sent
      ensures TxRep() && txSpace == old(txSpace) - 1
      ensures sent + txRing == old(sent) + old(txRing)
      ensures |txRing| == |old(txRing)| - 1
    {
      assert txRing[0] == txBuf[txOut];
      WriteData(txBuf[txOut]);
      txOut := Advance(txOut, 1);
      assert txRing == [txBuf[old(txOut)]] + txRing[1..];
      txRing := txRing[1..];
    }

    /** The transmit loop: as many bytes as there are and the FIFO has space for. */
    method PushBytes(space0: nat) returns (space: nat)
      requires Inv() && irqEnable.we && space0 <= txSpace
      modifies this`txOut, this`rxFifo, this`txSpace, this`arrived, this`sent, this`txRing
      ensures Inv() && Interfered() && (space > 0 ==> txOut == txIn)
      ensures if space0 <= |old(txRing)| then space == 0 && |txRing| == |old(txRing)| - space0
              else space == space0 - |old(txRing)| && txRing == []
    {
      hide Holds, Noted;
      EmptyIff();
      space := space0;
      while space > 0 && txOut != txIn
        invariant Inv() && Interfered() && space <= txSpace
        invariant |txRing| == |old(txRing)| - (space0 - space) && space <= space0
        invariant txRing == [] <==> txOut == txIn
      {
        PushByte();
        HostStep();
        space := space - 1;
        EmptyIff();
      }
    }

    /** The interrupt goes off when the bytes ran out before the space. */
    method ServiceTransmit(space0: nat)
      requires Inv() && irqEnable.we && 0 < space0 <= txSpace
      modifies this`txOut, this`irqEnable, this`control, this`rxFifo, this`txSpace, this`arrived,
               this`sent, this`txRing
      ensures Inv() && Interfered()
      ensures |txRing| == if space0 <= |old(txRing)| then |old(txRing)| - space0 else 0
      ensures irqEnable == old(irqEnable).(we := space0 <= |old(txRing)|)
      ensures Work() < old(Work())
    {
      hide TxRep, RxRep, Noted;
      var space := PushBytes(space0);
      if space > 0 {
        SwitchOffTransmit();
      }
    }

    method SwitchOffTransmit()
      requires Inv() && txIn == txOut
      modifies this`irqEnable, this`control, this`rxFifo, this`txSpace, this`arrived
      ensures Inv() && Interfered()
      ensures irqEnable == old(irqEnable).(we := false)
    {
      hide Noted;
      irqEnable := irqEnable.(we := false);
      HostStep();
      WriteControl();
    }

    /** One round of the interrupt routine, from a reading of the control register. */
    method Service(ri: bool, wi: bool, space: nat)
      requires Inv() && (ri || wi)
      requires ri ==> irqEnable.re && rxFifo != []
      requires wi ==> irqEnable.we && 0 < space <= txSpace
      modifies this`rxIn, this`txOut, this`irqEnable, this`control, this`rxFifo, this`txSpace,
               this`arrived, this`taken, this`sent, this`txRing, this`rxRing, rxBuf
      ensures Inv() && Interfered()
      ensures Work() < old(Work())
    {
      hide TxRep, RxRep, Noted;
      if ri {
        ServiceReceive();
      }
      if wi {
        ServiceTransmit(space);
      }
    }

    /** All readings since then showed an interrupt pending. */
    twostate predicate AllPending()
      reads this
    {
      old(readings) <= readings && forall k :: |old(readings)| <= k < |readings| ==> readings[k]
    }

    lemma WorkIsBounded()
      requires Inv()
      ensures BUF_LEN + Work() >= 0
    {
    }

    /** The interrupt routine.  It terminates whatever the host does meanwhile, and returns
        only after a reading of the control register that shows nothing pending; after each
        reading before it, it got something done. */
    method Isr()
      requires Inv()
      modifies this`rxIn, this`txOut, this`irqEnable, this`control, this`rxFifo, this`txSpace,
               this`arrived, this`taken, this`sent, this`txRing, this`rxRing, this`readings, rxBuf
      ensures Inv() && Interfered()
      ensures old(readings) < readings && !readings[|readings| - 1]
      ensures forall k :: |old(readings)| <= k < |readings| - 1 ==> readings[k]
      ensures Work() + (|readings| - 1 - |old(readings)|) <= old(Work())
    {
      hide TxRep, RxRep, Noted;
      while true
        invariant Inv() && Interfered() && AllPending()
        invariant Work() + (|readings| - |old(readings)|) <= old(Work())
        decreases BUF_LEN + Work()
      {
        WorkIsBounded();
        HostStep();
        var ri, wi, space := ReadControl();
        if !ri && !wi {
          break;
        }
        Service(ri, wi, space);
      }
    }

    /** The once-a-second check for the host; `active` is the AC bit. */
    method Timeout(active: bool)
      requires Inv()
      modifies this`control, this`hostInactive, this`inactivity
      ensures Inv() && Interfered()
      ensures hostInactive == if active then 0 else if old(hostInactive) < INT_MAX - 2 then old(hostInactive) + 1 else old(hostInactive)
      ensures inactivity == old(inactivity) + [hostInactive]
    {
      if active {
        WriteControl();
        hostInactive := 0;
      } else if hostInactive < INT_MAX - 2 {
        hostInactive := hostInactive + 1;
      }
      inactivity := inactivity + [hostInactive];
    }

    /** Any number of interrupt and timer runs between two statements of a caller. */
    method Interference()
      requires Inv()
      modifies this`rxIn, this`txOut, this`irqEnable, this`control, this`rxFifo, this`txSpace,
               this`arrived, this`taken, this`sent, this`txRing, this`rxRing, this`hostInactive, this`inactivity, this`readings, rxBuf
      ensures Inv() && Interfered()
    {
      hide TxRep, RxRep, Noted;
      var runs: nat := *;
      while runs > 0
        invariant Inv() && Interfered()
      {
        var timer: bool, active: bool := *, *;
        HostStep();
        if timer { Timeout(active); } else { Isr(); }
        runs := runs - 1;
      }
      HostStep();
    }

    // ----- the caller's side -----

    /** Spin until the interrupt side has moved `txOut` or the host is given up, observed for
        `patience` turns; `over` is false when the observation ends first. */
    method AwaitTransmit(out: Slot, patience: nat) returns (over: bool)
      requires Inv()
      modifies this`rxIn, this`txOut, this`irqEnable, this`control, this`rxFifo, this`txSpace,
               this`arrived, this`taken, this`sent, this`txRing, this`rxRing, this`hostInactive, this`inactivity, this`readings, rxBuf
      ensures Inv() && Interfered()
      ensures over ==> out != old(txOut) || |txRing| < |old(txRing)| || WasInactive(|old(inactivity)| - 1, timeout)
      ensures patience > 0 && !over ==> WasActive(|old(inactivity)| - 1, timeout) && out == old(txOut)
    {
      hide TxRep, RxRep, SilenceCounted;
      var observed := patience;
      over := false;
      while observed > 0
        invariant Inv() && Interfered() && !over && observed <= patience
        invariant if observed < patience then WasActive(|old(inactivity)| - 1, timeout) && out == old(txOut)
                  else txOut == old(txOut)
        decreases observed
      {
        if out != txOut {
          if |txRing| == |old(txRing)| {
            HeadMoved();
          }
          over := true;
          break;
        }
        Interference();
        if hostInactive >= timeout {
          over := true;
          break;
        }
        assert inactivity[|inactivity| - 1] < timeout;
        Interference();
        observed := observed - 1;
      }
      Interference();
    }

    /** Copy `run` into the free slots behind `txIn`, byte by byte, while the
        interrupt side goes on sending; nothing is published yet. */
    method CopyIn(run: seq<Byte>)
      requires Inv() && txIn + |run| <= BUF_LEN && |txRing| + |run| < BUF_LEN
      modifies this`rxIn, this`txOut, this`irqEnable, this`control, this`rxFifo, this`txSpace,
               this`arrived, this`taken, this`sent, this`txRing, this`rxRing, this`hostInactive, this`inactivity, this`readings, rxBuf, txBuf
      ensures Inv() && Interfered()
      ensures txBuf[txIn..txIn + |run|] == run
    {
      hide Noted;
      for i := 0 to |run|
        invariant Inv() && Interfered()
        invariant txBuf[txIn..txIn + i] == run[..i]
      {
        Interference();
        StoreAhead(i, run[i]);
        assert run[..i + 1] == run[..i] + [run[i]];
      }
      assert run[..|run|] == run;
    }

    /** One byte into a free slot. */
    method StoreAhead(i: nat, b: Byte)
      requires Inv() && txIn + i < BUF_LEN && i < BUF_LEN - |txRing|
      modifies txBuf
      ensures Inv() && Interfered()
      ensures txBuf[txIn..txIn + i + 1] == old(txBuf[txIn..txIn + i]) + [b]
    {
      hide SilenceCounted;
      txBuf[txIn + i] := b;
    }

    /** Move `txIn` past the copied run: the bytes are accepted, in order. */
    method Publish(n: nat)
      requires Inv() && txIn + n <= BUF_LEN && |txRing| + n < BUF_LEN
      modifies this`txIn, this`txRing, this`accepted, this`publishing
      ensures Inv() && publishing
      ensures accepted == old(accepted) + txBuf[old(txIn)..old(txIn) + n] && |txRing| == |old(txRing)| + n
    {
      hide SilenceCounted;
      ghost var run := txBuf[txIn..txIn + n];
      assert sent + (txRing + run) == (sent + txRing) + run;
      txIn := Advance(txIn, n);
      txRing := txRing + run;
      accepted := accepted + run;
      publishing := true;
    }

    /** One pass of the inner loop of write, after the room has been computed. */
    method CopyRun(run: seq<Byte>)
      requires Inv() && txIn + |run| <= BUF_LEN && |txRing| + |run| < BUF_LEN
      modifies this`rxIn, this`txIn, this`txOut, this`irqEnable, this`control, this`rxFifo, this`txSpace,
               this`arrived, this`taken, this`accepted, this`sent, this`txRing, this`rxRing,
               this`hostInactive, this`inactivity, this`readings, this`publishing, rxBuf, txBuf
      ensures Inv() && Grown() && accepted == old(accepted) + run && |txRing| <= |old(txRing)| + |run|
    {
      hide Noted;
      CopyIn(run);
      Interference();
      Publish(|run|);
      Interference();
    }

    /** One pass of the inner loop of write, from a snapshot of both indices;
        by the time of the copy the snapshot of `txOut` may be stale. */
    method FillOnce(data: seq<Byte>, ptr: nat) returns (n: nat, out: Slot)
      requires Inv() && ptr < |data|
      modifies this`rxIn, this`txIn, this`txOut, this`irqEnable, this`control, this`rxFifo, this`txSpace,
               this`arrived, this`taken, this`accepted, this`sent, this`txRing, this`rxRing,
               this`hostInactive, this`inactivity, this`readings, this`publishing, rxBuf, txBuf
      ensures Inv() && Grown() && ptr + n <= |data|
      ensures |txRing| <= |old(txRing)| + n && (n == 0 ==> |old(txRing)| == BUF_LEN - 1)
      ensures accepted == old(accepted) + data[ptr..ptr + n]
    {
      hide Noted;
      var tail := txIn;
      Interference();
      out := txOut;
      n := Room(out, tail);
      Interference();
      if n > |data| - ptr {
        n := |data| - ptr;
      }
      if n > 0 {
        CopyRun(data[ptr..ptr + n]);
      }
    }

    /** The inner loop of write: fill the ring from `data[start..]`. */
    method FillRing(data: seq<Byte>, start: nat) returns (ptr: nat, out: Slot)
      requires Inv() && start <= |data|
      modifies this`rxIn, this`txIn, this`txOut, this`irqEnable, this`control, this`rxFifo, this`txSpace,
               this`arrived, this`taken, this`accepted, this`sent, this`txRing, this`rxRing,
               this`hostInactive, this`inactivity, this`readings, this`publishing, rxBuf, txBuf
      ensures Inv() && Grown() && start <= ptr <= |data|
      ensures ptr == |data| || ptr - start >= BUF_LEN - 1 - |old(txRing)|
      ensures accepted == old(accepted) + data[start..ptr]
    {
      hide Holds, Noted;
      ptr, out := start, 0;
      while ptr < |data|
        invariant Inv() && Grown() && start <= ptr <= |data| && |txRing| <= |old(txRing)| + (ptr - start)
        invariant accepted == old(accepted) + data[start..ptr]
      {
        var n;
        n, out := FillOnce(data, ptr);
        if n == 0 {
          break;
        }
        Joined(data, start, ptr, ptr + n);
        ptr := ptr + n;
      }
    }

    /** Enable write interrupts, with interrupts held off. */
    method KickTransmit()
      requires Inv()
      modifies this`irqEnable, this`control, this`rxFifo, this`txSpace, this`arrived, this`publishing
      ensures Inv() && Grown() && !publishing
    {
      hide TxRep, RxRep, Noted;
      irqEnable := irqEnable.(we := true);
      HostStep();
      WriteControl();
      publishing := false;
    }

    /** One turn of the outer loop of write: fill the ring, then enable the interrupt. */
    method FillAndKick(data: seq<Byte>, start: nat) returns (ptr: nat, out: Slot)
      requires Inv() && start <= |data|
      modifies this`rxIn, this`txIn, this`txOut, this`irqEnable, this`control, this`rxFifo, this`txSpace,
               this`arrived, this`taken, this`accepted, this`sent, this`txRing, this`rxRing,
               this`hostInactive, this`inactivity, this`readings, this`publishing, rxBuf, txBuf
      ensures Inv() && Grown() && !publishing && start <= ptr <= |data|
      ensures ptr == |data| || ptr - start >= BUF_LEN - 1 - |old(txRing)|
      ensures accepted == old(accepted) + data[start..ptr]
    {
      hide Holds, Noted;
      ptr, out := FillRing(data, start);
      Interference();
      KickTransmit();
      Interference();
    }

    /** The spin, and the test for the host after it. */
    method AwaitRoom(out: Slot, patience: nat) returns (over: bool, inactive: bool)
      requires Inv()
      modifies this`rxIn, this`txOut, this`irqEnable, this`control, this`rxFifo, this`txSpace,
               this`arrived, this`taken, this`sent, this`txRing, this`rxRing, this`hostInactive, this`inactivity, this`readings, rxBuf
      ensures Inv() && Interfered()
      ensures if inactive then WasInactive(|old(inactivity)| - 1, 1) else WasActive(|old(inactivity)| - 1, 1)
      ensures patience > 0 && !over ==> WasActive(|old(inactivity)| - 1, timeout)
    {
      hide TxRep, RxRep, SilenceCounted;
      over := AwaitTransmit(out, patience);
      inactive := hostInactive > 0;
      assert inactivity[|inactivity| - 1] == hostInactive;
      Interference();
    }

    /** The loop of write: repeat until everything is accepted, or give up. */
    method Offer(data: seq<Byte>, nonblock: bool, patience: nat) returns (over: bool, done: nat)
      requires Inv() && !publishing
      modifies this`rxIn, this`txIn, this`txOut, this`irqEnable, this`control, this`rxFifo, this`txSpace,
               this`arrived, this`taken, this`accepted, this`sent, this`txRing, this`rxRing,
               this`hostInactive, this`inactivity, this`readings, this`publishing, rxBuf, txBuf
      ensures Inv() && Grown() && !publishing
      ensures done <= |data| && accepted == old(accepted) + data[..done]
      ensures done == |data| || done >= BUF_LEN - 1 - |old(txRing)|
      ensures over && done < |data| ==> nonblock || WasInactive(|old(inactivity)| - 1, 1)
      ensures !over ==> !nonblock && done < |data|
      ensures !over && patience > 0 ==> WasActive(|old(inactivity)| - 1, timeout) || WasActive(|old(inactivity)| - 1, 1)
    {
      hide Holds, SilenceCounted, TxRep, RxRep;
      done := 0;
      var observed := patience;
      while true
        invariant Inv() && Grown() && !publishing
        invariant done <= |data| && accepted == old(accepted) + data[..done]
        invariant (done == 0 && |txRing| == |old(txRing)|) || done >= BUF_LEN - 1 - |old(txRing)|
        decreases observed
      {
        var out;
        ghost var before := done;
        done, out := FillAndKick(data, done);
        Joined(data, 0, before, done);
        assert data[0..before] == data[..before] && data[0..done] == data[..done];
        if done == |data| || nonblock {
          return true, done;
        }
        var inactive;
        over, inactive := AwaitRoom(out, patience);
        if !over || inactive {
          return;
        }
        if observed == 0 {
          return false, done;
        }
        observed := observed - 1;
      }
    }

    /** The driver's write, observed for a while; `done` bytes of `data` were accepted. */
    method Write(data: seq<Byte>, nonblock: bool, patience: nat) returns (r: CallResult, done: nat)
      requires Inv() && !publishing
      modifies this`rxIn, this`txIn, this`txOut, this`irqEnable, this`control, this`rxFifo, this`txSpace,
               this`arrived, this`taken, this`accepted, this`sent, this`txRing, this`rxRing,
               this`hostInactive, this`inactivity, this`readings, this`publishing, rxBuf, txBuf
      ensures Inv() && Grown() && !publishing
      ensures done <= |data| && accepted == old(accepted) + data[..done]
      ensures r.Returned? ==> r.value == if done > 0 then done else if nonblock then -EWOULDBLOCK else -EIO
      ensures done == |data| || done >= BUF_LEN - 1 - |old(txRing)|
      ensures r.Returned? && done < |data| ==> nonblock || WasInactive(|old(inactivity)| - 1, 1)
      ensures r.StillWaiting? ==> !nonblock && done < |data|
      ensures r.StillWaiting? && patience > 0 ==> WasActive(|old(inactivity)| - 1, timeout) || WasActive(|old(inactivity)| - 1, 1)
    {
      hide Holds, SilenceCounted, TxRep, RxRep;
      var over;
      over, done := Offer(data, nonblock, patience);
      Interference();
      if !over {
        return StillWaiting, done;
      }
      r := Returned(if done > 0 then done else if nonblock then -EWOULDBLOCK else -EIO);
    }

    /** Copy the oldest `n` received bytes out, byte by byte, while the interrupt
        side goes on receiving; their slots are not given back yet. */
    method CopyOut(buffer: array<Byte>, at: nat, n: nat)
      requires Inv() && buffer != rxBuf && buffer != txBuf
      requires rxOut + n <= BUF_LEN && n <= |rxRing| && at + n <= buffer.Length
      modifies this`rxIn, this`txOut, this`irqEnable, this`control, this`rxFifo, this`txSpace,
               this`arrived, this`taken, this`sent, this`txRing, this`rxRing, this`hostInactive, this`inactivity, this`readings, rxBuf, buffer
      ensures Inv() && Interfered()
      ensures buffer[at..at + n] == old(rxRing)[..n]
      ensures buffer[..at] == old(buffer[..at]) && buffer[at + n..] == old(buffer[at + n..])
    {
      hide Noted;
      for i := 0 to n
        invariant Inv() && Interfered()
        invariant buffer[at..at + i] == old(rxRing)[..i]
        invariant buffer[..at] == old(buffer[..at]) && buffer[at + i..] == old(buffer[at + i..])
      {
        Interference();
        assert rxBuf[rxOut + i] == rxRing[i] == old(rxRing)[i];
        ghost var copied, rest := buffer[at..at + i], buffer[at + i..];
        buffer[at + i] := rxBuf[rxOut + i];
        assert buffer[at..at + i + 1] == copied + [old(rxRing)[i]] == old(rxRing)[..i + 1];
        assert buffer[at + i + 1..] == rest[1..] == old(buffer[at + i..])[1..] == old(buffer[at + i + 1..]);
      }
    }

    /** Give `n` slots back: their bytes are delivered, in order. */
    method Consume(n: nat)
      requires Inv() && rxOut + n <= BUF_LEN && n <= |rxRing|
      modifies this`rxOut, this`rxRing, this`delivered, this`consuming
      ensures Inv() && consuming
      ensures delivered == old(delivered) + old(rxRing)[..n] && rxRing == old(rxRing)[n..]
    {
      hide SilenceCounted;
      assert rxRing == rxRing[..n] + rxRing[n..];
      assert delivered + rxRing == (delivered + rxRing[..n]) + rxRing[n..];
      rxOut := Advance(rxOut, n);
      delivered := delivered + rxRing[..n];
      rxRing := rxRing[n..];
      consuming := true;
    }

    /** One pass of the inner loop of read, after the run has been computed. */
    method TakeRun(buffer: array<Byte>, at: nat, n: nat)
      requires Inv() && buffer != rxBuf && buffer != txBuf
      requires rxOut + n <= BUF_LEN && n <= |rxRing| && at + n <= buffer.Length
      modifies this`rxIn, this`rxOut, this`txOut, this`irqEnable, this`control, this`rxFifo, this`txSpace,
               this`arrived, this`taken, this`delivered, this`sent, this`txRing, this`rxRing,
               this`hostInactive, this`inactivity, this`readings, this`consuming, rxBuf, buffer
      ensures Inv() && Grown() && consuming && |rxRing| + n >= |old(rxRing)|
      ensures delivered == old(delivered) + buffer[at..at + n]
      ensures buffer[..at] == old(buffer[..at]) && buffer[at + n..] == old(buffer[at + n..])
    {
      hide Noted;
      CopyOut(buffer, at, n);
      Interference();
      Consume(n);
      Interference();
    }

    /** One pass of the inner loop of read: take the run that a snapshot of the
        indices shows, as far as it fits. */
    method DrainOnce(buffer: array<Byte>, at: nat, space: nat) returns (n: nat, tail: Slot)
      requires Inv() && buffer != rxBuf && buffer != txBuf && at + space <= buffer.Length
      modifies this`rxIn, this`rxOut, this`txOut, this`irqEnable, this`control, this`rxFifo, this`txSpace,
               this`arrived, this`taken, this`delivered, this`sent, this`txRing, this`rxRing,
               this`hostInactive, this`inactivity, this`readings, this`consuming, rxBuf, buffer
      ensures Inv() && Grown() && n <= space
      ensures n == 0 && space > 0 ==> consuming == old(consuming) && tail == rxOut && old(rxRing) == []
      ensures |rxRing| + n >= |old(rxRing)|
      ensures delivered == old(delivered) + buffer[at..at + n]
      ensures buffer[..at] == old(buffer[..at]) && buffer[at + n..] == old(buffer[at + n..])
    {
      hide Noted;
      Interference();
      tail := rxIn;
      Interference();
      n := Run(rxOut, tail);
      if n > space {
        n := space;
      }
      if n > 0 {
        TakeRun(buffer, at, n);
      }
    }

    /** The inner loop of read: empty the ring into `buffer` as far as it fits. */
    method DrainRing(buffer: array<Byte>, space: nat) returns (got: nat, tail: Slot)
      requires Inv() && buffer != rxBuf && buffer != txBuf && 0 < space <= buffer.Length
      modifies this`rxIn, this`rxOut, this`txOut, this`irqEnable, this`control, this`rxFifo, this`txSpace,
               this`arrived, this`taken, this`delivered, this`sent, this`txRing, this`rxRing,
               this`hostInactive, this`inactivity, this`readings, this`consuming, rxBuf, buffer
      ensures Inv() && Grown() && got <= space
      ensures got == 0 ==> consuming == old(consuming) && tail == rxOut && |rxRing| >= |old(rxRing)|
      ensures got == space || got >= |old(rxRing)|
      ensures delivered == old(delivered) + buffer[..got]
      ensures buffer[got..] == old(buffer[got..])
    {
      hide Holds, Noted;
      got, tail := 0, 0;
      while got < space
        invariant Inv() && Grown() && got <= space && |rxRing| + got >= |old(rxRing)|
        invariant got == 0 ==> consuming == old(consuming)
        invariant delivered == old(delivered) + buffer[..got]
        invariant buffer[got..] == old(buffer[got..])
      {
        var n;
        ghost var before, rest := buffer[..got], buffer[got..];
        n, tail := DrainOnce(buffer, got, space - got);
        if n == 0 {
          break;
        }
        assert buffer[..got + n] == before + buffer[got..got + n];
        assert buffer[got + n..] == rest[n..] == old(buffer[got..])[n..] == old(buffer[got + n..]);
        got := got + n;
      }
    }

    /** Enable read interrupts, with interrupts held off. */
    method EnableReceive()
      requires Inv()
      modifies this`irqEnable, this`control, this`rxFifo, this`txSpace, this`arrived, this`consuming
      ensures Inv() && Grown() && !consuming
    {
      hide TxRep, RxRep, Noted;
      irqEnable := irqEnable.(re := true);
      HostStep();
      WriteControl();
      consuming := false;
    }

    /** Spin until the interrupt side has moved `rxIn`, which was `tail` while the ring was
        empty, or the host is given up, observed for `patience` turns. */
    method AwaitReceive(tail: Slot, patience: nat) returns (over: bool)
      requires Inv() && tail == rxOut
      modifies this`rxIn, this`txOut, this`irqEnable, this`control, this`rxFifo, this`txSpace,
               this`arrived, this`taken, this`sent, this`txRing, this`rxRing, this`hostInactive, this`inactivity, this`readings, rxBuf
      ensures Inv() && Interfered()
      ensures over ==> rxRing != [] || WasInactive(|old(inactivity)| - 1, timeout)
      ensures patience > 0 && !over ==> WasActive(|old(inactivity)| - 1, timeout) && old(rxRing) == []
    {
      hide TxRep, RxRep, SilenceCounted;
      EmptyIff();
      var observed := patience;
      over := false;
      while observed > 0
        invariant Inv() && Interfered() && !over && observed <= patience
        invariant observed < patience ==> WasActive(|old(inactivity)| - 1, timeout) && old(rxRing) == []
        decreases observed
      {
        EmptyIff();
        if tail != rxIn {
          over := true;
          break;
        }
        Interference();
        if hostInactive >= timeout {
          over := true;
          break;
        }
        assert inactivity[|inactivity| - 1] < timeout;
        Interference();
        observed := observed - 1;
      }
      Interference();
    }

    /** One turn of read: empty the ring, or else wait; `again` asks for another turn. */
    method Attempt(buffer: array<Byte>, space: nat, nonblock: bool, patience: nat) returns (over: bool, again: bool, got: nat)
      requires Inv() && !consuming && buffer != rxBuf && buffer != txBuf && 0 < space <= buffer.Length
      modifies this`rxIn, this`rxOut, this`txOut, this`irqEnable, this`control, this`rxFifo, this`txSpace,
               this`arrived, this`taken, this`delivered, this`sent, this`txRing, this`rxRing,
               this`hostInactive, this`inactivity, this`readings, this`consuming, rxBuf, buffer
      ensures Inv() && Grown() && got <= space
      ensures got == 0 ==> !consuming && |rxRing| >= |old(rxRing)|
      ensures delivered == old(delivered) + buffer[..got]
      ensures buffer[got..] == old(buffer[got..])
      ensures got == space || got >= |old(rxRing)|
      ensures again ==> over && got == 0 && !nonblock && rxRing != []
      ensures !over ==> got == 0 && !nonblock && (patience > 0 ==> WasActive(|old(inactivity)| - 1, timeout))
      ensures over && !again && got == 0 ==> nonblock || WasInactive(|old(inactivity)| - 1, timeout)
    {
      hide TxRep, RxRep, SilenceCounted;
      over, again := true, false;
      var tail;
      got, tail := DrainRing(buffer, space);
      if got == 0 && !nonblock {
        over := AwaitReceive(tail, patience);
        EmptyIff();
        again := over && tail != rxIn;
        Interference();
      }
    }

    /** The waiting part of read: repeat until there are bytes, or give up. */
    method Collect(buffer: array<Byte>, space: nat, nonblock: bool, patience: nat) returns (over: bool, got: nat)
      requires Inv() && !consuming && buffer != rxBuf && buffer != txBuf && space <= buffer.Length
      modifies this`rxIn, this`rxOut, this`txOut, this`irqEnable, this`control, this`rxFifo, this`txSpace,
               this`arrived, this`taken, this`delivered, this`sent, this`txRing, this`rxRing,
               this`hostInactive, this`inactivity, this`readings, this`consuming, rxBuf, buffer
      ensures Inv() && Grown() && got <= space
      ensures got == 0 ==> !consuming
      ensures delivered == old(delivered) + buffer[..got]
      ensures buffer[got..] == old(buffer[got..])
      ensures got == space || got >= |old(rxRing)|
      ensures !over ==> got == 0 && !nonblock && space > 0
      ensures !over && patience > 0 ==> WasActive(|old(inactivity)| - 1, timeout)
      ensures over && got == 0 ==> space == 0 || nonblock || WasInactive(|old(inactivity)| - 1, timeout)
    {
      hide TxRep, RxRep, Noted;
      AlwaysNoted();
      var observed, again := patience, true;
      over, got := true, 0;
      while got < space && again
        invariant Inv() && Grown() && !consuming && got == 0 && over && again
        invariant observed <= patience && (observed < patience ==> rxRing != [])
        invariant delivered == old(delivered) && |rxRing| >= |old(rxRing)|
        invariant buffer[..] == old(buffer[..])
        decreases observed
      {
        ghost var was := buffer[..];
        over, again, got := Attempt(buffer, space, nonblock, patience);
        assert buffer[got..] == was[got..] == old(buffer[..])[got..] == old(buffer[got..]);
        if !again {
          return;
        }
        assert buffer[0..] == buffer[..];
        if observed == 0 {
          return false, 0;
        }
        observed := observed - 1;
      }
    }

    lemma AlwaysNoted()
      requires Inv()
      ensures inactivity != []
    {
    }

    /** The driver's read, observed for a while; `got` bytes were handed over at the start of
        `buffer`. */
    method Read(buffer: array<Byte>, space: nat, nonblock: bool, patience: nat) returns (r: CallResult, got: nat)
      requires Inv() && !consuming && buffer != rxBuf && buffer != txBuf && space <= buffer.Length
      modifies this`rxIn, this`rxOut, this`txOut, this`irqEnable, this`control, this`rxFifo, this`txSpace,
               this`arrived, this`taken, this`delivered, this`sent, this`txRing, this`rxRing,
               this`hostInactive, this`inactivity, this`readings, this`consuming, rxBuf, buffer
      ensures Inv() && Grown() && !consuming && got <= space
      ensures delivered == old(delivered) + buffer[..got]
      ensures buffer[got..] == old(buffer[got..])
      ensures r.Returned? ==> r.value == if got > 0 then got else if nonblock then -EWOULDBLOCK else -EIO
      ensures got == space || got >= |old(rxRing)|
      ensures r.StillWaiting? ==> got == 0 && !nonblock && space > 0
      ensures r.StillWaiting? && patience > 0 ==> WasActive(|old(inactivity)| - 1, timeout)
      ensures r.Returned? && got == 0 ==> space == 0 || nonblock || WasInactive(|old(inactivity)| - 1, timeout)
    {
      hide TxRep, RxRep, SilenceCounted;
      var over;
      over, got := Collect(buffer, space, nonblock, patience);
      if !over {
        return StillWaiting, got;
      }
      if got > 0 {
        Interference();
        EnableReceive();
      }
      Interference();
      r := Returned(if got > 0 then got else if nonblock then -EWOULDBLOCK else -EIO);
    }

    /** The driver's close: wait until everything accepted has been sent. */
    method Close(nonblock: bool, patience: nat) returns (r: CallResult)
      requires Inv()
      modifies this`rxIn, this`txOut, this`irqEnable, this`control, this`rxFifo, this`txSpace,
               this`arrived, this`taken, this`sent, this`txRing, this`rxRing, this`hostInactive, this`inactivity, this`readings, rxBuf
      ensures Inv() && Grown()
      ensures r == Returned(0) ==> sent == accepted || WasInactive(|old(inactivity)| - 1, timeout)
      ensures r.Returned? && r.value != 0 ==> nonblock && r.value == -EWOULDBLOCK && old(sent != accepted)
      ensures r.StillWaiting? ==> !nonblock && old(sent != accepted)
      ensures r != Returned(0) ==> WasActive(|old(inactivity)| - 1, timeout)
    {
      hide TxRep, RxRep, SilenceCounted;
      var observed := patience;
      while true
        invariant Inv() && Interfered()
        decreases observed
      {
        EmptyIff();
        if txOut == txIn {
          break;
        }
        Interference();
        if hostInactive >= timeout {
          break;
        }
        assert inactivity[|inactivity| - 1] < timeout;
        Interference();
        if nonblock {
          return Returned(-EWOULDBLOCK);
        }
        if observed == 0 {
          return StillWaiting;
        }
        observed := observed - 1;
      }
      Interference();
      r := Returned(0);
    }
  }
}
