/** Whole lifetimes of the JTAG UART driver, and the small polling driver that
    its register trace is measured against. */
module UartSession {
  import opened RingBuffer
  import opened JtagUartDriver

  datatype Call =
    | WriteCall(data: seq<Byte>, nonblock: bool)
    | ReadCall(space: nat, nonblock: bool)
    | CloseCall(nonblock: bool)

  function Flatten(pieces: seq<seq<Byte>>): (all: seq<Byte>)
    ensures pieces == [] ==> all == []
  {
    if pieces == [] then [] else Flatten(pieces[..|pieces| - 1]) + pieces[|pieces| - 1]
  }

  lemma FlattenSnoc(pieces: seq<seq<Byte>>, piece: seq<Byte>)
    ensures Flatten(pieces + [piece]) == Flatten(pieces) + piece
  {
    assert (pieces + [piece])[..|pieces|] == pieces;
  }

  lemma {:induction false} FlattenPrefix(pieces: seq<seq<Byte>>, k: nat)
    requires k <= |pieces|
    ensures Flatten(pieces[..k]) <= Flatten(pieces)
    decreases |pieces| - k
  {
    if k == |pieces| {
      assert pieces[..k] == pieces;
    } else {
      assert pieces[..k + 1][..k] == pieces[..k];
      FlattenPrefix(pieces, k + 1);
    }
  }

  /** The payloads of the write calls, in order. */
  function Payloads(calls: seq<Call>): (payloads: seq<seq<Byte>>)
  {
    if calls == [] then []
    else
      var front := Payloads(calls[..|calls| - 1]);
      var last := calls[|calls| - 1];
      if last.WriteCall? then front + [last.data] else front
  }

  /** The small driver: poll for space, push the next byte. */
  class SmallJtagUart {
    var txSpace: nat
    ghost var sent: seq<Byte>

    method Write(data: seq<Byte>) returns (r: CallResult, done: nat)
      modifies this
      ensures done <= |data| && sent == old(sent) + data[..done]
      ensures done == |data| || done >= old(txSpace)
      ensures if r.Returned? then done == |data| && r.value == |data| else done < |data|
    {
      done := 0;
      var observed: nat := *;
      while done < |data|
        invariant done <= |data| && sent == old(sent) + data[..done] && txSpace + done >= old(txSpace)
        decreases |data| - done, observed
      {
        var drained: int := *;
        if drained > 0 {
          txSpace := txSpace + drained;
        }
        if txSpace > 0 {
          txSpace := txSpace - 1;
          sent := sent + [data[done]];
          assert data[..done + 1] == data[..done] + [data[done]];
          done := done + 1;
        } else if observed == 0 {
          return StillWaiting, done;
        } else {
          observed := observed - 1;
        }
      }
      assert data[..done] == data;
      r := Returned(|data|);
    }
  }

  /** The register trace of the small driver over a session, which ends early only when a
      write is still waiting. */
  method SmallSession(calls: seq<Call>) returns (uart: SmallJtagUart, finished: bool)
    ensures uart.sent <= Flatten(Payloads(calls))
    ensures finished <==> uart.sent == Flatten(Payloads(calls))
  {
    uart := new SmallJtagUart;
    uart.sent := [];
    for i := 0 to |calls|
      invariant fresh(uart)
      invariant uart.sent == Flatten(Payloads(calls[..i]))
    {
      assert calls[..i + 1][..i] == calls[..i];
      if calls[i].WriteCall? {
        FlattenSnoc(Payloads(calls[..i]), calls[i].data);
        var r, done := uart.Write(calls[i].data);
        if r.StillWaiting? {
          CutShort(calls, i, uart.sent, done);
          return uart, false;
        }
        assert calls[i].data[..done] == calls[i].data;
      }
    }
    assert calls[..|calls|] == calls;
    finished := true;
  }

  /** A trace that ends inside a payload is a proper prefix of all payloads. */
  lemma CutShort(calls: seq<Call>, i: nat, trace: seq<Byte>, done: nat)
    requires i < |calls| && calls[i].WriteCall? && done < |calls[i].data|
    requires trace == Flatten(Payloads(calls[..i])) + calls[i].data[..done]
    ensures trace <= Flatten(Payloads(calls)) && trace != Flatten(Payloads(calls))
  {
    assert calls[..i + 1][..i] == calls[..i];
    hide Flatten;
    var here, data := Payloads(calls[..i]), calls[i].data;
    FlattenSnoc(here, data);
    assert Payloads(calls[..i + 1]) == here + [data];
    PayloadsPrefix(calls, i + 1);
    assert Payloads(calls)[..|here| + 1] == here + [data];
    FlattenPrefix(Payloads(calls), |here| + 1);
    ProperPrefix(Flatten(here), data, done, Flatten(Payloads(calls)));
  }

  lemma ProperPrefix(a: seq<Byte>, data: seq<Byte>, done: nat, all: seq<Byte>)
    requires done < |data| && a + data <= all
    ensures a + data[..done] <= all && a + data[..done] != all
  {
    assert (a + data)[..|a| + done] == a + data[..done];
  }

  /** What one call did: the bytes it took over or handed back, and its result; further
      what it found, the free slots of the transmit ring or the bytes waiting in the
      receive ring. */
  datatype Entry =
    | Wrote(piece: seq<Byte>, room: nat, result: CallResult)
    | Got(piece: seq<Byte>, waiting: nat, result: CallResult)
    | Closed(result: CallResult)

  /** The pieces taken over by the writes of a session, in order. */
  function Written(log: seq<Entry>): (pieces: seq<seq<Byte>>)
  {
    if log == [] then []
    else
      var front := Written(log[..|log| - 1]);
      var last := log[|log| - 1];
      if last.Wrote? then front + [last.piece] else front
  }

  /** The pieces handed back by the reads of a session, in order. */
  function ReadOut(log: seq<Entry>): (pieces: seq<seq<Byte>>)
  {
    if log == [] then []
    else
      var front := ReadOut(log[..|log| - 1]);
      var last := log[|log| - 1];
      if last.Got? then front + [last.piece] else front
  }

  /** The return value of a read or write that moved `n` bytes. */
  function Count(n: nat, nonblock: bool): int {
    if n > 0 then n else if nonblock then -EWOULDBLOCK else -EIO
  }

  function Min(a: nat, b: nat): nat { if a < b then a else b }

  /** The entry is an answer to the call: a write took over a beginning of its payload, and
      at least what there was room for; a read handed back no more than there was space
      for, and at least what was waiting; the result says how much. Only a blocking call
      that has something left to do may still be waiting. */
  predicate Answers(call: Call, e: Entry) {
    match call
    case WriteCall(data, nonblock) =>
      && e.Wrote? && e.piece <= data && |e.piece| >= Min(|data|, e.room)
      && if e.result.Returned? then e.result.value == Count(|e.piece|, nonblock) else !nonblock && |e.piece| < |data|
    case ReadCall(space, nonblock) =>
      && e.Got? && Min(space, e.waiting) <= |e.piece| <= space
      && if e.result.Returned? then e.result.value == Count(|e.piece|, nonblock) else !nonblock && space > 0 && e.piece == []
    case CloseCall(nonblock) =>
      && e.Closed?
      && if e.result.Returned? then e.result.value == 0 || (nonblock && e.result.value == -EWOULDBLOCK) else !nonblock
  }

  /** One answer for each of the first calls; only the last of them may still be waiting. */
  predicate Follows(log: seq<Entry>, calls: seq<Call>) {
    && |log| <= |calls|
    && (forall k :: 0 <= k < |log| ==> Answers(calls[k], log[k]))
    && (forall k :: 0 <= k < |log| - 1 ==> log[k].result.Returned?)
  }

  /** A write finds all slots free but those of bytes accepted before it. */
  predicate RoomFound(log: seq<Entry>) {
    forall k :: 0 <= k < |log| && log[k].Wrote? ==> log[k].room + |Flatten(Written(log[..k]))| >= BUF_LEN - 1
  }

  /** Every write took over the beginning of its payload. */
  predicate Beginnings(written: seq<seq<Byte>>, payloads: seq<seq<Byte>>) {
    |written| <= |payloads| && forall k :: 0 <= k < |written| ==> written[k] <= payloads[k]
  }

  /** No write but possibly the last was cut short. */
  predicate OnlyLastCut(written: seq<seq<Byte>>, payloads: seq<seq<Byte>>)
    requires |written| <= |payloads|
  {
    forall k :: 0 <= k < |written| - 1 ==> written[k] == payloads[k]
  }

  lemma {:induction false} PayloadsPrefix(calls: seq<Call>, i: nat)
    requires i <= |calls|
    ensures Payloads(calls[..i]) <= Payloads(calls)
    decreases |calls| - i
  {
    if i == |calls| {
      assert calls[..i] == calls;
    } else {
      assert calls[..i + 1][..i] == calls[..i];
      PayloadsPrefix(calls, i + 1);
    }
  }

  /** As many pieces as write calls, each a beginning of its payload. */
  lemma {:induction false} WrittenBegins(log: seq<Entry>, calls: seq<Call>)
    requires Follows(log, calls) && |log| == |calls|
    ensures |Written(log)| == |Payloads(calls)| && Beginnings(Written(log), Payloads(calls))
  {
    if log != [] {
      var n := |log| - 1;
      assert Answers(calls[n], log[n]);
      WrittenBegins(log[..n], calls[..n]);
    }
  }

  /** Of a session that stopped early likewise. */
  lemma WrittenFollows(log: seq<Entry>, calls: seq<Call>)
    requires Follows(log, calls)
    ensures Beginnings(Written(log), Payloads(calls))
    ensures |log| == |calls| ==> |Written(log)| == |Payloads(calls)|
  {
    WrittenBegins(log, calls[..|log|]);
    PayloadsPrefix(calls, |log|);
    if |log| == |calls| {
      assert calls[..|log|] == calls;
    }
  }

  /** How one more entry changes the two streams. */
  lemma EntryAdded(log: seq<Entry>, e: Entry)
    ensures Flatten(Written(log + [e])) == Flatten(Written(log)) + if e.Wrote? then e.piece else []
    ensures Flatten(ReadOut(log + [e])) == Flatten(ReadOut(log)) + if e.Got? then e.piece else []
  {
    assert (log + [e])[..|log|] == log;
    if e.Wrote? {
      FlattenSnoc(Written(log), e.piece);
    } else if e.Got? {
      FlattenSnoc(ReadOut(log), e.piece);
    }
  }

  /** The bytes of the streams are those of the record. */
  ghost predicate Recorded(uart: JtagUart, log: seq<Entry>)
    reads uart, uart.txBuf, uart.rxBuf
  {
    && uart.Inv() && !uart.publishing && !uart.consuming
    && uart.accepted == Flatten(Written(log)) && uart.delivered == Flatten(ReadOut(log))
  }

  /** A blocking write that returned without its whole payload, or a blocking read that
      returned without a byte although there was space for one. */
  predicate GaveUp(call: Call, e: Entry) {
    match call
    case WriteCall(data, nonblock) => e.Wrote? && e.result.Returned? && !nonblock && |e.piece| < |data|
    case ReadCall(space, nonblock) => e.Got? && e.result.Returned? && !nonblock && space > 0 && e.piece == []
    case CloseCall(_) => false
  }

  /** Only a host that fell silent is given up: a write asks for one silent timer run, a
      read for as many as the timeout. */
  ghost predicate Excused(uart: JtagUart, call: Call, e: Entry)
    reads uart
  {
    GaveUp(call, e) ==> uart.WasInactive(0, if call.WriteCall? then 1 else uart.timeout)
  }

  /** A lifetime of the interrupt-driven driver: start-up, then any calls one after
      another, with any interference inside and between them; it ends after the last call
      or in the middle of one that is still waiting. */
  method Session(timeout: nat, space: nat, calls: seq<Call>)
    returns (uart: JtagUart, log: seq<Entry>, finished: bool)
    ensures uart.Inv() && !uart.publishing && !uart.consuming
    ensures Follows(log, calls) && RoomFound(log)
    ensures if finished then |log| == |calls| && AllReturned(log) else log != [] && log[|log| - 1].result.StillWaiting?
    ensures uart.accepted == Flatten(Written(log)) && uart.delivered == Flatten(ReadOut(log))
    ensures uart.sent <= Flatten(Written(log))
    ensures Flatten(ReadOut(log)) <= uart.arrived
    ensures uart.txRing != [] ==> uart.control.we
    ensures !uart.control.re ==> |uart.rxRing| == BUF_LEN - 1
    ensures forall k :: 0 <= k < |log| ==> Excused(uart, calls[k], log[k])
    ensures Beginnings(Written(log), Payloads(calls))
    ensures finished ==> |Written(log)| == |Payloads(calls)|
    ensures OnlyLastCut(Written(log), Payloads(calls)) ==> uart.sent <= Flatten(Payloads(calls))
  {
    hide Answers, Holds, SilenceCounted, GaveUp, RoomFound, Excused;
    RoomFoundFirst();
    uart := new JtagUart(timeout, space);
    log := [];
    finished := true;
    while |log| < |calls| && finished
      invariant fresh(uart) && fresh(uart.txBuf) && fresh(uart.rxBuf)
      invariant Recorded(uart, log) && Follows(log, calls) && RoomFound(log)
      invariant if finished then AllReturned(log) else log != [] && log[|log| - 1].result.StillWaiting?
      invariant forall k :: 0 <= k < |log| ==> Excused(uart, calls[k], log[k])
      decreases |calls| - |log|, finished
    {
      finished, log := OneMore(uart, calls, log);
    }
    WrittenFollows(log, calls);
    TraceIsPrefixOfSmall(Written(log), Payloads(calls), uart.sent);
  }

  lemma RoomFoundFirst()
    ensures RoomFound([])
  {
  }

  lemma RoomFoundNext(log: seq<Entry>, e: Entry)
    requires RoomFound(log) && (e.Wrote? ==> e.room + |Flatten(Written(log))| >= BUF_LEN - 1)
    ensures RoomFound(log + [e])
  {
    hide Flatten, Written;
    forall k | 0 <= k < |log + [e]| && (log + [e])[k].Wrote?
      ensures (log + [e])[k].room + |Flatten(Written((log + [e])[..k]))| >= BUF_LEN - 1
    {
      assert (log + [e])[..k] == log[..k];
      assert log[..|log|] == log;
    }
  }

  predicate AllReturned(log: seq<Entry>) { forall k :: 0 <= k < |log| ==> log[k].result.Returned? }

  /** The next call of a session. */
  method OneMore(uart: JtagUart, calls: seq<Call>, log: seq<Entry>) returns (finished: bool, log': seq<Entry>)
    requires Recorded(uart, log) && Follows(log, calls) && RoomFound(log) && |log| < |calls| && AllReturned(log)
    requires forall k :: 0 <= k < |log| ==> Excused(uart, calls[k], log[k])
    modifies uart, uart.txBuf, uart.rxBuf
    ensures Recorded(uart, log') && Follows(log', calls) && RoomFound(log') && |log'| == |log| + 1
    ensures if finished then AllReturned(log') else log'[|log|].result.StillWaiting?
    ensures forall k :: 0 <= k < |log'| ==> Excused(uart, calls[k], log'[k])
  {
    hide Answers, Holds, SilenceCounted, GaveUp, Flatten, Written, ReadOut, RoomFound;
    uart.Interference();
    var e := Perform(uart, calls[|log|]);
    uart.Interference();
    EntryAdded(log, e);
    RoomFoundNext(log, e);
    log' := log + [e];
    finished := e.result.Returned?;
  }

  /** One call of a session. */
  method Perform(uart: JtagUart, call: Call) returns (e: Entry)
    requires uart.Inv() && !uart.publishing && !uart.consuming
    modifies uart, uart.txBuf, uart.rxBuf
    ensures uart.Inv() && !uart.publishing && !uart.consuming && uart.timeout == old(uart.timeout)
    ensures Answers(call, e) && Excused(uart, call, e) && old(uart.inactivity) <= uart.inactivity
    ensures e.Wrote? ==> e.room == BUF_LEN - 1 - |old(uart.txRing)|
    ensures e.Got? ==> e.waiting == |old(uart.rxRing)|
    ensures uart.accepted == old(uart.accepted) + if e.Wrote? then e.piece else []
    ensures uart.delivered == old(uart.delivered) + if e.Got? then e.piece else []
  {
    hide Holds, SilenceCounted;
    match call
    case WriteCall(data, nonblock) =>
      e := PerformWrite(uart, data, nonblock);
    case ReadCall(space, nonblock) =>
      var buffer;
      e, buffer := PerformRead(uart, space, nonblock);
    case CloseCall(nonblock) =>
      var patience: nat := *;
      var r := uart.Close(nonblock, patience);
      e := Closed(r);
  }

  method PerformWrite(uart: JtagUart, data: seq<Byte>, nonblock: bool) returns (e: Entry)
    requires uart.Inv() && !uart.publishing && !uart.consuming
    modifies uart, uart.txBuf, uart.rxBuf
    ensures uart.Inv() && !uart.publishing && !uart.consuming && uart.timeout == old(uart.timeout)
    ensures e.Wrote? && Answers(WriteCall(data, nonblock), e) && e.room == BUF_LEN - 1 - |old(uart.txRing)|
    ensures Excused(uart, WriteCall(data, nonblock), e) && old(uart.inactivity) <= uart.inactivity
    ensures uart.accepted == old(uart.accepted) + e.piece && uart.delivered == old(uart.delivered)
  {
    hide SilenceCounted;
    var room := BUF_LEN - 1 - Length(uart.txOut, uart.txIn);
    var patience: nat := *;
    var r, done := uart.Write(data, nonblock, patience);
    e := Wrote(data[..done], room, r);
  }

  /** The piece is what the caller finds in its buffer. */
  method PerformRead(uart: JtagUart, space: nat, nonblock: bool) returns (e: Entry, buffer: array<Byte>)
    requires uart.Inv() && !uart.publishing && !uart.consuming
    modifies uart, uart.txBuf, uart.rxBuf
    ensures uart.Inv() && !uart.publishing && !uart.consuming && uart.timeout == old(uart.timeout)
    ensures e.Got? && Answers(ReadCall(space, nonblock), e) && e.waiting == |old(uart.rxRing)|
    ensures Excused(uart, ReadCall(space, nonblock), e) && old(uart.inactivity) <= uart.inactivity
    ensures fresh(buffer) && buffer.Length == space && e.piece <= buffer[..]
    ensures uart.delivered == old(uart.delivered) + e.piece && uart.accepted == old(uart.accepted)
  {
    hide SilenceCounted;
    buffer := new Byte[space];
    var waiting := Length(uart.rxOut, uart.rxIn);
    var patience: nat := *;
    var r, got := uart.Read(buffer, space, nonblock, patience);
    e := Got(buffer[..got], waiting, r);
  }

  /** If every write but the last took its whole payload, the register trace is a
      prefix of the small driver's. */
  lemma TraceIsPrefixOfSmall(written: seq<seq<Byte>>, payloads: seq<seq<Byte>>, trace: seq<Byte>)
    requires Beginnings(written, payloads) && trace <= Flatten(written)
    ensures OnlyLastCut(written, payloads) ==> trace <= Flatten(payloads)
  {
    if OnlyLastCut(written, payloads) && written != [] {
      var n := |written| - 1;
      assert payloads[..n + 1][..n] == payloads[..n] == written[..n];
      assert Flatten(written) == Flatten(payloads[..n]) + written[n];
      assert Flatten(payloads[..n + 1]) == Flatten(payloads[..n]) + payloads[n];
      FlattenPrefix(payloads, n + 1);
    }
  }
}
