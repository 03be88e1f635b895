/** The circular buffers of the JTAG UART driver: 2048 slots, an index that is
    written next (`tail`) and an index that is read next (`head`).  One slot is
    always left free, so equal indices mean an empty ring. */
module RingBuffer {

  type Byte = bv8

  const BUF_LEN: nat := 2048

  type Slot = i: nat | i < BUF_LEN

  /** How many bytes the ring holds. */
  function Length(head: Slot, tail: Slot): (n: nat)
    ensures n < BUF_LEN
    ensures n == (tail - head) % BUF_LEN
  {
    if head <= tail then tail - head else BUF_LEN - head + tail
  }

  /** Rings that end at the same place and hold as much start at the same place. */
  lemma SameHead(head: Slot, head': Slot, tail: Slot)
    ensures Length(head, tail) == Length(head', tail) <==> head == head'
  {
  }

  /** The slot `n` places further on. */
  function Advance(i: Slot, n: nat): (j: Slot)
    requires n <= BUF_LEN
    ensures j == if i + n < BUF_LEN then i + n else i + n - BUF_LEN
  {
    (i + n) % BUF_LEN
  }

  /** `ring` is what lies between the indices, oldest first. */
  ghost predicate Holds(buf: array<Byte>, head: Slot, tail: Slot, ring: seq<Byte>)
    requires buf.Length == BUF_LEN
    reads buf
  {
    && |ring| == Length(head, tail)
    && forall k :: 0 <= k < |ring| ==> ring[k] == buf[Advance(head, k)]
  }

  /** The room a producer computes from a snapshot of both indices. */
  function Room(head: Slot, tail: Slot): (n: nat)
    ensures tail + n <= BUF_LEN
    ensures n + Length(head, tail) < BUF_LEN
    ensures n == 0 <==> Length(head, tail) == BUF_LEN - 1
  {
    if tail < head then head - 1 - tail
    else if head > 0 then BUF_LEN - tail
    else BUF_LEN - 1 - tail
  }

  /** The run a consumer can copy without wrapping, from a snapshot of both indices. */
  function Run(head: Slot, tail: Slot): (n: nat)
    ensures head + n <= BUF_LEN
    ensures n <= Length(head, tail)
    ensures n == 0 <==> head == tail
  {
    if tail >= head then tail - head else BUF_LEN - head
  }
}
