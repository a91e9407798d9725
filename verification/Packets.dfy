/** The values that travel through the emulator, shared by every other module. */
module Packets {

  /** Bytes carried by one delivery opportunity, and the largest packet accepted. */
  const PACKET_SIZE: nat := 1400

  /** The default largest TUN payload: CoDel and PIE never drop with so few bytes queued. */
  const MAX_TUN_PAYLOAD: nat := 1504

  /** sizeof(struct iphdr): the smallest packet `read_packet` accepts. */
  const IP_HEADER_SIZE: nat := 20

  /** A packet in the delay stage. */
  datatype DelayQueuePacket = DelayQueuePacket(
    contents: string,
    arrivalTime: nat,
    sequenceNumber: nat,
    releaseTime: nat,
    isBypassLinkQueue: bool)

  /** A packet in the link stage; `arrivalTime` is its arrival at that stage. */
  datatype QueuedPacket = QueuedPacket(
    contents: string,
    initialArrivalTime: nat,
    arrivalTime: nat,
    sequenceNumber: nat,
    releaseTimeFromDelayQueue: nat)

  /** What identifies a packet all along its way: its number and its payload. */
  datatype Frame = Frame(sequenceNumber: nat, contents: string)

  datatype Result<+T, +E> = Ok(value: T) | Err(error: E)

  function TotalBytes(q: seq<QueuedPacket>): nat
  {
    if q == [] then 0 else |q[0].contents| + TotalBytes(q[1..])
  }

  function QueuedFrame(p: QueuedPacket): Frame
  {
    Frame(p.sequenceNumber, p.contents)
  }

  function QueuedFrames(q: seq<QueuedPacket>): (r: seq<Frame>)
    ensures |r| == |q|
    ensures forall i :: 0 <= i < |q| ==> r[i] == QueuedFrame(q[i])
  {
    seq(|q|, i requires 0 <= i < |q| => QueuedFrame(q[i]))
  }

  function DelayedFrame(p: DelayQueuePacket): Frame
  {
    Frame(p.sequenceNumber, p.contents)
  }

  function DelayedFrames(q: seq<DelayQueuePacket>): (r: seq<Frame>)
    ensures |r| == |q|
    ensures forall i :: 0 <= i < |q| ==> r[i] == DelayedFrame(q[i])
  {
    seq(|q|, i requires 0 <= i < |q| => DelayedFrame(q[i]))
  }

  lemma Regroup<T>(a: seq<T>, b: seq<T>, c: seq<T>)
    ensures (a + b) + c == a + (b + c)
  {
  }

  lemma {:induction false} TotalBytesConcat(a: seq<QueuedPacket>, b: seq<QueuedPacket>)
    ensures TotalBytes(a + b) == TotalBytes(a) + TotalBytes(b)
  {
    if a == [] {
      assert a + b == b;
    } else {
      assert (a + b)[1..] == a[1..] + b;
      TotalBytesConcat(a[1..], b);
    }
  }

  /** Taking more packets never takes fewer bytes. */
  lemma {:induction false} TotalBytesTakeMonotone(q: seq<QueuedPacket>, i: nat, j: nat)
    requires i <= j <= |q|
    ensures TotalBytes(q[..i]) <= TotalBytes(q[..j]) <= TotalBytes(q)
  {
    TotalBytesConcat(q[..i], q[i..j]);
    assert q[..i] + q[i..j] == q[..j];
    TotalBytesConcat(q[..j], q[j..]);
    assert q[..j] + q[j..] == q;
  }
}
