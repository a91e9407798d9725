/**
 The packet queues the link can be plugged into.

 The C++ classes differ only in `enqueue`; here one class carries a discipline, which stands
 for the virtual dispatch. A limit of 0 means no limit, so the infinite queue has both at 0.
 */
module PacketQueues {
  import opened Packets

  datatype Limits = Limits(packets: nat, bytes: nat)

  datatype Discipline = Infinite | DropTail(limits: Limits) | DropHead(limits: Limits)

  function LimitsOf(d: Discipline): Limits
  {
    if d.Infinite? then Limits(0, 0) else d.limits
  }

  predicate GoodWith(l: Limits, sizeInBytes: int, sizeInPackets: int)
  {
    (l.bytes != 0 ==> sizeInBytes <= l.bytes) && (l.packets != 0 ==> sizeInPackets <= l.packets)
  }

  /** The contents meet both limits. */
  predicate Fits(l: Limits, q: seq<QueuedPacket>)
  {
    GoodWith(l, TotalBytes(q), |q|)
  }

  /** How many packets must leave at the head before the rest fits. */
  function Excess(l: Limits, q: seq<QueuedPacket>): (k: nat)
    ensures k <= |q|
    ensures Fits(l, q[k..])
    ensures forall j :: 0 <= j < k ==> !Fits(l, q[j..])
  {
    if Fits(l, q) then
      assert q[0..] == q; 0
    else
      var k := Excess(l, q[1..]);
      assert q[1..][k..] == q[k + 1..];
      assert forall j :: 0 < j < k + 1 ==> q[j..] == q[1..][j - 1..];
      k + 1
  }

  /** The queue after `enqueue`. */
  function Enqueued(d: Discipline, q: seq<QueuedPacket>, p: QueuedPacket): seq<QueuedPacket>
  {
    match d
    case Infinite => q + [p]
    case DropTail(l) => if Fits(l, q + [p]) then q + [p] else q
    case DropHead(l) => (q + [p])[Excess(l, q + [p])..]
  }

  /** The packets `enqueue` discards. */
  function Lost(d: Discipline, q: seq<QueuedPacket>, p: QueuedPacket): seq<QueuedPacket>
  {
    match d
    case Infinite => []
    case DropTail(l) => if Fits(l, q + [p]) then [] else [p]
    case DropHead(l) => (q + [p])[..Excess(l, q + [p])]
  }

  // ---------- The queue object ----------

  class PacketQueue {
    const discipline: Discipline
    var internalQueue: seq<QueuedPacket>
    var queueSizeInBytes: int
    var queueSizeInPackets: int

    /** The counters are the true sizes. */
    ghost predicate Counted()
      reads this
    {
      queueSizeInBytes == TotalBytes(internalQueue) && queueSizeInPackets == |internalQueue|
    }

    ghost predicate Valid()
      reads this
    {
      Counted() && Fits(LimitsOf(discipline), internalQueue)
    }

    constructor (d: Discipline)
      ensures Valid() && discipline == d && internalQueue == []
    {
      discipline := d;
      internalQueue, queueSizeInBytes, queueSizeInPackets := [], 0, 0;
    }

    predicate Empty()
      reads this
    {
      internalQueue == []
    }

    predicate Good()
      reads this
    {
      GoodWith(LimitsOf(discipline), queueSizeInBytes, queueSizeInPackets)
    }

    /** Put a packet on the back of the queue, whatever the limits. */
    method Accept(p: QueuedPacket)
      requires Counted()
      modifies this
      ensures Counted() && internalQueue == old(internalQueue) + [p]
    {
      TotalBytesConcat(internalQueue, [p]);
      queueSizeInBytes := queueSizeInBytes + |p.contents|;
      queueSizeInPackets := queueSizeInPackets + 1;
      internalQueue := internalQueue + [p];
    }

    /** The head leaves; a queue within its limits stays within them. */
    method Dequeue() returns (ret: QueuedPacket)
      requires Counted() && !Empty()
      modifies this
      ensures Counted()
      ensures old(internalQueue) == [ret] + internalQueue
      ensures old(Good()) ==> Good()
      ensures old(Valid()) ==> Valid()
    {
      ret := internalQueue[0];
      internalQueue := internalQueue[1..];
      queueSizeInBytes := queueSizeInBytes - |ret.contents|;
      queueSizeInPackets := queueSizeInPackets - 1;
    }

    method EnqueueInfinite(p: QueuedPacket)
      requires Counted()
      modifies this
      ensures Counted() && internalQueue == old(internalQueue) + [p]
    {
      Accept(p);
    }

    /** Admit the packet iff it fits; the closing assert of the source is Valid(). */
    method EnqueueDropTail(p: QueuedPacket)
      requires Valid() && discipline.DropTail?
      modifies this
      ensures Valid() && internalQueue == Enqueued(discipline, old(internalQueue), p)
    {
      TotalBytesConcat(internalQueue, [p]);
      if GoodWith(LimitsOf(discipline), queueSizeInBytes + |p.contents|, queueSizeInPackets + 1) {
        Accept(p);
      }
      assert Good();
    }

    /** Accept, then drop from the head until the limits hold.
        `asserted` tells whether the assert in the base-class dequeue held at every drop. */
    method EnqueueDropHead(p: QueuedPacket) returns (asserted: bool)
      requires Valid() && discipline.DropHead?
      modifies this
      ensures Valid() && internalQueue == Enqueued(discipline, old(internalQueue), p)
      ensures asserted <==> Excess(discipline.limits, old(internalQueue) + [p]) <= 1
    {
      hide TotalBytes;
      ghost var all := internalQueue + [p];
      ghost var l := discipline.limits;
      ghost var dropped: nat := 0;
      asserted := true;
      Accept(p);
      while !Good()
        invariant Counted() && dropped <= |all| && internalQueue == all[dropped..]
        invariant Excess(l, all) == dropped + Excess(l, internalQueue)
        invariant asserted <==> dropped == 0 || (dropped == 1 && Good())
        decreases |internalQueue|
      {
        var head := Dequeue();
        dropped := dropped + 1;
        asserted := asserted && Good();
      }
    }

    method Enqueue(p: QueuedPacket) returns (ghost lost: seq<QueuedPacket>)
      requires Valid()
      modifies this
      ensures Valid()
      ensures internalQueue == Enqueued(discipline, old(internalQueue), p)
      ensures lost == Lost(discipline, old(internalQueue), p)
    {
      lost := Lost(discipline, internalQueue, p);
      match discipline
      case Infinite => EnqueueInfinite(p);
      case DropTail(_) => EnqueueDropTail(p);
      case DropHead(_) => var _ := EnqueueDropHead(p);
    }
  }

  // ---------- Laws ----------

  /** What is kept and what is lost is the old queue and the packet, cut in three. */
  lemma EnqueueCuts(d: Discipline, q: seq<QueuedPacket>, p: QueuedPacket)
    returns (before: seq<QueuedPacket>, after: seq<QueuedPacket>)
    ensures q + [p] == before + Lost(d, q, p) + after
    ensures Enqueued(d, q, p) == before + after
    ensures Fits(LimitsOf(d), q) ==> Fits(LimitsOf(d), Enqueued(d, q, p))
    ensures !d.DropHead? ==> q <= Enqueued(d, q, p) <= q + [p]
  {
    if d.DropHead? {
      before, after := [], Enqueued(d, q, p);
    } else {
      before, after := Enqueued(d, q, p), [];
    }
  }

  /** Drop-tail admits a packet iff it keeps both limits, where 0 stands for no limit; otherwise the packet
      is what is lost. */
  lemma DropTailAdmitsExactly(l: Limits, q: seq<QueuedPacket>, p: QueuedPacket)
    ensures var room := (l.packets == 0 || |q| + 1 <= l.packets) &&
                        (l.bytes == 0 || TotalBytes(q) + |p.contents| <= l.bytes);
            && Enqueued(DropTail(l), q, p) == (if room then q + [p] else q)
            && Lost(DropTail(l), q, p) == (if room then [] else [p])
  {
    TotalBytesConcat(q, [p]);
  }

  /** More packets or more bytes than allowed. */
  predicate OverLimit(l: Limits, q: seq<QueuedPacket>)
  {
    (l.packets != 0 && |q| > l.packets) || (l.bytes != 0 && TotalBytes(q) > l.bytes)
  }

  /** Drop-head keeps the longest suffix of the queue and the packet within both limits, and loses the rest. */
  lemma DropHeadKeepsLongest(l: Limits, q: seq<QueuedPacket>, p: QueuedPacket)
    ensures var all, r := q + [p], Enqueued(DropHead(l), q, p);
            var k := |all| - |r|;
            && k >= 0 && r == all[k..] && Lost(DropHead(l), q, p) == all[..k]
            && (l.packets == 0 || |r| <= l.packets) && (l.bytes == 0 || TotalBytes(r) <= l.bytes)
            && forall j :: 0 <= j < k ==> OverLimit(l, all[j..])
  {
    hide TotalBytes;
    var all := q + [p];
    var k := Excess(l, all);
    assert k == |all| - |Enqueued(DropHead(l), q, p)|;
    forall j | 0 <= j < k
      ensures OverLimit(l, all[j..])
    {
      assert !Fits(l, all[j..]);
    }
  }

  /** With a packet limit alone drop-head keeps the last packets, as many as the limit. */
  lemma DropHeadKeepsLast(limit: nat, q: seq<QueuedPacket>, p: QueuedPacket)
    requires limit > 0
    ensures var all := q + [p];
            Enqueued(DropHead(Limits(limit, 0)), q, p) == if |all| <= limit then all else all[|all| - limit..]
  {
    hide Enqueued, TotalBytes;
    var all, r := q + [p], Enqueued(DropHead(Limits(limit, 0)), q, p);
    DropHeadKeepsLongest(Limits(limit, 0), q, p);
    var k := |all| - |r|;
    if k > 0 {
      assert OverLimit(Limits(limit, 0), all[k - 1..]);
    }
  }

  /** The assert in the base-class dequeue survives a drop-head enqueue exactly when the packet,
      without the old head, is within the byte limit. */
  lemma DropHeadAssertExactly(l: Limits, q: seq<QueuedPacket>, p: QueuedPacket)
    requires Fits(l, q)
    ensures Excess(l, q + [p]) <= 1 <==>
            l.bytes == 0 || q == [] || TotalBytes(q) - |q[0].contents| + |p.contents| <= l.bytes
  {
    TotalBytesConcat(q, [p]);
    if q != [] {
      assert (q + [p])[1..] == q[1..] + [p];
      TotalBytesConcat(q[1..], [p]);
    }
    if !Fits(l, q + [p]) {
      assert Excess(l, q + [p]) == 1 + Excess(l, (q + [p])[1..]);
    }
  }

  /** A byte limit can force two drops, and then the assert fires. */
  lemma DropHeadAssertFires()
    ensures var l := Limits(0, 3);
            var small := QueuedPacket("a", 0, 0, 0, 0);
            var large := QueuedPacket("abc", 0, 0, 0, 0);
            Fits(l, [small, small]) && Excess(l, [small, small] + [large]) == 2
  {
    var l := Limits(0, 3);
    var a := QueuedPacket("a", 0, 0, 0, 0);
    var p := QueuedPacket("abc", 0, 0, 0, 0);
    assert TotalBytes([p]) == 3 by {
      assert [p][1..] == [];
    }
    assert [a, p][1..] == [p];
    assert TotalBytes([a, p]) == 4;
    assert [a, a, p][1..] == [a, p];
    assert TotalBytes([a, a, p]) == 5;
    assert [a, a][1..] == [a] && [a][1..] == [];
    assert [a, a] + [p] == [a, a, p];
    assert Excess(l, [p]) == 0;
    assert Excess(l, [a, p]) == 1;
  }
}
