/** The byte pipe behind the heavy schedule, as a fluid server. */
module LinkStage {
  import opened Arithmetic
  import opened Packets
  import opened HeavySchedule

  /** `left` bytes of `inTransit` are still unsent; when it is 0 no packet is half sent. */
  datatype Pipe = Pipe(inTransit: QueuedPacket, left: nat, queue: seq<QueuedPacket>, output: seq<QueuedPacket>)

  /** The packets not fully sent, in the order they will be. */
  function Waiting(p: Pipe): seq<QueuedPacket>
  {
    (if p.left > 0 then [p.inTransit] else []) + p.queue
  }

  predicate NoEmptyPackets(q: seq<QueuedPacket>)
  {
    forall i :: 0 <= i < |q| ==> |q[i].contents| > 0
  }

  function Backlog(p: Pipe): nat
  {
    p.left + TotalBytes(p.queue)
  }

  /** Unsent bytes of the first m waiting packets. */
  function Ahead(p: Pipe, m: nat): nat
    requires m <= |Waiting(p)|
  {
    if m == 0 then 0
    else if p.left > 0 then p.left + TotalBytes(p.queue[..m - 1])
    else TotalBytes(p.queue[..m])
  }

  /** The head of the queue becomes the packet in transit. */
  function Load(p: Pipe): Pipe
    requires p.queue != []
  {
    p.(inTransit := p.queue[0], left := |p.queue[0].contents|, queue := p.queue[1..])
  }

  /** Send n bytes of the packet in transit; a packet fully sent goes to the output. */
  function Send(p: Pipe, n: nat): Pipe
    requires n <= p.left
  {
    var rest := p.(left := p.left - n);
    if rest.left == 0 then rest.(output := rest.output + [rest.inTransit]) else rest
  }

  /** Send up to b bytes, taking packets off the queue as the previous one completes. */
  function Drain(p: Pipe, b: nat): Pipe
    decreases b, |p.queue|
  {
    if b == 0 then p
    else if p.left == 0 then
      if p.queue == [] then p else Drain(Load(p), b)
    else
      Drain(Send(p, Min(b, p.left)), b - Min(b, p.left))
  }

  /** The fluid server: what b bytes of service do, said without the order of sending. */
  ghost predicate Fluid(p: Pipe, b: nat, r: Pipe)
  {
    var m := |r.output| - |p.output|;
    && 0 <= m <= |Waiting(p)|
    && r.output == p.output + Waiting(p)[..m]
    && Waiting(r) == Waiting(p)[m..]
    && Backlog(r) == Max(0, Backlog(p) - b)
    && Ahead(p, m) <= b
    && (m < |Waiting(p)| ==> b < Ahead(p, m + 1))
  }

  /** Service is additive in bytes: no boundary between opportunities can be seen. */
  lemma {:induction false} DrainAdd(p: Pipe, a: nat, b: nat)
    ensures Drain(p, a + b) == Drain(Drain(p, a), b)
    decreases a, |p.queue|
  {
    if a == 0 {
    } else if p.left == 0 {
      if p.queue != [] {
        DrainAdd(Load(p), a, b);
      } else {
        assert Drain(p, a) == p;
      }
    } else if p.left <= a {
      DrainAdd(Send(p, p.left), a - p.left, b);
    } else {
      assert Drain(p, a) == Send(p, a);
    }
  }

  lemma NothingWaits(p: Pipe)
    requires p.left == 0 && p.queue == []
    ensures Waiting(p) == []
  {
  }

  lemma NoServiceFluid(p: Pipe, b: nat)
    requires NoEmptyPackets(p.queue) && (b == 0 || Waiting(p) == [])
    ensures Fluid(p, b, p)
  {
    assert Waiting(p)[0..] == Waiting(p);
    if |Waiting(p)| > 0 && p.left == 0 {
      assert p.queue[..1] == [p.queue[0]];
    }
  }

  lemma PartialFluid(p: Pipe, b: nat)
    requires b < p.left
    ensures Fluid(p, b, Send(p, b))
  {
    assert p.queue[..0] == [];
  }

  /** Taking the head of the queue into transit changes nothing the fluid view can see. */
  lemma LoadAhead(p: Pipe, q: Pipe, m: nat)
    requires p.left == 0 && p.queue != [] && |p.queue[0].contents| > 0 && m <= |p.queue|
    requires q == Load(p)
    ensures Waiting(q) == Waiting(p) && |Waiting(p)| == |p.queue|
    ensures Backlog(q) == Backlog(p) && Ahead(q, m) == Ahead(p, m)
  {
    if m > 0 {
      assert p.queue[..m][1..] == q.queue[..m - 1];
    }
  }

  lemma LoadFluid(p: Pipe, q: Pipe, b: nat, r: Pipe)
    requires p.left == 0 && p.queue != [] && |p.queue[0].contents| > 0
    requires q == Load(p)
    requires Fluid(q, b, r)
    ensures Fluid(p, b, r)
  {
    hide Waiting, Backlog, Ahead;
    var m := |r.output| - |q.output|;
    LoadAhead(p, q, 0);
    LoadAhead(p, q, m);
    if m < |Waiting(p)| {
      LoadAhead(p, q, m + 1);
    }
  }

  /** Completing the half-sent packet takes its remaining bytes out of every later count. */
  lemma SendAhead(p: Pipe, q: Pipe, m: nat)
    requires 0 < p.left && q == Send(p, p.left) && m <= |q.queue|
    ensures Waiting(p)[..m + 1] == [p.inTransit] + Waiting(q)[..m]
    ensures Waiting(p)[m + 1..] == Waiting(q)[m..]
    ensures Ahead(p, m + 1) == p.left + Ahead(q, m)
    ensures |Waiting(p)| == |Waiting(q)| + 1 == |q.queue| + 1 && Backlog(p) == p.left + Backlog(q)
  {
    assert q.queue[..0] == [];
  }

  lemma SendFluid(p: Pipe, q: Pipe, b: nat, r: Pipe)
    requires 0 < p.left <= b
    requires q == Send(p, p.left)
    requires Fluid(q, b - p.left, r)
    ensures Fluid(p, b, r)
  {
    hide Waiting, Backlog, Ahead;
    var m := |r.output| - |q.output|;
    SendAhead(p, q, 0);
    SendAhead(p, q, m);
    if m < |q.queue| {
      SendAhead(p, q, m + 1);
    }
    Regroup(p.output, [p.inTransit], Waiting(q)[..m]);
  }

  /** Draining moves exactly the longest prefix of the waiting packets that fits in b bytes. */
  lemma {:induction false} DrainIsFluid(p: Pipe, b: nat)
    requires NoEmptyPackets(p.queue)
    ensures Fluid(p, b, Drain(p, b))
    ensures NoEmptyPackets(Drain(p, b).queue)
    decreases b, |p.queue|
  {
    hide Fluid, Waiting;
    if b == 0 {
      NoServiceFluid(p, b);
    } else if p.left == 0 {
      if p.queue == [] {
        NothingWaits(p);
        NoServiceFluid(p, b);
      } else {
        var q := Load(p);
        DrainIsFluid(q, b);
        LoadFluid(p, q, b, Drain(q, b));
      }
    } else if p.left <= b {
      var q := Send(p, p.left);
      DrainIsFluid(q, b - p.left);
      SendFluid(p, q, b, Drain(q, b - p.left));
    } else {
      PartialFluid(p, b);
      assert Drain(p, b) == Send(p, b);
    }
  }

  // ---------- The link: a cursor driving the pipe ----------

  datatype Link = Link(cursor: Cursor, pipe: Pipe)

  /** The link at time `now`: every due opportunity used, and that many bytes served. */
  function Rationalized(s: HeavyPdo, l: Link, now: nat): (r: Link)
    requires InRange(s, l.cursor)
    ensures InRange(s, r.cursor)
  {
    var k := Due(s, l.cursor, now);
    Link(UseMany(s, l.cursor, k), Drain(l.pipe, PACKET_SIZE * k))
  }

  /** An extra poll in between leaves no trace, down to the half-sent bytes. */
  lemma PollingInvisible(s: HeavyPdo, l: Link, t1: nat, t2: nat)
    requires InRange(s, l.cursor) && t1 <= t2
    ensures Rationalized(s, Rationalized(s, l, t1), t2) == Rationalized(s, l, t2)
  {
    var k1 := Due(s, l.cursor, t1);
    var k2 := Due(s, UseMany(s, l.cursor, k1), t2);
    DueSplit(s, l.cursor, t1, t2);
    UseManyAdd(s, l.cursor, k1, k2);
    DrainAdd(l.pipe, PACKET_SIZE * k1, PACKET_SIZE * k2);
  }

  /** k due opportunities are one fluid service of 1400 k bytes. */
  lemma RationalizeIsFluid(s: HeavyPdo, l: Link, now: nat)
    requires InRange(s, l.cursor) && NoEmptyPackets(l.pipe.queue)
    ensures Fluid(l.pipe, PACKET_SIZE * Due(s, l.cursor, now), Rationalized(s, l, now).pipe)
    ensures NoEmptyPackets(Rationalized(s, l, now).pipe.queue)
  {
    DrainIsFluid(l.pipe, PACKET_SIZE * Due(s, l.cursor, now));
  }

  // ---------- Following one packet ----------

  lemma {:induction false} TotalBytesStrict(q: seq<QueuedPacket>, i: nat, j: nat)
    requires NoEmptyPackets(q) && i < j <= |q|
    ensures TotalBytes(q[..i]) < TotalBytes(q[..j])
  {
    assert q[..i + 1] == q[..i] + [q[i]];
    TotalBytesConcat(q[..i], [q[i]]);
    TotalBytesTakeMonotone(q, i + 1, j);
  }

  lemma AheadStrict(p: Pipe, i: nat, j: nat)
    requires NoEmptyPackets(p.queue) && i < j <= |Waiting(p)|
    ensures Ahead(p, i) < Ahead(p, j)
  {
    var h := if p.left > 0 then 1 else 0;
    if i >= h {
      TotalBytesStrict(p.queue, i - h, j - h);
    }
  }

  /** More packets are never fewer bytes, and strictly more when each has some. */
  lemma AheadIncreasing(p: Pipe, i: nat, j: nat)
    requires NoEmptyPackets(p.queue) && i <= j <= |Waiting(p)|
    ensures Ahead(p, i) <= Ahead(p, j)
    ensures i < j ==> Ahead(p, i) < Ahead(p, j)
  {
    if i < j {
      AheadStrict(p, i, j);
    }
  }

  /** The i-th waiting packet is sent by b bytes of service iff at most b bytes are ahead of its end;
      otherwise b fewer bytes remain. */
  lemma ServedWhenCovered(p: Pipe, b: nat, r: Pipe, i: nat)
    requires NoEmptyPackets(p.queue) && NoEmptyPackets(r.queue) && Fluid(p, b, r) && i < |Waiting(p)|
    ensures var m := |r.output| - |p.output|;
            if Ahead(p, i + 1) <= b then i < m
            else m <= i && |Waiting(r)| == |Waiting(p)| - m && Ahead(r, i - m + 1) == Ahead(p, i + 1) - b
  {
    var m := |r.output| - |p.output|;
    if i < m {
      AheadIncreasing(p, i + 1, m);
    } else {
      AheadIncreasing(p, m + 1, i + 1);
      BacklogCovers(p, i + 1);
      SameTail(p, r, i + 1, m);
    }
  }

  lemma BacklogCovers(p: Pipe, i: nat)
    requires i <= |Waiting(p)|
    ensures Ahead(p, i) <= Backlog(p)
  {
    if i > 0 {
      BytesBehind(p, i);
    }
  }

  /** Counted from the back, the bytes behind a packet are whole packets and do not change in service. */
  lemma SameTail(p: Pipe, r: Pipe, i: nat, m: nat)
    requires m < i <= |Waiting(p)| && Waiting(r) == Waiting(p)[m..]
    ensures Backlog(p) - Ahead(p, i) == Backlog(r) - Ahead(r, i - m)
  {
    BytesBehind(p, i);
    BytesBehind(r, i - m);
    assert Waiting(p)[i..] == Waiting(r)[i - m..];
  }

  lemma BytesBehind(p: Pipe, i: nat)
    requires 0 < i <= |Waiting(p)|
    ensures Backlog(p) == Ahead(p, i) + TotalBytes(Waiting(p)[i..])
  {
    var k := if p.left > 0 then i - 1 else i;
    assert Waiting(p)[i..] == p.queue[k..];
    assert p.queue == p.queue[..k] + p.queue[k..];
    TotalBytesConcat(p.queue[..k], p.queue[k..]);
  }

  // ---------- The loops that serve the link ----------

  predicate PipeInv(p: Pipe)
  {
    && NoEmptyPackets(p.queue)
    && (forall q :: q in p.queue ==> |q.contents| <= PACKET_SIZE)
    && p.left <= |p.inTransit.contents| <= PACKET_SIZE
  }

  predicate ArrivedBy(q: seq<QueuedPacket>, t: nat)
  {
    forall p :: p in q ==> p.arrivalTime <= t
  }

  lemma LoadKeeps(p: Pipe, t: nat)
    requires PipeInv(p) && p.left == 0 && p.queue != [] && ArrivedBy(Waiting(p), t)
    ensures PipeInv(Load(p)) && ArrivedBy(Waiting(Load(p)), t) && Waiting(Load(p)) == Waiting(p) && Load(p).left > 0
  {
    assert Waiting(Load(p)) == Waiting(p);
  }

  lemma SendKeeps(p: Pipe, n: nat, t: nat)
    requires PipeInv(p) && 0 < n <= p.left && ArrivedBy(Waiting(p), t)
    ensures PipeInv(Send(p, n)) && ArrivedBy(Waiting(Send(p, n)), t)
    ensures p.inTransit.arrivalTime <= t
  {
    assert Waiting(p)[0] == p.inTransit;
    assert forall q :: q in Waiting(Send(p, n)) ==> q in Waiting(p);
  }

  /** After k opportunities of the service up to time t. */
  predicate Burnt(s: HeavyPdo, l0: Link, l: Link, k: nat, t: nat)
  {
    && InRange(s, l0.cursor) && InRange(s, l.cursor)
    && l == Link(UseMany(s, l0.cursor, k), Drain(l0.pipe, PACKET_SIZE * k))
    && Due(s, l0.cursor, t) == k + Due(s, l.cursor, t)
  }

  lemma BurntStep(s: HeavyPdo, l0: Link, l: Link, k: nat, t: nat)
    requires Burnt(s, l0, l, k, t) && !l.cursor.finished && NextTime(s, l.cursor) <= t
    ensures Burnt(s, l0, Link(Use(s, l.cursor), Drain(l.pipe, PACKET_SIZE)), k + 1, t)
    ensures Due(s, Use(s, l.cursor), t) < Due(s, l.cursor, t)
  {
    UseManyAdd(s, l0.cursor, k, 1);
    assert UseMany(s, l.cursor, 1) == Use(s, l.cursor);
    DrainAdd(l0.pipe, PACKET_SIZE * k, PACKET_SIZE);
  }

  lemma BurntNone(s: HeavyPdo, l: Link, t: nat)
    requires InRange(s, l.cursor)
    ensures Burnt(s, l, l, 0, t)
  {
  }

  lemma BurntAll(s: HeavyPdo, l0: Link, l: Link, k: nat, t: nat)
    requires Burnt(s, l0, l, k, t) && (l.cursor.finished || NextTime(s, l.cursor) > t)
    ensures l == Rationalized(s, l0, t)
  {
  }

  /** The next opportunity is never before the last one. */
  lemma UseNotEarlier(s: HeavyPdo, c: Cursor)
    requires InRange(s, c)
    ensures Use(s, c).finished || NextTime(s, Use(s, c)) >= NextTime(s, c)
  {
  }
}
