/** Laws of whole runs: any calls of the event loop, in any order, with a clock that never goes back. */
module EmulatorRuns {
  import opened Arithmetic
  import opened Packets
  import opened HeavySchedule
  import opened LinkStage
  import opened PacketQueues
  import opened DelayStage
  import opened Emulator
  import opened EmulatorInvariants

  // ---------- End to end ----------

  /** The frame one call hands in: a packet of acceptable size, numbered n. */
  function EventFrames(e: Event, n: nat): seq<Frame>
  {
    if e.Read? && AcceptableSize(e.contents) then [Frame(n, e.contents)] else []
  }

  /** The frames a run hands in, numbered from n. */
  function InputFrames(es: seq<Event>, n: nat): seq<Frame>
  {
    if es == [] then []
    else EventFrames(es[0], n) + InputFrames(es[1..], n + |EventFrames(es[0], n)|)
  }

  lemma StepAccepts(cfg: Config, s: State, e: Event)
    requires WellFormed(cfg, s) && Timely(s, e)
    ensures Step(cfg, s, e).accepted == s.accepted + EventFrames(e, s.counter)
    ensures Step(cfg, s, e).counter == s.counter + |EventFrames(e, s.counter)|
  {
  }

  lemma InputFramesCons(es: seq<Event>, n: nat, before: seq<Frame>)
    requires es != []
    ensures (before + EventFrames(es[0], n)) + InputFrames(es[1..], n + |EventFrames(es[0], n)|)
            == before + InputFrames(es, n)
  {
  }

  lemma {:induction false} RunAccepts(cfg: Config, s: State, es: seq<Event>)
    requires WellFormed(cfg, s) && RunTimely(cfg, s, es)
    ensures Run(cfg, s, es).accepted == s.accepted + InputFrames(es, s.counter)
    decreases |es|
  {
    hide Step, WellFormed, EventFrames;
    if es != [] {
      StepAccepts(cfg, s, es[0]);
      RunAccepts(cfg, Step(cfg, s, es[0]), es[1..]);
      InputFramesCons(es, s.counter, s.accepted);
    }
  }

  lemma FinalAccepts(cfg: Config, t: nat, es: seq<Event>)
    requires FromStart(cfg, t, es)
    ensures Final(cfg, t, es).accepted == InputFrames(es, 0)
  {
    RunAccepts(cfg, Init(t), es);
  }

  lemma WrittenIsPrefix(s: State)
    ensures Delivered(s.written) <= Departed(s) <= Chain(s)
  {
  }

  /** With the infinite queue the emulator is a delay line: what is written, what is on the way and
      what is still delayed are, in this order, exactly the packets read. Nothing is lost, repeated,
      altered or reordered, in spite of the bypass. */
  lemma EndToEnd(cfg: Config, t: nat, es: seq<Event>)
    requires cfg.discipline.Infinite? && FromStart(cfg, t, es)
    ensures Chain(Final(cfg, t, es)) == InputFrames(es, 0)
    ensures Delivered(Final(cfg, t, es).written) <= InputFrames(es, 0)
  {
    FinalInv(cfg, t, es);
    FinalAccepts(cfg, t, es);
    WrittenIsPrefix(Final(cfg, t, es));
  }

  /** With any queue: order is kept, and every packet read is either dropped or still accounted for. */
  lemma EndToEndLossy(cfg: Config, t: nat, es: seq<Event>)
    requires FromStart(cfg, t, es)
    ensures var r := Final(cfg, t, es);
            && Increasing(Chain(r))
            && multiset(Chain(r)) + multiset(QueuedFrames(r.dropped)) == multiset(InputFrames(es, 0))
  {
    FinalInv(cfg, t, es);
    FinalAccepts(cfg, t, es);
  }

  /** In every reachable state the delay stage releases in order of arrival: no packet has a release
      time before that of an older one, and the oldest is the one taken out next. */
  lemma ReleasesInArrivalOrder(cfg: Config, t: nat, es: seq<Event>)
    requires FromStart(cfg, t, es)
    ensures var q := Final(cfg, t, es).delayQueue;
            && (forall i, j :: 0 <= i < j < |q| ==>
                  q[i].sequenceNumber < q[j].sequenceNumber && q[i].releaseTime <= q[j].releaseTime)
            && (q != [] ==> TopIndex(q) == 0)
  {
    FinalInv(cfg, t, es);
    QueueInOrder(cfg, Final(cfg, t, es));
  }

  lemma QueueInOrder(cfg: Config, s: State)
    requires FlowInv(cfg, s) && QueueInv(s)
    ensures forall i, j :: 0 <= i < j < |s.delayQueue| ==>
              s.delayQueue[i].sequenceNumber < s.delayQueue[j].sequenceNumber &&
              s.delayQueue[i].releaseTime <= s.delayQueue[j].releaseTime
    ensures s.delayQueue != [] ==> TopIndex(s.delayQueue) == 0
  {
    hide LinkFrames, DelayedFrames;
    var q, n := s.delayQueue, |LinkFrames(s)|;
    if q != [] {
      TopIsFirst(q);
    }
    forall i, j | 0 <= i < j < |q|
      ensures q[i].sequenceNumber < q[j].sequenceNumber && q[i].releaseTime <= q[j].releaseTime
    {
      assert Chain(s)[n + i] == DelayedFrame(q[i]) && Chain(s)[n + j] == DelayedFrame(q[j]);
      assert Before(q[i], q[j]);
    }
  }

  // ---------- One call at a time ----------

  lemma NotReadyMeansNone(s: State, t: nat)
    requires !Ready(s, t)
    ensures forall p :: p in s.delayQueue ==> p.releaseTime > t
  {
    forall p | p in s.delayQueue
      ensures p.releaseTime > t
    {
      var j :| 0 <= j < |s.delayQueue| && s.delayQueue[j] == p;
      assert !Before(s.delayQueue[j], s.delayQueue[TopIndex(s.delayQueue)]);
    }
  }

  lemma {:induction false} MoveDueMovesAll(cfg: Config, s: State, t: nat, now: nat, clock: nat -> nat, i: nat, first: nat)
    requires InRange(cfg.heavy, s.link.cursor)
    requires first <= t && forall j :: i <= j ==> first <= clock(j)
    ensures forall p :: p in MoveDue(cfg, s, t, now, clock, i).delayQueue ==> p.releaseTime > first
    decreases |s.delayQueue|
  {
    if Ready(s, t) {
      MoveDueMovesAll(cfg, MoveOne(cfg, s, now), clock(i), now, clock, i + 1, first);
    } else {
      NotReadyMeansNone(s, t);
    }
  }

  /** A call of `write_packets` leaves no output behind, and no packet in the delay stage that was due
      when it began. */
  lemma WriteLeavesNothingDue(cfg: Config, s: State, clock: nat -> nat)
    requires InRange(cfg.heavy, s.link.cursor) && Monotone(clock)
    ensures var r := WritePackets(cfg, s, clock);
            r.link.pipe.output == [] && forall p :: p in r.delayQueue ==> p.releaseTime > clock(0)
  {
    MoveDueMovesAll(cfg, s.(now := clock(1)), clock(0), clock(1), clock, 2, clock(0));
  }

  predicate AllBypass(q: seq<DelayQueuePacket>)
  {
    forall i :: 0 <= i < |q| ==> q[i].isBypassLinkQueue
  }

  predicate AllBypassed(w: seq<Delivery>)
  {
    forall i :: 0 <= i < |w| ==> w[i].bypassed
  }

  /** r extends s by one bypassing delivery for each packet taken out of the delay stage, and nothing else
      happened to the link. */
  predicate AroundLink(s: State, r: State)
  {
    && r.link == s.link && r.linkSize == s.linkSize && r.dropped == s.dropped && r.linkTime == s.linkTime
    && s.written <= r.written && AllBypassed(r.written[|s.written|..])
    && |r.written| - |s.written| == |s.delayQueue| - |r.delayQueue|
  }

  lemma AroundLinkTells(s: State, r: State)
    requires AroundLink(s, r)
    ensures r.link == s.link && r.linkSize == s.linkSize
  {
  }

  lemma AroundLinkTransitive(s: State, m: State, r: State)
    requires AroundLink(s, m) && AroundLink(m, r)
    ensures AroundLink(s, r)
  {
    assert r.written[|s.written|..] == m.written[|s.written|..] + r.written[|m.written|..];
  }

  lemma MoveOneAroundLink(cfg: Config, s: State, now: nat)
    requires InRange(cfg.heavy, s.link.cursor) && s.delayQueue != [] && s.linkSize == 0 && AllBypass(s.delayQueue)
    ensures AroundLink(s, MoveOne(cfg, s, now)) && AllBypass(MoveOne(cfg, s, now).delayQueue)
  {
    hide PutPacket;
  }

  lemma {:induction false} MoveDueAroundLink(cfg: Config, s: State, t: nat, now: nat, clock: nat -> nat, i: nat)
    requires InRange(cfg.heavy, s.link.cursor) && s.linkSize == 0 && AllBypass(s.delayQueue)
    ensures AroundLink(s, MoveDue(cfg, s, t, now, clock, i))
    decreases |s.delayQueue|
  {
    if Ready(s, t) {
      hide MoveOne, AroundLink, AllBypass;
      MoveOneAroundLink(cfg, s, now);
      var m := MoveOne(cfg, s, now);
      AroundLinkTells(s, m);
      MoveDueAroundLink(cfg, m, clock(i), now, clock, i + 1);
      AroundLinkTransitive(s, m, MoveDue(cfg, m, clock(i), now, clock, i + 1));
    } else {
      assert s.written[|s.written|..] == [];
    }
  }

  /** Light traffic never meets the heavy schedule: while the link stage is empty and every delayed packet
      may bypass it, `write_packets` delivers what is due without touching the link. */
  lemma LightTrafficSkipsLink(cfg: Config, s: State, clock: nat -> nat)
    requires LinkInv(cfg, s) && s.linkSize == 0 && AllBypass(s.delayQueue)
    ensures AroundLink(s, WritePackets(cfg, s, clock))
  {
    EmptyLink(cfg, s);
    MoveDueAroundLink(cfg, s.(now := clock(1)), clock(0), clock(1), clock, 2);
  }

  /** The first packet accepted anchors the heavy schedule at its arrival, from whatever index earlier
      polls have reached; later packets do not move it. */
  lemma FirstPacketAnchorsSchedule(cfg: Config, s: State, now: nat, contents: string, j: nat)
    requires InRange(cfg.heavy, s.link.cursor) && DelayInv(cfg.delay.trace, s.delay, now) && AcceptableSize(contents)
    ensures var r := ReadPacket(cfg, s, now, contents);
            && (s.delay.startTick ==> r.link == s.link)
            && (!s.delay.startTick ==>
                  OpportunityTime(cfg.heavy, r.link.cursor, j) - now
                  == OpportunityTime(cfg.heavy, s.link.cursor, j) - s.link.cursor.base)
            && r.link.pipe == s.link.pipe
  {
    ReadPacketValue(cfg, s, now, contents);
  }

  // ---------- Bypass ----------

  predicate NoneBypassed(w: seq<Delivery>)
  {
    forall d :: d in w ==> !d.bypassed
  }

  /** r extends s by dropped packets and by deliveries none of which bypassed the link. */
  ghost predicate ThroughLink(s: State, r: State)
  {
    && s.dropped <= r.dropped
    && s.written <= r.written
    && NoneBypassed(r.written[|s.written|..])
  }

  lemma ThroughLinkTransitive(s: State, m: State, r: State)
    requires ThroughLink(s, m) && ThroughLink(m, r)
    ensures ThroughLink(s, r)
  {
    assert r.written[|s.written|..] == m.written[|s.written|..] + r.written[|m.written|..];
  }

  lemma MoveOneThroughLink(cfg: Config, s: State, now: nat)
    requires Inv(cfg, s) && s.delayQueue != [] && s.dropped != []
    ensures ThroughLink(s, MoveOne(cfg, s, now))
  {
    MoveOneTakesFirst(cfg, s, now);
  }

  lemma {:induction false} MoveDueThroughLink(cfg: Config, s: State, t: nat, now: nat, clock: nat -> nat, i: nat)
    requires Inv(cfg, s) && s.linkTime <= now <= s.now && s.dropped != []
    ensures ThroughLink(s, MoveDue(cfg, s, t, now, clock, i))
    decreases |s.delayQueue|
  {
    if Ready(s, t) {
      var m := MoveOne(cfg, s, now);
      MoveOneKeepsInv(cfg, s, now);
      MoveOneThroughLink(cfg, s, now);
      MoveDueThroughLink(cfg, m, clock(i), now, clock, i + 1);
      ThroughLinkTransitive(s, m, MoveDue(cfg, m, clock(i), now, clock, i + 1));
    }
  }

  lemma FlushThroughLink(s: State)
    ensures ThroughLink(s, Flush(s))
  {
    assert Flush(s).written[|s.written|..] == LinkDeliveries(s.link.pipe.output);
  }

  lemma WriteThroughLink(cfg: Config, s: State, clock: nat -> nat)
    requires Inv(cfg, s) && s.now <= clock(0) <= clock(1) && s.dropped != []
    ensures ThroughLink(s, WritePackets(cfg, s, clock))
  {
    hide ThroughLink, MoveDue, Flush;
    var s0 := s.(now := clock(1));
    LaterKeepsInv(cfg, s, clock(1));
    MoveDueThroughLink(cfg, s0, clock(0), clock(1), clock, 2);
    var m := MoveDue(cfg, s0, clock(0), clock(1), clock, 2);
    FlushThroughLink(m);
    ThroughLinkTransitive(s0, m, Flush(m));
    assert ThroughLink(s, Flush(m)) by {
      SameThroughLink(s0, s, Flush(m));
    }
  }

  /** Only the writes and the drops matter. */
  lemma SameThroughLink(s0: State, s: State, r: State)
    requires ThroughLink(s0, r) && s0.written == s.written && s0.dropped == s.dropped
    ensures ThroughLink(s, r)
  {
  }

  lemma StepThroughLink(cfg: Config, s: State, e: Event)
    requires Inv(cfg, s) && Timely(s, e) && s.dropped != []
    ensures ThroughLink(s, Step(cfg, s, e))
  {
    match e
    case Read(_, _) =>
    case Write(clock) => WriteThroughLink(cfg, s, clock);
    case Wait(_, _) =>
  }

  /** A dropped packet is never taken out of the size counter, so after the first drop no packet ever
      bypasses the link again. */
  lemma {:induction false} NoBypassAfterDrop(cfg: Config, s: State, es: seq<Event>)
    requires Inv(cfg, s) && RunTimely(cfg, s, es) && s.dropped != []
    ensures ThroughLink(s, Run(cfg, s, es))
    decreases |es|
  {
    if es != [] {
      StepKeepsInv(cfg, s, es[0]);
      StepThroughLink(cfg, s, es[0]);
      var m := Step(cfg, s, es[0]);
      NoBypassAfterDrop(cfg, m, es[1..]);
      ThroughLinkTransitive(s, m, Run(cfg, m, es[1..]));
    }
  }

  // ---------- Departure ----------

  /** The r-th frame of the link side is f, and b bytes had to be sent for it to depart, of which
      `offered` have been: it has departed, or exactly the rest is still ahead of it. */
  ghost predicate Covered(s: State, r: nat, f: Frame, b: nat, offered: nat)
  {
    && r < |LinkFrames(s)| && LinkFrames(s)[r] == f
    && if r < |Departed(s)| then b <= offered
       else Ahead(s.link.pipe, r - |Departed(s)| + 1) == b - offered
  }

  /** f waits, with at most `rest` bytes to be sent up to its end. */
  predicate WaitsWithin(p: Pipe, f: Frame, rest: int)
  {
    exists i :: 0 <= i < |Waiting(p)| && QueuedFrame(Waiting(p)[i]) == f && Ahead(p, i + 1) <= rest
  }

  /** What holds for drop-head too: f has departed, or was dropped, or at most the rest is ahead of it. */
  ghost predicate Followed(s: State, f: Frame, b: nat, offered: nat)
  {
    f in Departed(s) || f in QueuedFrames(s.dropped) || WaitsWithin(s.link.pipe, f, b - offered)
  }

  ghost predicate Held(cfg: Config, s: State, r: nat, f: Frame, b: nat, offered: nat)
  {
    Followed(s, f, b, offered) && (!cfg.discipline.DropHead? ==> Covered(s, r, f, b, offered))
  }

  /** Held, with the bytes counted in opportunities from cursor c. */
  ghost predicate Tracks(cfg: Config, s: State, c: Cursor, r: nat, f: Frame, b: nat)
    requires InRange(cfg.heavy, c)
  {
    && s.delay.startTick
    && s.link.cursor == UseMany(cfg.heavy, c, Due(cfg.heavy, c, s.linkTime))
    && Held(cfg, s, r, f, b, PACKET_SIZE * Due(cfg.heavy, c, s.linkTime))
  }

  lemma LinkFramesLength(s: State)
    ensures |LinkFrames(s)| == |Departed(s)| + |Waiting(s.link.pipe)|
  {
  }

  lemma CoveredServed(s: State, r: nat, f: Frame, b: nat, offered: nat, u: State, more: nat)
    requires Covered(s, r, f, b, offered)
    requires NoEmptyPackets(s.link.pipe.queue) && NoEmptyPackets(u.link.pipe.queue)
    requires u == s.(link := u.link, linkTime := u.linkTime) && Fluid(s.link.pipe, more, u.link.pipe)
    ensures Covered(u, r, f, b, offered + more)
  {
    hide LinkFrames, Departed, Waiting, Ahead, Fluid;
    LinkFramesLength(s);
    ServedKeepsLinkFrames(s, more, u);
    if r >= |Departed(s)| {
      ServedWhenCovered(s.link.pipe, more, u.link.pipe, r - |Departed(s)|);
    }
  }

  lemma FollowedServed(s: State, f: Frame, b: nat, offered: nat, u: State, more: nat)
    requires Followed(s, f, b, offered)
    requires NoEmptyPackets(s.link.pipe.queue) && NoEmptyPackets(u.link.pipe.queue)
    requires u == s.(link := u.link, linkTime := u.linkTime) && Fluid(s.link.pipe, more, u.link.pipe)
    ensures Followed(u, f, b, offered + more)
  {
    hide Ahead, Delivered, Waiting;
    var p, q := s.link.pipe, u.link.pipe;
    var m := |q.output| - |p.output|;
    if f in Departed(s) {
      FluidKeepsFrames(p, more, q);
      assert Departed(s) <= Departed(u);
      var j :| 0 <= j < |Departed(s)| && Departed(s)[j] == f;
      assert Departed(u)[j] == f;
    } else if f !in QueuedFrames(s.dropped) {
      var i :| 0 <= i < |Waiting(p)| && QueuedFrame(Waiting(p)[i]) == f && Ahead(p, i + 1) <= b - offered;
      ServedWhenCovered(p, more, q, i);
      if i < m {
        assert q.output[|p.output| + i] == Waiting(p)[i];
        assert QueuedFrames(q.output)[|p.output| + i] == f;
        assert f in Departed(u);
      } else {
        assert Waiting(q)[i - m] == Waiting(p)[i];
      }
    }
  }

  lemma HeldServed(cfg: Config, s: State, r: nat, f: Frame, b: nat, offered: nat, u: State, more: nat)
    requires Held(cfg, s, r, f, b, offered)
    requires NoEmptyPackets(s.link.pipe.queue) && NoEmptyPackets(u.link.pipe.queue)
    requires u == s.(link := u.link, linkTime := u.linkTime) && Fluid(s.link.pipe, more, u.link.pipe)
    ensures Held(cfg, u, r, f, b, offered + more)
  {
    hide Covered, Followed, Fluid;
    FollowedServed(s, f, b, offered, u, more);
    if !cfg.discipline.DropHead? {
      CoveredServed(s, r, f, b, offered, u, more);
    }
  }

  lemma TracksRationalize(cfg: Config, s: State, c: Cursor, r: nat, f: Frame, b: nat, t: nat)
    requires InRange(cfg.heavy, c) && Tracks(cfg, s, c, r, f, b) && LinkInv(cfg, s) && s.linkTime <= t
    ensures Tracks(cfg, Rationalize(cfg, s, t), c, r, f, b)
  {
    var k0 := Due(cfg.heavy, c, s.linkTime);
    var k := Due(cfg.heavy, s.link.cursor, t);
    DueSplit(cfg.heavy, c, s.linkTime, t);
    UseManyAdd(cfg.heavy, c, k0, k);
    RationalizeIsFluid(cfg.heavy, s.link, t);
    HeldServed(cfg, s, r, f, b, PACKET_SIZE * k0, Rationalize(cfg, s, t), PACKET_SIZE * k);
  }

  lemma HandedKeepsAhead(cfg: Config, s: State, p: QueuedPacket, rest: seq<DelayQueuePacket>, m: nat)
    requires !cfg.discipline.DropHead? && m <= |Waiting(s.link.pipe)|
    ensures var u := Handed(cfg, s, p, rest);
            Waiting(s.link.pipe) <= Waiting(u.link.pipe) && Ahead(u.link.pipe, m) == Ahead(s.link.pipe, m)
  {
    var before, after := EnqueueCuts(cfg.discipline, s.link.pipe.queue, p);
    var q, q' := s.link.pipe.queue, Handed(cfg, s, p, rest).link.pipe.queue;
    assert q'[..|q|] == q;
    if m > 0 {
      var k := if s.link.pipe.left > 0 then m - 1 else m;
      assert q'[..k] == q[..k];
    }
  }

  lemma CoveredHanded(cfg: Config, s: State, r: nat, f: Frame, b: nat, offered: nat, p: QueuedPacket, rest: seq<DelayQueuePacket>)
    requires Covered(s, r, f, b, offered) && !cfg.discipline.DropHead?
    ensures Covered(Handed(cfg, s, p, rest), r, f, b, offered)
  {
    LinkFramesLength(s);
    HandedKeepsAhead(cfg, s, p, rest, if r < |Departed(s)| then 0 else r - |Departed(s)| + 1);
    hide Ahead, Waiting, Enqueued, Lost, Delivered;
  }

  /** Taking a block out leaves no more bytes before any later place. */
  lemma CutBytes(a: seq<QueuedPacket>, x: seq<QueuedPacket>, b: seq<QueuedPacket>, n: nat)
    requires |a| + |x| <= n <= |a| + |x| + |b|
    ensures TotalBytes((a + b)[..n - |x|]) <= TotalBytes((a + x + b)[..n])
  {
    var rest := b[..n - |a| - |x|];
    assert (a + b)[..n - |x|] == a + rest && (a + x + b)[..n] == a + x + rest;
    TotalBytesConcat(a, rest);
    TotalBytesConcat(a + x, rest);
    TotalBytesConcat(a, x);
  }

  /** An enqueue drops a queued packet or leaves it with no more bytes up to its end. */
  lemma EnqueueMoves(d: Discipline, q: seq<QueuedPacket>, qp: QueuedPacket, j: nat) returns (k: nat)
    requires j < |q|
    ensures var u := Enqueued(d, q, qp);
            || q[j] in Lost(d, q, qp)
            || (k < |u| && u[k] == q[j] && TotalBytes(u[..k + 1]) <= TotalBytes(q[..j + 1]))
  {
    hide Enqueued, Lost, TotalBytes;
    k := j;
    var lost := Lost(d, q, qp);
    var before, after := EnqueueCuts(d, q, qp);
    assert q[j] == (q + [qp])[j] && q[..j + 1] == (q + [qp])[..j + 1];
    if j < |before| {
      assert (before + after)[..j + 1] == (q + [qp])[..j + 1];
    } else if j < |before| + |lost| {
      assert q[j] == lost[j - |before|];
    } else {
      k := j - |lost|;
      CutBytes(before, lost, after, j + 1);
    }
  }

  /** So does it for every waiting packet; the half-sent one stays. */
  lemma EnqueueWithin(d: Discipline, p: Pipe, qp: QueuedPacket, i: nat) returns (k: nat)
    requires i < |Waiting(p)|
    ensures var u := p.(queue := Enqueued(d, p.queue, qp));
            || Waiting(p)[i] in Lost(d, p.queue, qp)
            || (k < |Waiting(u)| && Waiting(u)[k] == Waiting(p)[i] && Ahead(u, k + 1) <= Ahead(p, i + 1))
  {
    hide Enqueued, Lost, TotalBytes;
    k := i;
    var h := if p.left > 0 then 1 else 0;
    var u := p.(queue := Enqueued(d, p.queue, qp));
    if i < h {
      assert p.queue[..0] == u.queue[..0];
    } else {
      k := EnqueueMoves(d, p.queue, qp, i - h);
      k := k + h;
    }
  }

  lemma FollowedHanded(cfg: Config, s: State, f: Frame, b: nat, offered: nat, p: QueuedPacket, rest: seq<DelayQueuePacket>)
    requires Followed(s, f, b, offered)
    ensures Followed(Handed(cfg, s, p, rest), f, b, offered)
  {
    hide Ahead, Waiting, Enqueued, Lost, Delivered;
    var pipe, u := s.link.pipe, Handed(cfg, s, p, rest);
    var lost := Lost(cfg.discipline, pipe.queue, p);
    QueuedFramesConcat(s.dropped, lost);
    if f !in Departed(s) && f !in QueuedFrames(s.dropped) {
      var i :| 0 <= i < |Waiting(pipe)| && QueuedFrame(Waiting(pipe)[i]) == f && Ahead(pipe, i + 1) <= b - offered;
      var k := EnqueueWithin(cfg.discipline, pipe, p, i);
      if Waiting(pipe)[i] in lost {
        var n :| 0 <= n < |lost| && lost[n] == Waiting(pipe)[i];
        assert QueuedFrames(lost)[n] == f;
      }
    }
  }

  lemma HeldHanded(cfg: Config, s: State, r: nat, f: Frame, b: nat, offered: nat, p: QueuedPacket, rest: seq<DelayQueuePacket>)
    requires Held(cfg, s, r, f, b, offered)
    ensures Held(cfg, Handed(cfg, s, p, rest), r, f, b, offered)
  {
    hide Covered, Followed, Handed;
    FollowedHanded(cfg, s, f, b, offered, p, rest);
    if !cfg.discipline.DropHead? {
      CoveredHanded(cfg, s, r, f, b, offered, p, rest);
    }
  }

  /** A bypass finds the link side empty, so whoever is followed has departed already. */
  lemma CoveredBypass(cfg: Config, s: State, r: nat, f: Frame, b: nat, offered: nat)
    requires Covered(s, r, f, b, offered) && LinkInv(cfg, s) && s.linkSize == 0 && s.delayQueue != []
    ensures Covered(s.(delayQueue := s.delayQueue[1..],
                       written := s.written + [Delivery(DelayedFrame(s.delayQueue[0]), true)]), r, f, b, offered)
  {
    BypassKeepsChain(cfg, s);
    EmptyLink(cfg, s);
    LinkFramesLength(s);
    EmptyLinkFrames(s);
    var d := Delivery(DelayedFrame(s.delayQueue[0]), true);
    EmptyLinkFrames(s.(delayQueue := s.delayQueue[1..], written := s.written + [d]));
    hide LinkInv, Chain, Delivered, Ahead, Waiting, Departed, LinkFrames;
    DeliveredSnoc(s.written, d);
  }

  lemma HeldBypass(cfg: Config, s: State, r: nat, f: Frame, b: nat, offered: nat)
    requires Held(cfg, s, r, f, b, offered) && LinkInv(cfg, s) && s.linkSize == 0 && s.delayQueue != []
    ensures Held(cfg, s.(delayQueue := s.delayQueue[1..],
                         written := s.written + [Delivery(DelayedFrame(s.delayQueue[0]), true)]), r, f, b, offered)
  {
    hide Covered, LinkInv, Chain, Departed, Waiting, Ahead;
    EmptyLink(cfg, s);
    BypassKeepsChain(cfg, s);
    assert QueuedFrames([]) == [];
    if !cfg.discipline.DropHead? {
      CoveredBypass(cfg, s, r, f, b, offered);
    }
  }

  lemma TracksMoveOne(cfg: Config, s: State, c: Cursor, r: nat, f: Frame, b: nat, now: nat)
    requires InRange(cfg.heavy, c) && Tracks(cfg, s, c, r, f, b)
    requires Inv(cfg, s) && s.delayQueue != [] && s.linkTime <= now <= s.now
    ensures Tracks(cfg, MoveOne(cfg, s, now), c, r, f, b)
  {
    hide FlowInv, LinkInv, DelayInv, Held, MoveOne, UseMany, Due;
    LinkInvTells(cfg, s);
    MoveOneTakesFirst(cfg, s, now);
    if s.delayQueue[0].isBypassLinkQueue && s.linkSize == 0 {
      HeldBypass(cfg, s, r, f, b, PACKET_SIZE * Due(cfg.heavy, c, s.linkTime));
    } else {
      TracksRationalize(cfg, s, c, r, f, b, now);
      var u := Rationalize(cfg, s, now);
      HeldHanded(cfg, u, r, f, b, PACKET_SIZE * Due(cfg.heavy, c, u.linkTime),
                    ToQueued(s.delayQueue[0], now), s.delayQueue[1..]);
    }
  }

  lemma {:induction false} TracksMoveDue(cfg: Config, s: State, c: Cursor, r: nat, f: Frame, b: nat,
                                         t: nat, now: nat, clock: nat -> nat, i: nat)
    requires InRange(cfg.heavy, c) && Tracks(cfg, s, c, r, f, b)
    requires Inv(cfg, s) && s.linkTime <= now <= s.now
    ensures Tracks(cfg, MoveDue(cfg, s, t, now, clock, i), c, r, f, b)
    decreases |s.delayQueue|
  {
    if Ready(s, t) {
      MoveOneKeepsInv(cfg, s, now);
      TracksMoveOne(cfg, s, c, r, f, b, now);
      TracksMoveDue(cfg, MoveOne(cfg, s, now), c, r, f, b, clock(i), now, clock, i + 1);
    }
  }

  lemma TracksFlush(cfg: Config, s: State, c: Cursor, r: nat, f: Frame, b: nat)
    requires InRange(cfg.heavy, c) && Tracks(cfg, s, c, r, f, b)
    ensures Tracks(cfg, Flush(s), c, r, f, b)
  {
    FlushKeepsChain(s);
    assert Waiting(Flush(s).link.pipe) == Waiting(s.link.pipe);
  }

  lemma TracksRead(cfg: Config, s: State, c: Cursor, r: nat, f: Frame, b: nat, now: nat, contents: string)
    requires InRange(cfg.heavy, c) && Tracks(cfg, s, c, r, f, b)
    requires DelayInv(cfg.delay.trace, s.delay, now)
    ensures Tracks(cfg, ReadPacket(cfg, s, now, contents), c, r, f, b)
  {
    var u := ReadPacket(cfg, s, now, contents);
    assert u.link == s.link && u.written == s.written;
  }

  /** Only the link side matters. */
  lemma SameHeld(cfg: Config, s: State, u: State, r: nat, f: Frame, b: nat, offered: nat)
    requires Held(cfg, s, r, f, b, offered) && u.link == s.link && u.written == s.written && u.dropped == s.dropped
    ensures Held(cfg, u, r, f, b, offered)
  {
  }

  lemma TracksWrite(cfg: Config, s: State, c: Cursor, r: nat, f: Frame, b: nat, clock: nat -> nat)
    requires InRange(cfg.heavy, c) && Tracks(cfg, s, c, r, f, b)
    requires Inv(cfg, s) && s.now <= clock(0) <= clock(1)
    ensures Tracks(cfg, WritePackets(cfg, s, clock), c, r, f, b)
  {
    hide FlowInv, LinkInv, QueueInv, DelayInv, Held, UseMany, Due, MoveDue, Flush;
    var s0 := s.(now := clock(1));
    LaterKeepsInv(cfg, s, clock(1));
    LinkInvTells(cfg, s);
    SameHeld(cfg, s, s0, r, f, b, PACKET_SIZE * Due(cfg.heavy, c, s.linkTime));
    TracksMoveDue(cfg, s0, c, r, f, b, clock(0), clock(1), clock, 2);
    TracksFlush(cfg, MoveDue(cfg, s0, clock(0), clock(1), clock, 2), c, r, f, b);
  }

  lemma TracksWait(cfg: Config, s: State, c: Cursor, r: nat, f: Frame, b: nat, t: nat)
    requires InRange(cfg.heavy, c) && Tracks(cfg, s, c, r, f, b)
    requires Inv(cfg, s) && s.now <= t
    ensures Tracks(cfg, Waited(cfg, s, t), c, r, f, b)
  {
    hide FlowInv, LinkInv, QueueInv, DelayInv, Held, UseMany, Due;
    LaterKeepsInv(cfg, s, t);
    LinkInvTells(cfg, s.(now := t));
    SameHeld(cfg, s, s.(now := t), r, f, b, PACKET_SIZE * Due(cfg.heavy, c, s.linkTime));
    TracksRationalize(cfg, s.(now := t), c, r, f, b, t);
  }

  lemma TracksStep(cfg: Config, s: State, c: Cursor, r: nat, f: Frame, b: nat, e: Event)
    requires InRange(cfg.heavy, c) && Tracks(cfg, s, c, r, f, b)
    requires Inv(cfg, s) && Timely(s, e)
    ensures Tracks(cfg, Step(cfg, s, e), c, r, f, b)
  {
    match e
    case Read(at, contents) => TracksRead(cfg, s, c, r, f, b, at, contents);
    case Write(clock) => TracksWrite(cfg, s, c, r, f, b, clock);
    case Wait(_, t2) => TracksWait(cfg, s, c, r, f, b, t2);
  }

  lemma {:induction false} TracksRun(cfg: Config, s: State, c: Cursor, r: nat, f: Frame, b: nat, es: seq<Event>)
    requires InRange(cfg.heavy, c) && Tracks(cfg, s, c, r, f, b)
    requires Inv(cfg, s) && RunTimely(cfg, s, es)
    ensures Tracks(cfg, Run(cfg, s, es), c, r, f, b)
    decreases |es|
  {
    if es != [] {
      StepKeepsInv(cfg, s, es[0]);
      TracksStep(cfg, s, c, r, f, b, es[0]);
      TracksRun(cfg, Step(cfg, s, es[0]), c, r, f, b, es[1..]);
    }
  }

  lemma TracksFromHere(cfg: Config, s: State, i: nat)
    requires Inv(cfg, s) && i < |Waiting(s.link.pipe)|
    ensures Tracks(cfg, s, s.link.cursor, |Departed(s)| + i, QueuedFrame(Waiting(s.link.pipe)[i]), Ahead(s.link.pipe, i + 1))
    ensures Ahead(s.link.pipe, i + 1) > 0
  {
    AheadIncreasing(s.link.pipe, 0, i + 1);
    assert Due(cfg.heavy, s.link.cursor, s.linkTime) == 0;
    assert |Chain(s)| > 0;
  }

  lemma NobodyWaitsEmpty(cfg: Config, s: State)
    requires Inv(cfg, s)
    ensures NoEmptyPackets(s.link.pipe.queue)
  {
  }

  /** At the end of any run a packet has departed iff its bytes have been offered. */
  lemma DepartsWhenOffered(cfg: Config, s: State, i: nat, es: seq<Event>)
    requires Inv(cfg, s) && RunTimely(cfg, s, es) && !cfg.discipline.DropHead?
    requires i < |Waiting(s.link.pipe)|
    ensures var r := |Departed(s)| + i;
            var e := Run(cfg, s, es);
            && (r < |Departed(e)| <==>
                Ahead(s.link.pipe, i + 1) <= PACKET_SIZE * Due(cfg.heavy, s.link.cursor, e.linkTime))
            && (r < |Departed(e)| ==> Departed(e)[r] == QueuedFrame(Waiting(s.link.pipe)[i]))
  {
    hide FlowInv, QueueInv, DelayInv, PipeInv, Run, RunTimely, UseMany, Due, Departed, Waiting, Ahead;
    var b, r, f := Ahead(s.link.pipe, i + 1), |Departed(s)| + i, QueuedFrame(Waiting(s.link.pipe)[i]);
    var e := Run(cfg, s, es);
    assert Tracks(cfg, e, s.link.cursor, r, f, b) by {
      TracksFromHere(cfg, s, i);
      TracksRun(cfg, s, s.link.cursor, r, f, b, es);
    }
    RunKeepsInv(cfg, s, es);
    NobodyWaitsEmpty(cfg, e);
    if r >= |Departed(e)| {
      AheadIncreasing(e.link.pipe, 0, r - |Departed(e)| + 1);
    }
  }

  /** Exact departure law. Take any packet waiting in the link stage (for one just accepted, the last),
      and let b be the unsent bytes up to its end. Whatever is read, moved, written or polled later, it
      departs with the ceil(b/1400)-th opportunity from now: once the link has been brought up to the
      closed-form time of that opportunity, and not before; and it is the frame in that place. */
  lemma DepartureLaw(cfg: Config, s: State, i: nat, es: seq<Event>)
    requires Inv(cfg, s) && RunTimely(cfg, s, es) && !cfg.discipline.DropHead?
    requires i < |Waiting(s.link.pipe)|
    ensures var j := (Ahead(s.link.pipe, i + 1) + PACKET_SIZE - 1) / PACKET_SIZE - 1;
            var r := |Departed(s)| + i;
            var e := Run(cfg, s, es);
            && j >= 0
            && (r < |Departed(e)| <==>
                Exists(cfg.heavy, s.link.cursor, j) &&
                OpportunityTime(cfg.heavy, s.link.cursor, j) <= e.linkTime)
            && (r < |Departed(e)| ==> Departed(e)[r] == QueuedFrame(Waiting(s.link.pipe)[i]))
  {
    hide FlowInv, QueueInv, DelayInv, PipeInv, Run, RunTimely, UseMany, Due, Departed, Waiting, Ahead, Exists, OpportunityTime;
    DepartsWhenOffered(cfg, s, i, es);
    NobodyWaitsEmpty(cfg, s);
    AheadIncreasing(s.link.pipe, 0, i + 1);
    OfferedBytes(cfg.heavy, s.link.cursor, Run(cfg, s, es).linkTime, Ahead(s.link.pipe, i + 1));
  }

  lemma {:induction false} NumberedOnce(fs: seq<Frame>, f: Frame)
    requires forall i :: 0 <= i < |fs| ==> fs[i].sequenceNumber == i
    ensures multiset(fs)[f] <= 1
  {
    if fs != [] {
      var n := |fs| - 1;
      assert fs == fs[..n] + [fs[n]];
      NumberedOnce(fs[..n], f);
      if f == fs[n] {
        assert f !in fs[..n];
      }
    }
  }

  lemma NeverBoth(cfg: Config, s: State, f: Frame)
    requires Inv(cfg, s)
    ensures !(f in Departed(s) && f in QueuedFrames(s.dropped))
  {
    hide Departed, Waiting, DelayedFrames, LinkInv, QueueInv, DelayInv;
    NumberedOnce(s.accepted, f);
    assert (multiset(Chain(s)) + multiset(QueuedFrames(s.dropped)))[f] <= 1;
    assert f in Departed(s) ==> f in Chain(s);
  }

  /** For every discipline, drop-head too: once the link has been brought up to the ceil(b/1400)-th
      opportunity, a packet that waited with b bytes up to its end has departed or was dropped, not both. */
  lemma DepartsOrIsDropped(cfg: Config, s: State, i: nat, es: seq<Event>)
    requires Inv(cfg, s) && RunTimely(cfg, s, es) && i < |Waiting(s.link.pipe)|
    ensures var j := (Ahead(s.link.pipe, i + 1) + PACKET_SIZE - 1) / PACKET_SIZE - 1;
            var f, e := QueuedFrame(Waiting(s.link.pipe)[i]), Run(cfg, s, es);
            && j >= 0
            && (Exists(cfg.heavy, s.link.cursor, j) && OpportunityTime(cfg.heavy, s.link.cursor, j) <= e.linkTime
                ==> (f in Departed(e)) != (f in QueuedFrames(e.dropped)))
  {
    hide FlowInv, QueueInv, DelayInv, PipeInv, Run, RunTimely, UseMany, Due, Departed, Waiting, Ahead, Exists, OpportunityTime;
    var b, r, f := Ahead(s.link.pipe, i + 1), |Departed(s)| + i, QueuedFrame(Waiting(s.link.pipe)[i]);
    var e := Run(cfg, s, es);
    TracksFromHere(cfg, s, i);
    TracksRun(cfg, s, s.link.cursor, r, f, b, es);
    RunKeepsInv(cfg, s, es);
    NobodyWaitsEmpty(cfg, e);
    NobodyWaitsEmpty(cfg, s);
    NeverBoth(cfg, e, f);
    OfferedBytes(cfg.heavy, s.link.cursor, e.linkTime, b);
    if b <= PACKET_SIZE * Due(cfg.heavy, s.link.cursor, e.linkTime) && WaitsWithin(e.link.pipe, f, 0) {
      var k :| 0 <= k < |Waiting(e.link.pipe)| && QueuedFrame(Waiting(e.link.pipe)[k]) == f && Ahead(e.link.pipe, k + 1) <= 0;
      AheadIncreasing(e.link.pipe, 0, k + 1);
    }
  }

  // ---------- Waking up ----------

  lemma NarrowingOnlyShortens(x: nat)
    ensures x % TWO32 <= x && ToInt32(x) <= x
    ensures x < TWO31 ==> x % TWO32 == x == ToInt32(x)
  {
  }

  /** No missed wakeup: until `wait_time` has passed, counted from its first clock reading, no packet of
      the delay stage becomes due and the link does not move; in spite of the narrowing conversions. */
  lemma NoMissedWakeup(cfg: Config, s: State, t1: nat, t2: nat, t: nat)
    requires Inv(cfg, s) && s.now <= t1 <= t2
    requires t1 <= t < t1 + WaitTime(cfg, s, t1, t2)
    ensures var r := Waited(cfg, s, t2);
            && (forall p :: p in r.delayQueue ==> p.releaseTime > t)
            && Rationalized(cfg.heavy, r.link, t) == r.link
  {
    hide FlowInv;
    var r := Waited(cfg, s, t2);
    RationalizeSettles(cfg, s.(now := t2), t2);
    if s.delayQueue != [] {
      var top := s.delayQueue[TopIndex(s.delayQueue)];
      if top.releaseTime > t1 {
        NarrowingOnlyShortens(top.releaseTime - t1);
      }
      forall p | p in r.delayQueue
        ensures p.releaseTime > t
      {
        var j :| 0 <= j < |s.delayQueue| && s.delayQueue[j] == p;
        assert !Before(s.delayQueue[j], top);
      }
    }
    if !r.link.cursor.finished {
      NarrowingOnlyShortens(NextTime(cfg.heavy, r.link.cursor) - t2);
    }
  }

  lemma LowIsMod(x: nat)
    ensures Low32(x) == x % TWO32 && (x < TWO32 ==> Low32(x) == x)
  {
    if x < TWO32 {
      DivModUnique(x, TWO32, 0, x);
    }
  }

  /** What the link asks for is the time to its next opportunity modulo 2^32, and nothing when that is 2^31
      or more. While the link is not finished this is the true gap exactly when the gap is below 2^31. */
  lemma WaitLinkExactly(cfg: Config, s: State, t: nat)
    requires Inv(cfg, s) && s.now <= t && !Waited(cfg, s, t).link.cursor.finished
    ensures var r := Waited(cfg, s, t);
            var gap := NextTime(cfg.heavy, r.link.cursor) - t;
            && gap > 0
            && WaitLink(cfg, r, t) == (if Low32(gap) < TWO31 then Low32(gap) else 0)
            && (WaitLink(cfg, r, t) == gap <==> gap < TWO31)
  {
    hide FlowInv, QueueInv, DelayInv;
    RationalizeSettles(cfg, s.(now := t), t);
    NarrowingOnlyShortens(NextTime(cfg.heavy, Waited(cfg, s, t).link.cursor) - t);
  }

  /** The delay stage asks for the time to its first release modulo 2^32, so for the true time exactly when
      that is below 2^32; and for 65535 ms when it is empty. */
  lemma WaitDelayExactly(s: State, t: nat)
    requires QueueInv(s)
    ensures s.delayQueue == [] ==> WaitDelay(s, t) == 65535
    ensures s.delayQueue != [] ==>
              var gap := Max(0, s.delayQueue[0].releaseTime - t);
              WaitDelay(s, t) == Low32(gap) && (WaitDelay(s, t) == gap <==> gap < TWO32)
  {
    if s.delayQueue != [] {
      TopIsFirst(s.delayQueue);
      var gap := Max(0, s.delayQueue[0].releaseTime - t);
      NarrowingOnlyShortens(gap);
      if gap < TWO32 {
        DivModUnique(gap, TWO32, 0, gap);
      }
    }
  }

  /** The whole wait in numbers, with the clock read at t1 and at t2: the smaller of the time to the first
      release modulo 2^32 (65535 ms without a packet) and the time to the next opportunity modulo 2^32, where 2^31
      or more counts as 0. So the sleep is not merely safe: with the first release less than 2^32 ms and the next
      opportunity less than 2^31 ms away it ends exactly at the earlier of the two. */
  lemma WaitIsExact(cfg: Config, s: State, t1: nat, t2: nat)
    requires Inv(cfg, s) && s.now <= t1 <= t2
    requires !Waited(cfg, s, t2).link.cursor.finished
    ensures var gap := NextTime(cfg.heavy, Waited(cfg, s, t2).link.cursor) - t2;
            var first := if s.delayQueue == [] then 65535 else Max(0, s.delayQueue[0].releaseTime - t1);
            && gap > 0
            && WaitTime(cfg, s, t1, t2) == Min(Low32(first), if Low32(gap) < TWO31 then Low32(gap) else 0)
            && (first < TWO32 && gap < TWO31 ==> WaitTime(cfg, s, t1, t2) == Min(first, gap))
  {
    hide FlowInv, LinkInv, QueueInv, DelayInv, WaitLink, Waited, NextTime;
    WaitLinkExactly(cfg, s, t2);
    WaitDelayExactly(s, t1);
    LowIsMod(65535);
  }

  lemma NarrowedSentinel(t: nat)
    ensures ToInt32(TWO64 - 1 - t) == if t % TWO32 < TWO31 then -1 - t % TWO32 else TWO32 - 1 - t % TWO32
  {
    var m := t % TWO32;
    assert t == t / TWO32 * TWO32 + m;
    DivModUnique(TWO64 - 1 - t, TWO32, TWO32 - 1 - t / TWO32, TWO32 - 1 - m);
  }

  /** Once the schedule is used up the sentinel is narrowed too: while the clock modulo 2^32 is below 2^31
      every wait is 0, and for the other half of the time the link asks for what is left of it. */
  lemma FinishedWait(cfg: Config, s: State, t1: nat, t2: nat)
    requires Inv(cfg, s) && Waited(cfg, s, t2).link.cursor.finished
    ensures WaitLink(cfg, Waited(cfg, s, t2), t2) == if t2 % TWO32 < TWO31 then 0 else TWO32 - 1 - t2 % TWO32
    ensures t2 % TWO32 < TWO31 ==> WaitTime(cfg, s, t1, t2) == 0
    ensures s.delayQueue == [] && t2 % TWO32 >= TWO31 ==> WaitTime(cfg, s, t1, t2) == Min(0xFFFF, TWO32 - 1 - t2 % TWO32)
  {
    hide FlowInv, LinkInv, QueueInv, DelayInv, Waited, NextTime, ToInt32;
    NarrowedSentinel(t2);
  }

  /** A second poll finds exactly what a single later poll would have found. */
  lemma ExtraPollInvisible(cfg: Config, s: State, t: nat, u: nat)
    requires Inv(cfg, s) && s.now <= t <= u
    ensures Waited(cfg, Waited(cfg, s, t), u) == Waited(cfg, s, u)
  {
    PollingInvisible(cfg.heavy, s.link, t, u);
  }
}
