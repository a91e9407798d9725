/** What holds between any two calls of the event loop, and why each call keeps it. */
module EmulatorInvariants {
  import opened Arithmetic
  import opened Packets
  import opened HeavySchedule
  import opened LinkStage
  import opened PacketQueues
  import opened DelayStage
  import opened Emulator

  // ---------- Invariants ----------

  function Delivered(w: seq<Delivery>): (r: seq<Frame>)
    ensures |r| == |w|
    ensures forall i :: 0 <= i < |w| ==> r[i] == w[i].frame
  {
    seq(|w|, i requires 0 <= i < |w| => w[i].frame)
  }

  /** Frames that have left the link: written, or in the output queue. */
  function Departed(s: State): seq<Frame>
  {
    Delivered(s.written) + QueuedFrames(s.link.pipe.output)
  }

  /** Frames that have entered the link side, in order. */
  function LinkFrames(s: State): seq<Frame>
  {
    Departed(s) + QueuedFrames(Waiting(s.link.pipe))
  }

  /** Everything still known, from the first frame out to the last frame in. */
  function Chain(s: State): seq<Frame>
  {
    LinkFrames(s) + DelayedFrames(s.delayQueue)
  }

  predicate Increasing(fs: seq<Frame>)
  {
    forall i, j :: 0 <= i < j < |fs| ==> fs[i].sequenceNumber < fs[j].sequenceNumber
  }

  /** Order and conservation. */
  ghost predicate FlowInv(cfg: Config, s: State)
  {
    && |s.accepted| == s.counter
    && (forall i :: 0 <= i < |s.accepted| ==> s.accepted[i].sequenceNumber == i)
    && Increasing(Chain(s))
    && (forall f :: f in Chain(s) ==> f.sequenceNumber < s.counter)
    && multiset(Chain(s)) + multiset(QueuedFrames(s.dropped)) == multiset(s.accepted)
    && (cfg.discipline.Infinite? ==> s.dropped == [] && Chain(s) == s.accepted)
    && (!s.delay.startTick ==> Chain(s) == [])
  }

  predicate Settled(cfg: Config, s: State)
    requires InRange(cfg.heavy, s.link.cursor)
  {
    s.link.cursor.finished || NextTime(cfg.heavy, s.link.cursor) > s.linkTime
  }

  /** The link stage: the size counter, and nobody waits for an opportunity already past. */
  ghost predicate LinkInv(cfg: Config, s: State)
  {
    && InRange(cfg.heavy, s.link.cursor)
    && PipeInv(s.link.pipe)
    && Fits(LimitsOf(cfg.discipline), s.link.pipe.queue)
    && s.linkSize == |s.link.pipe.output| + |Waiting(s.link.pipe)| + |s.dropped|
    && s.linkTime <= s.now
    && (Waiting(s.link.pipe) != [] ==> Settled(cfg, s))
    && ArrivedBy(Waiting(s.link.pipe), s.linkTime)
  }

  predicate PacketSizes(q: seq<DelayQueuePacket>)
  {
    forall i :: 0 <= i < |q| ==> AcceptableSize(q[i].contents)
  }

  predicate QueueInv(s: State)
  {
    && InPopOrder(s.delayQueue)
    && (forall i :: 0 <= i < |s.delayQueue| ==>
          s.delayQueue[i].releaseTime <= s.delay.endRelease)
    && PacketSizes(s.delayQueue)
  }

  ghost predicate Inv(cfg: Config, s: State)
  {
    FlowInv(cfg, s) && LinkInv(cfg, s) && QueueInv(s) && DelayInv(cfg.delay.trace, s.delay, s.now)
  }

  lemma InitInv(cfg: Config, t: nat)
    ensures Inv(cfg, Init(t))
  {
    hide FlowInv, LinkInv;
    InitFlow(cfg, t);
    InitLink(cfg, t);
  }

  lemma InitLink(cfg: Config, t: nat)
    ensures LinkInv(cfg, Init(t))
  {
    hide Waiting;
    NothingWaits(Init(t).link.pipe);
  }

  lemma InitFlow(cfg: Config, t: nat)
    ensures FlowInv(cfg, Init(t))
  {
    NothingWaits(Init(t).link.pipe);
    assert QueuedFrames([]) == [] && Delivered([]) == [] && DelayedFrames([]) == [];
    hide QueuedFrames, Delivered, DelayedFrames, Waiting;
    assert Chain(Init(t)) == [];
  }

  // ---------- Each operation keeps the invariants ----------

  /** Taking a block out of an increasing chain leaves it increasing, and loses just that block. */
  lemma RemoveBlock(a: seq<Frame>, x: seq<Frame>, b: seq<Frame>)
    requires Increasing(a + x + b)
    ensures Increasing(a + b)
    ensures multiset(a + b) + multiset(x) == multiset(a + x + b)
  {
    var all, kept := a + x + b, a + b;
    forall i, j | 0 <= i < j < |kept|
      ensures kept[i].sequenceNumber < kept[j].sequenceNumber
    {
      var i' := if i < |a| then i else i + |x|;
      var j' := if j < |a| then j else j + |x|;
      assert kept[i] == all[i'] && kept[j] == all[j'];
    }
  }

  lemma QueuedFramesConcat(a: seq<QueuedPacket>, b: seq<QueuedPacket>)
    ensures QueuedFrames(a + b) == QueuedFrames(a) + QueuedFrames(b)
  {
  }

  /** Service moves frames from waiting to output and loses none. */
  lemma FluidKeepsFrames(p: Pipe, b: nat, r: Pipe)
    requires Fluid(p, b, r)
    ensures QueuedFrames(r.output) + QueuedFrames(Waiting(r)) == QueuedFrames(p.output) + QueuedFrames(Waiting(p))
    ensures QueuedFrames(p.output) <= QueuedFrames(r.output)
    ensures |r.output| + |Waiting(r)| == |p.output| + |Waiting(p)|
  {
    hide QueuedFrames;
    var m := |r.output| - |p.output|;
    assert Waiting(p) == Waiting(p)[..m] + Waiting(r);
    QueuedFramesConcat(p.output, Waiting(p)[..m]);
    QueuedFramesConcat(Waiting(p)[..m], Waiting(r));
  }

  /** The link side is the same frames before and after service; only the border moves. */
  lemma ServedKeepsLinkFrames(s: State, b: nat, u: State)
    requires u == s.(link := u.link, linkTime := u.linkTime) && Fluid(s.link.pipe, b, u.link.pipe)
    ensures LinkFrames(u) == LinkFrames(s)
    ensures |Departed(u)| == |Departed(s)| + (|u.link.pipe.output| - |s.link.pipe.output|) >= |Departed(s)|
  {
    var p, q := s.link.pipe, u.link.pipe;
    FluidKeepsFrames(p, b, q);
    assert |p.output| <= |q.output|;
    hide Fluid, Waiting, QueuedFrames, Delivered;
    Regroup(Delivered(s.written), QueuedFrames(p.output), QueuedFrames(Waiting(p)));
    Regroup(Delivered(s.written), QueuedFrames(q.output), QueuedFrames(Waiting(q)));
  }

  lemma RationalizeKeepsChain(cfg: Config, s: State, t: nat)
    requires InRange(cfg.heavy, s.link.cursor) && NoEmptyPackets(s.link.pipe.queue)
    ensures Chain(Rationalize(cfg, s, t)) == Chain(s)
  {
    var u := Rationalize(cfg, s, t);
    var k := Due(cfg.heavy, s.link.cursor, t);
    assert u == s.(link := u.link, linkTime := u.linkTime) && u.link == Rationalized(cfg.heavy, s.link, t);
    hide Rationalize, Rationalized, LinkFrames, Fluid, NoEmptyPackets, QueuedFrames, DelayedFrames;
    RationalizeIsFluid(cfg.heavy, s.link, t);
    ServedKeepsLinkFrames(s, PACKET_SIZE * k, u);
  }

  lemma {:induction false} DrainKeepsPipeInv(p: Pipe, b: nat)
    requires PipeInv(p)
    ensures PipeInv(Drain(p, b))
    ensures exists k :: 0 <= k <= |p.queue| && Drain(p, b).queue == p.queue[k..]
    decreases b, |p.queue|
  {
    if b == 0 {
      assert p.queue[0..] == p.queue;
    } else if p.left == 0 {
      if p.queue == [] {
        assert p.queue[0..] == p.queue;
      } else {
        DrainKeepsPipeInv(Load(p), b);
        var k :| 0 <= k <= |Load(p).queue| && Drain(Load(p), b).queue == Load(p).queue[k..];
        assert Load(p).queue[k..] == p.queue[k + 1..];
      }
    } else {
      DrainKeepsPipeInv(Send(p, Min(b, p.left)), b - Min(b, p.left));
    }
  }

  lemma SuffixFits(l: Limits, q: seq<QueuedPacket>, k: nat)
    requires k <= |q| && Fits(l, q)
    ensures Fits(l, q[k..])
  {
    assert q == q[..k] + q[k..];
    TotalBytesConcat(q[..k], q[k..]);
  }

  lemma RationalizeSettles(cfg: Config, s: State, t: nat)
    requires InRange(cfg.heavy, s.link.cursor)
    ensures Settled(cfg, Rationalize(cfg, s, t))
  {
    DueUsed(cfg.heavy, s.link.cursor, t);
  }

  lemma RationalizeKeepsPipe(cfg: Config, s: State, t: nat)
    requires LinkInv(cfg, s)
    ensures var r := Rationalize(cfg, s, t).link.pipe;
            PipeInv(r) && Fits(LimitsOf(cfg.discipline), r.queue)
  {
    var k := PACKET_SIZE * Due(cfg.heavy, s.link.cursor, t);
    DrainKeepsPipeInv(s.link.pipe, k);
    var j :| 0 <= j <= |s.link.pipe.queue| && Drain(s.link.pipe, k).queue == s.link.pipe.queue[j..];
    SuffixFits(LimitsOf(cfg.discipline), s.link.pipe.queue, j);
  }

  lemma FluidKeepsArrived(p: Pipe, b: nat, r: Pipe, t: nat)
    requires Fluid(p, b, r) && ArrivedBy(Waiting(p), t)
    ensures ArrivedBy(Waiting(r), t)
    ensures |r.output| + |Waiting(r)| == |p.output| + |Waiting(p)|
  {
    hide Waiting, Backlog, Ahead;
    assert forall q :: q in Waiting(r) ==> q in Waiting(p);
  }

  /** Service keeps the link invariant once the link is settled at the new time. */
  lemma ServedKeepsLinkInv(cfg: Config, s: State, b: nat, r: State)
    requires LinkInv(cfg, s) && r == s.(link := r.link, linkTime := r.linkTime)
    requires InRange(cfg.heavy, r.link.cursor) && Fluid(s.link.pipe, b, r.link.pipe)
    requires PipeInv(r.link.pipe) && Fits(LimitsOf(cfg.discipline), r.link.pipe.queue)
    requires Settled(cfg, r) && s.linkTime <= r.linkTime <= s.now
    ensures LinkInv(cfg, r)
  {
    hide PipeInv, Fits, Fluid, Waiting, Settled;
    FluidKeepsArrived(s.link.pipe, b, r.link.pipe, s.linkTime);
  }

  lemma RationalizeKeepsInv(cfg: Config, s: State, t: nat)
    requires LinkInv(cfg, s) && s.linkTime <= t <= s.now
    ensures LinkInv(cfg, Rationalize(cfg, s, t)) && Settled(cfg, Rationalize(cfg, s, t))
  {
    RationalizeKeepsPipe(cfg, s, t);
    RationalizeSettles(cfg, s, t);
    RationalizeIsFluid(cfg.heavy, s.link, t);
    ServedKeepsLinkInv(cfg, s, PACKET_SIZE * Due(cfg.heavy, s.link.cursor, t), Rationalize(cfg, s, t));
  }

  // ---------- Entering the link ----------

  /** The state after a packet is handed to the queue of an up-to-date link. */
  function Handed(cfg: Config, u: State, p: QueuedPacket, rest: seq<DelayQueuePacket>): State
  {
    var q := u.link.pipe.queue;
    u.(link := u.link.(pipe := u.link.pipe.(queue := Enqueued(cfg.discipline, q, p))),
       linkSize := u.linkSize + 1,
       dropped := u.dropped + Lost(cfg.discipline, q, p),
       delayQueue := rest)
  }

  lemma CutFrames(w: seq<QueuedPacket>, qp: QueuedPacket, x: seq<QueuedPacket>, lost: seq<QueuedPacket>, y: seq<QueuedPacket>)
    requires w + [qp] == x + lost + y
    ensures QueuedFrames(w) + [QueuedFrame(qp)] == QueuedFrames(x) + QueuedFrames(lost) + QueuedFrames(y)
    ensures QueuedFrames(x + y) == QueuedFrames(x) + QueuedFrames(y)
  {
    QueuedFramesConcat(w, [qp]);
    QueuedFramesConcat(x + lost, y);
    QueuedFramesConcat(x, lost);
    QueuedFramesConcat(x, y);
  }

  lemma EnqueueCutsWaiting(d: Discipline, p: Pipe, qp: QueuedPacket) returns (before: seq<QueuedPacket>, after: seq<QueuedPacket>)
    ensures Waiting(p) + [qp] == before + Lost(d, p.queue, qp) + after
    ensures Waiting(p.(queue := Enqueued(d, p.queue, qp))) == before + after
  {
    hide Enqueued, Lost;
    var half := if p.left > 0 then [p.inTransit] else [];
    before, after := EnqueueCuts(d, p.queue, qp);
    var lost := Lost(d, p.queue, qp);
    Regroup(half, p.queue, [qp]);
    Regroup(half, before + lost, after);
    Regroup(half, before, lost);
    Regroup(half, before, after);
    before := half + before;
  }

  /** In frames: the waiting packets and the new one are cut in three, and the middle is lost. */
  lemma EnqueueFrames(d: Discipline, p: Pipe, qp: QueuedPacket) returns (a: seq<Frame>, b: seq<Frame>)
    ensures QueuedFrames(Waiting(p)) + [QueuedFrame(qp)] == a + QueuedFrames(Lost(d, p.queue, qp)) + b
    ensures QueuedFrames(Waiting(p.(queue := Enqueued(d, p.queue, qp)))) == a + b
  {
    hide *;
    var before, after := EnqueueCutsWaiting(d, p, qp);
    CutFrames(Waiting(p), qp, before, Lost(d, p.queue, qp), after);
    a, b := QueuedFrames(before), QueuedFrames(after);
  }

  /** A frame chain d + w + [f] + t whose middle is cut in three. */
  lemma CutChain(d: seq<Frame>, w: seq<Frame>, f: Frame, t: seq<Frame>, a: seq<Frame>, x: seq<Frame>, b: seq<Frame>)
    requires w + [f] == a + x + b && Increasing(d + w + ([f] + t))
    ensures Increasing(d + (a + b) + t)
    ensures multiset(d + (a + b) + t) + multiset(x) == multiset(d + w + ([f] + t))
    ensures x == [] ==> d + (a + b) + t == d + w + ([f] + t)
  {
    assert d + w + ([f] + t) == d + (w + [f]) + t;
    assert d + (a + x + b) + t == (d + a) + x + (b + t);
    assert d + (a + b) + t == (d + a) + (b + t);
    RemoveBlock(d + a, x, b + t);
    if x == [] {
      assert a + x + b == a + b;
    }
  }

  /** Handing a packet over, seen on the chain. */
  lemma HandedFrames(cfg: Config, u: State, p: QueuedPacket, head: DelayQueuePacket, rest: seq<DelayQueuePacket>)
    returns (a: seq<Frame>, b: seq<Frame>)
    requires u.delayQueue == [head] + rest && QueuedFrame(p) == DelayedFrame(head)
    ensures QueuedFrames(Waiting(u.link.pipe)) + [QueuedFrame(p)]
            == a + QueuedFrames(Lost(cfg.discipline, u.link.pipe.queue, p)) + b
    ensures Chain(u) == Departed(u) + QueuedFrames(Waiting(u.link.pipe)) + ([QueuedFrame(p)] + DelayedFrames(rest))
    ensures Chain(Handed(cfg, u, p, rest)) == Departed(u) + (a + b) + DelayedFrames(rest)
  {
    hide Enqueued, Lost, QueuedFrames, Delivered, DelayedFrames, Waiting;
    a, b := EnqueueFrames(cfg.discipline, u.link.pipe, p);
    DelayedFramesCons(head, rest);
  }

  lemma HandedKeepsChain(cfg: Config, u: State, p: QueuedPacket, head: DelayQueuePacket, rest: seq<DelayQueuePacket>)
    requires Increasing(Chain(u)) && u.delayQueue == [head] + rest && QueuedFrame(p) == DelayedFrame(head)
    ensures var r := Handed(cfg, u, p, rest);
            && Increasing(Chain(r))
            && multiset(Chain(r)) + multiset(QueuedFrames(r.dropped))
               == multiset(Chain(u)) + multiset(QueuedFrames(u.dropped))
            && (cfg.discipline.Infinite? ==> Chain(r) == Chain(u) && r.dropped == u.dropped)
  {
    var a, b := HandedFrames(cfg, u, p, head, rest);
    var lost := Lost(cfg.discipline, u.link.pipe.queue, p);
    QueuedFramesConcat(u.dropped, lost);
    CutChain(Departed(u), QueuedFrames(Waiting(u.link.pipe)), QueuedFrame(p), DelayedFrames(rest),
             a, QueuedFrames(lost), b);
  }

  lemma EnqueueKeepsPipe(d: Discipline, p: Pipe, qp: QueuedPacket, t: nat)
    requires PipeInv(p) && Fits(LimitsOf(d), p.queue) && ArrivedBy(Waiting(p), t)
    requires 0 < |qp.contents| <= PACKET_SIZE && qp.arrivalTime <= t
    ensures var r := p.(queue := Enqueued(d, p.queue, qp));
            && PipeInv(r) && Fits(LimitsOf(d), r.queue) && ArrivedBy(Waiting(r), t)
            && |Waiting(r)| + |Lost(d, p.queue, qp)| == |Waiting(p)| + 1
  {
    var before, after := EnqueueCuts(d, p.queue, qp);
    hide Enqueued, Lost, Fits;
    var kept := before + after;
    forall k | k in kept
      ensures k in p.queue || k == qp
    {
      assert k in p.queue + [qp];
    }
    assert forall i :: 0 <= i < |kept| ==> kept[i] in kept;
  }

  lemma HandedKeepsLinkInv(cfg: Config, u: State, p: QueuedPacket, rest: seq<DelayQueuePacket>)
    requires LinkInv(cfg, u) && Settled(cfg, u)
    requires 0 < |p.contents| <= PACKET_SIZE && p.arrivalTime <= u.linkTime
    ensures LinkInv(cfg, Handed(cfg, u, p, rest))
  {
    hide PipeInv, Fits, Waiting, ArrivedBy, Enqueued, Lost;
    EnqueueKeepsPipe(cfg.discipline, u.link.pipe, p, u.linkTime);
  }

  /** Handing over in one step is `put_packet_to_link_queue`. */
  lemma PutIsHanded(cfg: Config, s: State, now: nat, p: DelayQueuePacket, rest: seq<DelayQueuePacket>)
    requires InRange(cfg.heavy, s.link.cursor) && s.delayQueue == [p] + rest
    ensures PutPacket(cfg, s.(delayQueue := rest), now, p) == Handed(cfg, Rationalize(cfg, s, now), ToQueued(p, now), rest)
  {
  }

  // ---------- Leaving the delay stage ----------

  /** The packet taken out is the first one, so it is the oldest. */
  lemma MoveOneTakesFirst(cfg: Config, s: State, now: nat)
    requires InRange(cfg.heavy, s.link.cursor) && s.delayQueue != [] && InPopOrder(s.delayQueue)
    ensures var p, rest := s.delayQueue[0], s.delayQueue[1..];
            MoveOne(cfg, s, now) ==
            if p.isBypassLinkQueue && s.linkSize == 0
            then s.(delayQueue := rest, written := s.written + [Delivery(DelayedFrame(p), true)])
            else Handed(cfg, Rationalize(cfg, s, now), ToQueued(p, now), rest)
  {
    hide Rationalize, Handed, PutPacket;
    TopIsFirst(s.delayQueue);
    assert s.delayQueue[..0] + s.delayQueue[1..] == s.delayQueue[1..];
    assert s.delayQueue == [s.delayQueue[0]] + s.delayQueue[1..];
    PutIsHanded(cfg, s, now, s.delayQueue[0], s.delayQueue[1..]);
  }

  lemma LinkInvTells(cfg: Config, s: State)
    requires LinkInv(cfg, s)
    ensures InRange(cfg.heavy, s.link.cursor) && PipeInv(s.link.pipe) && s.linkTime <= s.now
    ensures var idle := Waiting(s.link.pipe) == [];
            && (idle || s.link.cursor.finished || NextTime(cfg.heavy, s.link.cursor) > s.linkTime)
            && ArrivedBy(Waiting(s.link.pipe), if idle then 0 else s.linkTime)
  {
  }

  lemma InvTells(cfg: Config, s: State)
    requires Inv(cfg, s)
    ensures WellFormed(cfg, s) && LinkInv(cfg, s)
  {
  }

  lemma LinkInvIgnoresDelay(cfg: Config, s: State, q: seq<DelayQueuePacket>)
    requires LinkInv(cfg, s)
    ensures LinkInv(cfg, s.(delayQueue := q))
  {
  }

  /** Nothing in the output is missing from the counter. */
  lemma OutputCounted(cfg: Config, s: State)
    requires LinkInv(cfg, s)
    ensures |s.link.pipe.output| <= s.linkSize
  {
  }

  /** The test for the bypass: the counter is 0 iff nothing is in the output, nothing half sent, nothing
      queued, and nothing was ever dropped. */
  lemma EmptyLink(cfg: Config, s: State)
    requires LinkInv(cfg, s)
    ensures s.linkSize == 0 <==> s.link.pipe.output == [] && Waiting(s.link.pipe) == [] && s.dropped == []
  {
  }

  lemma EmptyLinkFrames(s: State)
    requires s.link.pipe.output == [] && Waiting(s.link.pipe) == []
    ensures Departed(s) == LinkFrames(s) == Delivered(s.written)
  {
    assert QueuedFrames([]) == [];
  }

  lemma DeliveredSnoc(w: seq<Delivery>, d: Delivery)
    ensures Delivered(w + [d]) == Delivered(w) + [d.frame]
  {
  }

  lemma DelayedFramesCons(p: DelayQueuePacket, rest: seq<DelayQueuePacket>)
    ensures DelayedFrames([p] + rest) == [DelayedFrame(p)] + DelayedFrames(rest)
  {
  }

  lemma LinkDeliveriesCons(p: QueuedPacket, rest: seq<QueuedPacket>)
    ensures LinkDeliveries([p] + rest) == [Delivery(QueuedFrame(p), false)] + LinkDeliveries(rest)
    ensures LinkDeliveries([]) == []
  {
  }

  /** A bypass happens only with an empty link stage, so it keeps the order. */
  lemma BypassKeepsChain(cfg: Config, s: State)
    requires LinkInv(cfg, s) && s.linkSize == 0 && s.delayQueue != []
    ensures var p := s.delayQueue[0];
            var r := s.(delayQueue := s.delayQueue[1..], written := s.written + [Delivery(DelayedFrame(p), true)]);
            Chain(r) == Chain(s) && Departed(r) == Departed(s) + [DelayedFrame(p)]
  {
    hide LinkInv, Waiting, QueuedFrames, Departed, LinkFrames, Delivered, DelayedFrames;
    var p, rest := s.delayQueue[0], s.delayQueue[1..];
    var r := s.(delayQueue := rest, written := s.written + [Delivery(DelayedFrame(p), true)]);
    EmptyLink(cfg, s);
    EmptyLinkFrames(s);
    EmptyLinkFrames(r);
    DeliveredSnoc(s.written, Delivery(DelayedFrame(p), true));
    assert s.delayQueue == [p] + rest;
    DelayedFramesCons(p, rest);
    Regroup(Delivered(s.written), [DelayedFrame(p)], DelayedFrames(rest));
  }

  /** Losing frames to the dropped ones, and nothing else, keeps order and conservation. */
  lemma LossKeepsFlow(cfg: Config, s: State, r: State)
    requires FlowInv(cfg, s) && r.counter == s.counter && r.accepted == s.accepted && r.delay == s.delay
    requires Increasing(Chain(r))
    requires multiset(Chain(r)) + multiset(QueuedFrames(r.dropped))
             == multiset(Chain(s)) + multiset(QueuedFrames(s.dropped))
    requires cfg.discipline.Infinite? ==> Chain(r) == Chain(s) && r.dropped == s.dropped
    requires Chain(s) != []
    ensures FlowInv(cfg, r)
  {
    forall f | f in Chain(r)
      ensures f.sequenceNumber < r.counter
    {
      assert f in multiset(Chain(r)) + multiset(QueuedFrames(r.dropped));
      assert f in multiset(s.accepted);
    }
  }

  lemma HandedKeepsFlow(cfg: Config, s: State, u: State, p: QueuedPacket, head: DelayQueuePacket, rest: seq<DelayQueuePacket>)
    requires FlowInv(cfg, s) && Chain(u) == Chain(s)
    requires u == s.(link := u.link, linkTime := u.linkTime)
    requires s.delayQueue == [head] + rest && QueuedFrame(p) == DelayedFrame(head)
    ensures FlowInv(cfg, Handed(cfg, u, p, rest))
  {
    HandedKeepsChain(cfg, u, p, head, rest);
    assert |Chain(s)| > 0;
    LossKeepsFlow(cfg, s, Handed(cfg, u, p, rest));
  }

  lemma HandedKeepsInv(cfg: Config, s: State, u: State, p: QueuedPacket, head: DelayQueuePacket, rest: seq<DelayQueuePacket>)
    requires Inv(cfg, s) && LinkInv(cfg, u) && Settled(cfg, u) && Chain(u) == Chain(s)
    requires u == s.(link := u.link, linkTime := u.linkTime)
    requires s.delayQueue == [head] + rest && p == ToQueued(head, u.linkTime)
    ensures Inv(cfg, Handed(cfg, u, p, rest))
  {
    hide FlowInv, LinkInv, DelayInv, Chain, Settled, Enqueued, Lost;
    assert s.delayQueue[0] == head && s.delayQueue[1..] == rest;
    HandedKeepsFlow(cfg, s, u, p, head, rest);
    HandedKeepsLinkInv(cfg, u, p, rest);
  }

  lemma PutKeepsInv(cfg: Config, s: State, now: nat)
    requires Inv(cfg, s) && s.delayQueue != [] && s.linkTime <= now <= s.now
    ensures var p, rest := s.delayQueue[0], s.delayQueue[1..];
            Inv(cfg, Handed(cfg, Rationalize(cfg, s, now), ToQueued(p, now), rest))
  {
    hide FlowInv, DelayInv, QueueInv, Chain, Handed, Rationalized, ArrivedBy, Fits, NoEmptyPackets, Waiting;
    RationalizeKeepsInv(cfg, s, now);
    RationalizeKeepsChain(cfg, s, now);
    var p, rest := s.delayQueue[0], s.delayQueue[1..];
    assert s.delayQueue == [p] + rest;
    HandedKeepsInv(cfg, s, Rationalize(cfg, s, now), ToQueued(p, now), p, rest);
  }

  lemma BypassKeepsInv(cfg: Config, s: State)
    requires Inv(cfg, s) && s.linkSize == 0 && s.delayQueue != []
    ensures var p := s.delayQueue[0];
            Inv(cfg, s.(delayQueue := s.delayQueue[1..], written := s.written + [Delivery(DelayedFrame(p), true)]))
  {
    BypassKeepsChain(cfg, s);
    EmptyLink(cfg, s);
  }

  lemma MoveOneKeepsInv(cfg: Config, s: State, now: nat)
    requires Inv(cfg, s) && s.delayQueue != [] && s.linkTime <= now <= s.now
    ensures Inv(cfg, MoveOne(cfg, s, now))
    ensures MoveOne(cfg, s, now).linkTime <= now && MoveOne(cfg, s, now).now == s.now
  {
    MoveOneTakesFirst(cfg, s, now);
    if s.delayQueue[0].isBypassLinkQueue && s.linkSize == 0 {
      BypassKeepsInv(cfg, s);
    } else {
      PutKeepsInv(cfg, s, now);
    }
  }

  lemma PutSetsTime(cfg: Config, s: State, now: nat, p: DelayQueuePacket)
    requires InRange(cfg.heavy, s.link.cursor)
    ensures PutPacket(cfg, s, now, p).linkTime == now
  {
  }

  /** One turn of the moving loop. */
  lemma {:induction false} MoveDueUnfolds(cfg: Config, s: State, t: nat, now: nat, clock: nat -> nat, i: nat)
    requires InRange(cfg.heavy, s.link.cursor)
    ensures MoveDue(cfg, s, t, now, clock, i) ==
            if !Ready(s, t) then s
            else
              var j := TopIndex(s.delayQueue);
              MoveDue(cfg, Route(cfg, s.(delayQueue := s.delayQueue[..j] + s.delayQueue[j + 1..]), now, s.delayQueue[j]),
                      clock(i), now, clock, i + 1)
  {
    hide Route;
  }

  lemma {:induction false} MoveDueKeepsInv(cfg: Config, s: State, t: nat, now: nat, clock: nat -> nat, i: nat)
    requires Inv(cfg, s) && s.linkTime <= now <= s.now
    ensures Inv(cfg, MoveDue(cfg, s, t, now, clock, i))
    decreases |s.delayQueue|
  {
    if Ready(s, t) {
      MoveOneKeepsInv(cfg, s, now);
      MoveDueKeepsInv(cfg, MoveOne(cfg, s, now), clock(i), now, clock, i + 1);
    }
  }

  // ---------- The calls of the event loop ----------

  lemma FlushKeepsChain(s: State)
    ensures Chain(Flush(s)) == Chain(s) && Departed(Flush(s)) == Departed(s)
  {
    var out := s.link.pipe.output;
    assert Delivered(s.written + LinkDeliveries(out)) == Delivered(s.written) + QueuedFrames(out);
    assert Waiting(Flush(s).link.pipe) == Waiting(s.link.pipe);
    assert QueuedFrames([]) == [];
  }

  lemma FlushKeepsFlow(cfg: Config, s: State)
    requires FlowInv(cfg, s)
    ensures FlowInv(cfg, Flush(s))
  {
    FlushKeepsChain(s);
    hide Chain, QueuedFrames, LinkDeliveries;
  }

  lemma FlushKeepsLink(cfg: Config, s: State)
    requires LinkInv(cfg, s)
    ensures LinkInv(cfg, Flush(s))
  {
    hide LinkDeliveries;
    assert Waiting(Flush(s).link.pipe) == Waiting(s.link.pipe);
  }

  lemma FlushKeepsInv(cfg: Config, s: State)
    requires Inv(cfg, s)
    ensures Inv(cfg, Flush(s))
  {
    hide FlowInv, LinkInv, DelayInv, LinkDeliveries;
    FlushKeepsFlow(cfg, s);
    FlushKeepsLink(cfg, s);
  }

  lemma DelayedFramesSnoc(q: seq<DelayQueuePacket>, p: DelayQueuePacket)
    ensures DelayedFrames(q + [p]) == DelayedFrames(q) + [DelayedFrame(p)]
  {
  }

  lemma DelayedBelowCounter(s: State)
    requires forall f :: f in Chain(s) ==> f.sequenceNumber < s.counter
    ensures forall i :: 0 <= i < |s.delayQueue| ==> s.delayQueue[i].sequenceNumber < s.counter
  {
    hide LinkFrames;
    forall i | 0 <= i < |s.delayQueue|
      ensures s.delayQueue[i].sequenceNumber < s.counter
    {
      assert DelayedFrame(s.delayQueue[i]) == Chain(s)[|LinkFrames(s)| + i];
      assert DelayedFrame(s.delayQueue[i]) in Chain(s);
    }
  }

  /** What an accepted packet changes outside the cursor: one packet more at the end of the delay queue. */
  lemma ReadAppends(cfg: Config, s: State, now: nat, contents: string) returns (p: DelayQueuePacket)
    requires DelayInv(cfg.delay.trace, s.delay, now) && AcceptableSize(contents)
    ensures var r := ReadPacket(cfg, s, now, contents);
            && r.delayQueue == s.delayQueue + [p]
            && p.contents == contents && p.sequenceNumber == s.counter
            && p.releaseTime == r.delay.endRelease >= s.delay.endRelease
            && LinkFrames(r) == LinkFrames(s)
  {
    var r := ReadPacket(cfg, s, now, contents);
    p := r.delayQueue[|s.delayQueue|];
    ReleaseBounds(cfg.delay, s.delay, now, |contents|);
    hide ReadDelay, DelayInv;
  }

  /** An accepted packet joins the end of the chain, and will be taken out last. */
  lemma ReadExtendsChain(cfg: Config, s: State, now: nat, contents: string)
    requires FlowInv(cfg, s) && QueueInv(s) && DelayInv(cfg.delay.trace, s.delay, now) && AcceptableSize(contents)
    ensures var r := ReadPacket(cfg, s, now, contents);
            && Chain(r) == Chain(s) + [Frame(s.counter, contents)]
            && QueueInv(r)
  {
    hide ReadPacket, ReadDelay, DelayInv, LinkFrames, DelayedFrames;
    var p := ReadAppends(cfg, s, now, contents);
    DelayedFramesSnoc(s.delayQueue, p);
    Regroup(LinkFrames(s), DelayedFrames(s.delayQueue), [DelayedFrame(p)]);
    DelayedBelowCounter(s);
  }

  lemma ReadKeepsFlow(cfg: Config, s: State, r: State, f: Frame)
    requires FlowInv(cfg, s) && f.sequenceNumber == s.counter
    requires r.counter == s.counter + 1 && r.accepted == s.accepted + [f] && r.dropped == s.dropped && r.delay.startTick
    requires Chain(r) == Chain(s) + [f]
    ensures FlowInv(cfg, r)
  {
    hide Chain, QueuedFrames;
    assert forall i :: 0 <= i < |Chain(s)| ==> Chain(s)[i] in Chain(s);
  }

  lemma ReadKeepsLinkInv(cfg: Config, s: State, now: nat, contents: string)
    requires FlowInv(cfg, s) && LinkInv(cfg, s) && s.now <= now && DelayInv(cfg.delay.trace, s.delay, now)
    ensures LinkInv(cfg, ReadPacket(cfg, s, now, contents))
  {
    if !s.delay.startTick {
      assert |Chain(s)| == 0;
    }
  }

  lemma ReadKeepsInv(cfg: Config, s: State, now: nat, contents: string)
    requires Inv(cfg, s) && s.now <= now
    ensures DelayInv(cfg.delay.trace, s.delay, now)
    ensures Inv(cfg, ReadPacket(cfg, s, now, contents))
  {
    DelayInvLater(cfg.delay.trace, s.delay, s.now, now);
    if AcceptableSize(contents) {
      ReadExtendsChain(cfg, s, now, contents);
      ReadKeepsFlow(cfg, s, ReadPacket(cfg, s, now, contents), Frame(s.counter, contents));
      ReadKeepsLinkInv(cfg, s, now, contents);
    }
  }

  /** Time passing changes nothing but the clock. */
  lemma LaterKeepsInv(cfg: Config, s: State, t: nat)
    requires Inv(cfg, s) && s.now <= t
    ensures Inv(cfg, s.(now := t)) && Chain(s.(now := t)) == Chain(s)
  {
    DelayInvLater(cfg.delay.trace, s.delay, s.now, t);
  }

  lemma WaitKeepsInv(cfg: Config, s: State, t: nat)
    requires Inv(cfg, s) && s.linkTime <= t <= s.now
    ensures Inv(cfg, Rationalize(cfg, s, t))
  {
    RationalizeKeepsInv(cfg, s, t);
    RationalizeKeepsChain(cfg, s, t);
  }

  lemma StepKeepsInv(cfg: Config, s: State, e: Event)
    requires Inv(cfg, s) && Timely(s, e)
    ensures Inv(cfg, Step(cfg, s, e))
  {
    match e
    case Read(at, contents) =>
      ReadKeepsInv(cfg, s, at, contents);
    case Write(clock) =>
      var s0 := s.(now := clock(1));
      assert clock(0) <= clock(1);
      LaterKeepsInv(cfg, s, clock(1));
      MoveDueKeepsInv(cfg, s0, clock(0), clock(1), clock, 2);
      FlushKeepsInv(cfg, MoveDue(cfg, s0, clock(0), clock(1), clock, 2));
    case Wait(_, t2) =>
      LaterKeepsInv(cfg, s, t2);
      WaitKeepsInv(cfg, s.(now := t2), t2);
  }

  /** What a read does, as a step that keeps the invariant. */
  lemma ReadIsStep(cfg: Config, s: State, t: nat, contents: string)
    requires Inv(cfg, s) && s.now <= t
    ensures DelayInv(cfg.delay.trace, s.delay, t)
    ensures var r := Step(cfg, s, Read(t, contents));
            r == ReadPacket(cfg, s, t, contents) && Inv(cfg, r) && LinkInv(cfg, r)
  {
    StepKeepsInv(cfg, s, Read(t, contents));
    DelayInvLater(cfg.delay.trace, s.delay, s.now, t);
  }

  /** Every reachable state satisfies the invariant. */
  lemma {:induction false} RunKeepsInv(cfg: Config, s: State, es: seq<Event>)
    requires Inv(cfg, s) && RunTimely(cfg, s, es)
    ensures Inv(cfg, Run(cfg, s, es))
    decreases |es|
  {
    if es != [] {
      StepKeepsInv(cfg, s, es[0]);
      RunKeepsInv(cfg, Step(cfg, s, es[0]), es[1..]);
    }
  }

  lemma FinalInv(cfg: Config, t: nat, es: seq<Event>)
    requires FromStart(cfg, t, es)
    ensures Inv(cfg, Final(cfg, t, es))
  {
    InitInv(cfg, t);
    RunKeepsInv(cfg, Init(t), es);
  }
}
