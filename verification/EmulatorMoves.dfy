/** When packets leave the delay stage, and what is stamped on them. */
module EmulatorMoves {
  import opened Packets
  import opened HeavySchedule
  import opened LinkStage
  import opened PacketQueues
  import opened DelayStage
  import opened Emulator
  import opened EmulatorInvariants
  import opened EmulatorDelays

  /** The clock reading `write_packets` takes for its i-th packet; the second of all readings is its own. */
  function Reading(clock: nat -> nat, i: nat): nat
  {
    if i == 0 then clock(0) else clock(i + 1)
  }

  // ---------- One call ----------

  lemma RestInPopOrder(q: seq<DelayQueuePacket>)
    requires q != [] && InPopOrder(q)
    ensures InPopOrder(q[1..])
  {
  }

  /** The k-th reading of a loop that has t in hand and reads clock(i) next. */
  function ReadingFrom(t: nat, clock: nat -> nat, i: nat, k: nat): nat
  {
    if k == 0 then t else clock(i + k - 1)
  }

  /** The first m packets have come due by their readings, and the next one has not. */
  predicate DueUpTo(q: seq<DelayQueuePacket>, m: nat, t: nat, clock: nat -> nat, i: nat)
  {
    && m <= |q| && (forall k: nat :: k < m ==> q[k].releaseTime <= ReadingFrom(t, clock, i, k))
    && (m < |q| ==> q[m].releaseTime > ReadingFrom(t, clock, i, m))
  }

  lemma DueUpToCons(q: seq<DelayQueuePacket>, m: nat, t: nat, clock: nat -> nat, i: nat)
    requires q != [] && q[0].releaseTime <= t && DueUpTo(q[1..], m, clock(i), clock, i + 1)
    ensures DueUpTo(q, m + 1, t, clock, i)
  {
    forall k: nat | k < m + 1
      ensures q[k].releaseTime <= ReadingFrom(t, clock, i, k)
    {
      if k > 0 {
        assert q[1..][k - 1].releaseTime <= ReadingFrom(clock(i), clock, i + 1, k - 1);
      }
    }
  }

  lemma {:induction false} MoveDueMovesFirst(cfg: Config, s: State, t: nat, now: nat, clock: nat -> nat, i: nat)
    returns (m: nat)
    requires InRange(cfg.heavy, s.link.cursor) && InPopOrder(s.delayQueue)
    ensures DueUpTo(s.delayQueue, m, t, clock, i)
    ensures MoveDue(cfg, s, t, now, clock, i).delayQueue == s.delayQueue[m..]
    decreases |s.delayQueue|
  {
    hide MoveOne, TopIndex, DueUpTo, InPopOrder;
    m := 0;
    if s.delayQueue == [] {
      NothingDue(s.delayQueue, t, clock, i);
    } else {
      TopIsFirst(s.delayQueue);
      if Ready(s, t) {
        var u := MoveOne(cfg, s, now);
        MoveOneRest(cfg, s, now);
        m := MoveDueMovesFirst(cfg, u, clock(i), now, clock, i + 1);
        DueUpToCons(s.delayQueue, m, t, clock, i);
        m := m + 1;
        assert s.delayQueue[1..][m - 1..] == s.delayQueue[m..];
      } else {
        NothingDue(s.delayQueue, t, clock, i);
      }
    }
  }

  lemma MoveOneRest(cfg: Config, s: State, now: nat)
    requires InRange(cfg.heavy, s.link.cursor) && InPopOrder(s.delayQueue) && s.delayQueue != []
    ensures var u := MoveOne(cfg, s, now);
            InRange(cfg.heavy, u.link.cursor) && u.delayQueue == s.delayQueue[1..] && InPopOrder(u.delayQueue)
  {
    MoveOneTakesFirst(cfg, s, now);
    RestInPopOrder(s.delayQueue);
  }

  lemma NothingDue(q: seq<DelayQueuePacket>, t: nat, clock: nat -> nat, i: nat)
    requires q == [] || q[0].releaseTime > t
    ensures DueUpTo(q, 0, t, clock, i)
  {
  }

  /** One call of `write_packets` takes packets out of the delay stage from the front: each one whose release
      time has come at the reading taken for it, up to the first whose release time has not. */
  lemma WriteMovesExactly(cfg: Config, s: State, clock: nat -> nat) returns (m: nat)
    requires InRange(cfg.heavy, s.link.cursor) && InPopOrder(s.delayQueue)
    ensures var r, q := WritePackets(cfg, s, clock), s.delayQueue;
            && m <= |q| && r.delayQueue == q[m..]
            && (forall i :: 0 <= i < m ==> q[i].releaseTime <= Reading(clock, i))
            && (m < |q| ==> q[m].releaseTime > Reading(clock, m))
  {
    m := MoveDueMovesFirst(cfg, s.(now := clock(1)), clock(0), clock(1), clock, 2);
    assert forall i: nat :: Reading(clock, i) == ReadingFrom(clock(0), clock, 2, i);
  }

  /** Every packet the link knows by its stamps. */
  function LinkPackets(s: State): seq<QueuedPacket>
  {
    s.link.pipe.output + Waiting(s.link.pipe) + s.dropped
  }

  /** p as it enters the link at time `stamp`. */
  predicate StampedAs(x: QueuedPacket, p: DelayQueuePacket, stamp: nat)
  {
    && x.contents == p.contents && x.sequenceNumber == p.sequenceNumber
    && x.initialArrivalTime == p.arrivalTime && x.arrivalTime == stamp
    && x.releaseTimeFromDelayQueue == p.releaseTime
  }

  /** What the link of r knows it knew in s already, or it comes from the first m delayed packets of s. */
  predicate LinkFrom(s: State, r: State, m: nat, stamp: nat)
    requires m <= |s.delayQueue|
  {
    forall x :: x in LinkPackets(r) ==>
      x in LinkPackets(s) || exists i :: 0 <= i < m && StampedAs(x, s.delayQueue[i], stamp)
  }

  lemma ServedFrom(cfg: Config, s: State, t: nat, x: QueuedPacket)
    requires LinkInv(cfg, s) && x in LinkPackets(Rationalize(cfg, s, t))
    ensures x in LinkPackets(s)
  {
    var u := Rationalize(cfg, s, t);
    RationalizeIsFluid(cfg.heavy, s.link, t);
    FluidFrom(s.link.pipe, PACKET_SIZE * Due(cfg.heavy, s.link.cursor, t), u.link.pipe, x);
  }

  lemma FluidFrom(p: Pipe, b: nat, r: Pipe, x: QueuedPacket)
    requires Fluid(p, b, r)
    ensures x in r.output + Waiting(r) ==> x in p.output + Waiting(p)
  {
    hide Waiting, Ahead, Backlog;
  }

  lemma HandedFrom(cfg: Config, u: State, p: QueuedPacket, rest: seq<DelayQueuePacket>, x: QueuedPacket)
    requires x in LinkPackets(Handed(cfg, u, p, rest))
    ensures x in LinkPackets(u) || x == p
  {
    hide Enqueued, Lost;
    var before, after := EnqueueCutsWaiting(cfg.discipline, u.link.pipe, p);
    var lost := Lost(cfg.discipline, u.link.pipe.queue, p);
    hide Waiting;
    assert x in before + lost + after ==> x in Waiting(u.link.pipe) + [p];
  }

  lemma MoveOneLinkFrom(cfg: Config, s: State, now: nat)
    requires LinkInv(cfg, s) && InPopOrder(s.delayQueue) && s.delayQueue != []
    ensures LinkFrom(s, MoveOne(cfg, s, now), 1, now)
  {
    hide LinkInv, MoveOne, LinkPackets, Rationalize, Handed;
    LinkInvTells(cfg, s);
    MoveOneTakesFirst(cfg, s, now);
    var p, r := s.delayQueue[0], MoveOne(cfg, s, now);
    forall x | x in LinkPackets(r)
      ensures x in LinkPackets(s) || StampedAs(x, p, now)
    {
      if p.isBypassLinkQueue && s.linkSize == 0 {
        SameLinkPackets(s, r);
      } else {
        HandedFrom(cfg, Rationalize(cfg, s, now), ToQueued(p, now), s.delayQueue[1..], x);
        if x != ToQueued(p, now) {
          ServedFrom(cfg, s, now, x);
        }
      }
    }
  }

  lemma SameLinkPackets(s: State, r: State)
    requires r.link == s.link && r.dropped == s.dropped
    ensures LinkPackets(r) == LinkPackets(s)
  {
  }

  lemma {:induction false} MoveDueLinkFrom(cfg: Config, s: State, t: nat, now: nat, clock: nat -> nat, i: nat)
    requires Inv(cfg, s) && s.linkTime <= now <= s.now
    ensures var r := MoveDue(cfg, s, t, now, clock, i);
            |r.delayQueue| <= |s.delayQueue| && LinkFrom(s, r, |s.delayQueue| - |r.delayQueue|, now)
    decreases |s.delayQueue|
  {
    hide FlowInv, LinkInv, DelayInv, LinkPackets, MoveOne, StampedAs, LinkFrom, TopIndex;
    InvTells(cfg, s);
    if Ready(s, t) {
      var u := MoveOne(cfg, s, now);
      MoveOneTakesFirst(cfg, s, now);
      MoveOneKeepsInv(cfg, s, now);
      MoveOneLinkFrom(cfg, s, now);
      MoveDueLinkFrom(cfg, u, clock(i), now, clock, i + 1);
      assert u.delayQueue == s.delayQueue[1..];
      LinkFromThen(s, u, MoveDue(cfg, u, clock(i), now, clock, i + 1), now);
    } else {
      LinkFromSelf(s, now);
    }
  }

  lemma LinkFromSelf(s: State, stamp: nat)
    ensures LinkFrom(s, s, 0, stamp)
  {
  }

  lemma LinkFromThen(s: State, u: State, r: State, stamp: nat)
    requires s.delayQueue != [] && u.delayQueue == s.delayQueue[1..] && |r.delayQueue| <= |u.delayQueue|
    requires LinkFrom(s, u, 1, stamp) && LinkFrom(u, r, |u.delayQueue| - |r.delayQueue|, stamp)
    ensures LinkFrom(s, r, |s.delayQueue| - |r.delayQueue|, stamp)
  {
    hide LinkPackets, StampedAs;
    forall x | x in LinkPackets(r)
      ensures x in LinkPackets(s) ||
              exists i :: 0 <= i < |s.delayQueue| - |r.delayQueue| && StampedAs(x, s.delayQueue[i], stamp)
    {
      if x !in LinkPackets(u) {
        var i :| 0 <= i < |u.delayQueue| - |r.delayQueue| && StampedAs(x, u.delayQueue[i], stamp);
        assert StampedAs(x, s.delayQueue[i + 1], stamp);
      }
    }
  }

  /** A packet that enters the link carries the call's own reading as its arrival there, with everything else
      as it was in the delay stage. */
  lemma WriteStamps(cfg: Config, s: State, clock: nat -> nat)
    requires Inv(cfg, s) && s.now <= clock(0) <= clock(1)
    ensures var r := WritePackets(cfg, s, clock);
            |r.delayQueue| <= |s.delayQueue| && LinkFrom(s, r, |s.delayQueue| - |r.delayQueue|, clock(1))
  {
    hide MoveDue, FlowInv, LinkInv, DelayInv, Waiting, StampedAs;
    var s0 := s.(now := clock(1));
    InvTells(cfg, s);
    LaterKeepsInv(cfg, s, clock(1));
    LinkInvTells(cfg, s);
    MoveDueLinkFrom(cfg, s0, clock(0), clock(1), clock, 2);
    var u := MoveDue(cfg, s0, clock(0), clock(1), clock, 2);
    SameLinkPackets(s, s0);
    FlushLinkPackets(u);
  }

  lemma FlushLinkPackets(s: State)
    ensures forall x :: x in LinkPackets(Flush(s)) ==> x in LinkPackets(s)
  {
    assert Waiting(Flush(s).link.pipe) == Waiting(s.link.pipe);
  }

  // ---------- Runs ----------

  /** p is among the packets one call takes out, and was due at the reading taken for it. */
  predicate TakenOut(s: State, r: State, clock: nat -> nat, p: DelayQueuePacket)
  {
    exists i: nat :: i < |s.delayQueue| - |r.delayQueue| && s.delayQueue[i] == p && p.releaseTime <= Reading(clock, i)
  }

  /** One call of the run, whose own reading is `stamp`, takes p out of the delay stage when it is due. */
  ghost predicate TakenIn(cfg: Config, s: State, es: seq<Event>, p: DelayQueuePacket, stamp: nat)
    requires WellFormed(cfg, s) && RunTimely(cfg, s, es)
    decreases |es|
  {
    es != [] &&
    var r := Step(cfg, s, es[0]);
    || (es[0].Write? && es[0].clock(1) == stamp && TakenOut(s, r, es[0].clock, p))
    || TakenIn(cfg, r, es[1..], p, stamp)
  }

  /** The frames that have left the delay stage: written, on the link, or dropped. */
  function Gone(s: State): seq<Frame>
  {
    LinkFrames(s) + QueuedFrames(s.dropped)
  }

  /** Frames leave the delay stage only by being taken out of its queue. */
  lemma GoneAccounts(cfg: Config, s: State, r: State, m: nat, f: Frame)
    requires FlowInv(cfg, s) && FlowInv(cfg, r) && r.accepted == s.accepted
    requires m <= |s.delayQueue| && r.delayQueue == s.delayQueue[m..] && f in Gone(r)
    ensures f in Gone(s) || exists i: nat :: i < m && DelayedFrame(s.delayQueue[i]) == f
  {
    hide LinkFrames, QueuedFrames;
    var taken, rest := DelayedFrames(s.delayQueue[..m]), DelayedFrames(s.delayQueue[m..]);
    assert DelayedFrames(s.delayQueue) == taken + rest by {
      assert s.delayQueue == s.delayQueue[..m] + s.delayQueue[m..];
    }
    assert multiset(Chain(r)) == multiset(LinkFrames(r)) + multiset(rest);
    assert multiset(Chain(s)) == multiset(LinkFrames(s)) + (multiset(taken) + multiset(rest));
    assert (multiset(Chain(r)) + multiset(QueuedFrames(r.dropped)))[f]
           == (multiset(Chain(s)) + multiset(QueuedFrames(s.dropped)))[f];
    assert multiset(LinkFrames(r))[f] + multiset(QueuedFrames(r.dropped))[f]
           == multiset(LinkFrames(s))[f] + multiset(QueuedFrames(s.dropped))[f] + multiset(taken)[f];
    assert f in multiset(LinkFrames(r)) || f in multiset(QueuedFrames(r.dropped));
    if f !in Gone(s) {
      assert f in multiset(taken);
      var i :| 0 <= i < |taken| && taken[i] == f;
      assert DelayedFrame(s.delayQueue[i]) == f;
    }
  }

  lemma ReadGone(cfg: Config, s: State, now: nat, contents: string)
    requires DelayInv(cfg.delay.trace, s.delay, now)
    ensures Gone(ReadPacket(cfg, s, now, contents)) == Gone(s)
    ensures LinkPackets(ReadPacket(cfg, s, now, contents)) == LinkPackets(s)
  {
    hide ReadDelay, DelayInv;
  }

  /** What one call moves, seen on frames and on packets. */
  lemma StepTakes(cfg: Config, s: State, e: Event, f: Frame, x: QueuedPacket)
    requires Inv(cfg, s) && Timely(s, e)
    ensures var r := Step(cfg, s, e);
            && (f in Gone(r) && f !in Gone(s) ==>
                  e.Write? && exists p :: TakenOut(s, r, e.clock, p) && DelayedFrame(p) == f)
            && (x in LinkPackets(r) && x !in LinkPackets(s) ==>
                  e.Write? && exists p :: TakenOut(s, r, e.clock, p) && StampedAs(x, p, e.clock(1)))
  {
    hide FlowInv, LinkInv, DelayInv, LinkPackets, Gone, WritePackets;
    InvTells(cfg, s);
    StepKeepsInv(cfg, s, e);
    match e
    case Read(at, contents) =>
      DelayInvLater(cfg.delay.trace, s.delay, s.now, at);
      ReadGone(cfg, s, at, contents);
    case Write(clock) =>
      WriteTakes(cfg, s, clock, f, x);
    case Wait(_, t2) =>
      WaitTakes(cfg, s, t2, f, x);
  }

  lemma WaitTakes(cfg: Config, s: State, t: nat, f: Frame, x: QueuedPacket)
    requires Inv(cfg, s) && s.now <= t && Inv(cfg, Waited(cfg, s, t))
    ensures f in Gone(Waited(cfg, s, t)) ==> f in Gone(s)
    ensures x in LinkPackets(Waited(cfg, s, t)) ==> x in LinkPackets(s)
  {
    hide FlowInv, LinkInv, DelayInv, LinkPackets, Gone;
    InvTells(cfg, s);
    var r, s0 := Waited(cfg, s, t), s.(now := t);
    if f in Gone(r) {
      assert r.delayQueue == s.delayQueue[0..];
      GoneAccounts(cfg, s, r, 0, f);
    }
    if x in LinkPackets(r) {
      LaterKeepsInv(cfg, s, t);
      SameLinkPackets(s, s0);
      ServedFrom(cfg, s0, t, x);
    }
  }

  lemma WriteTakes(cfg: Config, s: State, clock: nat -> nat, f: Frame, x: QueuedPacket)
    requires Inv(cfg, s) && s.now <= clock(0) <= clock(1) && Inv(cfg, WritePackets(cfg, s, clock))
    ensures var r := WritePackets(cfg, s, clock);
            && (f in Gone(r) && f !in Gone(s) ==> exists p :: TakenOut(s, r, clock, p) && DelayedFrame(p) == f)
            && (x in LinkPackets(r) && x !in LinkPackets(s) ==>
                  exists p :: TakenOut(s, r, clock, p) && StampedAs(x, p, clock(1)))
  {
    hide FlowInv, LinkInv, DelayInv, LinkPackets, Gone, WritePackets, StampedAs;
    InvTells(cfg, s);
    var r := WritePackets(cfg, s, clock);
    var m := WriteMovesExactly(cfg, s, clock);
    WriteAccepts(cfg, s, clock);
    WriteStamps(cfg, s, clock);
    if f in Gone(r) && f !in Gone(s) {
      GoneAccounts(cfg, s, r, m, f);
      var i: nat :| i < m && DelayedFrame(s.delayQueue[i]) == f;
      assert TakenOut(s, r, clock, s.delayQueue[i]);
    }
    if x in LinkPackets(r) && x !in LinkPackets(s) {
      var i :| 0 <= i < m && StampedAs(x, s.delayQueue[i], clock(1));
      assert TakenOut(s, r, clock, s.delayQueue[i]);
    }
  }

  lemma WriteAccepts(cfg: Config, s: State, clock: nat -> nat)
    requires InRange(cfg.heavy, s.link.cursor)
    ensures WritePackets(cfg, s, clock).accepted == s.accepted
  {
  }

  /** From any state: whatever is gone at the end was gone before or has been taken out when due. */
  lemma {:induction false} RunTakes(cfg: Config, s: State, es: seq<Event>, f: Frame, x: QueuedPacket)
    requires Inv(cfg, s) && RunTimely(cfg, s, es)
    ensures var r := Run(cfg, s, es);
            && (f in Gone(r) && f !in Gone(s) ==>
                  exists p, stamp :: TakenIn(cfg, s, es, p, stamp) && DelayedFrame(p) == f)
            && (x in LinkPackets(r) && x !in LinkPackets(s) ==>
                  exists p :: TakenIn(cfg, s, es, p, x.arrivalTime) && StampedAs(x, p, x.arrivalTime))
    decreases |es|
  {
    hide FlowInv, LinkInv, QueueInv, DelayInv, LinkPackets, Gone, Step, TakenOut;
    if es != [] {
      InvTells(cfg, s);
      var e, m, r := es[0], Step(cfg, s, es[0]), Run(cfg, s, es);
      StepKeepsInv(cfg, s, e);
      StepTakes(cfg, s, e, f, x);
      RunTakes(cfg, m, es[1..], f, x);
      if f in Gone(r) && f !in Gone(s) {
        if f in Gone(m) {
          var p :| TakenOut(s, m, e.clock, p) && DelayedFrame(p) == f;
          assert TakenIn(cfg, s, es, p, e.clock(1));
        } else {
          var p, stamp :| TakenIn(cfg, m, es[1..], p, stamp) && DelayedFrame(p) == f;
          assert TakenIn(cfg, s, es, p, stamp);
        }
      }
      if x in LinkPackets(r) && x !in LinkPackets(s) {
        if x in LinkPackets(m) {
          var p :| TakenOut(s, m, e.clock, p) && StampedAs(x, p, e.clock(1));
          assert TakenIn(cfg, s, es, p, x.arrivalTime);
        } else {
          var p :| TakenIn(cfg, m, es[1..], p, x.arrivalTime) && StampedAs(x, p, x.arrivalTime);
          assert TakenIn(cfg, s, es, p, x.arrivalTime);
        }
      }
    }
  }

  /** Whatever is taken out was delayed at the start or is a placement of the run. */
  lemma {:induction false} TakenIsPlaced(cfg: Config, s: State, n: nat, es: seq<Event>, p: DelayQueuePacket, stamp: nat)
    requires WellFormed(cfg, s) && RunTimely(cfg, s, es) && TakenIn(cfg, s, es, p, stamp)
    ensures InOrder(s.now, Arrivals(es))
    ensures p in s.delayQueue || Logged(Placements(cfg.delay, s.delay, n, s.now, Arrivals(es)), s.counter, p)
    decreases |es|
  {
    hide DelayInv, Step, InRange, ReadDelay, BypassesFrom, Logged;
    var e, m := es[0], Step(cfg, s, es[0]);
    StepFollows(cfg, s, n, e);
    var log := Placements(cfg.delay, s.delay, n, s.now, EventArrivals(e));
    var n' := if log == [] then n else log[0].instance;
    RunFollows(cfg, m, n', es[1..]);
    StepPlacements(cfg, s, n, e, Arrivals(es[1..]));
    if p !in s.delayQueue {
      TakenIsPlaced(cfg, m, n', es[1..], p, stamp);
      LoggedLater(log, Placements(cfg.delay, m.delay, n', m.now, Arrivals(es[1..])), s.counter, p);
    }
  }

  lemma LoggedLater(log: seq<Placement>, more: seq<Placement>, c: nat, p: DelayQueuePacket)
    ensures Logged(log, c, p) || Logged(more, c + |log|, p) ==> Logged(log + more, c, p)
  {
  }

  lemma NothingGoneYet(t: nat)
    ensures Gone(Init(t)) == [] && LinkPackets(Init(t)) == []
  {
    NothingWaits(Init(t).link.pipe);
    assert QueuedFrames([]) == [] && Delivered([]) == [];
  }

  /** No packet is early, over any run: a frame that was written, is on the link or was dropped has been taken out
      of the delay stage by a call that found its release time at or below the reading taken for it; and that
      release time is the one of its placement. */
  lemma NothingLeavesEarly(cfg: Config, t: nat, es: seq<Event>, f: Frame)
    requires FromStart(cfg, t, es) && f in Gone(Final(cfg, t, es))
    ensures InOrder(t, Arrivals(es))
    ensures exists p, stamp :: TakenIn(cfg, Init(t), es, p, stamp) && DelayedFrame(p) == f &&
              Logged(Placements(cfg.delay, Fresh(t), 0, t, Arrivals(es)), 0, p)
  {
    hide Gone, LinkPackets, TakenIn, Run, RunTimely, Placements, Logged;
    InitInv(cfg, t);
    NothingGoneYet(t);
    RunTakes(cfg, Init(t), es, f, Init(t).link.pipe.inTransit);
    var p, stamp :| TakenIn(cfg, Init(t), es, p, stamp) && DelayedFrame(p) == f;
    TakenIsPlaced(cfg, Init(t), 0, es, p, stamp);
  }

  /** And a packet the link still knows, waiting, sent or dropped, carries the reading of the call that took it out,
      and the arrival and release times of its placement. */
  lemma LinkStampsAreReadings(cfg: Config, t: nat, es: seq<Event>, x: QueuedPacket)
    requires FromStart(cfg, t, es) && x in LinkPackets(Final(cfg, t, es))
    ensures InOrder(t, Arrivals(es))
    ensures exists p :: TakenIn(cfg, Init(t), es, p, x.arrivalTime) && StampedAs(x, p, x.arrivalTime) &&
              Logged(Placements(cfg.delay, Fresh(t), 0, t, Arrivals(es)), 0, p)
  {
    hide Gone, LinkPackets, TakenIn, Run, RunTimely, Placements, Logged, StampedAs;
    InitInv(cfg, t);
    NothingGoneYet(t);
    RunTakes(cfg, Init(t), es, QueuedFrame(x), x);
    var p :| TakenIn(cfg, Init(t), es, p, x.arrivalTime) && StampedAs(x, p, x.arrivalTime);
    TakenIsPlaced(cfg, Init(t), 0, es, p, x.arrivalTime);
  }
}
