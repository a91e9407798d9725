/** The delay stage inside the emulator: over any run it is the run of reads alone. */
module EmulatorDelays {
  import opened Packets
  import opened DelayTrace
  import opened DelayStage
  import opened DelayReleases
  import opened HeavySchedule
  import opened Emulator

  /** What one call hands to the delay stage: a packet of acceptable size. */
  function EventArrivals(e: Event): seq<Arrival>
  {
    if e.Read? && AcceptableSize(e.contents) then [Arrival(e.at, |e.contents|)] else []
  }

  function Arrivals(es: seq<Event>): seq<Arrival>
  {
    if es == [] then [] else EventArrivals(es[0]) + Arrivals(es[1..])
  }

  /** The state of the delay stage after a log that began in state d. */
  function LastState(d: DelayState, log: seq<Placement>): DelayState
  {
    if log == [] then d else log[|log| - 1].after
  }

  /** The packet is one of the log, whose first has number c, with everything that was found there. */
  predicate Logged(log: seq<Placement>, c: nat, p: DelayQueuePacket)
  {
    && c <= p.sequenceNumber < c + |log|
    && var q := log[p.sequenceNumber - c];
       && p.arrivalTime == q.time && |p.contents| == q.size
       && p.releaseTime == q.after.endRelease && p.isBypassLinkQueue == q.after.bypass
  }

  /** Every delayed packet of r was delayed in s already, or comes from the log. */
  predicate QueueFrom(s: State, r: State, log: seq<Placement>)
  {
    forall p :: p in r.delayQueue ==>
      p in s.delayQueue || Logged(log, s.counter, p)
  }

  /** A bypassing delivery of r that s has not made is of a packet delayed in s that may bypass, or of
      one of the log that may. */
  predicate BypassesFrom(s: State, r: State, log: seq<Placement>)
  {
    forall w :: w in r.written && w.bypassed ==>
      || w in s.written
      || (exists p :: p in s.delayQueue && p.isBypassLinkQueue && DelayedFrame(p) == w.frame)
      || (s.counter <= w.frame.sequenceNumber < s.counter + |log| && log[w.frame.sequenceNumber - s.counter].after.bypass)
  }

  /** r follows s by the reads of the log. */
  predicate Follows(s: State, r: State, log: seq<Placement>)
  {
    && r.delay == LastState(s.delay, log) && r.counter == s.counter + |log|
    && QueueFrom(s, r, log) && BypassesFrom(s, r, log)
  }

  // ---------- One call ----------

  lemma MoveOneFollows(cfg: Config, s: State, now: nat)
    requires InRange(cfg.heavy, s.link.cursor) && s.delayQueue != []
    ensures Follows(s, MoveOne(cfg, s, now), [])
  {
    var i := TopIndex(s.delayQueue);
    assert s.delayQueue[i] in s.delayQueue;
    hide TopIndex, Before;
  }

  lemma FollowsNothing(s: State)
    ensures Follows(s, s, [])
  {
  }

  lemma {:induction false} MoveDueFollows(cfg: Config, s: State, t: nat, now: nat, clock: nat -> nat, i: nat)
    requires InRange(cfg.heavy, s.link.cursor)
    ensures Follows(s, MoveDue(cfg, s, t, now, clock, i), [])
    decreases |s.delayQueue|
  {
    hide Follows;
    if Ready(s, t) {
      var m := MoveOne(cfg, s, now);
      MoveOneFollows(cfg, s, now);
      MoveDueFollows(cfg, m, clock(i), now, clock, i + 1);
      FollowsTransitive(s, m, MoveDue(cfg, m, clock(i), now, clock, i + 1), [], []);
    } else {
      FollowsNothing(s);
    }
  }

  lemma FollowsTransitive(s: State, m: State, r: State, log: seq<Placement>, more: seq<Placement>)
    requires Follows(s, m, log) && Follows(m, r, more)
    ensures Follows(s, r, log + more)
  {
  }

  lemma FlushFollows(s: State)
    ensures Follows(s, Flush(s), [])
  {
  }

  lemma WriteFollows(cfg: Config, s: State, clock: nat -> nat)
    requires InRange(cfg.heavy, s.link.cursor)
    ensures Follows(s, WritePackets(cfg, s, clock), [])
  {
    hide MoveDue, Flush;
    var s0 := s.(now := clock(1));
    MoveDueFollows(cfg, s0, clock(0), clock(1), clock, 2);
    var m := MoveDue(cfg, s0, clock(0), clock(1), clock, 2);
    FlushFollows(m);
    FollowsTransitive(s0, m, Flush(m), [], []);
  }

  /** One accepted packet is one placement. */
  lemma ReadFollows(cfg: Config, s: State, n: nat, now: nat, contents: string)
    requires DelayInv(cfg.delay.trace, s.delay, now) && AcceptableSize(contents)
    ensures Follows(s, ReadPacket(cfg, s, now, contents), [Place(cfg.delay, s.delay, n, now, |contents|)])
  {
    hide ReadDelay, Restarts;
    ReadPacketValue(cfg, s, now, contents);
  }

  lemma PlacementsCons(cfg: DelayConfig, d: DelayState, n: nat, now: nat, a: Arrival, rest: seq<Arrival>)
    requires DelayInv(cfg.trace, d, now) && now <= a.time && a.size <= PACKET_SIZE && InOrder(a.time, rest)
    ensures DelayInv(cfg.trace, d, a.time) && InOrder(now, [a] + rest) && InOrder(now, [a])
    ensures var p := Place(cfg, d, n, a.time, a.size);
            && Placements(cfg, d, n, now, [a]) == [p]
            && Placements(cfg, d, n, now, [a] + rest) == [p] + Placements(cfg, p.after, p.instance, a.time, rest)
  {
    hide ReadDelay, DelayInv, Restarts;
    DelayInvLater(cfg.trace, d, now, a.time);
    assert ([a] + rest)[1..] == rest && [a][1..] == [];
    assert InOrder(now, [a] + rest);
  }

  lemma StepFollows(cfg: Config, s: State, n: nat, e: Event)
    requires WellFormed(cfg, s) && Timely(s, e)
    ensures InOrder(s.now, EventArrivals(e)) && s.now <= Step(cfg, s, e).now
    ensures Follows(s, Step(cfg, s, e), Placements(cfg.delay, s.delay, n, s.now, EventArrivals(e)))
  {
    hide Follows, DelayInv, ReadDelay, Placements, MoveDue;
    match e
    case Read(at, contents) =>
      DelayInvLater(cfg.delay.trace, s.delay, s.now, at);
      if AcceptableSize(contents) {
        ReadFollows(cfg, s, n, at, contents);
        PlacementsCons(cfg.delay, s.delay, n, s.now, Arrival(at, |contents|), []);
      } else {
        FollowsNothing(s);
      }
    case Write(clock) =>
      WriteFollows(cfg, s, clock);
      assert clock(0) <= clock(1);
    case Wait(_, t2) =>
      WaitFollows(cfg, s, t2);
  }

  lemma WaitFollows(cfg: Config, s: State, t: nat)
    requires InRange(cfg.heavy, s.link.cursor)
    ensures Follows(s, Waited(cfg, s, t), [])
  {
  }

  // ---------- Runs ----------

  lemma InOrderEarlier(now: nat, later: nat, arrivals: seq<Arrival>)
    requires now <= later && InOrder(later, arrivals)
    ensures InOrder(now, arrivals)
  {
  }

  lemma PlacementsLater(cfg: DelayConfig, d: DelayState, n: nat, now: nat, later: nat, arrivals: seq<Arrival>)
    requires DelayInv(cfg.trace, d, now) && now <= later && InOrder(later, arrivals)
    ensures DelayInv(cfg.trace, d, later) && InOrder(now, arrivals)
    ensures Placements(cfg, d, n, now, arrivals) == Placements(cfg, d, n, later, arrivals)
  {
    DelayInvLater(cfg.trace, d, now, later);
    InOrderEarlier(now, later, arrivals);
  }

  /** From any state: a run does to the delay stage what its accepted packets alone do. */
  lemma {:induction false} RunFollows(cfg: Config, s: State, n: nat, es: seq<Event>)
    requires WellFormed(cfg, s) && RunTimely(cfg, s, es)
    ensures InOrder(s.now, Arrivals(es))
    ensures Follows(s, Run(cfg, s, es), Placements(cfg.delay, s.delay, n, s.now, Arrivals(es)))
    decreases |es|
  {
    hide Follows, DelayInv, Step, InRange, ReadDelay;
    if es == [] {
      FollowsNothing(s);
    } else {
      var e, m := es[0], Step(cfg, s, es[0]);
      StepFollows(cfg, s, n, e);
      var log := Placements(cfg.delay, s.delay, n, s.now, EventArrivals(e));
      var n' := if log == [] then n else log[0].instance;
      RunFollows(cfg, m, n', es[1..]);
      var more := Placements(cfg.delay, m.delay, n', m.now, Arrivals(es[1..]));
      FollowsTransitive(s, m, Run(cfg, s, es), log, more);
      StepPlacements(cfg, s, n, e, Arrivals(es[1..]));
    }
  }

  lemma AcceptedAt(cfg: Config, s: State, e: Event)
    requires WellFormed(cfg, s) && Timely(s, e) && EventArrivals(e) != []
    ensures Step(cfg, s, e).now == e.at
  {
    hide ReadDelay, DelayInv;
  }

  /** The placements of one call, and then those of the rest. */
  lemma StepPlacements(cfg: Config, s: State, n: nat, e: Event, rest: seq<Arrival>)
    requires WellFormed(cfg, s) && Timely(s, e) && InOrder(Step(cfg, s, e).now, rest)
    ensures InOrder(s.now, EventArrivals(e)) && InOrder(s.now, EventArrivals(e) + rest)
    ensures var m := Step(cfg, s, e);
            var log := Placements(cfg.delay, s.delay, n, s.now, EventArrivals(e));
            var n' := if log == [] then n else log[0].instance;
            Placements(cfg.delay, s.delay, n, s.now, EventArrivals(e) + rest)
            == log + Placements(cfg.delay, m.delay, n', m.now, rest)
  {
    hide QueueFrom, BypassesFrom, DelayInv, ReadDelay, Place, InRange, Step;
    var m := Step(cfg, s, e);
    StepFollows(cfg, s, n, e);
    var a := EventArrivals(e);
    if a == [] {
      assert a + rest == rest;
      PlacementsLater(cfg.delay, s.delay, n, s.now, m.now, rest);
    } else {
      AcceptedAt(cfg, s, e);
      PlacementsCons(cfg.delay, s.delay, n, s.now, a[0], rest);
    }
  }

  /** Over any run of the emulator from the constructor the delay stage is in the state its accepted packets
      alone leave; every packet still delayed has the release time and bypass flag of its placement; and only
      packets placed with the bypass flag are ever delivered past the link. So the laws of `Placements` are
      laws of the emulator. */
  lemma RunIsPlacements(cfg: Config, t: nat, es: seq<Event>)
    requires FromStart(cfg, t, es)
    ensures InOrder(t, Arrivals(es))
    ensures var log := Placements(cfg.delay, Fresh(t), 0, t, Arrivals(es));
            var r := Final(cfg, t, es);
            && r.counter == |log| && r.delay == LastState(Fresh(t), log)
            && (forall p :: p in r.delayQueue ==>
                  && p.sequenceNumber < |log|
                  && p.arrivalTime == log[p.sequenceNumber].time && |p.contents| == log[p.sequenceNumber].size
                  && p.releaseTime == log[p.sequenceNumber].after.endRelease
                  && p.isBypassLinkQueue == log[p.sequenceNumber].after.bypass)
            && (forall w :: w in r.written && w.bypassed ==>
                  w.frame.sequenceNumber < |log| && log[w.frame.sequenceNumber].after.bypass)
  {
    hide Placements, Run, RunTimely;
    RunFollows(cfg, Init(t), 0, es);
  }

  /** For one: with nonnegative offsets a delayed packet waits until the largest recorded release plus
      offset among the packets read up to it. */
  lemma DelayedUntilMaximum(cfg: Config, t: nat, es: seq<Event>, p: DelayQueuePacket)
    requires FromStart(cfg, t, es) && NonnegativeOffsets(cfg.delay.offsets) && p in Final(cfg, t, es).delayQueue
    ensures InOrder(t, Arrivals(es))
    ensures var log := Placements(cfg.delay, Fresh(t), 0, t, Arrivals(es));
            p.sequenceNumber < |log| && p.releaseTime == LargestShifted(cfg.delay, log, p.sequenceNumber)
  {
    hide Placements, Run, RunTimely, Arrivals, InOrder;
    RunIsPlacements(cfg, t, es);
    ReleasesAreRunningMaximum(cfg.delay, t, Arrivals(es), p.sequenceNumber);
  }
}
