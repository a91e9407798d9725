/** The emulator object: the fields of the source, updated in place, against the state machine. */
module CellularQueues {
  import opened Arithmetic
  import opened Packets
  import opened HeavySchedule
  import opened LinkStage
  import opened PacketQueues
  import opened DelayTrace
  import opened DelayStage
  import opened Emulator
  import opened EmulatorInvariants

  datatype ReadError = PacketTooSmall | PacketTooLarge

  class CellularQueue {
    const cfg: Config

    // Link queue
    const packetQueue: PacketQueue
    var nextDelivery: nat
    var linkBaseTimestamp: nat
    var packetInTransit: QueuedPacket
    var packetInTransitBytesLeft: nat
    var outputQueue: seq<QueuedPacket>
    var currentLinkQueueSize: int
    var finished: bool

    // Delay queue
    var delayBaseTimestamp: nat
    var startTick: bool
    var endReleaseTime: nat
    var currDeliveryOpportunity: int
    var delayPacketQueue: seq<DelayQueuePacket>
    var currentDelayPdoIdx: nat
    var currentPdoIdx: nat
    var currentPdoSize: nat
    var pdoBaseTimestamp: nat
    var currentBaseDelay: int
    var bypassLinkPdo: bool
    var lastDelayQueueReleaseTime: nat
    var pktCounter: nat

    // The descriptor's writes, each with the number and bypass flag the packet log gives it
    var written: seq<Delivery>

    // History
    ghost var accepted: seq<Frame>
    ghost var dropped: seq<QueuedPacket>
    ghost var linkTime: nat
    ghost var now: nat

    ghost function CursorNow(): Cursor
      reads `nextDelivery, `linkBaseTimestamp, `finished
    {
      Cursor(nextDelivery, linkBaseTimestamp, finished)
    }

    ghost function PipeNow(): Pipe
      reads `packetInTransit, `packetInTransitBytesLeft, `outputQueue, packetQueue`internalQueue
    {
      Pipe(packetInTransit, packetInTransitBytesLeft, packetQueue.internalQueue, outputQueue)
    }

    ghost function LinkNow(): Link
      reads `nextDelivery, `linkBaseTimestamp, `finished,
            `packetInTransit, `packetInTransitBytesLeft, `outputQueue, packetQueue`internalQueue
    {
      Link(CursorNow(), PipeNow())
    }

    ghost function DelayNow(): DelayState
      reads `startTick, `delayBaseTimestamp, `currentDelayPdoIdx, `currentPdoIdx, `currentPdoSize, `pdoBaseTimestamp,
            `currentBaseDelay, `currDeliveryOpportunity, `bypassLinkPdo, `endReleaseTime, `lastDelayQueueReleaseTime
    {
      DelayState(startTick, delayBaseTimestamp, currentDelayPdoIdx, currentPdoIdx, currentPdoSize, pdoBaseTimestamp,
                 currentBaseDelay, currDeliveryOpportunity, bypassLinkPdo, endReleaseTime, lastDelayQueueReleaseTime)
    }

    /** The fields as one value of the state machine. */
    ghost function Abs(): State
      reads this, packetQueue
    {
      State(LinkNow(), currentLinkQueueSize, DelayNow(), delayPacketQueue, pktCounter, written,
            accepted, dropped, linkTime, now)
    }

    /** The link part alone; it also holds while a packet is between the two stages. */
    ghost predicate LinkValid()
      reads this, packetQueue
    {
      packetQueue.Valid() && packetQueue.discipline == cfg.discipline && LinkInv(cfg, Abs())
    }

    ghost predicate Valid()
      reads this, packetQueue
    {
      LinkValid() && Inv(cfg, Abs())
    }

    /** The fields as the constructor leaves them. */
    ghost predicate AsConstructed(t: nat)
      reads this, packetQueue
    {
      && CursorNow() == Cursor(0, t, false) && DelayNow() == Fresh(t)
      && PipeNow() == Pipe(QueuedPacket("", 0, 0, 0, 0), 0, [], [])
      && currentLinkQueueSize == 0 && delayPacketQueue == [] && pktCounter == 0 && written == []
      && accepted == [] && dropped == [] && linkTime == t && now == t
    }

    lemma ConstructedIsInit(t: nat)
      requires AsConstructed(t) && packetQueue.Valid() && packetQueue.discipline == cfg.discipline
      ensures Valid() && Abs() == Init(t)
    {
      hide FlowInv, LinkInv, QueueInv, DelayInv;
      InitInv(cfg, t);
      assert Abs() == Init(t);
    }

    constructor (cfg: Config, t: nat)
      ensures Valid() && this.cfg == cfg && Abs() == Init(t) && fresh(packetQueue)
    {
      this.cfg := cfg;
      packetQueue := new PacketQueue(cfg.discipline);
      nextDelivery, linkBaseTimestamp, finished := 0, t, false;
      packetInTransit, packetInTransitBytesLeft := QueuedPacket("", 0, 0, 0, 0), 0;
      outputQueue, currentLinkQueueSize := [], 0;
      startTick, delayBaseTimestamp, endReleaseTime := false, t, 0;
      currDeliveryOpportunity, delayPacketQueue := PACKET_SIZE, [];
      currentDelayPdoIdx, currentPdoIdx, currentPdoSize, pdoBaseTimestamp := 0, 0, 1, 0;
      currentBaseDelay, bypassLinkPdo, lastDelayQueueReleaseTime, pktCounter := -1, true, 0, 0;
      written, accepted, dropped, linkTime, now := [], [], [], t, t;
      new;
      hide Inv, LinkInv, Fits, TotalBytes, Init, Abs;
      ConstructedIsInit(t);
    }

    // ---------- Link queue ----------

    method UseADeliveryOpportunity()
      requires InRange(cfg.heavy, CursorNow())
      modifies `nextDelivery, `linkBaseTimestamp, `finished
      ensures CursorNow() == Use(cfg.heavy, old(CursorNow()))
    {
      NextIndex(nextDelivery, |cfg.heavy.times|);
      nextDelivery := (nextDelivery + 1) % |cfg.heavy.times|;
      if nextDelivery == 0 {
        if cfg.heavy.repeat {
          linkBaseTimestamp := linkBaseTimestamp + Last(cfg.heavy);
        } else {
          finished := true;
        }
      }
    }

    /** Spend one opportunity, byte by byte; the asserts are those of the source. */
    method SendOne(ghost arrived: nat, ghost thisDeliveryTime: nat)
      requires packetQueue.Valid() && PipeInv(PipeNow())
      requires ArrivedBy(Waiting(PipeNow()), arrived) && arrived <= thisDeliveryTime
      modifies packetQueue, `packetInTransit, `packetInTransitBytesLeft, `outputQueue
      ensures packetQueue.Valid() && PipeInv(PipeNow())
      ensures PipeNow() == Drain(old(PipeNow()), PACKET_SIZE)
      ensures ArrivedBy(Waiting(PipeNow()), arrived)
    {
      hide ArrivedBy, Waiting, Fits;
      var bytesLeft: nat := PACKET_SIZE;
      while bytesLeft > 0
        invariant packetQueue.Valid() && PipeInv(PipeNow())
        invariant Drain(PipeNow(), bytesLeft) == Drain(old(PipeNow()), PACKET_SIZE)
        invariant ArrivedBy(Waiting(PipeNow()), arrived)
        decreases bytesLeft
      {
        if packetInTransitBytesLeft == 0 {
          if packetQueue.Empty() {
            break;
          }
          ghost var before := PipeNow();
          LoadKeeps(before, arrived);
          packetInTransit := packetQueue.Dequeue();
          packetInTransitBytesLeft := |packetInTransit.contents|;
          assert PipeNow() == Load(before);
        }
        ghost var loaded := PipeNow();
        var amountToSend := Min(bytesLeft, packetInTransitBytesLeft);
        SendKeeps(loaded, amountToSend, arrived);
        assert packetInTransit.arrivalTime <= thisDeliveryTime;
        assert 0 < packetInTransitBytesLeft <= PACKET_SIZE;
        assert packetInTransitBytesLeft <= |packetInTransit.contents|;
        packetInTransitBytesLeft := packetInTransitBytesLeft - amountToSend;
        bytesLeft := bytesLeft - amountToSend;
        if packetInTransitBytesLeft == 0 {
          outputQueue := outputQueue + [packetInTransit];
        }
        assert PipeNow() == Send(loaded, amountToSend);
      }
    }

    /** Use the next opportunity, due at thisDeliveryTime. */
    method BurnOne(ghost arrived: nat)
      requires InRange(cfg.heavy, CursorNow()) && packetQueue.Valid() && PipeInv(PipeNow())
      requires ArrivedBy(Waiting(PipeNow()), arrived) && arrived <= NextTime(cfg.heavy, CursorNow())
      modifies packetQueue, `nextDelivery, `linkBaseTimestamp, `finished,
               `packetInTransit, `packetInTransitBytesLeft, `outputQueue
      ensures packetQueue.Valid() && PipeInv(PipeNow()) && ArrivedBy(Waiting(PipeNow()), arrived)
      ensures LinkNow() == Link(Use(cfg.heavy, old(CursorNow())), Drain(old(PipeNow()), PACKET_SIZE))
    {
      hide Fits, Drain, Waiting, ArrivedBy, PipeInv;
      ghost var thisDeliveryTime := NextTime(cfg.heavy, CursorNow());
      UseADeliveryOpportunity();
      SendOne(arrived, thisDeliveryTime);
    }

    /** Use every opportunity due by time t, and note the time. */
    method BurnDue(t: nat, ghost arrived: nat)
      requires InRange(cfg.heavy, CursorNow()) && packetQueue.Valid() && PipeInv(PipeNow())
      requires ArrivedBy(Waiting(PipeNow()), arrived)
      requires arrived == 0 || finished || arrived < NextTime(cfg.heavy, CursorNow())
      modifies packetQueue, `nextDelivery, `linkBaseTimestamp, `finished,
               `packetInTransit, `packetInTransitBytesLeft, `outputQueue, `linkTime
      ensures packetQueue.Valid() && linkTime == t
      ensures LinkNow() == Rationalized(cfg.heavy, old(LinkNow()), t)
    {
      hide Burnt, Rationalized, Due, Fits, UseMany, Use, Drain, Waiting, ArrivedBy, PipeInv;
      ghost var l0, k: nat := LinkNow(), 0;
      BurntNone(cfg.heavy, l0, t);
      while !finished && cfg.heavy.times[nextDelivery] + linkBaseTimestamp <= t
        invariant packetQueue.Valid()
        invariant InRange(cfg.heavy, CursorNow()) && Burnt(cfg.heavy, l0, LinkNow(), k, t) && PipeInv(PipeNow())
        invariant ArrivedBy(Waiting(PipeNow()), arrived)
        invariant arrived == 0 || finished || arrived < NextTime(cfg.heavy, CursorNow())
        decreases Due(cfg.heavy, CursorNow(), t)
      {
        BurntStep(cfg.heavy, l0, LinkNow(), k, t);
        UseNotEarlier(cfg.heavy, CursorNow());
        BurnOne(arrived);
        k := k + 1;
      }
      BurntAll(cfg.heavy, l0, LinkNow(), k, t);
      linkTime := t;
    }

    /** BurnDue, seen on the value. */
    method BurnUpTo(t: nat, ghost arrived: nat)
      requires InRange(cfg.heavy, CursorNow()) && packetQueue.Valid() && PipeInv(PipeNow())
      requires ArrivedBy(Waiting(PipeNow()), arrived)
      requires arrived == 0 || finished || arrived < NextTime(cfg.heavy, CursorNow())
      modifies packetQueue, `nextDelivery, `linkBaseTimestamp, `finished,
               `packetInTransit, `packetInTransitBytesLeft, `outputQueue, `linkTime
      ensures packetQueue.Valid() && Abs() == Emulator.Rationalize(cfg, old(Abs()), t)
    {
      hide Rationalized, Fits, TotalBytes, Waiting, ArrivedBy, PipeInv, NextTime, DelayNow;
      BurnDue(t, arrived);
    }

    /** Emulate the link up to time t. */
    method Rationalize(t: nat)
      requires LinkValid() && linkTime <= t <= now
      modifies packetQueue, `nextDelivery, `linkBaseTimestamp, `finished,
               `packetInTransit, `packetInTransitBytesLeft, `outputQueue, `linkTime
      ensures LinkValid() && Abs() == Emulator.Rationalize(cfg, old(Abs()), t)
    {
      hide LinkInv, Emulator.Rationalize, Fits, TotalBytes, Waiting, ArrivedBy, PipeInv;
      LinkInvTells(cfg, Abs());
      RationalizeKeepsInv(cfg, Abs(), t);
      // With nobody waiting there is no arrival to compare a delivery time with
      BurnUpTo(t, if Waiting(PipeNow()) == [] then 0 else linkTime);
    }

    /** Hand a packet to the link; one over the maximum size is refused. */
    method PutPacketToLinkQueue(t: nat, packet: DelayQueuePacket) returns (ok: bool)
      requires LinkValid() && linkTime <= t <= now && packet.contents != ""
      modifies packetQueue, `nextDelivery, `linkBaseTimestamp, `finished, `packetInTransit, `packetInTransitBytesLeft,
               `outputQueue, `linkTime, `currentLinkQueueSize, `dropped
      ensures ok <==> |packet.contents| <= PACKET_SIZE
      ensures LinkValid() && Abs() == if ok then PutPacket(cfg, old(Abs()), t, packet) else old(Abs())
    {
      hide LinkInv, Rationalized, Fits, Enqueued, Lost, Settled;
      ghost var s := Abs();
      LinkInvTells(cfg, s);
      if |packet.contents| > PACKET_SIZE {
        return false;
      }
      RationalizeSettles(cfg, s, t);
      Rationalize(t);
      ghost var u := Abs();
      HandedKeepsLinkInv(cfg, u, ToQueued(packet, t), delayPacketQueue);
      ghost var lost := packetQueue.Enqueue(ToQueued(packet, t));
      dropped := dropped + lost;
      currentLinkQueueSize := currentLinkQueueSize + 1;
      assert Abs() == Handed(cfg, u, ToQueued(packet, t), delayPacketQueue);
      return true;
    }

    /** Write out what the link has delivered; the counter never runs below what it counts. */
    method WritePacketsFromLinkQueue()
      requires |outputQueue| <= currentLinkQueueSize
      modifies `outputQueue, `written, `currentLinkQueueSize
      ensures Abs() == Flush(old(Abs()))
    {
      hide LinkDeliveries;
      ghost var out := outputQueue;
      while outputQueue != []
        invariant written + LinkDeliveries(outputQueue) == old(written) + LinkDeliveries(out)
        invariant currentLinkQueueSize == old(currentLinkQueueSize) - (|out| - |outputQueue|)
        invariant |outputQueue| <= currentLinkQueueSize
        decreases |outputQueue|
      {
        var packet := outputQueue[0];
        var rest := outputQueue[1..];
        assert outputQueue == [packet] + rest;
        LinkDeliveriesCons(packet, rest);
        Regroup(written, [Delivery(QueuedFrame(packet), false)], LinkDeliveries(rest));
        written := written + [Delivery(QueuedFrame(packet), false)];
        outputQueue := rest;
        assert currentLinkQueueSize > 0;
        currentLinkQueueSize := currentLinkQueueSize - 1;
      }
      assert LinkDeliveries([]) == [];
    }

    // ---------- Delay queue ----------

    /** The next packet if one is ready at time t, otherwise a packet without contents. */
    method GetNextFromDelayQueue(t: nat) returns (p: DelayQueuePacket)
      requires LinkValid()
      modifies `delayPacketQueue
      ensures LinkValid()
      ensures if Ready(old(Abs()), t) then
                var i := TopIndex(old(delayPacketQueue));
                p == old(delayPacketQueue)[i] && delayPacketQueue == old(delayPacketQueue[..i] + delayPacketQueue[i + 1..])
              else p.contents == "" && delayPacketQueue == old(delayPacketQueue)
    {
      hide LinkInv, Fits, TotalBytes;
      if delayPacketQueue != [] {
        var i := TopIndex(delayPacketQueue);
        if delayPacketQueue[i].releaseTime <= t {
          p := delayPacketQueue[i];
          var rest := delayPacketQueue[..i] + delayPacketQueue[i + 1..];
          LinkInvIgnoresDelay(cfg, Abs(), rest);
          delayPacketQueue := rest;
          return p;
        }
      }
      p := DelayQueuePacket("", 0, 0, 0, true);
    }

    /** Pass on a packet taken out of the delay queue. */
    method RoutePacket(t: nat, packet: DelayQueuePacket)
      requires LinkValid() && linkTime <= t <= now && AcceptableSize(packet.contents)
      modifies packetQueue, `nextDelivery, `linkBaseTimestamp, `finished, `packetInTransit, `packetInTransitBytesLeft,
               `outputQueue, `linkTime, `currentLinkQueueSize, `dropped, `written
      ensures LinkValid() && Abs() == Route(cfg, old(Abs()), t, packet) && linkTime <= t
    {
      hide Fits, PutPacket;
      if packet.isBypassLinkQueue && currentLinkQueueSize == 0 {
        written := written + [Delivery(DelayedFrame(packet), true)];
      } else {
        PutSetsTime(cfg, Abs(), t, packet);
        var _ := PutPacketToLinkQueue(t, packet);
      }
    }

    /** Take the next packet, read at time u; target is where the moving of packets ends. */
    method TakeNext(t: nat, u: nat, ghost target: State, ghost clock: nat -> nat, ghost i: nat)
      returns (next: DelayQueuePacket)
      requires LinkValid() && linkTime <= t && PacketSizes(delayPacketQueue) && InRange(cfg.heavy, CursorNow())
      requires target == MoveDue(cfg, Abs(), u, t, clock, i)
      modifies `delayPacketQueue
      ensures LinkValid() && linkTime <= t && PacketSizes(delayPacketQueue) && InRange(cfg.heavy, CursorNow())
      ensures if next.contents == "" then target == Abs() && delayPacketQueue == old(delayPacketQueue)
              else AcceptableSize(next.contents) && |delayPacketQueue| < |old(delayPacketQueue)| &&
                   target == MoveDue(cfg, Route(cfg, Abs(), t, next), clock(i), t, clock, i + 1)
    {
      hide LinkInv, Fits, TotalBytes, MoveDue, Route;
      LinkInvTells(cfg, Abs());
      MoveDueUnfolds(cfg, Abs(), u, t, clock, i);
      next := GetNextFromDelayQueue(u);
    }

    /** Move the packets that are ready from the delay queue on; `clock(i)` is the i-th clock reading. */
    method MovePackets(t: nat, clock: nat -> nat)
      requires LinkValid() && linkTime <= t <= now && PacketSizes(delayPacketQueue)
      modifies packetQueue, `nextDelivery, `linkBaseTimestamp, `finished, `packetInTransit, `packetInTransitBytesLeft,
               `outputQueue, `linkTime, `currentLinkQueueSize, `dropped, `written, `delayPacketQueue
      ensures LinkValid() && Abs() == MoveDue(cfg, old(Abs()), clock(0), t, clock, 2)
    {
      hide LinkInv, Fits, TotalBytes, MoveDue, Route, AcceptableSize, PacketSizes;
      LinkInvTells(cfg, Abs());
      ghost var target := MoveDue(cfg, Abs(), clock(0), t, clock, 2);
      var next := TakeNext(t, clock(0), target, clock, 2);
      var i := 2;
      while next.contents != ""
        invariant LinkValid() && linkTime <= t && PacketSizes(delayPacketQueue) && InRange(cfg.heavy, CursorNow())
        invariant if next.contents == "" then target == Abs()
                  else AcceptableSize(next.contents) &&
                       target == MoveDue(cfg, Route(cfg, Abs(), t, next), clock(i), t, clock, i + 1)
        decreases |delayPacketQueue|, |next.contents|
      {
        RoutePacket(t, next);
        next := TakeNext(t, clock(i), target, clock, i + 1);
        i := i + 1;
      }
    }

    /** Move the packets that are ready on, then write out what the link has delivered. */
    method WritePackets(clock: nat -> nat)
      requires Valid() && Timely(Abs(), Write(clock))
      modifies this, packetQueue
      ensures Valid() && Abs() == Emulator.WritePackets(cfg, old(Abs()), clock)
    {
      hide FlowInv, LinkInv, DelayInv, MoveDue, Flush;
      ghost var s := Abs();
      assert clock(0) <= clock(1);
      now := clock(1);
      LinkInvTells(cfg, s);
      LaterKeepsInv(cfg, s, clock(1));
      MovePackets(clock(1), clock);
      OutputCounted(cfg, Abs());
      WritePacketsFromLinkQueue();
      StepKeepsInv(cfg, s, Write(clock));
    }

    // ---------- Waiting ----------

    method WaitTimeDelayQueue(t: nat) returns (r: nat)
      ensures r == WaitDelay(Abs(), t)
    {
      if delayPacketQueue == [] {
        return 0xFFFF;
      }
      var top := delayPacketQueue[TopIndex(delayPacketQueue)];
      if top.releaseTime <= t {
        return 0;
      }
      return (top.releaseTime - t) % TWO32;
    }

    method WaitTimeLinkQueue(t: nat) returns (r: nat)
      requires LinkValid() && linkTime <= t <= now
      modifies packetQueue, `nextDelivery, `linkBaseTimestamp, `finished,
               `packetInTransit, `packetInTransitBytesLeft, `outputQueue, `linkTime
      ensures LinkValid() && Abs() == Emulator.Rationalize(cfg, old(Abs()), t)
      ensures r == WaitLink(cfg, Abs(), t)
    {
      hide LinkInv, Rationalized, Fits, TotalBytes, ToInt32;
      Rationalize(t);
      LinkInvTells(cfg, Abs());
      var next := if finished then TWO64 - 1 else cfg.heavy.times[nextDelivery] + linkBaseTimestamp;
      var waitTime := ToInt32(next - t);
      if waitTime < 0 {
        waitTime := 0;
      }
      return waitTime;
    }

    /** The smaller of the two waits; t1 and t2 are the two clock readings. */
    method GetWaitTime(t1: nat, t2: nat) returns (r: nat)
      requires Valid() && Timely(Abs(), Wait(t1, t2))
      modifies this, packetQueue
      ensures Valid() && Abs() == Waited(cfg, old(Abs()), t2)
      ensures r == WaitTime(cfg, old(Abs()), t1, t2)
    {
      hide FlowInv, LinkInv, QueueInv, DelayInv, Rationalized, WaitLink, Fits, TotalBytes;
      ghost var s := Abs();
      StepKeepsInv(cfg, s, Wait(t1, t2));
      LinkInvTells(cfg, s);
      LaterKeepsInv(cfg, s, t2);
      var waitTimeDelay := WaitTimeDelayQueue(t1);
      now := t2;
      var waitTimeLink := WaitTimeLinkQueue(t2);
      r := Min(waitTimeDelay, waitTimeLink);
    }

    /** Is there something to write? Spelled as the source does, with the narrowed wait. */
    method PendingOutput(t: nat) returns (r: bool)
      ensures r <==> outputQueue != [] || WaitDelay(Abs(), t) == 0
      ensures Ready(Abs(), t) ==> r
    {
      var wait := WaitTimeDelayQueue(t);
      r := outputQueue != [] || wait <= 0;
    }

    // ---------- Reading ----------

    /** Find the instance in force, going on from the last one and wrapping around the trace. */
    method FindInstance(time: nat) returns (rel: nat)
      requires currentDelayPdoIdx <= |cfg.delay.trace| - 2 && delayBaseTimestamp <= time
      requires cfg.delay.trace[currentDelayPdoIdx].time <= time - delayBaseTimestamp
      modifies `currentDelayPdoIdx, `delayBaseTimestamp
      ensures rel == PassTime(cfg.delay.trace, old(delayBaseTimestamp), time)
      ensures currentDelayPdoIdx == Lookup(cfg.delay.trace, rel) <= |cfg.delay.trace| - 2
      ensures delayBaseTimestamp == time - rel
    {
      var trace := cfg.delay.trace;
      ghost var span, laps := Span(trace), 0;
      rel := time - delayBaseTimestamp;
      while trace[currentDelayPdoIdx + 1].time <= rel
        invariant currentDelayPdoIdx <= |trace| - 2 && trace[currentDelayPdoIdx].time <= rel
        invariant delayBaseTimestamp + rel == time
        invariant time - old(delayBaseTimestamp) == laps * span + rel
        decreases rel, |trace| - currentDelayPdoIdx
      {
        currentDelayPdoIdx := currentDelayPdoIdx + 1;
        if currentDelayPdoIdx >= |trace| - 1 {
          delayBaseTimestamp := delayBaseTimestamp + trace[currentDelayPdoIdx].time;
          rel := time - delayBaseTimestamp;
          currentDelayPdoIdx := 0;
          laps := laps + 1;
        }
      }
      assert trace[currentDelayPdoIdx + 1].time <= span;
      DivModUnique(time - old(delayBaseTimestamp), span, laps, rel);
      LookupIsUnique(trace, rel, currentDelayPdoIdx);
    }

    /** Find the light opportunity for a packet in the current instance, and take its bytes. */
    method TakeSlot(elapsed: int, size: nat)
      requires currentDelayPdoIdx < |cfg.delay.trace| && currentPdoSize == |cfg.delay.trace[currentDelayPdoIdx].pdo|
      requires 0 <= currDeliveryOpportunity <= PACKET_SIZE && size <= PACKET_SIZE
      modifies `currentPdoIdx, `currDeliveryOpportunity
      ensures (currentPdoIdx, currDeliveryOpportunity) ==
              ChooseSlot(cfg.delay.trace[currentDelayPdoIdx].pdo, old(DelayNow()), elapsed, size)
    {
      var pdo := cfg.delay.trace[currentDelayPdoIdx].pdo;
      while currentPdoIdx < currentPdoSize && elapsed > pdo[currentPdoIdx]
        invariant old(currentPdoIdx) <= currentPdoIdx
        invariant FirstNotPassed(pdo, old(currentPdoIdx), elapsed) == FirstNotPassed(pdo, currentPdoIdx, elapsed)
        invariant currDeliveryOpportunity ==
                  if currentPdoIdx > old(currentPdoIdx) then PACKET_SIZE else old(currDeliveryOpportunity)
        decreases currentPdoSize - currentPdoIdx
      {
        currentPdoIdx := currentPdoIdx + 1;
        currDeliveryOpportunity := PACKET_SIZE;
      }
      if currDeliveryOpportunity < size {
        currentPdoIdx := currentPdoIdx + 1;
        currDeliveryOpportunity := PACKET_SIZE;
      }
      currDeliveryOpportunity := currDeliveryOpportunity - size;
    }

    /** Start a new instance with this packet. */
    method BeginInstance(time: nat, size: nat) returns (release: nat)
      requires size <= PACKET_SIZE && currentDelayPdoIdx <= |cfg.delay.trace| - 2 && delayBaseTimestamp <= time
      requires cfg.delay.trace[currentDelayPdoIdx].time <= time - delayBaseTimestamp
      modifies `currentDelayPdoIdx, `delayBaseTimestamp, `currentPdoSize, `currentBaseDelay, `bypassLinkPdo,
               `pdoBaseTimestamp, `currentPdoIdx, `currDeliveryOpportunity, `lastDelayQueueReleaseTime
      ensures DelayNow() == StartInstance(cfg.delay.trace, old(DelayNow()), time, size)
      ensures release == lastDelayQueueReleaseTime
    {
      hide PassTime, Lookup, Interpolated;
      var trace := cfg.delay.trace;
      var rel := FindInstance(time);
      LookupIsUnique(trace, rel, currentDelayPdoIdx);
      currentPdoSize := |trace[currentDelayPdoIdx].pdo|;
      var delay := Interpolated(trace, currentDelayPdoIdx, rel);
      InterpolatedBetween(trace, currentDelayPdoIdx, rel);
      currentBaseDelay := delay;
      release := time + delay;
      bypassLinkPdo := true;
      pdoBaseTimestamp := rel;
      currentPdoIdx := 0;
      currDeliveryOpportunity := PACKET_SIZE - size;
      lastDelayQueueReleaseTime := release;
    }

    /** Place this packet in the current instance. */
    method ContinueInstance(time: nat, size: nat) returns (release: nat)
      requires size <= PACKET_SIZE && Tracking(cfg.delay.trace, DelayNow()) && InstanceStart(DelayNow()) <= time
      modifies `bypassLinkPdo, `currentPdoIdx, `currDeliveryOpportunity, `lastDelayQueueReleaseTime
      ensures DelayNow() == UseInstance(cfg.delay.trace, old(DelayNow()), time, size)
      ensures release == lastDelayQueueReleaseTime
    {
      hide ChooseSlot;
      var pdo := cfg.delay.trace[currentDelayPdoIdx].pdo;
      assert ValidPdo(pdo);
      var elapsed := time - delayBaseTimestamp - pdoBaseTimestamp;
      ChosenSlotAhead(cfg.delay.trace, DelayNow(), elapsed, size);
      TakeSlot(elapsed, size);
      if currentPdoIdx >= currentPdoSize {
        bypassLinkPdo := false;
        release := Max(time + currentBaseDelay, time + pdo[currentPdoSize - 1]);
      } else {
        assert pdo[currentPdoIdx] >= elapsed;
        release := time + currentBaseDelay + (pdo[currentPdoIdx] - elapsed);
        bypassLinkPdo := true;
      }
      lastDelayQueueReleaseTime := release;
    }

    /** Release time from base delay and light opportunities. */
    method GetPktReleaseTime(time: nat, size: nat) returns (release: nat)
      requires startTick && size <= PACKET_SIZE
      requires if currentBaseDelay < 0 then delayBaseTimestamp <= time && currentDelayPdoIdx == 0
               else Tracking(cfg.delay.trace, DelayNow()) && InstanceStart(DelayNow()) <= time
      modifies `currentDelayPdoIdx, `delayBaseTimestamp, `currentPdoSize, `currentBaseDelay, `bypassLinkPdo,
               `pdoBaseTimestamp, `currentPdoIdx, `currDeliveryOpportunity, `lastDelayQueueReleaseTime
      ensures DelayNow() == Release(cfg.delay, old(DelayNow()), time, size)
      ensures release == lastDelayQueueReleaseTime
    {
      hide StartInstance, UseInstance;
      if currentBaseDelay < 0 || time + currentBaseDelay > AddWrapping(lastDelayQueueReleaseTime, cfg.delay.timer) {
        release := BeginInstance(time, size);
      } else {
        release := ContinueInstance(time, size);
      }
    }

    /** Apply the size offset unless it would reorder, then clamp to the latest release so far. */
    method AdjustRelease(raw: nat, offset: int) returns (release: nat)
      requires raw == lastDelayQueueReleaseTime
      modifies `bypassLinkPdo, `endReleaseTime
      ensures DelayNow() == Clamped(old(DelayNow()), offset)
      ensures release == endReleaseTime
    {
      release := raw;
      if AddWrapping(release, offset) >= endReleaseTime {
        release := AddWrapping(release, offset);
      }
      if release < endReleaseTime {
        release := endReleaseTime;
        bypassLinkPdo := false;
      }
      assert release >= endReleaseTime;
      endReleaseTime := release;
    }

    /** Start both clocks with the first packet, and find the release time of this one. */
    method DelayPacket(t: nat, size: nat) returns (release: nat)
      requires DelayInv(cfg.delay.trace, DelayNow(), t) && size <= PACKET_SIZE
      modifies `startTick, `linkBaseTimestamp, `endReleaseTime,
               `currentDelayPdoIdx, `delayBaseTimestamp, `currentPdoSize, `currentBaseDelay, `bypassLinkPdo,
               `pdoBaseTimestamp, `currentPdoIdx, `currDeliveryOpportunity, `lastDelayQueueReleaseTime
      ensures DelayNow() == ReadDelay(cfg.delay, old(DelayNow()), t, size)
      ensures release == endReleaseTime
      ensures linkBaseTimestamp == if old(startTick) then old(linkBaseTimestamp) else t
    {
      hide Release, Clamped, LatencyOffset;
      if !startTick {
        startTick := true;
        linkBaseTimestamp := t;
        delayBaseTimestamp := t;
      }
      var raw := GetPktReleaseTime(t, size);
      release := AdjustRelease(raw, LatencyOffset(cfg.delay.offsets, size));
    }

    /** Number a packet and insert it into the priority queue. */
    method Insert(contents: string, t: nat, release: nat)
      modifies `delayPacketQueue, `pktCounter, `accepted, `now
      ensures var p := DelayQueuePacket(contents, t, old(pktCounter), release, bypassLinkPdo);
              delayPacketQueue == old(delayPacketQueue) + [p] && accepted == old(accepted) + [DelayedFrame(p)]
      ensures pktCounter == old(pktCounter) + 1 && now == t
    {
      var packet := DelayQueuePacket(contents, t, pktCounter, release, bypassLinkPdo);
      delayPacketQueue := delayPacketQueue + [packet];
      pktCounter := pktCounter + 1;
      accepted, now := accepted + [DelayedFrame(packet)], t;
    }

    /** Delay a packet and insert it, field by field. */
    method DelayAndInsert(contents: string, t: nat)
      requires DelayInv(cfg.delay.trace, DelayNow(), t) && AcceptableSize(contents)
      modifies `startTick, `linkBaseTimestamp, `endReleaseTime,
               `currentDelayPdoIdx, `delayBaseTimestamp, `currentPdoSize, `currentBaseDelay, `bypassLinkPdo,
               `pdoBaseTimestamp, `currentPdoIdx, `currDeliveryOpportunity, `lastDelayQueueReleaseTime,
               `delayPacketQueue, `pktCounter, `accepted, `now
      ensures DelayNow() == ReadDelay(cfg.delay, old(DelayNow()), t, |contents|)
      ensures linkBaseTimestamp == if old(startTick) then old(linkBaseTimestamp) else t
      ensures var p := DelayQueuePacket(contents, t, old(pktCounter), endReleaseTime, bypassLinkPdo);
              delayPacketQueue == old(delayPacketQueue) + [p] && accepted == old(accepted) + [DelayedFrame(p)]
      ensures pktCounter == old(pktCounter) + 1 && now == t
    {
      hide DelayInv, ReadDelay;
      var release := DelayPacket(t, |contents|);
      Insert(contents, t, release);
    }

    /** Put a packet of acceptable size into the delay stage. */
    method Admit(contents: string, t: nat)
      requires DelayInv(cfg.delay.trace, DelayNow(), t) && AcceptableSize(contents)
      modifies this
      ensures Abs() == Emulator.ReadPacket(cfg, old(Abs()), t, contents)
    {
      hide DelayInv, ReadDelay, AcceptableSize, Emulator.ReadPacket, PipeNow;
      ReadPacketValue(cfg, Abs(), t, contents);
      DelayAndInsert(contents, t);
    }

    /** Accept a packet of acceptable size into the delay stage. */
    method AcceptPacket(contents: string, t: nat)
      requires Valid() && now <= t && AcceptableSize(contents)
      modifies this
      ensures Valid() && Abs() == Step(cfg, old(Abs()), Read(t, contents))
    {
      hide Inv, LinkInv, DelayInv, Step, ReadDelay, Fits, TotalBytes, Emulator.ReadPacket, AcceptableSize;
      ReadIsStep(cfg, Abs(), t, contents);
      Admit(contents, t);
    }

    /** Accept a packet into the delay stage, or refuse it for its size. */
    method ReadPacket(contents: string, t: nat) returns (r: Result<(), ReadError>)
      requires Valid() && Timely(Abs(), Read(t, contents))
      modifies this
      ensures Valid() && Abs() == Step(cfg, old(Abs()), Read(t, contents))
      ensures r == if |contents| < IP_HEADER_SIZE then Err(PacketTooSmall)
                   else if |contents| > PACKET_SIZE then Err(PacketTooLarge) else Ok(())
    {
      hide LinkInv, FlowInv, QueueInv, DelayInv, LinkValid, Step;
      InvTells(cfg, Abs());
      if |contents| < IP_HEADER_SIZE {
        RefusedPacket(cfg, Abs(), t, contents);
        r := Err(PacketTooSmall);
      } else if |contents| > PACKET_SIZE {
        RefusedPacket(cfg, Abs(), t, contents);
        r := Err(PacketTooLarge);
      } else {
        AcceptPacket(contents, t);
        r := Ok(());
      }
    }
  }
}
