/** The delay stage: base delay, packing into light delivery opportunities, release times. */
module DelayStage {
  import opened Arithmetic
  import opened Packets
  import opened DelayTrace

  datatype DelayConfig = DelayConfig(trace: Trace, offsets: seq<real>, timer: Int32)

  datatype DelayState = DelayState(
    startTick: bool,
    delayBase: nat,      // when the current pass over the trace began
    traceIdx: nat,       // instance in force
    pdoIdx: nat,         // light opportunity in use; pdoSize or more once they are used up
    pdoSize: nat,
    pdoBase: nat,        // start of the instance, relative to delayBase
    baseDelay: int,      // -1 before the first packet
    opportunity: int,    // bytes left in the light opportunity in use
    bypass: bool,
    endRelease: nat,     // largest final release time so far
    lastRelease: nat)    // last release time before offset and clamp

  /** As constructed at time t. */
  function Fresh(t: nat): DelayState
  {
    DelayState(false, t, 0, 0, 1, 0, -1, PACKET_SIZE, true, 0, 0)
  }

  function InstanceStart(d: DelayState): nat
  {
    d.delayBase + d.pdoBase
  }

  /** The fields describe an instance of the trace and the last packet placed in it. */
  predicate Tracking(tr: Trace, d: DelayState)
  {
    && d.traceIdx <= |tr| - 2
    && tr[d.traceIdx].time <= d.pdoBase < tr[d.traceIdx + 1].time
    && d.pdoSize == |tr[d.traceIdx].pdo|
    && d.baseDelay == Interpolated(tr, d.traceIdx, d.pdoBase) >= 0
    && 0 <= d.opportunity <= PACKET_SIZE
    && (d.pdoIdx < d.pdoSize ==> d.lastRelease == InstanceStart(d) + d.baseDelay + tr[d.traceIdx].pdo[d.pdoIdx])
  }

  predicate DelayInv(tr: Trace, d: DelayState, now: nat)
  {
    if d.startTick then Tracking(tr, d) && InstanceStart(d) <= now
    else d == Fresh(d.delayBase) && d.delayBase <= now
  }

  // ---------- One read ----------

  /** A new instance starts with the first packet, or once the stage has been idle long enough. */
  predicate Restarts(timer: Int32, d: DelayState, time: nat)
  {
    d.baseDelay < 0 || time + d.baseDelay > AddWrapping(d.lastRelease, timer)
  }

  lemma ModWithin(x: nat, n: nat)
    requires n > 0
    ensures 0 <= x % n <= x && x % n < n
  {
    if x < n {
      DivModUnique(x, n, 0, x);
    }
  }

  /** Position of `time` in the current pass, wrapping around the trace. */
  function PassTime(tr: Trace, base: nat, time: nat): (r: nat)
    requires base <= time
    ensures r <= time - base && r < Span(tr)
  {
    ModWithin(time - base, Span(tr));
    (time - base) % Span(tr)
  }

  /** Start the instance the stateless lookup names, and place the packet in its first slot. */
  function StartInstance(tr: Trace, d: DelayState, time: nat, size: nat): (r: DelayState)
    requires d.delayBase <= time && size <= PACKET_SIZE
    ensures Tracking(tr, r) && InstanceStart(r) == time
  {
    var rel := PassTime(tr, d.delayBase, time);
    var i := Lookup(tr, rel);
    LookupIsUnique(tr, rel, i);
    InterpolatedBetween(tr, i, rel);
    var delay := Interpolated(tr, i, rel);
    d.(delayBase := time - rel, traceIdx := i, pdoIdx := 0, pdoSize := |tr[i].pdo|, pdoBase := rel,
       baseDelay := delay, opportunity := PACKET_SIZE - size, bypass := true, lastRelease := time + delay)
  }

  /** First opportunity from k on that has not passed after `elapsed` ms. */
  function FirstNotPassed(pdo: seq<int>, k: nat, elapsed: int): (r: nat)
    ensures k <= r && (k <= |pdo| ==> r <= |pdo|)
    ensures r < |pdo| ==> elapsed <= pdo[r]
    ensures forall j :: k <= j < r ==> j < |pdo| && pdo[j] < elapsed
    decreases |pdo| - k
  {
    if k < |pdo| && elapsed > pdo[k] then FirstNotPassed(pdo, k + 1, elapsed) else k
  }

  /** Slot and bytes left in it for a packet that stays in the current instance. */
  function ChooseSlot(pdo: seq<int>, d: DelayState, elapsed: int, size: nat): (r: (nat, int))
    requires 0 <= d.opportunity <= PACKET_SIZE && size <= PACKET_SIZE
    ensures d.pdoIdx <= r.0 && 0 <= r.1 <= PACKET_SIZE - size
    ensures r.0 == d.pdoIdx ==> r.1 == d.opportunity - size
  {
    var k := FirstNotPassed(pdo, d.pdoIdx, elapsed);
    var room := if k > d.pdoIdx then PACKET_SIZE else d.opportunity;
    if room < size then (k + 1, PACKET_SIZE - size) else (k, room - size)
  }

  /** The chosen light opportunity is still to come: the assert of the source. */
  lemma ChosenSlotAhead(tr: Trace, d: DelayState, elapsed: int, size: nat)
    requires Tracking(tr, d) && size <= PACKET_SIZE
    ensures var pdo := tr[d.traceIdx].pdo;
            var k := ChooseSlot(pdo, d, elapsed, size).0;
            k < |pdo| ==> pdo[k] >= elapsed
  {
  }

  /** Place the packet in the current instance. */
  function UseInstance(tr: Trace, d: DelayState, time: nat, size: nat): (r: DelayState)
    requires Tracking(tr, d) && InstanceStart(d) <= time && size <= PACKET_SIZE
    ensures Tracking(tr, r) && InstanceStart(r) == InstanceStart(d)
  {
    var pdo := tr[d.traceIdx].pdo;
    assert ValidPdo(pdo);
    var (k, room) := ChooseSlot(pdo, d, time - InstanceStart(d), size);
    if k >= |pdo| then
      d.(pdoIdx := k, opportunity := room, bypass := false,
         lastRelease := Max(time + d.baseDelay, time + pdo[|pdo| - 1]))
    else
      d.(pdoIdx := k, opportunity := room, bypass := true,
         lastRelease := InstanceStart(d) + d.baseDelay + pdo[k])
  }

  /** Release time from base delay and light opportunities. */
  function Release(cfg: DelayConfig, d: DelayState, time: nat, size: nat): (r: DelayState)
    requires if d.baseDelay < 0 then d.delayBase <= time else Tracking(cfg.trace, d) && InstanceStart(d) <= time
    requires size <= PACKET_SIZE
    ensures Tracking(cfg.trace, r) && InstanceStart(r) <= time
  {
    if Restarts(cfg.timer, d, time) then StartInstance(cfg.trace, d, time, size)
    else UseInstance(cfg.trace, d, time, size)
  }

  /** Apply the size offset unless it would reorder, then clamp to the latest release so far. */
  function Clamped(d: DelayState, offset: int): (r: DelayState)
    ensures r.endRelease >= d.endRelease
  {
    var shifted := AddWrapping(d.lastRelease, offset);
    var release := if shifted >= d.endRelease then shifted else d.lastRelease;
    if release < d.endRelease then d.(bypass := false) else d.(endRelease := release)
  }

  function Started(d: DelayState, now: nat): DelayState
  {
    if d.startTick then d else d.(startTick := true, delayBase := now)
  }

  /** The delay stage after `read_packet` accepts a packet; its release time is `endRelease`. */
  function ReadDelay(cfg: DelayConfig, d: DelayState, now: nat, size: nat): (r: DelayState)
    requires DelayInv(cfg.trace, d, now) && size <= PACKET_SIZE
    ensures DelayInv(cfg.trace, r, now) && r.startTick
  {
    Clamped(Release(cfg, Started(d, now), now, size), LatencyOffset(cfg.offsets, size))
  }

  // ---------- Release times ----------

  /** Where the packet read at `time` was placed: a light slot k releases at start + base delay + pdo[k],
      with pdo[k] still to come; past the last slot the packet waits for the larger of base delay and
      last slot, and cannot bypass the link. */
  predicate PlacedAt(tr: Trace, d: DelayState, time: nat)
  {
    && Tracking(tr, d)
    && var pdo := tr[d.traceIdx].pdo;
       if d.pdoIdx < |pdo| then
         && d.lastRelease == InstanceStart(d) + d.baseDelay + pdo[d.pdoIdx]
         && InstanceStart(d) + pdo[d.pdoIdx] >= time
       else
         && d.lastRelease == Max(time + d.baseDelay, time + pdo[|pdo| - 1])
         && !d.bypass
  }

  lemma StartPlaced(tr: Trace, d: DelayState, time: nat, size: nat)
    requires d.delayBase <= time && size <= PACKET_SIZE
    ensures PlacedAt(tr, StartInstance(tr, d, time, size), time)
  {
    assert ValidPdo(tr[StartInstance(tr, d, time, size).traceIdx].pdo);
  }

  lemma UsePlaced(tr: Trace, d: DelayState, time: nat, size: nat)
    requires Tracking(tr, d) && InstanceStart(d) <= time && size <= PACKET_SIZE
    ensures PlacedAt(tr, UseInstance(tr, d, time, size), time)
  {
    ChosenSlotAhead(tr, d, time - InstanceStart(d), size);
  }

  lemma ReleasePlaced(cfg: DelayConfig, d: DelayState, time: nat, size: nat)
    requires if d.baseDelay < 0 then d.delayBase <= time else Tracking(cfg.trace, d) && InstanceStart(d) <= time
    requires size <= PACKET_SIZE
    ensures PlacedAt(cfg.trace, Release(cfg, d, time, size), time)
  {
    hide StartInstance, UseInstance, PlacedAt;
    if Restarts(cfg.timer, d, time) {
      StartPlaced(cfg.trace, d, time, size);
    } else {
      UsePlaced(cfg.trace, d, time, size);
    }
  }

  lemma ClampKeepsPlaced(tr: Trace, d: DelayState, offset: int, time: nat)
    requires PlacedAt(tr, d, time)
    ensures PlacedAt(tr, Clamped(d, offset), time)
  {
  }

  lemma ReadPlaced(cfg: DelayConfig, d: DelayState, now: nat, size: nat)
    requires DelayInv(cfg.trace, d, now) && size <= PACKET_SIZE
    ensures PlacedAt(cfg.trace, ReadDelay(cfg, d, now, size), now)
  {
    hide Release, Clamped, PlacedAt, LatencyOffset;
    ReleasePlaced(cfg, Started(d, now), now, size);
    ClampKeepsPlaced(cfg.trace, Release(cfg, Started(d, now), now, size), LatencyOffset(cfg.offsets, size), now);
  }

  /** A placed packet is never released before its own base delay. */
  lemma PlacedNotEarly(tr: Trace, d: DelayState, time: nat)
    requires PlacedAt(tr, d, time)
    ensures d.lastRelease >= time + d.baseDelay
  {
  }

  /** Clamping never goes back, and with a nonnegative offset never below the unclamped time. */
  lemma ClampBounds(d: DelayState, offset: int)
    ensures Clamped(d, offset).endRelease >= d.endRelease
    ensures offset >= 0 ==> Clamped(d, offset).endRelease >= d.lastRelease
    ensures Clamped(d, offset).lastRelease == d.lastRelease && Clamped(d, offset).baseDelay == d.baseDelay
  {
  }

  /** Release times never go back; with nonnegative offsets none is before arrival plus base delay. */
  lemma ReleaseBounds(cfg: DelayConfig, d: DelayState, now: nat, size: nat)
    requires DelayInv(cfg.trace, d, now) && size <= PACKET_SIZE
    ensures var r := ReadDelay(cfg, d, now, size);
            && r.endRelease >= d.endRelease
            && r.lastRelease >= now + r.baseDelay
            && (NonnegativeOffsets(cfg.offsets) ==> r.endRelease >= now + r.baseDelay)
  {
    ReadPlaced(cfg, d, now, size);
    PlacedNotEarly(cfg.trace, ReadDelay(cfg, d, now, size), now);
    var released := Release(cfg, Started(d, now), now, size);
    assert released.endRelease == d.endRelease;
    ClampBounds(released, LatencyOffset(cfg.offsets, size));
    if NonnegativeOffsets(cfg.offsets) {
      LatencyOffsetNonnegative(cfg.offsets, size);
    }
    hide StartInstance, UseInstance, Release, Restarts, Clamped, LatencyOffset, DelayInv, PlacedAt, Tracking;
  }

  lemma ClampTells(d: DelayState, offset: int)
    ensures var r := Clamped(d, offset);
            var shifted := AddWrapping(d.lastRelease, offset);
            && (shifted >= d.endRelease ==> r.endRelease == shifted)
            && (shifted < d.endRelease <= d.lastRelease ==> r.endRelease == d.lastRelease)
            && (shifted < d.endRelease && d.lastRelease < d.endRelease ==> r.endRelease == d.endRelease)
            && (r.bypass <==> d.bypass && (shifted >= d.endRelease || d.lastRelease >= d.endRelease))
            && r.lastRelease == d.lastRelease && InstanceStart(r) == InstanceStart(d) && r.pdoIdx == d.pdoIdx
            && r.traceIdx == d.traceIdx && r.pdoSize == d.pdoSize && r.baseDelay == d.baseDelay
  {
  }

  lemma ReleaseBypass(cfg: DelayConfig, d: DelayState, time: nat, size: nat)
    requires if d.baseDelay < 0 then d.delayBase <= time else Tracking(cfg.trace, d) && InstanceStart(d) <= time
    requires size <= PACKET_SIZE
    ensures var r := Release(cfg, d, time, size); r.bypass <==> r.pdoIdx < r.pdoSize
  {
    if Restarts(cfg.timer, d, time) {
      assert ValidPdo(cfg.trace[StartInstance(cfg.trace, d, time, size).traceIdx].pdo);
    }
  }

  /** A packet may bypass the link exactly when it found a light slot and was not clamped; and then it is
      released at the recorded time of that slot, with or without its size offset. */
  lemma BypassExactly(cfg: DelayConfig, d: DelayState, now: nat, size: nat)
    requires DelayInv(cfg.trace, d, now) && size <= PACKET_SIZE
    ensures var r := ReadDelay(cfg, d, now, size);
            var offset := LatencyOffset(cfg.offsets, size);
            var shifted := AddWrapping(r.lastRelease, offset);
            && (r.bypass <==> r.pdoIdx < r.pdoSize && (shifted >= d.endRelease || r.lastRelease >= d.endRelease))
            && (r.bypass ==>
                  var slot := InstanceStart(r) + r.baseDelay + cfg.trace[r.traceIdx].pdo[r.pdoIdx];
                  slot >= 0 && (r.endRelease == slot || r.endRelease == AddWrapping(slot, offset)))
            && (!r.bypass && r.pdoIdx < r.pdoSize ==> r.endRelease == d.endRelease)
  {
    hide Release, Clamped, LatencyOffset;
    var m := Release(cfg, Started(d, now), now, size);
    ReleaseBypass(cfg, Started(d, now), now, size);
    ReleaseKeepsEnd(cfg, Started(d, now), now, size);
    ClampTells(m, LatencyOffset(cfg.offsets, size));
  }

  lemma ReleaseKeepsEnd(cfg: DelayConfig, d: DelayState, time: nat, size: nat)
    requires if d.baseDelay < 0 then d.delayBase <= time else Tracking(cfg.trace, d) && InstanceStart(d) <= time
    requires size <= PACKET_SIZE
    ensures Release(cfg, d, time, size).endRelease == d.endRelease
  {
  }

  /** While the last packet used light slot k, a new instance starts iff the instance is older than
      pdo[k] by more than the timer. A negative timer that exceeds the last release wraps the sum
      around instead, and then only a time that reaches it does. */
  lemma RestartExactly(tr: Trace, timer: Int32, d: DelayState, time: nat)
    requires Tracking(tr, d) && d.pdoIdx < d.pdoSize && InstanceStart(d) <= time
    ensures Restarts(timer, d, time) <==>
            if d.lastRelease + timer >= 0 then time - InstanceStart(d) > tr[d.traceIdx].pdo[d.pdoIdx] + timer
            else time + d.baseDelay > d.lastRelease + timer + TWO64
  {
    if d.lastRelease + timer < 0 {
      DivModUnique(d.lastRelease + timer, TWO64, -1, d.lastRelease + timer + TWO64);
    }
  }

  /** The clock skips a recorded slot exactly when the packet comes after the slot in use but within
      the timer of it; so never with the default timer 0. */
  lemma SlotSkippedExactly(tr: Trace, timer: Int32, d: DelayState, time: nat)
    requires Tracking(tr, d) && d.pdoIdx < d.pdoSize && InstanceStart(d) <= time
    ensures var pdo := tr[d.traceIdx].pdo;
            var elapsed := time - InstanceStart(d);
            !Restarts(timer, d, time) && FirstNotPassed(pdo, d.pdoIdx, elapsed) > d.pdoIdx
            <==> pdo[d.pdoIdx] < elapsed &&
                 if d.lastRelease + timer >= 0 then elapsed <= pdo[d.pdoIdx] + timer
                 else time + d.baseDelay <= d.lastRelease + timer + TWO64
  {
    RestartExactly(tr, timer, d, time);
  }

  // ---------- Runs of reads ----------

  /** An accepted packet: when it is read and its size. */
  datatype Arrival = Arrival(time: nat, size: nat)

  predicate InOrder(now: nat, arrivals: seq<Arrival>)
    decreases |arrivals|
  {
    arrivals == [] ||
    (now <= arrivals[0].time && arrivals[0].size <= PACKET_SIZE && InOrder(arrivals[0].time, arrivals[1..]))
  }

  lemma DelayInvLater(tr: Trace, d: DelayState, now: nat, later: nat)
    requires DelayInv(tr, d, now) && now <= later
    ensures DelayInv(tr, d, later)
  {
  }

  // ---------- Packing ----------

  /** Where one packet went, and the state it left. */
  datatype Placement = Placement(instance: nat, slot: nat, size: nat, time: nat, after: DelayState)

  /** Place one packet, seen from a state in instance n. */
  function Place(cfg: DelayConfig, d: DelayState, n: nat, t: nat, size: nat): Placement
    requires DelayInv(cfg.trace, d, t) && size <= PACKET_SIZE
  {
    var after := ReadDelay(cfg, d, t, size);
    Placement(if Restarts(cfg.timer, Started(d, t), t) then n + 1 else n, after.pdoIdx, size, t, after)
  }

  /** The placements of a run of reads; instances are numbered from n. */
  function Placements(cfg: DelayConfig, d: DelayState, n: nat, now: nat, arrivals: seq<Arrival>): (r: seq<Placement>)
    requires DelayInv(cfg.trace, d, now) && InOrder(now, arrivals)
    ensures |r| == |arrivals|
    decreases |arrivals|
  {
    if arrivals == [] then []
    else
      var t := arrivals[0].time;
      DelayInvLater(cfg.trace, d, now, t);
      var p := Place(cfg, d, n, t, arrivals[0].size);
      [p] + Placements(cfg, p.after, p.instance, t, arrivals[1..])
  }

  function SlotBytes(log: seq<Placement>, n: nat, k: nat): nat
  {
    if log == [] then 0
    else (if log[0].instance == n && log[0].slot == k then log[0].size else 0) + SlotBytes(log[1..], n, k)
  }

  /** Bytes a slot can still take, seen from a state in instance n. */
  function Room(d: DelayState, n: nat, i: nat, k: nat): int
  {
    if i > n || (i == n && k > d.pdoIdx) then PACKET_SIZE
    else if i == n && k == d.pdoIdx then d.opportunity
    else 0
  }

  /** One placement takes its size out of exactly one slot and reopens none. */
  lemma StepRoom(cfg: DelayConfig, d: DelayState, n: nat, t: nat, size: nat, i: nat, k: nat)
    requires DelayInv(cfg.trace, d, t) && size <= PACKET_SIZE
    ensures var p := Place(cfg, d, n, t, size);
            && Room(p.after, p.instance, i, k) + (if i == p.instance && k == p.slot then size else 0)
               <= Room(d, n, i, k) <= PACKET_SIZE
  {
  }

  /** No slot of any instance ever takes more than its room, so never more than 1400 bytes. */
  lemma {:induction false} SlotCapacity(cfg: DelayConfig, d: DelayState, n: nat, now: nat, arrivals: seq<Arrival>, i: nat, k: nat)
    requires DelayInv(cfg.trace, d, now) && InOrder(now, arrivals)
    ensures SlotBytes(Placements(cfg, d, n, now, arrivals), i, k) <= Room(d, n, i, k) <= PACKET_SIZE
    decreases |arrivals|
  {
    if arrivals != [] {
      var t := arrivals[0].time;
      DelayInvLater(cfg.trace, d, now, t);
      var p := Place(cfg, d, n, t, arrivals[0].size);
      var rest := Placements(cfg, p.after, p.instance, t, arrivals[1..]);
      assert ([p] + rest)[1..] == rest;
      SlotCapacity(cfg, p.after, p.instance, t, arrivals[1..], i, k);
      StepRoom(cfg, d, n, t, arrivals[0].size, i, k);
    }
  }

  /** The placement is in a later instance, or in the same one at no earlier slot. */
  predicate NotBefore(n: nat, slot: nat, p: Placement)
  {
    n < p.instance || (n == p.instance && slot <= p.slot)
  }

  predicate Advancing(n: nat, slot: nat, log: seq<Placement>)
  {
    && (forall j :: 0 <= j < |log| ==> NotBefore(n, slot, log[j]))
    && (forall i, j :: 0 <= i <= j < |log| ==> NotBefore(log[i].instance, log[i].slot, log[j]))
  }

  lemma AdvancingCons(n: nat, slot: nat, p: Placement, rest: seq<Placement>)
    requires NotBefore(n, slot, p) && Advancing(p.instance, p.slot, rest)
    ensures Advancing(n, slot, [p] + rest)
  {
    var log := [p] + rest;
    assert forall j :: 0 < j < |log| ==> log[j] == rest[j - 1];
  }

  lemma StepAdvances(cfg: DelayConfig, d: DelayState, n: nat, t: nat, size: nat)
    requires DelayInv(cfg.trace, d, t) && size <= PACKET_SIZE
    ensures NotBefore(n, d.pdoIdx, Place(cfg, d, n, t, size))
  {
  }

  /** Instances never go back, and within one instance slots never do. */
  lemma {:induction false} SlotsAdvance(cfg: DelayConfig, d: DelayState, n: nat, now: nat, arrivals: seq<Arrival>)
    requires DelayInv(cfg.trace, d, now) && InOrder(now, arrivals)
    ensures Advancing(n, d.pdoIdx, Placements(cfg, d, n, now, arrivals))
    decreases |arrivals|
  {
    if arrivals != [] {
      var t := arrivals[0].time;
      DelayInvLater(cfg.trace, d, now, t);
      var p := Place(cfg, d, n, t, arrivals[0].size);
      SlotsAdvance(cfg, p.after, p.instance, t, arrivals[1..]);
      StepAdvances(cfg, d, n, t, arrivals[0].size);
      AdvancingCons(n, d.pdoIdx, p, Placements(cfg, p.after, p.instance, t, arrivals[1..]));
    }
  }

  lemma {:induction false} PlacementsRight(cfg: DelayConfig, d: DelayState, n: nat, now: nat,
                                           arrivals: seq<Arrival>, j: nat)
    requires DelayInv(cfg.trace, d, now) && InOrder(now, arrivals) && j < |arrivals|
    ensures var p := Placements(cfg, d, n, now, arrivals)[j];
            p.time == arrivals[j].time && p.size == arrivals[j].size && p.slot == p.after.pdoIdx
            && PlacedAt(cfg.trace, p.after, p.time)
    decreases j
  {
    hide PlacedAt, DelayInv, ReadDelay;
    var t := arrivals[0].time;
    DelayInvLater(cfg.trace, d, now, t);
    var p := Place(cfg, d, n, t, arrivals[0].size);
    if j == 0 {
      ReadPlaced(cfg, d, t, arrivals[0].size);
    } else {
      PlacementsRight(cfg, p.after, p.instance, t, arrivals[1..], j - 1);
    }
  }

  // ---------- The cursor, without its history ----------

  /** The recorded instance in force at time t, when the trace began at `first` and repeats. */
  function InForce(tr: Trace, first: nat, t: nat): (i: nat)
    requires first <= t
    ensures i <= |tr| - 2 && tr[i].time <= PassTime(tr, first, t) < tr[i + 1].time
  {
    LookupIsUnique(tr, PassTime(tr, first, t), 0);
    Lookup(tr, PassTime(tr, first, t))
  }

  function BaseDelayAt(tr: Trace, first: nat, t: nat): int
    requires first <= t
  {
    Interpolated(tr, InForce(tr, first, t), PassTime(tr, first, t))
  }

  /** The cursor fields are those of an instance started at time t. */
  predicate Positioned(tr: Trace, d: DelayState, first: nat, t: nat)
  {
    && first <= t && InstanceStart(d) == t
    && d.traceIdx == InForce(tr, first, t)
    && d.baseDelay == BaseDelayAt(tr, first, t)
  }

  /** The current pass began a whole number of passes after the first. */
  predicate Aligned(tr: Trace, d: DelayState, first: nat)
  {
    first <= d.delayBase && (d.delayBase - first) % Span(tr) == 0
  }

  /** Positions counted from any whole number of passes agree. */
  lemma PassTimeFromStart(tr: Trace, first: nat, base: nat, time: nat)
    requires first <= base <= time && (base - first) % Span(tr) == 0
    ensures PassTime(tr, base, time) == PassTime(tr, first, time)
    ensures (time - PassTime(tr, base, time) - first) % Span(tr) == 0
  {
    var span := Span(tr);
    var laps := (base - first) / span;
    var x := time - base;
    assert base - first == laps * span;
    DivModShift(x, span, laps);
    assert x == x / span * span + x % span;
    assert (x / span + laps) * span == x / span * span + laps * span;
    DivModUnique(time - x % span - first, span, x / span + laps, 0);
  }

  /** Starting an instance from any whole number of passes gives the position of the present time. */
  lemma StartIsPositioned(tr: Trace, d: DelayState, first: nat, time: nat, size: nat)
    requires Aligned(tr, d, first) && d.delayBase <= time && size <= PACKET_SIZE
    ensures var r := StartInstance(tr, d, time, size);
            Positioned(tr, r, first, time) && Aligned(tr, r, first)
  {
    PassTimeFromStart(tr, first, d.delayBase, time);
    hide PassTime, Lookup, Interpolated, Span;
  }

  /** Same pass, same instance. */
  predicate SameInstance(d: DelayState, r: DelayState)
  {
    r.delayBase == d.delayBase && r.pdoBase == d.pdoBase && r.traceIdx == d.traceIdx && r.baseDelay == d.baseDelay
  }

  lemma ReleaseInstance(cfg: DelayConfig, d: DelayState, time: nat, size: nat, offset: int)
    requires if d.baseDelay < 0 then d.delayBase <= time else Tracking(cfg.trace, d) && InstanceStart(d) <= time
    requires size <= PACKET_SIZE
    ensures var r := Clamped(Release(cfg, d, time, size), offset);
            if Restarts(cfg.timer, d, time) then SameInstance(StartInstance(cfg.trace, d, time, size), r)
            else SameInstance(d, r)
  {
  }

  /** One read either starts the instance its own time calls for, or stays in the current one. */
  lemma ReadPositions(cfg: DelayConfig, d: DelayState, first: nat, now: nat, size: nat)
    requires DelayInv(cfg.trace, d, now) && size <= PACKET_SIZE && Aligned(cfg.trace, Started(d, now), first)
    ensures var r := ReadDelay(cfg, d, now, size);
            && Aligned(cfg.trace, r, first)
            && if Restarts(cfg.timer, Started(d, now), now) then Positioned(cfg.trace, r, first, now)
               else SameInstance(d, r)
  {
    var d1 := Started(d, now);
    ReleaseInstance(cfg, d1, now, size, LatencyOffset(cfg.offsets, size));
    if Restarts(cfg.timer, d1, now) {
      StartIsPositioned(cfg.trace, d1, first, now, size);
    }
    hide Release, Clamped, StartInstance, LatencyOffset, Restarts, InForce, BaseDelayAt;
  }

  /** The first placement in instance n. */
  function FirstOf(log: seq<Placement>, n: nat, j: nat): (i: nat)
    requires j < |log| && log[j].instance == n
    ensures i <= j && log[i].instance == n
    ensures forall k :: 0 <= k < i ==> log[k].instance != n
    decreases j
  {
    if log[0].instance == n then 0
    else
      var i := FirstOf(log[1..], n, j - 1);
      assert forall k :: 0 < k < i + 1 ==> log[k] == log[1..][k - 1];
      i + 1
  }

  /** The arrival that opened the instance of the j-th placement. */
  function Opener(log: seq<Placement>, j: nat): (i: nat)
    requires j < |log|
    ensures i <= j
  {
    FirstOf(log, log[j].instance, j)
  }

  lemma OpenerCons(p: Placement, rest: seq<Placement>, j: nat)
    requires j < |rest|
    ensures Opener([p] + rest, j + 1) == if p.instance == rest[j].instance then 0 else Opener(rest, j) + 1
  {
    assert ([p] + rest)[1..] == rest;
  }

  lemma SameThenSame(tr: Trace, d: DelayState, r: DelayState, first: nat, t: nat)
    requires SameInstance(d, r)
    ensures Positioned(tr, d, first, t) ==> Positioned(tr, r, first, t)
    ensures forall q :: SameInstance(r, q) ==> SameInstance(d, q)
  {
  }

  lemma {:induction false} PlacementsPositioned(cfg: DelayConfig, d: DelayState, n: nat, now: nat, arrivals: seq<Arrival>,
                                                first: nat, j: nat)
    requires DelayInv(cfg.trace, d, now) && InOrder(now, arrivals) && j < |arrivals|
    requires Aligned(cfg.trace, Started(d, arrivals[0].time), first)
    ensures var log := Placements(cfg, d, n, now, arrivals);
            if log[j].instance == n then SameInstance(d, log[j].after)
            else Positioned(cfg.trace, log[j].after, first, arrivals[Opener(log, j)].time)
    decreases j
  {
    hide DelayInv, ReadDelay, Restarts, Aligned, Positioned, SameInstance, Opener;
    var t := arrivals[0].time;
    DelayInvLater(cfg.trace, d, now, t);
    var p := Place(cfg, d, n, t, arrivals[0].size);
    var rest := Placements(cfg, p.after, p.instance, t, arrivals[1..]);
    ReadPositions(cfg, d, first, t, arrivals[0].size);
    if j > 0 {
      PlacementsPositioned(cfg, p.after, p.instance, t, arrivals[1..], first, j - 1);
      SlotsAdvance(cfg, p.after, p.instance, t, arrivals[1..]);
      assert NotBefore(p.instance, p.slot, rest[j - 1]);
      OpenerCons(p, rest, j - 1);
      if rest[j - 1].instance == p.instance {
        SameThenSame(cfg.trace, p.after, rest[j - 1].after, first, t);
        if p.instance == n {
          SameThenSame(cfg.trace, d, p.after, first, t);
        }
      }
    }
  }

  /** History independence. Over any reads from the constructor, each packet is placed in the recorded
      instance, with the base delay, that the arrival opening its instance calls for: a stateless lookup
      at that time modulo the trace length, counted from the first packet. */
  lemma {:induction false} CursorIsHistoryIndependent(cfg: DelayConfig, constructed: nat, arrivals: seq<Arrival>, j: nat)
    requires InOrder(constructed, arrivals) && j < |arrivals|
    ensures var log := Placements(cfg, Fresh(constructed), 0, constructed, arrivals);
            Positioned(cfg.trace, log[j].after, arrivals[0].time, arrivals[Opener(log, j)].time)
  {
    var d, t := Fresh(constructed), arrivals[0].time;
    DivModUnique(0, Span(cfg.trace), 0, 0);
    PlacementsPositioned(cfg, d, 0, constructed, arrivals, t, j);
    var p := Place(cfg, d, 0, t, arrivals[0].size);
    assert p.instance == 1;
    if j > 0 {
      SlotsAdvance(cfg, p.after, 1, t, arrivals[1..]);
      assert NotBefore(1, p.slot, Placements(cfg, p.after, 1, t, arrivals[1..])[j - 1]);
    }
  }

  /** So every release time is a function of the arrivals alone: slot k releases at the opening time, plus
      the base delay interpolated there, plus the recorded pdo[k], which is never before the packet's own
      base delay; past the last slot the packet waits for the larger of base delay and last slot, and
      cannot bypass the link. */
  lemma {:induction false} ReleasesAsRecorded(cfg: DelayConfig, constructed: nat, arrivals: seq<Arrival>, j: nat)
    requires InOrder(constructed, arrivals) && j < |arrivals|
    ensures var log := Placements(cfg, Fresh(constructed), 0, constructed, arrivals);
            var first, opening := arrivals[0].time, arrivals[Opener(log, j)].time;
            && first <= opening
            && var pdo := cfg.trace[InForce(cfg.trace, first, opening)].pdo;
               var base := BaseDelayAt(cfg.trace, first, opening);
               if log[j].slot < |pdo| then
                 && log[j].after.lastRelease == opening + base + pdo[log[j].slot]
                 && log[j].after.lastRelease >= arrivals[j].time + base
               else
                 && log[j].after.lastRelease == Max(arrivals[j].time + base, arrivals[j].time + pdo[|pdo| - 1])
                 && !log[j].after.bypass
  {
    hide Placements, InForce, BaseDelayAt, Opener, InOrder, ReadDelay, Restarts;
    CursorIsHistoryIndependent(cfg, constructed, arrivals, j);
    PlacementsRight(cfg, Fresh(constructed), 0, constructed, arrivals, j);
  }
}
