/** Which instance and which light slot every packet gets, from the arrivals and the trace alone. */
module DelayPacking {
  import opened Arithmetic
  import opened Packets
  import opened DelayTrace
  import opened DelayStage

  /** Each placement is made from the state its predecessor left. */
  lemma {:induction false} NextPlacement(cfg: DelayConfig, d: DelayState, n: nat, now: nat,
                                         arrivals: seq<Arrival>, j: nat)
    requires DelayInv(cfg.trace, d, now) && InOrder(now, arrivals) && j + 1 < |arrivals|
    ensures var log := Placements(cfg, d, n, now, arrivals);
            var t, u := arrivals[j].time, arrivals[j + 1].time;
            && t <= u && arrivals[j + 1].size <= PACKET_SIZE
            && log[j].after.startTick && DelayInv(cfg.trace, log[j].after, u)
            && log[j + 1] == Place(cfg, log[j].after, log[j].instance, u, arrivals[j + 1].size)
    decreases j
  {
    hide DelayInv, ReadDelay, Restarts;
    var t := arrivals[0].time;
    DelayInvLater(cfg.trace, d, now, t);
    var p := Place(cfg, d, n, t, arrivals[0].size);
    var rest := Placements(cfg, p.after, p.instance, t, arrivals[1..]);
    assert Placements(cfg, d, n, now, arrivals) == [p] + rest;
    if j == 0 {
      DelayInvLater(cfg.trace, p.after, t, arrivals[1].time);
    } else {
      NextPlacement(cfg, p.after, p.instance, t, arrivals[1..], j - 1);
    }
  }

  /** The placements of a run of reads from the constructor. */
  function Log(cfg: DelayConfig, constructed: nat, arrivals: seq<Arrival>): (log: seq<Placement>)
    requires InOrder(constructed, arrivals)
    ensures |log| == |arrivals|
  {
    Placements(cfg, Fresh(constructed), 0, constructed, arrivals)
  }

  lemma LogStep(cfg: DelayConfig, constructed: nat, arrivals: seq<Arrival>, j: nat)
    requires InOrder(constructed, arrivals) && j + 1 < |arrivals|
    ensures var log := Log(cfg, constructed, arrivals);
            var u := arrivals[j + 1].time;
            && arrivals[j].time <= u && arrivals[j + 1].size <= PACKET_SIZE
            && log[j].after.startTick && DelayInv(cfg.trace, log[j].after, u) && log[j].slot == log[j].after.pdoIdx
            && log[j + 1] == Place(cfg, log[j].after, log[j].instance, u, arrivals[j + 1].size)
  {
    hide Placements, InOrder, Place, PlacedAt;
    NextPlacement(cfg, Fresh(constructed), 0, constructed, arrivals, j);
    PlacementsRight(cfg, Fresh(constructed), 0, constructed, arrivals, j);
  }

  /** The arrival that opened the instance of packet j, the opportunities of that instance and its base delay. */
  function OpenedAt(cfg: DelayConfig, constructed: nat, arrivals: seq<Arrival>, j: nat): (r: nat)
    requires InOrder(constructed, arrivals) && j < |arrivals|
    ensures arrivals[0].time <= r
  {
    var log := Log(cfg, constructed, arrivals);
    CursorIsHistoryIndependent(cfg, constructed, arrivals, j);
    arrivals[Opener(log, j)].time
  }

  function SlotsOf(cfg: DelayConfig, constructed: nat, arrivals: seq<Arrival>, j: nat): (pdo: seq<int>)
    requires InOrder(constructed, arrivals) && j < |arrivals|
    ensures |pdo| > 0
  {
    var pdo := cfg.trace[InForce(cfg.trace, arrivals[0].time, OpenedAt(cfg, constructed, arrivals, j))].pdo;
    assert ValidPdo(pdo);
    pdo
  }

  function BaseOf(cfg: DelayConfig, constructed: nat, arrivals: seq<Arrival>, j: nat): int
    requires InOrder(constructed, arrivals) && j < |arrivals|
  {
    BaseDelayAt(cfg.trace, arrivals[0].time, OpenedAt(cfg, constructed, arrivals, j))
  }

  // ---------- The cursor in numbers ----------

  /** The instance of packet j opened at an arrival, at that time modulo the last recorded time, and its base
      delay is the integer part of the point there on the line between the two neighbouring records. */
  lemma {:induction false} CursorInNumbers(cfg: DelayConfig, constructed: nat, arrivals: seq<Arrival>, j: nat)
    requires InOrder(constructed, arrivals) && j < |arrivals|
    ensures var tr := cfg.trace;
            var d := Log(cfg, constructed, arrivals)[j].after;
            var opening, i, span := OpenedAt(cfg, constructed, arrivals, j), d.traceIdx, tr[|tr| - 1].time;
            && span > 0 && i + 1 < |tr| && d.delayBase + d.pdoBase == opening
            && SlotsOf(cfg, constructed, arrivals, j) == tr[i].pdo && BaseOf(cfg, constructed, arrivals, j) == d.baseDelay
            && var x := (opening - arrivals[0].time) % span;
               && tr[i].time <= x < tr[i + 1].time
               && var line := tr[i].delay * (tr[i + 1].time - x) + tr[i + 1].delay * (x - tr[i].time);
                  var width := tr[i + 1].time - tr[i].time;
                  d.baseDelay * width <= line < (d.baseDelay + 1) * width
  {
    hide Placements, Interpolated, Opener, InOrder;
    var opening := OpenedAt(cfg, constructed, arrivals, j);
    var d := Log(cfg, constructed, arrivals)[j].after;
    CursorIsHistoryIndependent(cfg, constructed, arrivals, j);
    InterpolatedOnLine(cfg.trace, d.traceIdx, PassTime(cfg.trace, arrivals[0].time, opening));
  }

  // ---------- When an instance opens ----------

  /** The first packet opens the first instance, in its first slot. */
  lemma FirstOpens(cfg: DelayConfig, constructed: nat, arrivals: seq<Arrival>)
    requires InOrder(constructed, arrivals) && arrivals != []
    ensures var p := Log(cfg, constructed, arrivals)[0];
            p.instance == 1 && p.slot == 0
  {
  }

  /** Packet j + 1 opens a new instance iff it comes later than the timer allows: after the slot packet j used,
      or, when that had none left, after packet j by the last slot's lead over the base delay. A negative timer
      that exceeds the recorded release of packet j wraps that sum around. */
  lemma {:induction false} InstanceOpensExactly(cfg: DelayConfig, constructed: nat, arrivals: seq<Arrival>, j: nat)
    requires InOrder(constructed, arrivals) && j + 1 < |arrivals|
    ensures var log := Log(cfg, constructed, arrivals);
            var opening, pdo := OpenedAt(cfg, constructed, arrivals, j), SlotsOf(cfg, constructed, arrivals, j);
            var base, timer := BaseOf(cfg, constructed, arrivals, j), cfg.timer;
            var t, u, k, last := arrivals[j].time, arrivals[j + 1].time, log[j].slot, pdo[|pdo| - 1];
            var recorded := if k < |pdo| then opening + base + pdo[k] else t + Max(base, last);
            var opens := if recorded + timer < 0 then u + base > recorded + timer + 0x1_0000_0000_0000_0000
                         else if k < |pdo| then u - opening > pdo[k] + timer
                         else u - t > Max(0, last - base) + timer;
            log[j + 1].instance == if opens then log[j].instance + 1 else log[j].instance
  {
    hide Placements, InForce, BaseDelayAt, Opener, InOrder, ReadDelay;
    var log := Log(cfg, constructed, arrivals);
    var d, timer := log[j].after, cfg.timer;
    LogStep(cfg, constructed, arrivals, j);
    ReleasesAsRecorded(cfg, constructed, arrivals, j);
    CursorIsHistoryIndependent(cfg, constructed, arrivals, j);
    BaseIsNonnegative(cfg, d, arrivals[j + 1].time);
    if d.lastRelease + timer < 0 {
      DivModUnique(d.lastRelease + timer, TWO64, -1, d.lastRelease + timer + TWO64);
    }
  }

  lemma BaseIsNonnegative(cfg: DelayConfig, d: DelayState, now: nat)
    requires DelayInv(cfg.trace, d, now) && d.startTick
    ensures d.baseDelay >= 0 && Started(d, now) == d && Tracking(cfg.trace, d) && InstanceStart(d) <= now
  {
  }

  // ---------- Which slot ----------

  lemma {:induction false} SlotBytesSnoc(log: seq<Placement>, p: Placement, n: nat, k: nat)
    ensures SlotBytes(log + [p], n, k) == SlotBytes(log, n, k) + if p.instance == n && p.slot == k then p.size else 0
  {
    if log == [] {
      assert [] + [p] == [p] && SlotBytes([p][1..], n, k) == 0;
    } else {
      assert (log + [p])[1..] == log[1..] + [p];
      SlotBytesSnoc(log[1..], p, n, k);
    }
  }

  lemma {:induction false} NothingThere(log: seq<Placement>, n: nat, k: nat)
    requires forall p :: p in log ==> !(p.instance == n && p.slot == k)
    ensures SlotBytes(log, n, k) == 0
  {
    if log != [] {
      NothingThere(log[1..], n, k);
    }
  }

  /** What one packet does to slot and room. */
  lemma PlaceInSlot(cfg: DelayConfig, d: DelayState, n: nat, t: nat, size: nat)
    requires DelayInv(cfg.trace, d, t) && d.startTick && size <= PACKET_SIZE
    ensures var p := Place(cfg, d, n, t, size);
            var k := FirstNotPassed(cfg.trace[d.traceIdx].pdo, d.pdoIdx, t - InstanceStart(d));
            var room := if k > d.pdoIdx then PACKET_SIZE else d.opportunity;
            && n <= p.instance <= n + 1 && p.slot == p.after.pdoIdx && p.size == size
            && (p.instance != n ==> p.slot == 0 && p.after.opportunity == PACKET_SIZE - size)
            && (p.instance == n ==>
                  if size <= room then p.slot == k && p.after.opportunity == room - size
                  else p.slot == k + 1 && p.after.opportunity == PACKET_SIZE - size)
  {
  }

  /** Place (m, k) comes after place (n, slot). */
  predicate Beyond(m: nat, k: nat, n: nat, slot: nat)
  {
    m > n || (m == n && k > slot)
  }

  /** Nothing has been placed beyond packet j yet. */
  lemma BeyondIsFree(cfg: DelayConfig, constructed: nat, arrivals: seq<Arrival>, j: nat, n: nat, k: nat)
    requires InOrder(constructed, arrivals) && j < |arrivals|
    requires var p := Log(cfg, constructed, arrivals)[j];
             Beyond(n, k, p.instance, p.slot)
    ensures SlotBytes(Log(cfg, constructed, arrivals)[..j + 1], n, k) == 0
  {
    hide Placements, InOrder, SlotBytes;
    var log := Log(cfg, constructed, arrivals);
    SlotsAdvance(cfg, Fresh(constructed), 0, constructed, arrivals);
    forall p | p in log[..j + 1]
      ensures !(p.instance == n && p.slot == k)
    {
      var i :| 0 <= i < j + 1 && log[..j + 1][i] == p;
      assert NotBefore(log[i].instance, log[i].slot, log[j]);
    }
    NothingThere(log[..j + 1], n, k);
  }

  lemma AllBeyondIsFree(cfg: DelayConfig, constructed: nat, arrivals: seq<Arrival>, j: nat)
    requires InOrder(constructed, arrivals) && j < |arrivals|
    ensures var log := Log(cfg, constructed, arrivals);
            forall m: nat, k: nat :: Beyond(m, k, log[j].instance, log[j].slot) ==> SlotBytes(log[..j + 1], m, k) == 0
  {
    hide Placements, InOrder, SlotBytes;
    var log := Log(cfg, constructed, arrivals);
    forall m: nat, k: nat | Beyond(m, k, log[j].instance, log[j].slot)
      ensures SlotBytes(log[..j + 1], m, k) == 0
    {
      BeyondIsFree(cfg, constructed, arrivals, j, m, k);
    }
  }

  lemma RoomStep(cfg: DelayConfig, d: DelayState, n: nat, t: nat, size: nat, before: seq<Placement>)
    requires DelayInv(cfg.trace, d, t) && d.startTick && size <= PACKET_SIZE
    requires d.opportunity == 1400 - SlotBytes(before, n, d.pdoIdx)
    requires forall m: nat, k: nat :: Beyond(m, k, n, d.pdoIdx) ==> SlotBytes(before, m, k) == 0
    ensures var p := Place(cfg, d, n, t, size);
            p.after.opportunity == 1400 - SlotBytes(before + [p], p.instance, p.slot)
  {
    hide SlotBytes, Place, DelayInv;
    var p := Place(cfg, d, n, t, size);
    PlaceInSlot(cfg, d, n, t, size);
    SlotBytesSnoc(before, p, p.instance, p.slot);
    assert p.instance > n || p.slot > d.pdoIdx ==> Beyond(p.instance, p.slot, n, d.pdoIdx);
  }

  /** The room left in the slot in use is 1400 bytes less what the packets so far took of it. */
  lemma {:induction false} RoomExactly(cfg: DelayConfig, constructed: nat, arrivals: seq<Arrival>, j: nat)
    requires InOrder(constructed, arrivals) && j < |arrivals|
    ensures var log := Log(cfg, constructed, arrivals);
            log[j].after.opportunity == 1400 - SlotBytes(log[..j + 1], log[j].instance, log[j].slot)
    decreases j
  {
    var log := Log(cfg, constructed, arrivals);
    hide Log, InOrder, SlotBytes, Place, Beyond, DelayInv;
    if j == 0 {
      FirstRoom(cfg, constructed, arrivals);
    } else {
      var d, n := log[j - 1].after, log[j - 1].instance;
      RoomExactly(cfg, constructed, arrivals, j - 1);
      LogStep(cfg, constructed, arrivals, j - 1);
      AllBeyondIsFree(cfg, constructed, arrivals, j - 1);
      RoomStep(cfg, d, n, arrivals[j].time, arrivals[j].size, log[..j]);
      assert log[..j + 1] == log[..j] + [log[j]];
    }
  }

  lemma FirstRoom(cfg: DelayConfig, constructed: nat, arrivals: seq<Arrival>)
    requires InOrder(constructed, arrivals) && arrivals != []
    ensures var log := Log(cfg, constructed, arrivals);
            log[0].after.opportunity == 1400 - SlotBytes(log[..1], log[0].instance, log[0].slot)
  {
    var log := Log(cfg, constructed, arrivals);
    assert log[..1] == [log[0]] && SlotBytes([log[0]][1..], log[0].instance, log[0].slot) == 0;
  }

  /** A packet that opens an instance gets slot 0. A packet that stays goes on from the slot of the packet before
      it to the first one that has not passed, and gets it if the bytes placed there leave room for it;
      otherwise it gets the slot right behind, passed or not. */
  lemma {:induction false} SlotExactly(cfg: DelayConfig, constructed: nat, arrivals: seq<Arrival>, j: nat) returns (k: nat)
    requires InOrder(constructed, arrivals) && j + 1 < |arrivals|
    ensures var log := Log(cfg, constructed, arrivals);
            var n, p, pdo := log[j].instance, log[j + 1], SlotsOf(cfg, constructed, arrivals, j);
            var elapsed := arrivals[j + 1].time - OpenedAt(cfg, constructed, arrivals, j);
            && log[j].slot <= k && (k < |pdo| ==> pdo[k] >= elapsed)
            && (forall i :: log[j].slot <= i < k ==> i < |pdo| && pdo[i] < elapsed)
            && (p.instance != n ==> p.slot == 0)
            && (p.instance == n ==>
                  p.slot == if SlotBytes(log[..j + 1], n, k) + arrivals[j + 1].size <= 1400 then k else k + 1)
  {
    hide Log, InOrder, SlotBytes, Place, Interpolated, DelayInv;
    var log := Log(cfg, constructed, arrivals);
    var d, n := log[j].after, log[j].instance;
    CursorInNumbers(cfg, constructed, arrivals, j);
    LogStep(cfg, constructed, arrivals, j);
    PlaceInSlot(cfg, d, n, arrivals[j + 1].time, arrivals[j + 1].size);
    RoomExactly(cfg, constructed, arrivals, j);
    k := FirstNotPassed(cfg.trace[d.traceIdx].pdo, d.pdoIdx, arrivals[j + 1].time - InstanceStart(d));
    if k > log[j].slot {
      assert Beyond(n, k, n, log[j].slot);
      BeyondIsFree(cfg, constructed, arrivals, j, n, k);
    }
  }
}
