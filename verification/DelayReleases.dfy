/** Final release times over runs of reads: size offset, clamp, and what a wrapped offset does. */
module DelayReleases {
  import opened Arithmetic
  import opened Packets
  import opened DelayTrace
  import opened DelayStage

  /** The final release from the latest one so far, the recorded one and the offset: with the offset if that
      does not reorder, and never before the latest. */
  function FinalRelease(latest: nat, recorded: nat, offset: int): nat
  {
    var shifted := if recorded + offset < 0 then (recorded + offset) % 0x1_0000_0000_0000_0000 else recorded + offset;
    if shifted >= latest then shifted else Max(latest, recorded)
  }

  lemma ReadIsFinal(cfg: DelayConfig, d: DelayState, now: nat, size: nat)
    requires DelayInv(cfg.trace, d, now) && size <= PACKET_SIZE
    ensures var r := ReadDelay(cfg, d, now, size);
            var offset := LatencyOffset(cfg.offsets, size);
            && r.endRelease == FinalRelease(d.endRelease, r.lastRelease, offset)
            && (r.bypass <==> r.pdoIdx < r.pdoSize &&
                              (AddWrapping(r.lastRelease, offset) >= d.endRelease || r.lastRelease >= d.endRelease))
  {
    hide Release, Clamped, LatencyOffset;
    BypassExactly(cfg, d, now, size);
    ReleaseKeepsEnd(cfg, Started(d, now), now, size);
    ClampTells(Release(cfg, Started(d, now), now, size), LatencyOffset(cfg.offsets, size));
  }

  /** The offset the j-th packet of a log gets. */
  function OffsetOf(cfg: DelayConfig, p: Placement): int
  {
    LatencyOffset(cfg.offsets, p.size)
  }

  /** The latest release when the j-th packet is read, `first` before any. */
  function LatestBefore(log: seq<Placement>, first: nat, j: nat): nat
    requires j < |log|
  {
    if j == 0 then first else log[j - 1].after.endRelease
  }

  lemma {:induction false} PlacementsFinal(cfg: DelayConfig, d: DelayState, n: nat, now: nat,
                                           arrivals: seq<Arrival>, j: nat)
    requires DelayInv(cfg.trace, d, now) && InOrder(now, arrivals) && j < |arrivals|
    ensures var log := Placements(cfg, d, n, now, arrivals);
            var latest, r, offset := LatestBefore(log, d.endRelease, j), log[j].after, OffsetOf(cfg, log[j]);
            && r.endRelease == FinalRelease(latest, r.lastRelease, offset)
            && (r.bypass <==> r.pdoIdx < r.pdoSize &&
                              (AddWrapping(r.lastRelease, offset) >= latest || r.lastRelease >= latest))
    decreases j
  {
    hide DelayInv, ReadDelay, LatencyOffset, FinalRelease, AddWrapping;
    var t := arrivals[0].time;
    DelayInvLater(cfg.trace, d, now, t);
    var p := Place(cfg, d, n, t, arrivals[0].size);
    if j == 0 {
      ReadIsFinal(cfg, d, t, arrivals[0].size);
    } else {
      PlacementsFinal(cfg, p.after, p.instance, t, arrivals[1..], j - 1);
    }
  }

  /** Over any reads from the constructor: the time the priority queue gets for a packet is its recorded
      release with the size offset, unless that would reorder, and then the later of the recorded release and
      the latest so far; and it may bypass the link iff it got a light slot and was not held back. */
  lemma {:induction false} FinalReleases(cfg: DelayConfig, constructed: nat, arrivals: seq<Arrival>, j: nat)
    requires InOrder(constructed, arrivals) && j < |arrivals|
    ensures var log := Placements(cfg, Fresh(constructed), 0, constructed, arrivals);
            var latest, r, offset := LatestBefore(log, 0, j), log[j].after, OffsetOf(cfg, log[j]);
            && r.endRelease == FinalRelease(latest, r.lastRelease, offset)
            && (r.bypass <==> r.pdoIdx < r.pdoSize &&
                              (AddWrapping(r.lastRelease, offset) >= latest || r.lastRelease >= latest))
  {
    PlacementsFinal(cfg, Fresh(constructed), 0, constructed, arrivals, j);
  }

  // ---------- Nonnegative offsets ----------

  /** The largest recorded release plus offset among the packets 0 to j. */
  function LargestShifted(cfg: DelayConfig, log: seq<Placement>, j: nat): int
    requires j < |log|
  {
    var shifted := log[j].after.lastRelease + OffsetOf(cfg, log[j]);
    if j == 0 then shifted else Max(LargestShifted(cfg, log, j - 1), shifted)
  }

  /** With nonnegative offsets the clamp is a running maximum: every packet is released at the largest
      recorded release plus offset among those read up to it. */
  lemma {:induction false} ReleasesAreRunningMaximum(cfg: DelayConfig, constructed: nat, arrivals: seq<Arrival>, j: nat)
    requires InOrder(constructed, arrivals) && j < |arrivals| && NonnegativeOffsets(cfg.offsets)
    ensures var log := Placements(cfg, Fresh(constructed), 0, constructed, arrivals);
            log[j].after.endRelease == LargestShifted(cfg, log, j)
    decreases j
  {
    hide Placements, LatencyOffset, NonnegativeOffsets, InOrder;
    var log := Placements(cfg, Fresh(constructed), 0, constructed, arrivals);
    LatencyOffsetNonnegative(cfg.offsets, log[j].size);
    FinalReleases(cfg, constructed, arrivals, j);
    if j > 0 {
      ReleasesAreRunningMaximum(cfg, constructed, arrivals, j - 1);
    }
  }

  // ---------- A negative offset that wraps around ----------

  /** The latest release lies at the end of the 64-bit range. */
  predicate Stuck(d: DelayState)
  {
    d.endRelease >= TWO64 - TWO31
  }

  /** A recorded release so early that its negative offset takes it below 0. */
  predicate Wraps(cfg: DelayConfig, p: Placement)
  {
    p.after.lastRelease + OffsetOf(cfg, p) < 0
  }

  /** The size offset is a C `int`, and the recorded release is not at the end of the range itself. */
  predicate Ordinary(cfg: DelayConfig, p: Placement)
  {
    -TWO31 <= OffsetOf(cfg, p) < TWO31 && p.after.lastRelease < TWO64 - TWO32
  }

  predicate AllOrdinary(cfg: DelayConfig, log: seq<Placement>, j: nat)
    requires j < |log|
  {
    forall i :: 0 <= i <= j ==> Ordinary(cfg, log[i])
  }

  /** Ordinary, and not wrapping around itself. */
  predicate HeldBack(cfg: DelayConfig, p: Placement)
  {
    Ordinary(cfg, p) && !Wraps(cfg, p)
  }

  lemma FinalStuckExactly(latest: nat, recorded: nat, offset: int)
    requires -TWO31 <= offset < TWO31 && recorded < TWO64 - TWO32
    ensures var r := FinalRelease(latest, recorded, offset);
            && (r >= TWO64 - TWO31 <==> latest >= TWO64 - TWO31 || recorded + offset < 0)
            && (latest >= TWO64 - TWO31 && recorded + offset >= 0 ==>
                  r == latest > recorded && AddWrapping(recorded, offset) < latest)
  {
    if recorded + offset < 0 {
      DivModUnique(recorded + offset, TWO64, -1, recorded + offset + TWO64);
    }
  }

  /** The stage gets stuck exactly when a packet is read whose recorded release is below its negative offset:
      the sum wraps around, and no later packet is released before the end of the 64-bit range. */
  lemma {:induction false} StuckExactly(cfg: DelayConfig, constructed: nat, arrivals: seq<Arrival>, j: nat)
    requires InOrder(constructed, arrivals) && j < |arrivals|
    requires AllOrdinary(cfg, Placements(cfg, Fresh(constructed), 0, constructed, arrivals), j)
    ensures var log := Placements(cfg, Fresh(constructed), 0, constructed, arrivals);
            Stuck(log[j].after) <==> exists i :: 0 <= i <= j && Wraps(cfg, log[i])
    decreases j
  {
    hide Placements, InOrder, LatencyOffset, FinalRelease, AddWrapping;
    var log := Placements(cfg, Fresh(constructed), 0, constructed, arrivals);
    assert Ordinary(cfg, log[j]);
    FinalReleases(cfg, constructed, arrivals, j);
    FinalStuckExactly(LatestBefore(log, 0, j), log[j].after.lastRelease, OffsetOf(cfg, log[j]));
    if j > 0 {
      StuckExactly(cfg, constructed, arrivals, j - 1);
    }
    assert Stuck(log[j].after) <==> (j > 0 && Stuck(log[j - 1].after)) || Wraps(cfg, log[j]);
  }

  /** Once stuck, every packet that does not wrap around itself is held back to the same time and cannot
      bypass the link. */
  lemma {:induction false} StuckHoldsBack(cfg: DelayConfig, constructed: nat, arrivals: seq<Arrival>, i: nat, j: nat)
    requires InOrder(constructed, arrivals) && i < j < |arrivals|
    requires var log := Placements(cfg, Fresh(constructed), 0, constructed, arrivals);
             Stuck(log[i].after) && forall k :: i < k <= j ==> HeldBack(cfg, log[k])
    ensures var log := Placements(cfg, Fresh(constructed), 0, constructed, arrivals);
            log[j].after.endRelease == log[i].after.endRelease && !log[j].after.bypass
    decreases j
  {
    hide Placements, InOrder, LatencyOffset, FinalRelease, AddWrapping;
    var log := Placements(cfg, Fresh(constructed), 0, constructed, arrivals);
    assert HeldBack(cfg, log[j]);
    FinalReleases(cfg, constructed, arrivals, j);
    FinalStuckExactly(LatestBefore(log, 0, j), log[j].after.lastRelease, OffsetOf(cfg, log[j]));
    if i < j - 1 {
      StuckHoldsBack(cfg, constructed, arrivals, i, j - 1);
    }
  }
}
