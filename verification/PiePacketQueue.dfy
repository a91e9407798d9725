/** The PIE queue: a controller that updates a drop probability every 30 ms, caught up with lazily. */
module PiePacketQueues {
  import opened Arithmetic
  import opened Packets
  import opened PacketQueues

  const T_UPDATE: nat := 30
  const DQ_THRESHOLD: nat := 16384
  const DQ_COUNT_INVALID: nat := 0xFFFF_FFFF

  datatype Parameters = Parameters(qdelayRef: nat, maxBurst: nat)

  /** Zero means not given, and the constructor refuses it. */
  type PieParameters = p: Parameters | 0 < p.qdelayRef < TWO32 && 0 < p.maxBurst < TWO32 witness Parameters(1, 1)

  datatype Pie = Pie(
    dropProb: real,
    burstAllowance: nat,
    qdelayOld: nat,
    currentQdelay: nat,
    dqCount: nat,
    dqTstamp: nat,
    avgDqRate: nat,
    lastUpdate: nat)

  /** Difference of two `uint32_t` read as a signed `int`. */
  function SignedDiff(x: nat, y: nat): int
  {
    ToInt32(x - y)
  }

  // ---------- One period ----------

  function QueueDelay(s: Pie, bytes: nat): nat
  {
    if s.avgDqRate > 0 then bytes / s.avgDqRate else 0
  }

  /** Controller output, scaled down while the probability is small. */
  function Adjustment(p: PieParameters, prob: real, delay: nat, oldDelay: nat): real
  {
    var raw := 0.125 * SignedDiff(delay, p.qdelayRef) as real + 1.25 * SignedDiff(delay, oldDelay) as real;
    if prob < 0.01 then raw / 128.0 else if prob < 0.1 then raw / 32.0 else raw / 16.0
  }

  /** The new probability, kept in [0, 1] and decayed while there is no delay. */
  function NextProb(p: PieParameters, prob: real, delay: nat, oldDelay: nat, bytes: nat): (r: real)
    ensures 0.0 <= r <= 1.0
  {
    var raised := prob + Adjustment(p, prob, delay, oldDelay);
    var clamped := if raised < 0.0 then 0.0 else if raised > 1.0 then 1.0 else raised;
    var updateProb := raised <= 1.0 && !(delay == 0 && bytes != 0);
    if delay == 0 && oldDelay == 0 && updateProb then clamped * 0.98 else clamped
  }

  /** The idle reset: no probability, no delay to speak of, and a measured rate. */
  predicate Resets(p: PieParameters, s: Pie, bytes: nat)
  {
    var delay := QueueDelay(s, bytes);
    && NextProb(p, s.dropProb, delay, s.currentQdelay, bytes) == 0.0
    && delay < p.qdelayRef / 2 && s.currentQdelay < p.qdelayRef / 2 && s.avgDqRate > 0
  }

  /** One turn of the loop in `calculate_drop_prob`. */
  function Period(p: PieParameters, s: Pie, bytes: nat): Pie
  {
    var delay := QueueDelay(s, bytes);
    var idle := Resets(p, s, bytes);
    s.(dropProb := NextProb(p, s.dropProb, delay, s.currentQdelay, bytes),
       qdelayOld := s.currentQdelay,
       currentQdelay := delay,
       burstAllowance := if idle then p.maxBurst else Max(0, ToInt32(s.burstAllowance) - T_UPDATE),
       dqCount := if idle then DQ_COUNT_INVALID else s.dqCount,
       avgDqRate := if idle then 0 else s.avgDqRate,
       lastUpdate := s.lastUpdate + T_UPDATE)
  }

  function Periods(p: PieParameters, s: Pie, bytes: nat, k: nat): Pie
    decreases k
  {
    if k == 0 then s else Periods(p, Period(p, s, bytes), bytes, k - 1)
  }

  /** Periods missed since the last update: the loop stops within one period of the present. */
  function Missed(s: Pie, now: nat): nat
  {
    if now - s.lastUpdate <= T_UPDATE then 0 else (now - s.lastUpdate - 1) / T_UPDATE
  }

  function CaughtUp(p: PieParameters, s: Pie, bytes: nat, now: nat): Pie
  {
    Periods(p, s, bytes, Missed(s, now))
  }

  // ---------- Laws ----------

  ghost predicate PieInv(p: PieParameters, s: Pie)
  {
    && 0.0 <= s.dropProb <= 1.0
    && s.burstAllowance <= p.maxBurst
    && s.currentQdelay < TWO31 && s.qdelayOld < TWO31
  }

  lemma DelayBounded(s: Pie, bytes: nat)
    requires bytes < TWO31
    ensures QueueDelay(s, bytes) < TWO31
  {
    if s.avgDqRate > 0 {
      var q := bytes / s.avgDqRate;
      assert bytes == q * s.avgDqRate + bytes % s.avgDqRate;
      MulMonotone(1, s.avgDqRate, q);
    }
  }

  lemma PeriodKeepsInv(p: PieParameters, s: Pie, bytes: nat)
    requires PieInv(p, s) && bytes < TWO31
    ensures PieInv(p, Period(p, s, bytes))
  {
    hide NextProb, QueueDelay;
    DelayBounded(s, bytes);
  }

  lemma {:induction false} PeriodsKeepInv(p: PieParameters, s: Pie, bytes: nat, k: nat)
    requires PieInv(p, s) && bytes < TWO31
    ensures PieInv(p, Periods(p, s, bytes, k))
    ensures Periods(p, s, bytes, k).lastUpdate == s.lastUpdate + T_UPDATE * k
    decreases k
  {
    if k > 0 {
      PeriodKeepsInv(p, s, bytes);
      hide PieInv, NextProb, QueueDelay;
      PeriodsKeepInv(p, Period(p, s, bytes), bytes, k - 1);
    }
  }

  lemma {:induction false} PeriodsAdd(p: PieParameters, s: Pie, bytes: nat, j: nat, k: nat)
    ensures Periods(p, s, bytes, j + k) == Periods(p, Periods(p, s, bytes, j), bytes, k)
    decreases j
  {
    if j > 0 {
      PeriodsAdd(p, Period(p, s, bytes), bytes, j - 1, k);
    }
  }

  lemma {:induction false} PeriodsUpdate(p: PieParameters, s: Pie, bytes: nat, k: nat)
    ensures Periods(p, s, bytes, k).lastUpdate == s.lastUpdate + T_UPDATE * k
    decreases k
  {
    if k > 0 {
      PeriodsUpdate(p, Period(p, s, bytes), bytes, k - 1);
    }
  }

  /** Catching up makes up for whole periods of 30 ms until at most one is left, and never reaches the present
      unless it has nothing to do. */
  lemma CatchesUp(p: PieParameters, s: Pie, bytes: nat, now: nat)
    ensures var r := CaughtUp(p, s, bytes, now);
            && now - r.lastUpdate <= 30 && (s.lastUpdate <= now ==> r.lastUpdate <= now)
            && (r.lastUpdate - s.lastUpdate) % 30 == 0 && (r == s || s.lastUpdate < r.lastUpdate < now)
  {
    hide Missed, Periods;
    PeriodsUpdate(p, s, bytes, Missed(s, now));
    MissedBounds(s, now);
    NoPeriods(p, s, bytes);
    DivModUnique(30 * Missed(s, now), 30, Missed(s, now), 0);
  }

  lemma NoPeriods(p: PieParameters, s: Pie, bytes: nat)
    ensures Periods(p, s, bytes, 0) == s
  {
  }

  lemma MissedBounds(s: Pie, now: nat)
    ensures var k := Missed(s, now);
            now - (s.lastUpdate + 30 * k) <= 30 && (k > 0 ==> s.lastUpdate + 30 * k < now)
  {
  }

  /** Catching up in two calls, with the queue unchanged in between, is catching up in one. */
  lemma CatchUpComposes(p: PieParameters, s: Pie, bytes: nat, t1: nat, t2: nat)
    requires t1 <= t2
    ensures CaughtUp(p, CaughtUp(p, s, bytes, t1), bytes, t2) == CaughtUp(p, s, bytes, t2)
  {
    var j := Missed(s, t1);
    PeriodsUpdate(p, s, bytes, j);
    var k := Missed(Periods(p, s, bytes, j), t2);
    assert j + k == Missed(s, t2);
    PeriodsAdd(p, s, bytes, j, k);
  }

  // ---------- The controller ----------

  lemma SignedOrder(x: nat, y: nat, ref: nat)
    requires x <= y < TWO31 && ref <= TWO31
    ensures SignedDiff(x, ref) == x - ref && SignedDiff(x, ref) <= SignedDiff(y, ref)
  {
    NarrowSmall(x - ref);
    NarrowSmall(y - ref);
  }

  lemma NarrowSmall(x: int)
    requires -TWO31 <= x < TWO31
    ensures ToInt32(x) == x
  {
    if x >= 0 {
      DivModUnique(x, TWO32, 0, x);
    } else {
      DivModUnique(x, TWO32, -1, x + TWO32);
    }
  }

  /** At the reference delay, and steady, the controller leaves the probability alone. */
  lemma ReferenceIsEquilibrium(p: PieParameters, prob: real, bytes: nat)
    requires 0.0 <= prob <= 1.0
    ensures NextProb(p, prob, p.qdelayRef, p.qdelayRef, bytes) == prob
  {
  }

  lemma ControllerRises(p: PieParameters, prob: real, d1: nat, d2: nat, oldDelay: nat, bytes: nat)
    requires d1 <= d2 < TWO31 && p.qdelayRef <= TWO31 && oldDelay < TWO31
    ensures NextProb(p, prob, d1, oldDelay, bytes) <= NextProb(p, prob, d2, oldDelay, bytes)
  {
    SignedOrder(d1, d2, p.qdelayRef);
    SignedOrder(d1, d2, oldDelay);
  }

  /** A reference above 2^31 turns the controller over: 1 ms more takes the probability from 1 to 0. */
  lemma ControllerTurnsOver(p: PieParameters)
    requires p.qdelayRef > TWO31
    ensures var d := p.qdelayRef - TWO31 - 1;
            NextProb(p, 0.5, d, d, 1) == 1.0 && NextProb(p, 0.5, d + 1, d, 1) == 0.0
  {
    var d := p.qdelayRef - TWO31 - 1;
    DivModUnique(d - p.qdelayRef, TWO32, -1, TWO31 - 1);
    NarrowSmall(d + 1 - p.qdelayRef);
    NarrowSmall(0);
    NarrowSmall(1);
  }

  ghost predicate NeverFalls(p: PieParameters)
  {
    forall prob: real, d1: nat, d2: nat, oldDelay: nat, bytes: nat ::
      d1 <= d2 < TWO31 && oldDelay < TWO31 ==>
        NextProb(p, prob, d1, oldDelay, bytes) <= NextProb(p, prob, d2, oldDelay, bytes)
  }

  /** A longer delay never gives a smaller probability, over all delays a C `int` of bytes can give, if
      and only if the reference survives its narrowing. */
  lemma ControllerMonotone(p: PieParameters)
    ensures NeverFalls(p) <==> p.qdelayRef <= TWO31
  {
    if p.qdelayRef <= TWO31 {
      forall prob: real, d1: nat, d2: nat, oldDelay: nat, bytes: nat | d1 <= d2 < TWO31 && oldDelay < TWO31
        ensures NextProb(p, prob, d1, oldDelay, bytes) <= NextProb(p, prob, d2, oldDelay, bytes) {
        ControllerRises(p, prob, d1, d2, oldDelay, bytes);
      }
    } else {
      ControllerTurnsOver(p);
      var d := p.qdelayRef - TWO31 - 1;
      assert NextProb(p, 0.5, d, d, 1) > NextProb(p, 0.5, d + 1, d, 1);
    }
  }

  /** What the reference is after the 32-bit difference to a delay is read as signed. */
  function SignedReference(p: PieParameters, delay: nat): int
  {
    if delay - p.qdelayRef < -TWO31 then p.qdelayRef - TWO32 else p.qdelayRef
  }

  /** The response of the controller in numbers: 1 ms above the reference moves the probability by 1/1024,
      1 ms more than before by ten times that, both four or eight times as much from 0.01 and from 0.1 on; the
      result is kept within [0, 1], and decays by 2% only with no delay now, none before and nothing queued. */
  lemma ControllerResponse(p: PieParameters, prob: real, delay: nat, oldDelay: nat, bytes: nat)
    requires delay < TWO31 && oldDelay < TWO31
    ensures var error := (delay - SignedReference(p, delay)) + 10 * (delay - oldDelay);
            var scale := if prob < 0.01 then 1024.0 else if prob < 0.1 then 256.0 else 128.0;
            var moved := prob + error as real / scale;
            NextProb(p, prob, delay, oldDelay, bytes) ==
            if moved < 0.0 then 0.0
            else if moved > 1.0 then 1.0
            else if delay == 0 && oldDelay == 0 && bytes == 0 then moved * 0.98
            else moved
  {
    NarrowSmall(delay - oldDelay);
    if delay - p.qdelayRef < -TWO31 {
      DivModUnique(delay - p.qdelayRef, TWO32, -1, delay - p.qdelayRef + TWO32);
    } else {
      NarrowSmall(delay - p.qdelayRef);
    }
    AdjustmentInNumbers(p, prob, delay, oldDelay);
  }

  lemma AdjustmentInNumbers(p: PieParameters, prob: real, delay: nat, oldDelay: nat)
    requires delay < TWO31 && oldDelay < TWO31
    ensures var error := SignedDiff(delay, p.qdelayRef) + 10 * SignedDiff(delay, oldDelay);
            var scale := if prob < 0.01 then 1024.0 else if prob < 0.1 then 256.0 else 128.0;
            Adjustment(p, prob, delay, oldDelay) == error as real / scale
  {
  }

  // ---------- An empty queue ----------

  lemma SignedSmall(y: nat)
    requires y < TWO32
    ensures SignedDiff(0, y) == if y <= TWO31 then 0 - y else TWO32 - y
  {
    if y > 0 {
      DivModUnique(0 - y, TWO32, -1, TWO32 - y);
    }
  }

  lemma EmptyDelay(s: Pie)
    ensures QueueDelay(s, 0) == 0
  {
    if s.avgDqRate > 0 {
      DivModUnique(0, s.avgDqRate, 0, 0);
    }
  }

  /** Lower bound 0 on what is left after taking off. */
  function Left(prob: real, taken: real): real
  {
    if prob < taken then 0.0 else prob - taken
  }

  /** What k periods take off, 1/1024 of the reference each. */
  function Taken(p: PieParameters, k: nat): real
  {
    k as real * (p.qdelayRef as real / 1024.0)
  }

  /** With no delay and a reference of at most 2^31, a period takes at least qdelayRef / 1024 off. */
  lemma EmptyPeriodDrains(p: PieParameters, s: Pie)
    requires s.currentQdelay < TWO31 && p.qdelayRef <= TWO31
    ensures Period(p, s, 0).currentQdelay == 0
    ensures Period(p, s, 0).dropProb <= Left(s.dropProb, p.qdelayRef as real / 1024.0)
  {
    EmptyDelay(s);
    SignedSmall(p.qdelayRef);
    SignedSmall(s.currentQdelay);
  }

  lemma TakenStep(p: PieParameters, k: nat)
    requires k > 0
    ensures Taken(p, k) == p.qdelayRef as real / 1024.0 + Taken(p, k - 1) && Taken(p, k - 1) >= 0.0
    ensures Taken(p, 1) == p.qdelayRef as real / 1024.0
  {
    var q := p.qdelayRef as real / 1024.0;
    assert k as real == (k - 1) as real + 1.0;
    assert ((k - 1) as real + 1.0) * q == (k - 1) as real * q + q;
  }

  lemma LeftTwice(prob: real, mid: real, a: real, b: real)
    requires mid <= Left(prob, a) && a >= 0.0 && b >= 0.0
    ensures Left(mid, b) <= Left(prob, a + b)
  {
  }

  lemma {:induction false} EmptyPeriodsDrain(p: PieParameters, s: Pie, k: nat)
    requires s.currentQdelay < TWO31 && p.qdelayRef <= TWO31 && k > 0
    ensures Periods(p, s, 0, k).dropProb <= Left(s.dropProb, Taken(p, k))
    decreases k
  {
    var q := p.qdelayRef as real / 1024.0;
    var m := Period(p, s, 0);
    EmptyPeriodDrains(p, s);
    TakenStep(p, k);
    hide Period, Left, Taken;
    if k > 1 {
      EmptyPeriodsDrain(p, m, k - 1);
      LeftTwice(s.dropProb, m.dropProb, q, Taken(p, k - 1));
    } else {
      assert Periods(p, s, 0, 1) == m;
    }
  }

  lemma TakenAll(p: PieParameters, k: nat)
    requires k * p.qdelayRef >= 1024
    ensures Taken(p, k) >= 1.0
  {
    assert k as real * p.qdelayRef as real == (k * p.qdelayRef) as real;
    assert Taken(p, k) == (k as real * p.qdelayRef as real) / 1024.0;
  }

  /** A reference above 2^31 turns negative when narrowed, and then an empty queue raises the
      probability instead. */
  lemma EmptyPeriodRaises(p: PieParameters, s: Pie)
    requires s.currentQdelay == 0 && p.qdelayRef > TWO31 && s.dropProb >= 0.0
    ensures Period(p, s, 0).dropProb > 0.0 && Period(p, s, 0).currentQdelay == 0
  {
    EmptyDelay(s);
    SignedSmall(p.qdelayRef);
    SignedSmall(0);
  }

  lemma {:induction false} EmptyPeriodsRaise(p: PieParameters, s: Pie, k: nat)
    requires s.currentQdelay == 0 && p.qdelayRef > TWO31 && s.dropProb >= 0.0 && k > 0
    ensures Periods(p, s, 0, k).dropProb > 0.0
    decreases k
  {
    EmptyPeriodRaises(p, s);
    if k > 1 {
      EmptyPeriodsRaise(p, Period(p, s, 0), k - 1);
    }
  }

  /** An empty queue drives the probability to exactly 0 within ceil(1024 / qdelayRef) periods, and keeps
      it there, if and only if the reference survives its narrowing. */
  lemma EmptyQueueDrainsExactly(p: PieParameters, s: Pie, k: nat)
    requires PieInv(p, s) && k >= 2 && k * p.qdelayRef >= 1024
    ensures Periods(p, s, 0, k).dropProb == 0.0 <==> p.qdelayRef <= TWO31
  {
    PeriodsKeepInv(p, s, 0, k);
    if p.qdelayRef <= TWO31 {
      EmptyPeriodsDrain(p, s, k);
      TakenAll(p, k);
    } else {
      EmptyDelay(s);
      EmptyPeriodsRaise(p, Period(p, s, 0), k - 1);
    }
  }

  /** The bound on the number of periods, reached also by a single one. */
  lemma EmptyQueueDrains(p: PieParameters, s: Pie, k: nat)
    requires PieInv(p, s) && p.qdelayRef <= TWO31 && k >= (1023 + p.qdelayRef) / p.qdelayRef
    ensures Periods(p, s, 0, k).dropProb == 0.0
  {
    var ref := p.qdelayRef;
    var c := (1023 + ref) / ref;
    assert 1023 + ref == c * ref + (1023 + ref) % ref;
    assert c > 0 && c * ref >= 1024;
    MulMonotone(c, k, ref);
    PeriodsKeepInv(p, s, 0, k);
    EmptyPeriodsDrain(p, s, k);
    TakenAll(p, k);
  }

  // ---------- The departure rate ----------

  /** Running average in eighths, in integer arithmetic. */
  function Averaged(avg: nat, sample: nat): nat
  {
    if avg == 0 then sample else avg - avg / 8 + sample / 8
  }

  /** The average never leaves the range of the old average and the sample. */
  lemma AverageBetween(avg: nat, sample: nat)
    requires avg > 0
    ensures Min(avg, sample) <= Averaged(avg, sample) <= Max(avg, sample)
  {
  }

  /** Seven eighths of the old average and one eighth of the sample, up to what rounding each eighth loses. */
  lemma AverageWeights(avg: nat, sample: nat)
    ensures avg == 0 ==> Averaged(avg, sample) == sample
    ensures avg > 0 ==> 8 * Averaged(avg, sample) == 7 * avg + sample + avg % 8 - sample % 8
  {
  }

  /** `dequeue`, after `size` bytes left and `bytes` remain, at the 32-bit time `now`. */
  function Measured(s: Pie, size: nat, bytes: nat, now: nat): Pie
  {
    var started := if bytes >= DQ_THRESHOLD && s.dqCount == DQ_COUNT_INVALID then s.(dqTstamp := now, dqCount := 0) else s;
    if started.dqCount == DQ_COUNT_INVALID then started
    else
      var counted := started.(dqCount := (started.dqCount + size) % TWO32);
      var elapsed := (now - counted.dqTstamp) % TWO32;
      if counted.dqCount <= DQ_THRESHOLD || elapsed == 0 then counted
      else
        var rated := counted.(avgDqRate := Averaged(counted.avgDqRate, counted.dqCount / elapsed));
        var renewed := if bytes < DQ_THRESHOLD then rated.(dqCount := DQ_COUNT_INVALID)
                       else rated.(dqCount := 0, dqTstamp := now);
        renewed.(burstAllowance := Max(0, renewed.burstAllowance - elapsed))
  }

  lemma MeasuredKeepsInv(p: PieParameters, s: Pie, size: nat, bytes: nat, now: nat)
    requires PieInv(p, s)
    ensures PieInv(p, Measured(s, size, bytes, now))
    ensures Measured(s, size, bytes, now).burstAllowance <= s.burstAllowance
  {
  }

  /** A measurement begins when 16384 bytes are queued and none is under way. It counts the bytes leaving, ends
      after more than 16384 of them and at least 1 ms, and takes their rate into the average. */
  lemma MeasuredInNumbers(s: Pie, size: nat, bytes: nat, now: nat)
    ensures var r := Measured(s, size, bytes, now);
            var idle := s.dqCount == 0xFFFF_FFFF;
            var since := if idle then now else s.dqTstamp;
            var count := Low32((if idle then 0 else s.dqCount) + size);
            var elapsed := Low32(now - since);
            if idle && bytes < 16384 then r == s
            else if count <= 16384 || elapsed == 0 then r == s.(dqTstamp := since, dqCount := count)
            else r == s.(dqTstamp := if bytes < 16384 then since else now,
                         dqCount := if bytes < 16384 then 0xFFFF_FFFF else 0,
                         avgDqRate := Averaged(s.avgDqRate, count / elapsed),
                         burstAllowance := if s.burstAllowance > elapsed then s.burstAllowance - elapsed else 0)
  {
    hide Averaged;
  }

  // ---------- Dropping early ----------

  /** May a packet be dropped at random at all? */
  predicate DropsAtRandom(p: PieParameters, s: Pie, bytes: nat)
  {
    && s.burstAllowance == 0
    && (s.qdelayOld >= p.qdelayRef / 2 || s.dropProb >= 0.2)
    && bytes >= 2 * MAX_TUN_PAYLOAD
  }

  /** What a period does besides the probability. The delay is the bytes over the rate, rounded down, or 0
      without a rate; an idle reset restores the burst and forgets the rate, and otherwise 30 ms go off it. */
  lemma PeriodInNumbers(p: PieParameters, s: Pie, bytes: nat)
    requires PieInv(p, s)
    ensures var r, delay := Period(p, s, bytes), Period(p, s, bytes).currentQdelay;
            var idle := r.dropProb == 0.0 && 2 * delay + 1 < p.qdelayRef && 2 * s.currentQdelay + 1 < p.qdelayRef
                        && s.avgDqRate > 0;
            && (if s.avgDqRate == 0 then delay == 0 else delay * s.avgDqRate <= bytes < (delay + 1) * s.avgDqRate)
            && r.dropProb == NextProb(p, s.dropProb, delay, s.currentQdelay, bytes)
            && r.qdelayOld == s.currentQdelay && r.dqTstamp == s.dqTstamp && r.lastUpdate == s.lastUpdate + 30
            && r.burstAllowance == (if idle then p.maxBurst
                                    else if 30 <= s.burstAllowance < TWO31 then s.burstAllowance - 30 else 0)
            && r.avgDqRate == (if idle then 0 else s.avgDqRate)
            && r.dqCount == (if idle then 0xFFFF_FFFF else s.dqCount)
  {
    hide NextProb;
    NarrowedBurst(s.burstAllowance);
    if s.avgDqRate > 0 {
      DelayRounds(bytes, s.avgDqRate);
    }
  }

  lemma NarrowedBurst(b: nat)
    requires b < TWO32
    ensures ToInt32(b) == if b < TWO31 then b else b - TWO32
  {
    DivModUnique(b, TWO32, 0, b);
  }

  lemma DelayRounds(bytes: nat, rate: nat)
    requires rate > 0
    ensures bytes / rate * rate <= bytes < (bytes / rate + 1) * rate
  {
    assert bytes == bytes / rate * rate + bytes % rate;
    assert (bytes / rate + 1) * rate == bytes / rate * rate + rate;
  }

  /** After one period there is an allowance left iff the period was an idle reset or the allowance was
      above 30 ms and below 2^31; a larger one turns negative when narrowed, and all of it is taken. */
  lemma BurstSurvivesExactly(p: PieParameters, s: Pie, bytes: nat)
    requires PieInv(p, s)
    ensures Period(p, s, bytes).burstAllowance > 0
            <==> Resets(p, s, bytes) || T_UPDATE < s.burstAllowance < TWO31
  {
    hide Resets, NextProb;
    if s.burstAllowance < TWO31 {
      NarrowSmall(s.burstAllowance);
    } else {
      DivModUnique(s.burstAllowance, TWO32, 0, s.burstAllowance);
    }
  }

  // ---------- Runs ----------

  /** A call and what it finds: the bytes queued at its catch-up, and for a dequeue the size taken off. */
  datatype Call = Enqueueing(bytes: nat, now: nat) | Dequeueing(size: nat, bytes: nat, now: nat)

  function Called(p: PieParameters, s: Pie, c: Call): Pie
  {
    match c
    case Enqueueing(bytes, now) => CaughtUp(p, s, bytes, now)
    case Dequeueing(size, bytes, now) => CaughtUp(p, Measured(s, size, bytes, now % TWO32), bytes, now)
  }

  function CalledAll(p: PieParameters, s: Pie, cs: seq<Call>): Pie
    decreases |cs|
  {
    if cs == [] then s else CalledAll(p, Called(p, s, cs[0]), cs[1..])
  }

  /** The calls come in order of time, from t to `end`. */
  predicate Between(t: nat, cs: seq<Call>, end: nat)
    decreases |cs|
  {
    if cs == [] then t <= end else t <= cs[0].now && Between(cs[0].now, cs[1..], end)
  }

  /** A measurement under way began at `since`; updates up to `lastUpdate` and measurements up to `since`
      have taken no more than their time off the budget. */
  predicate WithinBudget(p: PieParameters, s: Pie, budget: int, since: nat)
  {
    && (s.dqCount != DQ_COUNT_INVALID ==> s.dqTstamp == since % TWO32)
    && budget - s.lastUpdate - since <= s.burstAllowance <= p.maxBurst
    && budget - s.lastUpdate - since <= p.maxBurst < TWO31
  }

  lemma PeriodWithinBudget(p: PieParameters, s: Pie, bytes: nat, budget: int, since: nat)
    requires WithinBudget(p, s, budget, since)
    ensures WithinBudget(p, Period(p, s, bytes), budget, since)
  {
    hide Resets, NextProb, QueueDelay;
    NarrowSmall(s.burstAllowance);
  }

  lemma {:induction false} PeriodsWithinBudget(p: PieParameters, s: Pie, bytes: nat, k: nat, budget: int, since: nat)
    requires WithinBudget(p, s, budget, since)
    ensures WithinBudget(p, Periods(p, s, bytes, k), budget, since)
    decreases k
  {
    if k > 0 {
      PeriodWithinBudget(p, s, bytes, budget, since);
      PeriodsWithinBudget(p, Period(p, s, bytes), bytes, k - 1, budget, since);
    }
  }

  /** The 32-bit clock never measures more time than has passed. */
  lemma ElapsedWithin(now: nat, since: nat)
    requires since <= now
    ensures (now % TWO32 - since % TWO32) % TWO32 <= now - since
  {
    var x := now % TWO32 - since % TWO32;
    DivModShift(x, TWO32, now / TWO32 - since / TWO32);
    assert x + (now / TWO32 - since / TWO32) * TWO32 == now - since;
  }

  /** A measurement begins, goes on, or ends and takes its length off the allowance. */
  lemma MeasuredCases(s: Pie, size: nat, bytes: nat, now: nat)
    ensures var r := Measured(s, size, bytes, now);
            var renewed := r.dqCount == DQ_COUNT_INVALID || r.dqTstamp == now;
            && r.lastUpdate == s.lastUpdate
            && (s.dqCount == DQ_COUNT_INVALID ==> r.burstAllowance == s.burstAllowance && renewed)
            && (s.dqCount != DQ_COUNT_INVALID ==>
                  || (r.burstAllowance == s.burstAllowance && r.dqTstamp == s.dqTstamp)
                  || (r.burstAllowance == Max(0, s.burstAllowance - (now - s.dqTstamp) % TWO32) && renewed))
  {
    hide Averaged;
  }

  lemma MeasuredWithinBudget(p: PieParameters, s: Pie, size: nat, bytes: nat, now: nat, budget: int, since: nat)
    returns (began: nat)
    requires WithinBudget(p, s, budget, since) && since <= now
    ensures since <= began <= now && WithinBudget(p, Measured(s, size, bytes, now % TWO32), budget, began)
  {
    hide Measured;
    var r := Measured(s, size, bytes, now % TWO32);
    MeasuredCases(s, size, bytes, now % TWO32);
    ElapsedWithin(now, since);
    began := now;
    if s.dqCount != DQ_COUNT_INVALID && r.burstAllowance == s.burstAllowance && r.dqTstamp == s.dqTstamp {
      began := since;
    }
  }

  lemma {:induction false} RunWithinBudget(p: PieParameters, s: Pie, cs: seq<Call>, t: nat, end: nat, budget: int, since: nat)
    returns (began: nat)
    requires WithinBudget(p, s, budget, since) && since <= t && s.lastUpdate <= t && Between(t, cs, end)
    ensures began <= end && CalledAll(p, s, cs).lastUpdate <= end && WithinBudget(p, CalledAll(p, s, cs), budget, began)
    decreases |cs|
  {
    hide WithinBudget, Measured;
    began := since;
    if cs != [] {
      var c := cs[0];
      var m := s;
      if c.Dequeueing? {
        m := Measured(s, c.size, c.bytes, c.now % TWO32);
        MeasuredCases(s, c.size, c.bytes, c.now % TWO32);
        began := MeasuredWithinBudget(p, s, c.size, c.bytes, c.now, budget, since);
      }
      CatchesUp(p, m, c.bytes, c.now);
      PeriodsWithinBudget(p, m, c.bytes, Missed(m, c.now), budget, began);
      began := RunWithinBudget(p, CaughtUp(p, m, c.bytes, c.now), cs[1..], c.now, end, budget, began);
    }
  }

  /** A burst is let through. From a state as an idle reset leaves it, with allowance b and no measurement
      under way, over any enqueues and dequeues: updates and measurements each take at most the time that
      passes, so while both together are below b no packet is dropped at random, whatever the delay, the
      probability and the bytes queued. */
  lemma BurstProtects(p: PieParameters, s: Pie, cs: seq<Call>, t: nat, end: nat, queued: nat)
    requires PieInv(p, s) && p.maxBurst < TWO31 && s.dqCount == DQ_COUNT_INVALID
    requires s.lastUpdate <= t && Between(t, cs, end)
    requires (end - s.lastUpdate) + (end - t) < s.burstAllowance
    ensures !DropsAtRandom(p, CalledAll(p, s, cs), queued)
  {
    var since := RunWithinBudget(p, s, cs, t, end, s.burstAllowance + s.lastUpdate + t, t);
  }

  /** Exactly when a packet may be dropped at random: no burst allowance, the old delay at half the reference
      or the probability at 0.2, and the bytes of two full packets queued. */
  lemma DropsAtRandomExactly(p: PieParameters, s: Pie, bytes: nat)
    ensures DropsAtRandom(p, s, bytes) <==>
            && s.burstAllowance == 0 && bytes >= 3008
            && (2 * s.qdelayOld + 1 >= p.qdelayRef || s.dropProb >= 0.2)
  {
  }

  // ---------- The object ----------

  class PiePacketQueue {
    const parameters: PieParameters
    const base: PacketQueue
    var dropProb: real
    var burstAllowance: nat
    var qdelayOld: nat
    var currentQdelay: nat
    var dqCount: nat
    var dqTstamp: nat
    var avgDqRate: nat
    var lastUpdate: nat

    ghost function Abs(): Pie
      reads this
    {
      Pie(dropProb, burstAllowance, qdelayOld, currentQdelay, dqCount, dqTstamp, avgDqRate, lastUpdate)
    }

    /** The byte counter is a C `int`. */
    ghost predicate Valid()
      reads this, base
    {
      base.Valid() && base.queueSizeInBytes < TWO31 && PieInv(parameters, Abs())
    }

    constructor (parameters: PieParameters, limits: Limits, now: nat)
      ensures Valid() && fresh(base) && base.internalQueue == [] && base.discipline == DropTail(limits)
      ensures Abs() == Pie(0.0, 0, 0, 0, DQ_COUNT_INVALID, 0, 0, now)
    {
      this.parameters := parameters;
      base := new PacketQueue(DropTail(limits));
      dropProb, burstAllowance, qdelayOld, currentQdelay := 0.0, 0, 0, 0;
      dqCount, dqTstamp, avgDqRate, lastUpdate := DQ_COUNT_INVALID, 0, 0, now;
    }

    /** The probability part of one period. */
    method UpdateProb(bytes: nat)
      modifies `qdelayOld, `currentQdelay, `dropProb
      ensures qdelayOld == old(currentQdelay) && currentQdelay == QueueDelay(old(Abs()), bytes)
      ensures dropProb == NextProb(parameters, old(dropProb), currentQdelay, qdelayOld, bytes)
    {
      hide Adjustment;
      var updateProb := true;
      qdelayOld := currentQdelay;
      if avgDqRate > 0 {
        currentQdelay := bytes / avgDqRate;
      } else {
        currentQdelay := 0;
      }
      if currentQdelay == 0 && bytes != 0 {
        updateProb := false;
      }
      dropProb := dropProb + Adjustment(parameters, dropProb, currentQdelay, qdelayOld);
      if dropProb < 0.0 {
        dropProb := 0.0;
      } else if dropProb > 1.0 {
        dropProb := 1.0;
        updateProb := false;
      }
      if currentQdelay == 0 && qdelayOld == 0 && updateProb {
        dropProb := dropProb * 0.98;
      }
    }

    /** One turn of the catch-up loop. */
    method UpdateOnce()
      requires base.queueSizeInBytes >= 0
      modifies this
      ensures Abs() == Period(parameters, old(Abs()), base.queueSizeInBytes)
    {
      hide NextProb, QueueDelay, ToInt32;
      UpdateProb(base.queueSizeInBytes);
      burstAllowance := Max(0, ToInt32(burstAllowance) - T_UPDATE);
      lastUpdate := lastUpdate + T_UPDATE;
      if dropProb == 0.0 && currentQdelay < parameters.qdelayRef / 2 && qdelayOld < parameters.qdelayRef / 2
         && avgDqRate > 0 {
        dqCount := DQ_COUNT_INVALID;
        avgDqRate := 0;
        burstAllowance := parameters.maxBurst;
      }
    }

    /** Make up for the periods missed since the last update. */
    method CalculateDropProb(now: nat)
      requires Valid()
      modifies this
      ensures Valid() && Abs() == CaughtUp(parameters, old(Abs()), base.queueSizeInBytes, now)
    {
      ghost var s, bytes := Abs(), base.queueSizeInBytes;
      PeriodsKeepInv(parameters, s, bytes, Missed(s, now));
      while now - lastUpdate > T_UPDATE
        invariant CaughtUp(parameters, Abs(), bytes, now) == CaughtUp(parameters, s, bytes, now)
        decreases now - lastUpdate
      {
        UpdateOnce();
      }
    }

    /** `draw` is the random number of the source, uniform in [0, 1). */
    method DropEarly(draw: real) returns (drop: bool)
      requires base.queueSizeInBytes >= 0
      ensures drop <==> DropsAtRandom(parameters, Abs(), base.queueSizeInBytes) && draw < dropProb
    {
      if burstAllowance > 0 {
        return false;
      }
      if qdelayOld < parameters.qdelayRef / 2 && dropProb < 0.2 {
        return false;
      }
      if base.queueSizeInBytes < 2 * MAX_TUN_PAYLOAD {
        return false;
      }
      return draw < dropProb;
    }

    /** Admit a packet that fits, unless it is dropped early. */
    method Enqueue(p: QueuedPacket, now: nat, draw: real) returns (accepted: bool)
      requires Valid() && base.queueSizeInBytes + |p.contents| < TWO31
      modifies this, base
      ensures Valid() && Abs() == CaughtUp(parameters, old(Abs()), old(base.queueSizeInBytes), now)
      ensures var l, size := LimitsOf(base.discipline), old(base.queueSizeInBytes);
              accepted <==>
                && (l.packets == 0 || |old(base.internalQueue)| + 1 <= l.packets)
                && (l.bytes == 0 || size + |p.contents| <= l.bytes)
                && !(burstAllowance == 0 && (2 * qdelayOld + 1 >= parameters.qdelayRef || dropProb >= 0.2)
                     && size >= 3008 && draw < dropProb)
      ensures base.internalQueue == if accepted then old(base.internalQueue) + [p] else old(base.internalQueue)
    {
      TotalBytesConcat(base.internalQueue, [p]);
      CalculateDropProb(now);
      if !GoodWith(LimitsOf(base.discipline), base.queueSizeInBytes + |p.contents|, base.queueSizeInPackets + 1) {
        return false;
      }
      var drop := DropEarly(draw);
      if !drop {
        base.Accept(p);
      }
      assert base.Good();
      return !drop;
    }

    /** Take the head off, measure the departure rate, and catch up with the updates. */
    method Dequeue(now: nat) returns (ret: QueuedPacket)
      requires Valid() && !base.Empty()
      modifies this, base
      ensures Valid() && old(base.internalQueue) == [ret] + base.internalQueue
      ensures var m := Measured(old(Abs()), |ret.contents|, base.queueSizeInBytes, now % TWO32);
              Abs() == CaughtUp(parameters, m, base.queueSizeInBytes, now)
    {
      ret := base.Dequeue();
      assert base.queueSizeInBytes == TotalBytes(base.internalQueue) <= old(base.queueSizeInBytes);
      Measure(|ret.contents|, now % TWO32);
      CalculateDropProb(now);
    }

    method Measure(size: nat, now: nat)
      requires Valid()
      modifies `dqCount, `dqTstamp, `avgDqRate, `burstAllowance
      ensures Valid() && Abs() == Measured(old(Abs()), size, base.queueSizeInBytes, now)
    {
      MeasuredKeepsInv(parameters, Abs(), size, base.queueSizeInBytes, now);
      hide PieInv;
      if base.queueSizeInBytes >= DQ_THRESHOLD && dqCount == DQ_COUNT_INVALID {
        dqTstamp := now;
        dqCount := 0;
      }
      if dqCount != DQ_COUNT_INVALID {
        dqCount := (dqCount + size) % TWO32;
        if dqCount > DQ_THRESHOLD {
          var elapsed := (now - dqTstamp) % TWO32;
          if elapsed > 0 {
            var sample := dqCount / elapsed;
            if avgDqRate == 0 {
              avgDqRate := sample;
            } else {
              avgDqRate := avgDqRate - avgDqRate / 8 + sample / 8;
            }
            if base.queueSizeInBytes < DQ_THRESHOLD {
              dqCount := DQ_COUNT_INVALID;
            } else {
              dqCount := 0;
              dqTstamp := now;
            }
            if burstAllowance > 0 {
              if burstAllowance > elapsed {
                burstAllowance := burstAllowance - elapsed;
              } else {
                burstAllowance := 0;
              }
            }
          }
        }
      }
    }
  }
}
