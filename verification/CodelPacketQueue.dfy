/** The CoDel queue: a state machine that drops at dequeue time. */
module CodelPacketQueues {
  import opened Arithmetic
  import opened Packets
  import opened PacketQueues

  datatype Parameters = Parameters(target: nat, interval: nat)

  /** Zero means not given, and the constructor refuses it. */
  type CodelParameters = p: Parameters | p.target > 0 && p.interval > 0 witness Parameters(1, 1)

  datatype Codel = Codel(
    queue: seq<QueuedPacket>,
    firstAboveTime: nat,
    dropNext: nat,
    count: nat,
    lastCount: nat,
    dropping: bool)

  // ---------- The control law ----------

  predicate WithinLaw(interval: nat, count: nat, d: nat)
  {
    d * d * count <= interval * interval
  }

  function LargestFrom(interval: nat, count: nat, d: nat): nat
  {
    if d == 0 || WithinLaw(interval, count, d) then d else LargestFrom(interval, count, d - 1)
  }

  /** interval / sqrt(count), rounded down: the largest d with d^2 count <= interval^2. */
  function Gap(interval: nat, count: nat): nat
    requires count > 0
  {
    LargestFrom(interval, count, interval)
  }

  function ControlLaw(interval: nat, t: nat, count: nat): nat
    requires count > 0
  {
    t + Gap(interval, count)
  }

  lemma {:induction false} LargestFromIsLargest(interval: nat, count: nat, d: nat)
    ensures var g := LargestFrom(interval, count, d);
            g <= d && WithinLaw(interval, count, g) && forall e: nat :: g < e <= d ==> !WithinLaw(interval, count, e)
    decreases d
  {
    if d > 0 && !WithinLaw(interval, count, d) {
      LargestFromIsLargest(interval, count, d - 1);
    }
  }

  /** The gap is the integer part of interval / sqrt(count). */
  lemma GapIsRoot(interval: nat, count: nat)
    requires count > 0
    ensures var g := Gap(interval, count);
            g <= interval && g * g * count <= interval * interval < (g + 1) * (g + 1) * count
  {
    var g := Gap(interval, count);
    LargestFromIsLargest(interval, count, interval);
    if g < interval {
      assert !WithinLaw(interval, count, g + 1);
    } else {
      var sq := (interval + 1) * (interval + 1);
      assert sq > interval * interval;
      MulMonotone(1, count, sq);
    }
  }

  /** Later drops of an episode are never further apart. */
  lemma GapShrinks(interval: nat, c1: nat, c2: nat)
    requires 0 < c1 <= c2
    ensures Gap(interval, c2) <= Gap(interval, c1)
  {
    var g1, g2 := Gap(interval, c1), Gap(interval, c2);
    LargestFromIsLargest(interval, c1, interval);
    LargestFromIsLargest(interval, c2, interval);
    assert WithinLaw(interval, c1, g2) by {
      MulMonotone(c1, c2, g2 * g2);
    }
  }

  // ---------- One pop ----------

  /** `dodequeue`: the head leaves; the flag says whether it has been above target for long enough. */
  function DoDequeue(p: CodelParameters, s: Codel, now: nat): (r: (Codel, bool))
    requires s.queue != []
    ensures r.0.queue == s.queue[1..]
    ensures r.1 ==> r.0.queue != []
    ensures r.0 == s.(queue := r.0.queue, firstAboveTime := r.0.firstAboveTime)
  {
    var rest := s.queue[1..];
    var popped := s.(queue := rest);
    if rest == [] then (popped.(firstAboveTime := 0), false)
    else
      var sojourn := SubWrapping(now, s.queue[0].arrivalTime);
      if sojourn < p.target || TotalBytes(rest) <= MAX_TUN_PAYLOAD then (popped.(firstAboveTime := 0), false)
      else if s.firstAboveTime == 0 then (popped.(firstAboveTime := now + p.interval), false)
      else (popped, now >= s.firstAboveTime)
  }

  /** What holds whenever the loop of `dequeue` is about to test its condition. */
  predicate LoopReady(s: Codel)
  {
    s.dropping ==> s.queue != [] && s.count > 0
  }

  /** Catch up with the drops that have come due. */
  function DropLoop(p: CodelParameters, s: Codel, now: nat): (r: Codel)
    requires LoopReady(s)
    ensures LoopReady(r)
    decreases |s.queue|
  {
    if !(now >= s.dropNext && s.dropping) then s
    else
      var (m, ok) := DoDequeue(p, s, now);
      var c := m.count + 1;
      DropLoop(p, if ok then m.(count := c, dropNext := ControlLaw(p.interval, m.dropNext, c))
                  else m.(count := c, dropping := false), now)
  }

  /** Count with which a new episode starts: it resumes near the old one if that ended recently. */
  function EpisodeCount(p: CodelParameters, count: nat, lastCount: nat, dropNext: nat, now: nat): (c: nat)
    ensures c > 0
  {
    var delta := (count - lastCount) % TWO32;
    if delta > 1 && SubWrapping(now, dropNext) < 16 * p.interval % TWO32 then delta else 1
  }

  predicate CodelInv(s: Codel)
  {
    s.lastCount <= s.count && (s.dropping ==> s.count >= 1)
  }

  /** `dequeue`; the packet delivered is always the head. */
  function Dequeued(p: CodelParameters, s: Codel, now: nat): Codel
    requires s.queue != [] && CodelInv(s)
  {
    var (m, ok) := DoDequeue(p, s, now);
    if s.dropping then DropLoop(p, if ok then m else m.(dropping := false), now)
    else if ok then
      var (n, _) := DoDequeue(p, m, now);
      var c := EpisodeCount(p, n.count, n.lastCount, n.dropNext, now);
      n.(dropping := true, count := c, dropNext := ControlLaw(p.interval, now, c), lastCount := c)
    else m
  }

  // ---------- Laws ----------

  /** The sum of the gaps for counts a + 1 to b. */
  function Gaps(interval: nat, a: nat, b: nat): nat
    requires a <= b
    decreases b - a
  {
    if a == b then 0 else Gap(interval, a + 1) + Gaps(interval, a + 1, b)
  }

  predicate Suffix(q: seq<QueuedPacket>, r: seq<QueuedPacket>)
  {
    |r| <= |q| && r == q[|q| - |r|..]
  }

  lemma SuffixOfTail(q: seq<QueuedPacket>, r: seq<QueuedPacket>)
    ensures Suffix(q, q)
    ensures q != [] && Suffix(q[1..], r) ==> Suffix(q, r) && |r| < |q|
    ensures q != [] && Suffix(q[1..], r) ==> q == [q[0]] + q[1..|q| - |r|] + r
  {
  }

  /** The loop drops one packet per count; if it is still dropping the schedule has moved by exactly the
      gaps of those counts, past the present. */
  lemma {:induction false} DropLoopLaw(p: CodelParameters, s: Codel, now: nat)
    requires LoopReady(s)
    ensures var r := DropLoop(p, s, now);
            && Suffix(s.queue, r.queue)
            && r.count == s.count + (|s.queue| - |r.queue|)
            && r.lastCount == s.lastCount
            && (r.dropping ==> s.dropping && now < r.dropNext
                               && r.dropNext == s.dropNext + Gaps(p.interval, s.count, r.count))
            && (!r.dropping && s.dropping ==>
                  |r.queue| < |s.queue| && r.dropNext == s.dropNext + Gaps(p.interval, s.count, r.count - 1))
            && (!s.dropping ==> r == s)
            && (r.count > s.count ==> now >= s.dropNext + Gaps(p.interval, s.count, r.count - 1))
    decreases |s.queue|
  {
    hide Gap, TotalBytes, SubWrapping, Suffix;
    if now >= s.dropNext && s.dropping {
      var (m, ok) := DoDequeue(p, s, now);
      var c := m.count + 1;
      var next := if ok then m.(count := c, dropNext := ControlLaw(p.interval, m.dropNext, c))
                  else m.(count := c, dropping := false);
      DropLoopLaw(p, next, now);
      SuffixOfTail(s.queue, DropLoop(p, next, now).queue);
    } else {
      SuffixOfTail(s.queue, s.queue);
    }
  }

  /** A dequeue takes the head, which is delivered, and drops the block behind it; outside an episode it
      drops at most one packet, inside exactly as many as the count grows. */
  lemma DequeueDropsBehindHead(p: CodelParameters, s: Codel, now: nat)
    requires s.queue != [] && CodelInv(s)
    ensures var r := Dequeued(p, s, now);
            var dropped := |s.queue| - 1 - |r.queue|;
            && dropped >= 0 && s.queue == [s.queue[0]] + s.queue[1..1 + dropped] + r.queue
            && (s.dropping ==> r.count == s.count + dropped)
            && (!s.dropping ==> dropped == if r.dropping then 1 else 0)
  {
    hide Gap, Gaps, TotalBytes, SubWrapping, EpisodeCount, DropLoop;
    var (m, ok) := DoDequeue(p, s, now);
    if s.dropping {
      DropLoopLaw(p, if ok then m else m.(dropping := false), now);
    }
    assert Suffix(s.queue[1..], Dequeued(p, s, now).queue);
    SuffixOfTail(s.queue, Dequeued(p, s, now).queue);
  }

  /** A dequeue drops something iff its pop marks the next packet and, inside an episode, a drop is due. */
  lemma DropsExactly(p: CodelParameters, s: Codel, now: nat)
    requires s.queue != [] && CodelInv(s)
    ensures |Dequeued(p, s, now).queue| < |s.queue| - 1
            <==> DoDequeue(p, s, now).1 && (s.dropping ==> now >= s.dropNext)
  {
    var (m, ok) := DoDequeue(p, s, now);
    if s.dropping && ok && now >= s.dropNext {
      var (n, again) := DoDequeue(p, m, now);
      var c := n.count + 1;
      DropLoopLaw(p, if again then n.(count := c, dropNext := ControlLaw(p.interval, n.dropNext, c))
                     else n.(count := c, dropping := false), now);
    }
  }

  /** The counters after a dequeue, in every case. Inside an episode the count grows with the drops, every one
      of which was due, and the schedule has moved by their gaps, except for the last one if it ends the episode;
      a new episode takes its count from the last one and schedules from now; otherwise nothing moves. */
  lemma DequeueCounts(p: CodelParameters, s: Codel, now: nat)
    requires s.queue != [] && CodelInv(s)
    ensures var r := Dequeued(p, s, now);
            var drops := |s.queue| - 1 - |r.queue|;
            && drops >= 0
            && (s.dropping ==>
                  && r.count == s.count + drops && r.lastCount == s.lastCount
                  && (drops > 0 ==> now >= s.dropNext + Gaps(p.interval, s.count, s.count + drops - 1))
                  && r.dropNext == s.dropNext +
                     Gaps(p.interval, s.count, if r.dropping || drops == 0 then r.count else r.count - 1))
            && (!s.dropping && drops == 0 ==>
                  !r.dropping && r.count == s.count && r.lastCount == s.lastCount && r.dropNext == s.dropNext)
            && (!s.dropping && drops > 0 ==>
                  && r.dropping && r.count == EpisodeCount(p, s.count, s.lastCount, s.dropNext, now)
                  && r.lastCount == r.count && r.dropNext == now + Gap(p.interval, r.count))
  {
    hide Gap, TotalBytes, SubWrapping, EpisodeCount, DropLoop;
    DequeueDropsBehindHead(p, s, now);
    var (m, ok) := DoDequeue(p, s, now);
    if s.dropping {
      DropLoopLaw(p, if ok then m else m.(dropping := false), now);
    }
  }

  /** Every dequeue keeps lastCount <= count, and an episode under way has a positive count. */
  lemma DequeueKeepsInv(p: CodelParameters, s: Codel, now: nat)
    requires s.queue != [] && CodelInv(s)
    ensures CodelInv(Dequeued(p, s, now))
  {
    var (m, ok) := DoDequeue(p, s, now);
    if s.dropping {
      DropLoopLaw(p, if ok then m else m.(dropping := false), now);
    }
  }

  /** Drops within one episode follow the control law exactly, never further apart than before; a new
      episode schedules its next drop from now. */
  lemma DropSchedule(p: CodelParameters, s: Codel, now: nat)
    requires s.queue != [] && CodelInv(s)
    ensures var r := Dequeued(p, s, now);
            r.dropping ==>
              && r.count > 0
              && (s.dropping ==> now < r.dropNext && s.count <= r.count
                                 && r.dropNext == s.dropNext + Gaps(p.interval, s.count, r.count)
                                 && Gap(p.interval, r.count) <= Gap(p.interval, s.count))
              && (!s.dropping ==> r.dropNext == now + Gap(p.interval, r.count))
  {
    var (m, ok) := DoDequeue(p, s, now);
    if s.dropping {
      DropLoopLaw(p, if ok then m else m.(dropping := false), now);
      var r := Dequeued(p, s, now);
      if r.dropping {
        GapShrinks(p.interval, s.count, r.count);
      }
    }
  }

  /** Has the packet stayed for at least the target? */
  predicate Late(p: CodelParameters, q: QueuedPacket, now: nat)
  {
    (now - q.arrivalTime) % 0x1_0000_0000_0000_0000 >= p.target
  }

  predicate AllLate(p: CodelParameters, q: seq<QueuedPacket>, now: nat)
  {
    forall i :: 0 <= i < |q| ==> Late(p, q[i], now)
  }

  lemma AllLateCons(p: CodelParameters, q: seq<QueuedPacket>, now: nat)
    requires |q| >= 2
    ensures AllLate(p, q[..|q| - 1], now) <==> Late(p, q[0], now) && AllLate(p, q[1..][..|q| - 2], now)
  {
    var a, b := q[..|q| - 1], q[1..][..|q| - 2];
    assert a == [q[0]] + b;
    assert forall i :: 0 <= i < |b| ==> b[i] == a[i + 1];
  }

  lemma {:induction false} LastWithinTotal(q: seq<QueuedPacket>)
    requires q != []
    ensures |q[|q| - 1].contents| <= TotalBytes(q)
    ensures |q| == 1 ==> |q[|q| - 1].contents| == TotalBytes(q)
  {
    if |q| == 1 {
      assert TotalBytes(q[1..]) == 0;
    } else {
      LastWithinTotal(q[1..]);
    }
  }

  /** The drops the loop still has to make to empty the queue are all due, and all allowed. */
  predicate LoopEmpties(p: CodelParameters, s: Codel, now: nat)
    requires s.queue != []
  {
    var n := |s.queue|;
    && |s.queue[n - 1].contents| > MAX_TUN_PAYLOAD && AllLate(p, s.queue[..n - 1], now)
    && now >= s.dropNext + Gaps(p.interval, s.count, s.count + n - 1)
  }

  /** A loop entered after a mark empties the queue exactly when it can drop every packet. */
  lemma {:induction false} DropLoopEmptiesExactly(p: CodelParameters, s: Codel, now: nat)
    requires LoopReady(s) && s.dropping && TotalBytes(s.queue) > MAX_TUN_PAYLOAD && 0 != s.firstAboveTime <= now
    ensures DropLoop(p, s, now).queue == [] <==> LoopEmpties(p, s, now)
    decreases |s.queue|
  {
    hide Late, Gap, TotalBytes, AllLate;
    LastWithinTotal(s.queue);
    if now >= s.dropNext {
      var (m, ok) := DoDequeue(p, s, now);
      var c := m.count + 1;
      if m.queue != [] {
        AllLateCons(p, s.queue, now);
        LastWithinTotal(m.queue);
        assert m.queue[|m.queue| - 1] == s.queue[|s.queue| - 1];
        MarksExactly(p, s, now);
        if ok {
          var next := m.(count := c, dropNext := ControlLaw(p.interval, m.dropNext, c));
          DropLoopEmptiesExactly(p, next, now);
        }
      } else {
        NoneLate(p, s.queue, now);
      }
    }
  }

  lemma NoneLate(p: CodelParameters, q: seq<QueuedPacket>, now: nat)
    requires |q| == 1
    ensures AllLate(p, q[..|q| - 1], now)
  {
  }

  /** What marks the next packet. */
  lemma MarksExactly(p: CodelParameters, s: Codel, now: nat)
    requires s.queue != []
    ensures DoDequeue(p, s, now).1
            <==> |s.queue| > 1 && Late(p, s.queue[0], now) && TotalBytes(s.queue[1..]) > MAX_TUN_PAYLOAD
                 && 0 != s.firstAboveTime <= now
  {
  }

  /** The comment of the source says that the only packet left is never dropped. In every state: a dequeue
      that drops something leaves the queue empty exactly when the last packet is above the bound, every
      packet before it is late, the deadline has passed, and all the drops it takes are due: outside an
      episode only one can be, inside one the schedule decides. */
  lemma OversizeEmptiesExactly(p: CodelParameters, s: Codel, now: nat)
    requires s.queue != [] && CodelInv(s)
    ensures var r, n := Dequeued(p, s, now), |s.queue|;
            |r.queue| < n - 1 && r.queue == []
            <==> && n >= 2 && |s.queue[n - 1].contents| > MAX_TUN_PAYLOAD
                 && AllLate(p, s.queue[..n - 1], now) && 0 != s.firstAboveTime <= now
                 && if s.dropping then now >= s.dropNext + Gaps(p.interval, s.count, s.count + n - 2) else n == 2
  {
    hide Late, Gap, Gaps, TotalBytes, AllLate, DropLoop, EpisodeCount;
    var (m, ok) := DoDequeue(p, s, now);
    MarksExactly(p, s, now);
    DequeueDropsBehindHead(p, s, now);
    if |s.queue| >= 2 {
      AllLateCons(p, s.queue, now);
      LastWithinTotal(m.queue);
      assert m.queue[|m.queue| - 1] == s.queue[|s.queue| - 1];
      if s.dropping {
        if ok {
          DropLoopEmptiesExactly(p, m, now);
        } else {
          LoopStops(p, m.(dropping := false), now);
        }
      } else if |m.queue| == 1 {
        NoneLate(p, m.queue, now);
      }
    }
  }

  lemma LoopStops(p: CodelParameters, s: Codel, now: nat)
    requires !s.dropping
    ensures DropLoop(p, s, now) == s
  {
  }

  /** So with no packet above the bound a dequeue that drops anything leaves the queue nonempty. */
  lemma DropsNeverEmpty(p: CodelParameters, s: Codel, now: nat)
    requires s.queue != [] && CodelInv(s)
    ensures var r := Dequeued(p, s, now);
            |r.queue| < |s.queue| - 1 && r.queue == [] ==> |s.queue[|s.queue| - 1].contents| > MAX_TUN_PAYLOAD
  {
    OversizeEmptiesExactly(p, s, now);
  }

  /** A new episode resumes near the old count exactly when the last scheduled drop is past by less than
      the window. A schedule that still lies ahead wraps around to a huge age, so the count restarts. */
  lemma EpisodeResumesExactly(p: CodelParameters, count: nat, lastCount: nat, dropNext: nat, now: nat)
    requires now < TWO64 && dropNext <= now + TWO64 - TWO32
    ensures var delta := (count - lastCount) % TWO32;
            var resumes := delta > 1 && dropNext <= now < dropNext + 16 * p.interval % TWO32;
            EpisodeCount(p, count, lastCount, dropNext, now) == if resumes then delta else 1
  {
    if now < dropNext {
      DivModUnique(now - dropNext, TWO64, -1, now - dropNext + TWO64);
    } else {
      DivModUnique(now - dropNext, TWO64, 0, now - dropNext);
    }
  }

  // ---------- The delivery rule of section 5.5 of RFC 8289 ----------

  /** The loop as the rule has it: the packet in hand is dropped, and the next pop takes its place. */
  function RuleLoop(p: CodelParameters, s: Codel, now: nat, inHand: QueuedPacket): (Codel, QueuedPacket)
    requires LoopReady(s)
    decreases |s.queue|
  {
    if !(now >= s.dropNext && s.dropping) then (s, inHand)
    else
      var (m, ok) := DoDequeue(p, s, now);
      var c := m.count + 1;
      RuleLoop(p, if ok then m.(count := c, dropNext := ControlLaw(p.interval, m.dropNext, c))
                  else m.(count := c, dropping := false), now, s.queue[0])
  }

  /** `dequeue` as the rule has it. */
  function RuleDequeued(p: CodelParameters, s: Codel, now: nat): (Codel, QueuedPacket)
    requires s.queue != [] && CodelInv(s)
  {
    var (m, ok) := DoDequeue(p, s, now);
    if s.dropping then RuleLoop(p, if ok then m else m.(dropping := false), now, s.queue[0])
    else if ok then
      var (n, _) := DoDequeue(p, m, now);
      var c := EpisodeCount(p, n.count, n.lastCount, n.dropNext, now);
      (n.(dropping := true, count := c, dropNext := ControlLaw(p.interval, now, c), lastCount := c), m.queue[0])
    else (m, s.queue[0])
  }

  lemma {:induction false} RuleLoopDeliversLast(p: CodelParameters, s: Codel, now: nat, inHand: QueuedPacket)
    requires LoopReady(s)
    ensures var r := DropLoop(p, s, now);
            var popped := |s.queue| - |r.queue|;
            && 0 <= popped <= |s.queue|
            && RuleLoop(p, s, now, inHand) == (r, if popped == 0 then inHand else s.queue[popped - 1])
    decreases |s.queue|
  {
    if now >= s.dropNext && s.dropping {
      var (m, ok) := DoDequeue(p, s, now);
      var c := m.count + 1;
      RuleLoopDeliversLast(p, if ok then m.(count := c, dropNext := ControlLaw(p.interval, m.dropNext, c))
                              else m.(count := c, dropping := false), now, s.queue[0]);
    }
  }

  /** No packet is queued twice. */
  predicate Distinct(q: seq<QueuedPacket>)
  {
    forall i, j :: 0 <= i < j < |q| ==> q[i] != q[j]
  }

  /** The source and the rule pop the same packets and reach the same state. The rule delivers the last
      packet popped, the source the first; so they agree exactly when nothing is dropped. */
  lemma RuleAgreesExactly(p: CodelParameters, s: Codel, now: nat)
    requires s.queue != [] && CodelInv(s)
    ensures var r := Dequeued(p, s, now);
            var (state, delivered) := RuleDequeued(p, s, now);
            var drops := DoDequeue(p, s, now).1 && (s.dropping ==> now >= s.dropNext);
            && state == r && |r.queue| < |s.queue| && delivered == s.queue[|s.queue| - |r.queue| - 1]
            && (!drops ==> delivered == s.queue[0])
            && (drops && Distinct(s.queue) ==> delivered != s.queue[0])
  {
    DropsExactly(p, s, now);
    var (m, ok) := DoDequeue(p, s, now);
    if s.dropping {
      RuleLoopDeliversLast(p, if ok then m else m.(dropping := false), now, s.queue[0]);
    }
  }

  // ---------- Runs ----------

  datatype Event = Arrive(packet: QueuedPacket) | Serve(now: nat)

  const EMPTY: Codel := Codel([], 0, 0, 0, 0, false)

  /** One call; the queue is not asked for a packet while it is empty. */
  function Next(p: CodelParameters, l: Limits, s: Codel, e: Event): (r: Codel)
    requires CodelInv(s)
    ensures CodelInv(r)
  {
    match e
    case Arrive(packet) => s.(queue := Enqueued(DropTail(l), s.queue, packet))
    case Serve(now) =>
      if s.queue == [] then s
      else
        DequeueKeepsInv(p, s, now);
        Dequeued(p, s, now)
  }

  /** The state after a run from the constructor. */
  function After(p: CodelParameters, l: Limits, events: seq<Event>): (r: Codel)
    ensures CodelInv(r)
  {
    if events == [] then EMPTY else Next(p, l, After(p, l, events[..|events| - 1]), events[|events| - 1])
  }

  /** What one pop sees at the head of a queue: is its packet late, with enough bytes left behind it? */
  datatype Observation = Observation(at: nat, above: bool)

  function Observe(p: CodelParameters, q: seq<QueuedPacket>, now: nat): Observation
    requires q != []
  {
    Observation(now, |q| > 1 && Late(p, q[0], now) && TotalBytes(q[1..]) > 1504)
  }

  /** What the first k pops from a queue see. */
  function FirstPops(p: CodelParameters, q: seq<QueuedPacket>, now: nat, k: nat): (r: seq<Observation>)
    requires k <= |q|
    ensures |r| == k
  {
    seq(k, i requires 0 <= i < k => Observe(p, q[i..], now))
  }

  /** What the pops of one dequeue see: one for every packet that leaves. */
  function Pops(p: CodelParameters, s: Codel, now: nat): (r: seq<Observation>)
    requires s.queue != [] && CodelInv(s)
    ensures r != [] && |r| == |s.queue| - |Dequeued(p, s, now).queue|
  {
    DequeueDropsBehindHead(p, s, now);
    FirstPops(p, s.queue, now, |s.queue| - |Dequeued(p, s, now).queue|)
  }

  /** What all the pops of a run saw. */
  function History(p: CodelParameters, l: Limits, events: seq<Event>): seq<Observation>
  {
    if events == [] then []
    else
      var before, e := events[..|events| - 1], events[|events| - 1];
      var s := After(p, l, before);
      History(p, l, before) + if e.Serve? && s.queue != [] then Pops(p, s, e.now) else []
  }

  // ---------- Above target for a whole interval ----------

  /** Where the unbroken stretch above target that reaches the present begins; |h| if there is none. */
  function StretchStart(h: seq<Observation>): (i: nat)
    ensures i <= |h|
    ensures forall j :: i <= j < |h| ==> h[j].above
    ensures i > 0 ==> !h[i - 1].above
  {
    if h == [] || !h[|h| - 1].above then |h| else StretchStart(h[..|h| - 1])
  }

  /** The deadline a history calls for: an interval after the stretch began, 0 if there is none. */
  function Deadline(p: CodelParameters, h: seq<Observation>): nat
  {
    var i := StretchStart(h);
    if i == |h| then 0 else h[i].at + p.interval
  }

  /** The pops have been above target, without a break, for at least an interval. */
  predicate WholeInterval(p: CodelParameters, h: seq<Observation>, now: nat)
  {
    var i := StretchStart(h);
    i < |h| && h[i].at + p.interval <= now
  }

  /** A pop marks the next packet for dropping iff the pops up to and with it have been above target for a
      whole interval; and it leaves the deadline they call for. */
  lemma PopIsJustified(p: CodelParameters, s: Codel, now: nat, h: seq<Observation>)
    requires s.queue != [] && s.firstAboveTime == Deadline(p, h)
    ensures var (r, ok) := DoDequeue(p, s, now);
            var h' := h + [Observe(p, s.queue, now)];
            r.firstAboveTime == Deadline(p, h') && (ok <==> WholeInterval(p, h', now))
  {
    var h' := h + [Observe(p, s.queue, now)];
    assert h'[..|h'| - 1] == h;
  }

  lemma FirstPopsCons(p: CodelParameters, q: seq<QueuedPacket>, now: nat, k: nat, h: seq<Observation>)
    requires 0 < k <= |q|
    ensures h + FirstPops(p, q, now, k) == h + [Observe(p, q, now)] + FirstPops(p, q[1..], now, k - 1)
  {
    assert q[0..] == q;
    assert forall i :: 0 < i < k ==> q[i..] == q[1..][i - 1..];
  }

  /** In the loop every packet is dropped after a whole interval, and the episode goes on iff the last pop
      still completes one. */
  lemma {:induction false} DropLoopIsJustified(p: CodelParameters, s: Codel, now: nat, h: seq<Observation>)
    requires LoopReady(s) && s.firstAboveTime == Deadline(p, h)
    requires s.dropping <==> WholeInterval(p, h, now)
    ensures var r := DropLoop(p, s, now);
            var k := |s.queue| - |r.queue|;
            && 0 <= k <= |s.queue|
            && r.firstAboveTime == Deadline(p, h + FirstPops(p, s.queue, now, k))
            && (r.dropping <==> WholeInterval(p, h + FirstPops(p, s.queue, now, k), now))
            && forall i :: 0 <= i < k ==> WholeInterval(p, h + FirstPops(p, s.queue, now, i), now)
    decreases |s.queue|
  {
    hide Deadline, WholeInterval, Observe;
    assert h + FirstPops(p, s.queue, now, 0) == h;
    if now >= s.dropNext && s.dropping {
      PopIsJustified(p, s, now, h);
      var (m, ok) := DoDequeue(p, s, now);
      var c := m.count + 1;
      var next := if ok then m.(count := c, dropNext := ControlLaw(p.interval, m.dropNext, c))
                  else m.(count := c, dropping := false);
      var h' := h + [Observe(p, s.queue, now)];
      DropLoopIsJustified(p, next, now, h');
      var k := |s.queue| - |DropLoop(p, s, now).queue|;
      forall i | 0 < i <= k
        ensures h + FirstPops(p, s.queue, now, i) == h' + FirstPops(p, next.queue, now, i - 1) {
        FirstPopsCons(p, s.queue, now, i, h);
      }
    }
  }

  /** One dequeue, with the pops made so far as its past. */
  lemma DequeueIsJustified(p: CodelParameters, s: Codel, now: nat, h: seq<Observation>)
    requires s.queue != [] && CodelInv(s) && s.firstAboveTime == Deadline(p, h)
    ensures var r := Dequeued(p, s, now);
            var pops := Pops(p, s, now);
            && r.firstAboveTime == Deadline(p, h + pops)
            && (|pops| > 1 <==> WholeInterval(p, h + pops[..1], now) && (s.dropping ==> now >= s.dropNext))
            && (forall i :: 0 < i < |pops| ==> WholeInterval(p, h + pops[..i], now))
            && (r.dropping <==> WholeInterval(p, h + if s.dropping then pops else pops[..1], now))
  {
    hide Deadline, WholeInterval, Observe;
    var (m, ok) := DoDequeue(p, s, now);
    var pops := Pops(p, s, now);
    var h1 := h + [Observe(p, s.queue, now)];
    PopIsJustified(p, s, now, h);
    DropsExactly(p, s, now);
    assert s.queue[0..] == s.queue && h + pops[..1] == h1 && pops[..|pops|] == pops;
    if s.dropping {
      DropLoopIsJustified(p, if ok then m else m.(dropping := false), now, h1);
      forall i | 0 < i <= |pops|
        ensures h + pops[..i] == h1 + FirstPops(p, m.queue, now, i - 1) {
        FirstPopsCons(p, s.queue, now, i, h);
        assert pops[..i] == FirstPops(p, s.queue, now, i);
      }
    } else if ok {
      PopIsJustified(p, m, now, h1);
      FirstPopsCons(p, s.queue, now, 2, h);
      FirstPopsCons(p, m.queue, now, 1, h1);
      var h2 := h1 + [Observe(p, m.queue, now)];
      assert h2 + FirstPops(p, m.queue[1..], now, 0) == h2;
    }
  }

  /** Over any run the recorded deadline is the one the pops made so far call for. */
  lemma {:induction false} RunKeepsDeadline(p: CodelParameters, l: Limits, events: seq<Event>)
    ensures After(p, l, events).firstAboveTime == Deadline(p, History(p, l, events))
    decreases |events|
  {
    if events == [] {
      assert Deadline(p, []) == 0;
    } else {
      hide Deadline, Pops, Dequeued, Enqueued;
      var before, e := events[..|events| - 1], events[|events| - 1];
      RunKeepsDeadline(p, l, before);
      var s := After(p, l, before);
      if e.Serve? && s.queue != [] {
        DequeueIsJustified(p, s, e.now, History(p, l, before));
      } else {
        assert History(p, l, before) + [] == History(p, l, before);
      }
    }
  }

  /** In every state of every run: a dequeue drops a packet, starts an episode or stays in one exactly when
      the pops have been above target, unbroken, for a whole interval; and inside an episode it drops only
      when a drop is due. */
  lemma EpisodeNeedsWholeInterval(p: CodelParameters, l: Limits, events: seq<Event>, now: nat)
    ensures var s, h := After(p, l, events), History(p, l, events);
            s.queue != [] ==>
              var r, pops := Dequeued(p, s, now), Pops(p, s, now);
              && (|pops| > 1 <==> WholeInterval(p, h + pops[..1], now) && (s.dropping ==> now >= s.dropNext))
              && (forall i :: 0 < i < |pops| ==> WholeInterval(p, h + pops[..i], now))
              && (r.dropping <==> WholeInterval(p, h + if s.dropping then pops else pops[..1], now))
  {
    RunKeepsDeadline(p, l, events);
    var s := After(p, l, events);
    if s.queue != [] {
      DequeueIsJustified(p, s, now, History(p, l, events));
    }
  }

  /** Without limits every arrival is appended. */
  lemma AfterArrival(p: CodelParameters, events: seq<Event>, packet: QueuedPacket)
    ensures var s := After(p, Limits(0, 0), events);
            After(p, Limits(0, 0), events + [Arrive(packet)]) == s.(queue := s.queue + [packet])
  {
    assert (events + [Arrive(packet)])[..|events|] == events;
  }

  /** Four arrivals and one dequeue at 1 ms, with target and interval 1 ms. */
  function FourThenServe(a: QueuedPacket, b: QueuedPacket, c: QueuedPacket, d: QueuedPacket): seq<Event>
  {
    [] + [Arrive(a)] + [Arrive(b)] + [Arrive(c)] + [Arrive(d)] + [Serve(1)]
  }

  /** A packet of 1000 bytes that arrives at 0. */
  predicate Thousand(p: QueuedPacket)
  {
    p.arrivalTime == 0 && |p.contents| == 1000
  }

  lemma Thousands(b: QueuedPacket, c: QueuedPacket, d: QueuedPacket)
    requires Thousand(b) && Thousand(c) && Thousand(d)
    ensures TotalBytes([b, c, d]) == 3000 && TotalBytes([c, d]) == 2000
  {
    assert [b, c, d][1..] == [c, d] && [c, d][1..] == [d] && [d][1..] == [];
    assert TotalBytes([d]) == 1000;
  }

  lemma AfterFour(a: QueuedPacket, b: QueuedPacket, c: QueuedPacket, d: QueuedPacket)
    requires Thousand(a) && Thousand(b) && Thousand(c) && Thousand(d)
    ensures After(Parameters(1, 1), Limits(0, 0), FourThenServe(a, b, c, d)) == Codel([b, c, d], 2, 0, 0, 0, false)
  {
    var p, l := Parameters(1, 1), Limits(0, 0);
    AfterArrival(p, [], a);
    AfterArrival(p, [] + [Arrive(a)], b);
    AfterArrival(p, [] + [Arrive(a)] + [Arrive(b)], c);
    var three := [] + [Arrive(a)] + [Arrive(b)] + [Arrive(c)];
    AfterArrival(p, three, d);
    var four := three + [Arrive(d)];
    assert After(p, l, four) == EMPTY.(queue := [a, b, c, d]);
    var s := After(p, l, four);
    assert (four + [Serve(1)])[..|four|] == four;
    assert After(p, l, FourThenServe(a, b, c, d)) == Next(p, l, s, Serve(1));
    assert s.queue[1..] == [b, c, d];
    Thousands(b, c, d);
  }

  /** A run in which the rule delivers another packet: of four packets of 1000 bytes, the second dequeue
      delivers the second and drops the third, where the rule drops the second and delivers the third. */
  lemma RuleDiffers(a: QueuedPacket, b: QueuedPacket, c: QueuedPacket, d: QueuedPacket)
    requires Thousand(a) && Thousand(b) && Thousand(c) && Thousand(d) && b != c
    ensures var p := Parameters(1, 1);
            var s := After(p, Limits(0, 0), FourThenServe(a, b, c, d));
            && s.queue == [b, c, d]
            && Dequeued(p, s, 2).queue == [d]
            && RuleDequeued(p, s, 2).1 == c != s.queue[0]
  {
    hide After;
    AfterFour(a, b, c, d);
    assert [b, c, d][1..] == [c, d] && [c, d][1..] == [d];
    Thousands(b, c, d);
  }

  // ---------- The object ----------

  class CodelPacketQueue {
    const parameters: CodelParameters
    const base: PacketQueue
    var firstAboveTime: nat
    var dropNext: nat
    var count: nat
    var lastCount: nat
    var dropping: bool

    ghost function Abs(): Codel
      reads this, base
    {
      Codel(base.internalQueue, firstAboveTime, dropNext, count, lastCount, dropping)
    }

    ghost predicate Valid()
      reads this, base
    {
      base.Valid() && base.discipline.DropTail? && CodelInv(Abs())
    }

    constructor (parameters: CodelParameters, limits: Limits)
      ensures Valid() && fresh(base) && Abs() == Codel([], 0, 0, 0, 0, false)
    {
      this.parameters := parameters;
      base := new PacketQueue(DropTail(limits));
      firstAboveTime, dropNext, count, lastCount, dropping := 0, 0, 0, 0, false;
    }

    /** Admission is that of drop-tail. */
    method Enqueue(p: QueuedPacket)
      requires Valid()
      modifies base
      ensures Valid() && Abs() == old(Abs()).(queue := Enqueued(base.discipline, old(base.internalQueue), p))
    {
      base.EnqueueDropTail(p);
    }

    method PopHead(now: nat) returns (head: QueuedPacket, okToDrop: bool)
      requires base.Valid() && !base.Empty()
      modifies base, `firstAboveTime
      ensures base.Valid() && head == old(base.internalQueue)[0]
      ensures (Abs(), okToDrop) == DoDequeue(parameters, old(Abs()), now)
    {
      head := base.Dequeue();
      okToDrop := false;
      assert old(base.internalQueue)[1..] == base.internalQueue;
      if base.Empty() {
        firstAboveTime := 0;
        return;
      }
      var sojourn := SubWrapping(now, head.arrivalTime);
      if sojourn < parameters.target || base.queueSizeInBytes <= MAX_TUN_PAYLOAD {
        firstAboveTime := 0;
      } else if firstAboveTime == 0 {
        firstAboveTime := now + parameters.interval;
      } else if now >= firstAboveTime {
        okToDrop := true;
      }
    }

    /** The packets after the head that are due are popped and discarded. */
    method DropDue(now: nat)
      requires base.Valid() && LoopReady(Abs())
      modifies this, base
      ensures base.Valid() && Abs() == DropLoop(parameters, old(Abs()), now)
    {
      while now >= dropNext && dropping
        invariant base.Valid() && LoopReady(Abs())
        invariant DropLoop(parameters, Abs(), now) == DropLoop(parameters, old(Abs()), now)
        decreases |base.internalQueue|
      {
        var _, okToDrop := PopHead(now);
        count := count + 1;
        if !okToDrop {
          dropping := false;
        } else {
          dropNext := ControlLaw(parameters.interval, dropNext, count);
        }
      }
    }

    /** The inner results are discarded, so the packet returned is the first one popped. */
    method Dequeue(now: nat) returns (p: QueuedPacket)
      requires Valid() && !base.Empty()
      modifies this, base
      ensures Valid() && Abs() == Dequeued(parameters, old(Abs()), now)
      ensures var was, kept := old(base.internalQueue), base.internalQueue;
              |kept| < |was| && was == [p] + was[1..|was| - |kept|] + kept
    {
      DequeueKeepsInv(parameters, Abs(), now);
      DequeueDropsBehindHead(parameters, Abs(), now);
      var okToDrop;
      p, okToDrop := PopHead(now);
      if dropping {
        if !okToDrop {
          dropping := false;
        }
        DropDue(now);
      } else if okToDrop {
        var _, _ := PopHead(now);
        dropping := true;
        count := EpisodeCount(parameters, count, lastCount, dropNext, now);
        dropNext := ControlLaw(parameters.interval, now, count);
        lastCount := count;
      }
    }
  }
}
