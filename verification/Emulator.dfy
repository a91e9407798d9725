/** The whole two-stage emulator as a state machine over the calls of the event loop. */
module Emulator {
  import opened Arithmetic
  import opened Packets
  import opened HeavySchedule
  import opened LinkStage
  import opened PacketQueues
  import opened DelayStage

  datatype Config = Config(heavy: HeavyPdo, discipline: Discipline, delay: DelayConfig)

  /** One write to the descriptor, as the packet log records it. */
  datatype Delivery = Delivery(frame: Frame, bypassed: bool)

  datatype State = State(
    link: Link,
    linkSize: int,
    delay: DelayState,
    delayQueue: seq<DelayQueuePacket>,
    counter: nat,
    written: seq<Delivery>,
    // history, for stating the laws
    accepted: seq<Frame>,
    dropped: seq<QueuedPacket>,
    linkTime: nat,   // when the link was last brought up to date
    now: nat)        // no later clock reading can be smaller

  function Init(t: nat): State
  {
    var none := QueuedPacket("", 0, 0, 0, 0);
    State(Link(Cursor(0, t, false), Pipe(none, 0, [], [])), 0, Fresh(t), [], 0, [], [], [], t, t)
  }

  // ---------- The priority queue of the delay stage ----------

  /** a is taken out before b: earlier release first, then smaller number. */
  predicate Before(a: DelayQueuePacket, b: DelayQueuePacket)
  {
    a.releaseTime < b.releaseTime || (a.releaseTime == b.releaseTime && a.sequenceNumber < b.sequenceNumber)
  }

  function TopIndex(q: seq<DelayQueuePacket>): (r: nat)
    requires q != []
    ensures r < |q|
    ensures forall j :: 0 <= j < |q| ==> !Before(q[j], q[r])
  {
    var n := |q| - 1;
    if n == 0 then 0
    else
      var i := TopIndex(q[..n]);
      assert forall j :: 0 <= j < n ==> q[..n][j] == q[j];
      if Before(q[n], q[i]) then n else i
  }

  /** Nothing overtakes: the queue holds its packets in the order they will be taken out. */
  predicate InPopOrder(q: seq<DelayQueuePacket>)
  {
    forall i, j :: 0 <= i < j < |q| ==> Before(q[i], q[j])
  }

  lemma TopIsFirst(q: seq<DelayQueuePacket>)
    requires q != [] && InPopOrder(q)
    ensures TopIndex(q) == 0
  {
    assert !Before(q[0], q[TopIndex(q)]);
  }

  // ---------- Reading ----------

  predicate AcceptableSize(contents: string)
  {
    IP_HEADER_SIZE <= |contents| <= PACKET_SIZE
  }

  /** The first packet anchors the heavy schedule at its arrival. */
  function Anchored(s: State, now: nat): State
  {
    if s.delay.startTick then s else s.(link := s.link.(cursor := s.link.cursor.(base := now)))
  }

  /** `read_packet`; a packet of the wrong size is refused and changes nothing. */
  function ReadPacket(cfg: Config, s: State, now: nat, contents: string): (r: State)
    requires DelayInv(cfg.delay.trace, s.delay, now)
    ensures r.link == s.link.(cursor := s.link.cursor.(base := r.link.cursor.base))
    ensures r != s ==> DelayInv(cfg.delay.trace, r.delay, r.now) && r.now == now
  {
    if !AcceptableSize(contents) then s
    else
      var d := ReadDelay(cfg.delay, s.delay, now, |contents|);
      var p := DelayQueuePacket(contents, now, s.counter, d.endRelease, d.bypass);
      Anchored(s, now).(
         delay := d,
         delayQueue := s.delayQueue + [p],
         counter := s.counter + 1,
         accepted := s.accepted + [DelayedFrame(p)],
         now := now)
  }

  lemma ReadPacketValue(cfg: Config, s: State, now: nat, contents: string)
    requires DelayInv(cfg.delay.trace, s.delay, now) && AcceptableSize(contents)
    ensures var d := ReadDelay(cfg.delay, s.delay, now, |contents|);
            var p := DelayQueuePacket(contents, now, s.counter, d.endRelease, d.bypass);
            ReadPacket(cfg, s, now, contents) ==
            Anchored(s, now).(delay := d,
               delayQueue := s.delayQueue + [p], counter := s.counter + 1,
               accepted := s.accepted + [DelayedFrame(p)], now := now)
  {
  }

  // ---------- The link ----------

  function Rationalize(cfg: Config, s: State, t: nat): State
    requires InRange(cfg.heavy, s.link.cursor)
  {
    s.(link := Rationalized(cfg.heavy, s.link, t), linkTime := t)
  }

  function ToQueued(p: DelayQueuePacket, now: nat): QueuedPacket
  {
    QueuedPacket(p.contents, p.arrivalTime, now, p.sequenceNumber, p.releaseTime)
  }

  /** `put_packet_to_link_queue` for a packet within the maximum size. */
  function PutPacket(cfg: Config, s: State, now: nat, p: DelayQueuePacket): State
    requires InRange(cfg.heavy, s.link.cursor)
  {
    var r := Rationalize(cfg, s, now);
    var q, qp := r.link.pipe.queue, ToQueued(p, now);
    r.(link := r.link.(pipe := r.link.pipe.(queue := Enqueued(cfg.discipline, q, qp))),
       linkSize := s.linkSize + 1,
       dropped := s.dropped + Lost(cfg.discipline, q, qp))
  }

  /** Pass a packet taken out of the delay stage on: past an empty link stage if it may, else into it. */
  function Route(cfg: Config, s: State, now: nat, p: DelayQueuePacket): (r: State)
    requires InRange(cfg.heavy, s.link.cursor)
    ensures InRange(cfg.heavy, r.link.cursor) && r.delayQueue == s.delayQueue
  {
    if p.isBypassLinkQueue && s.linkSize == 0
    then s.(written := s.written + [Delivery(DelayedFrame(p), true)])
    else PutPacket(cfg, s, now, p)
  }

  /** Take the next packet out of the delay stage and pass it on. */
  function MoveOne(cfg: Config, s: State, now: nat): State
    requires InRange(cfg.heavy, s.link.cursor) && s.delayQueue != []
  {
    var i := TopIndex(s.delayQueue);
    Route(cfg, s.(delayQueue := s.delayQueue[..i] + s.delayQueue[i + 1..]), now, s.delayQueue[i])
  }

  /** Is a packet ready to leave the delay stage at time t? */
  predicate Ready(s: State, t: nat)
  {
    s.delayQueue != [] && s.delayQueue[TopIndex(s.delayQueue)].releaseTime <= t
  }

  /** Move every packet that is ready; t is the reading just taken, `clock(i)` the next one. */
  function MoveDue(cfg: Config, s: State, t: nat, now: nat, clock: nat -> nat, i: nat): (r: State)
    requires InRange(cfg.heavy, s.link.cursor)
    ensures InRange(cfg.heavy, r.link.cursor)
    ensures r.delay == s.delay && r.accepted == s.accepted && r.counter == s.counter && r.now == s.now
    decreases |s.delayQueue|
  {
    if !Ready(s, t) then s
    else MoveDue(cfg, MoveOne(cfg, s, now), clock(i), now, clock, i + 1)
  }

  function LinkDeliveries(q: seq<QueuedPacket>): (r: seq<Delivery>)
    ensures |r| == |q|
    ensures forall i :: 0 <= i < |q| ==> r[i] == Delivery(QueuedFrame(q[i]), false)
  {
    seq(|q|, i requires 0 <= i < |q| => Delivery(QueuedFrame(q[i]), false))
  }

  /** `write_packets_from_link_queue` */
  function Flush(s: State): State
  {
    var out := s.link.pipe.output;
    s.(link := s.link.(pipe := s.link.pipe.(output := [])),
       written := s.written + LinkDeliveries(out),
       linkSize := s.linkSize - |out|)
  }

  /** `write_packets`: clock(0) is read for the first packet, clock(1) stamps the whole call. */
  function WritePackets(cfg: Config, s: State, clock: nat -> nat): State
    requires InRange(cfg.heavy, s.link.cursor)
  {
    Flush(MoveDue(cfg, s.(now := clock(1)), clock(0), clock(1), clock, 2))
  }

  // ---------- Waiting ----------

  /** `wait_time_delay_queue`, narrowed to 32 bits as its return type does. */
  function WaitDelay(s: State, t: nat): nat
  {
    if s.delayQueue == [] then 0xFFFF
    else
      var release := s.delayQueue[TopIndex(s.delayQueue)].releaseTime;
      if release <= t then 0 else (release - t) % TWO32
  }

  /** `wait_time_link_queue` on a link already brought up to date. */
  function WaitLink(cfg: Config, s: State, t: nat): nat
    requires InRange(cfg.heavy, s.link.cursor)
  {
    var next := if s.link.cursor.finished then TWO64 - 1 else NextTime(cfg.heavy, s.link.cursor);
    Max(0, ToInt32(next - t))
  }

  /** The state `wait_time` leaves when its two clock readings are t1 and t2. */
  function Waited(cfg: Config, s: State, t2: nat): State
    requires InRange(cfg.heavy, s.link.cursor)
  {
    Rationalize(cfg, s.(now := t2), t2)
  }

  function WaitTime(cfg: Config, s: State, t1: nat, t2: nat): nat
    requires InRange(cfg.heavy, s.link.cursor)
  {
    Min(WaitDelay(s, t1), WaitLink(cfg, Waited(cfg, s, t2), t2))
  }

  // ---------- Runs ----------

  datatype Event =
    | Read(at: nat, contents: string)
    | Write(clock: nat -> nat)
    | Wait(t1: nat, t2: nat)

  ghost predicate Monotone(clock: nat -> nat)
  {
    forall i, j :: i <= j ==> clock(i) <= clock(j)
  }

  /** The clock never goes back. */
  ghost predicate Timely(s: State, e: Event)
  {
    match e
    case Read(at, _) => s.now <= at
    case Write(clock) => s.now <= clock(0) && Monotone(clock)
    case Wait(t1, t2) => s.now <= t1 <= t2
  }

  /** What each call needs of the state to be defined. */
  predicate WellFormed(cfg: Config, s: State)
  {
    InRange(cfg.heavy, s.link.cursor) && DelayInv(cfg.delay.trace, s.delay, s.now)
  }

  ghost function Step(cfg: Config, s: State, e: Event): (r: State)
    requires WellFormed(cfg, s) && Timely(s, e)
    ensures WellFormed(cfg, r)
  {
    match e
    case Read(at, contents) =>
      DelayInvLater(cfg.delay.trace, s.delay, s.now, at);
      ReadPacket(cfg, s, at, contents)
    case Write(clock) =>
      DelayInvLater(cfg.delay.trace, s.delay, s.now, clock(1));
      WritePackets(cfg, s, clock)
    case Wait(_, t2) =>
      DelayInvLater(cfg.delay.trace, s.delay, s.now, t2);
      Waited(cfg, s, t2)
  }

  ghost predicate RunTimely(cfg: Config, s: State, es: seq<Event>)
    requires WellFormed(cfg, s)
    decreases |es|
  {
    es == [] || (Timely(s, es[0]) && RunTimely(cfg, Step(cfg, s, es[0]), es[1..]))
  }

  ghost function Run(cfg: Config, s: State, es: seq<Event>): (r: State)
    requires WellFormed(cfg, s) && RunTimely(cfg, s, es)
    ensures WellFormed(cfg, r)
    decreases |es|
  {
    if es == [] then s else Run(cfg, Step(cfg, s, es[0]), es[1..])
  }

  /** A run from the constructor at time t. */
  ghost predicate FromStart(cfg: Config, t: nat, es: seq<Event>)
  {
    RunTimely(cfg, Init(t), es)
  }

  ghost function Final(cfg: Config, t: nat, es: seq<Event>): State
    requires FromStart(cfg, t, es)
  {
    Run(cfg, Init(t), es)
  }

  /** A packet of the wrong size is a step that changes nothing. */
  lemma RefusedPacket(cfg: Config, s: State, now: nat, contents: string)
    requires WellFormed(cfg, s) && s.now <= now && !AcceptableSize(contents)
    ensures Step(cfg, s, Read(now, contents)) == s
  {
  }

  /** A read counts and keeps a packet of 20 to 1400 bytes, and no other. */
  lemma AcceptsExactly(cfg: Config, s: State, now: nat, contents: string)
    requires WellFormed(cfg, s) && s.now <= now
    ensures var r := Step(cfg, s, Read(now, contents));
            if 20 <= |contents| <= 1400
            then r.counter == s.counter + 1 && |r.delayQueue| == |s.delayQueue| + 1 && s.delayQueue <= r.delayQueue
            else r == s
  {
    hide ReadDelay, DelayInv;
  }
}
