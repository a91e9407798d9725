/** The cyclic schedule of heavy delivery opportunities and the cursor into it. */
module HeavySchedule {
  import opened Arithmetic
  import opened Packets
  import opened TraceFile

  datatype Schedule = Schedule(times: seq<nat>, repeat: bool)

  predicate Nondecreasing(times: seq<nat>)
  {
    forall i, j :: 0 <= i <= j < |times| ==> times[i] <= times[j]
  }

  /** What the constructor of the queue insists on. */
  predicate ValidTimes(times: seq<nat>)
  {
    |times| > 0 && Nondecreasing(times) && times[|times| - 1] > 0
  }

  type HeavyPdo = s: Schedule | ValidTimes(s.times) witness Schedule([1], true)

  function Last(s: HeavyPdo): nat
  {
    s.times[|s.times| - 1]
  }

  // ---------- Loading ----------

  datatype LoadError = NotMonotone | NoTimestamps | ZeroDuration

  function Since(start: nat): nat --> nat
  {
    (ms: nat) requires ms >= start => (ms - start) as nat
  }

  /** The recorded times from `start` on, relative to it. */
  function Shifted(lines: seq<nat>, start: nat): seq<nat>
  {
    Kept(lines, (ms: nat) => ms >= start, Since(start))
  }

  /** The schedule holds the recorded times from `start` on, in order, each less `start`. */
  lemma ShiftedByIndex(lines: seq<nat>, start: nat, k: nat)
    requires k < |lines|
    ensures var r := Shifted(lines, start);
            var place := KeptAmong(lines[..k], (ms: nat) => ms >= start);
            && |r| == KeptAmong(lines, (ms: nat) => ms >= start)
            && (lines[k] >= start ==> place < |r| && r[place] == lines[k] - start)
  {
    KeptByIndex(lines, (ms: nat) => ms >= start, Since(start), k);
  }

  method LoadHeavySchedule(lines: seq<nat>, start: nat) returns (r: Result<seq<nat>, LoadError>)
    ensures r.Ok? <==> ValidTimes(Shifted(lines, start))
    ensures r.Ok? ==> r.value == Shifted(lines, start)
    ensures r == Err(NoTimestamps) <==> Shifted(lines, start) == []
    ensures r == Err(NotMonotone) <==> !Nondecreasing(Shifted(lines, start))
  {
    var times: seq<nat> := [];
    for i := 0 to |lines|
      invariant times == Shifted(lines[..i], start)
      invariant Nondecreasing(times)
    {
      assert lines[..i + 1][..i] == lines[..i];
      var ms := lines[i];
      if ms >= start {
        if times != [] && ms - start < times[|times| - 1] {
          ghost var bad := times + [ms - start];
          assert bad[|times| - 1] > bad[|times|];
          KeptPrefix(lines, (ms: nat) => ms >= start, Since(start), i + 1);
          return Err(NotMonotone);
        }
        times := times + [ms - start];
      }
    }
    assert lines[..|lines|] == lines;
    if times == [] {
      return Err(NoTimestamps);
    }
    if times[|times| - 1] == 0 {
      return Err(ZeroDuration);
    }
    return Ok(times);
  }

  // ---------- The cursor ----------

  datatype Cursor = Cursor(next: nat, base: nat, finished: bool)

  predicate InRange(s: HeavyPdo, c: Cursor)
  {
    c.next < |s.times|
  }

  /** Time of the next opportunity of a cursor that is not finished. */
  function NextTime(s: HeavyPdo, c: Cursor): nat
    requires InRange(s, c)
  {
    s.times[c.next] + c.base
  }

  /** The cursor after one opportunity is used. */
  function Use(s: HeavyPdo, c: Cursor): (r: Cursor)
    requires InRange(s, c)
    ensures InRange(s, r)
  {
    if c.next + 1 < |s.times| then c.(next := c.next + 1)
    else if s.repeat then c.(next := 0, base := c.base + Last(s))
    else c.(next := 0, finished := true)
  }

  function UseMany(s: HeavyPdo, c: Cursor, k: nat): (r: Cursor)
    requires InRange(s, c)
    ensures InRange(s, r)
    decreases k
  {
    if k == 0 then c else UseMany(s, Use(s, c), k - 1)
  }

  /** How many opportunities have come due by `now`. */
  function Due(s: HeavyPdo, c: Cursor, now: nat): nat
    requires InRange(s, c)
    decreases if c.finished then 0 else 1, if c.base <= now then now - c.base + 1 else 0, |s.times| - c.next
  {
    if c.finished || NextTime(s, c) > now then 0 else 1 + Due(s, Use(s, c), now)
  }

  /** The j-th opportunity from the cursor exists. */
  predicate Exists(s: HeavyPdo, c: Cursor, j: nat)
  {
    !c.finished && (s.repeat || c.next + j < |s.times|)
  }

  /** Closed form of the time of the j-th opportunity from the cursor. */
  function OpportunityTime(s: HeavyPdo, c: Cursor, j: nat): nat
  {
    var n := |s.times|;
    LapNonNegative(c.next + j, n, Last(s));
    c.base + (c.next + j) / n * Last(s) + s.times[(c.next + j) % n]
  }

  lemma LapNonNegative(x: nat, n: nat, last: nat)
    requires n > 0
    ensures x / n * last >= 0 && 0 <= x % n < n
  {
    assert x / n >= 0;
  }

  // ---------- Laws ----------

  /** The modular step of the source is the case split of `Use`. */
  lemma NextIndex(i: nat, n: nat)
    requires i < n
    ensures (i + 1) % n == if i + 1 < n then i + 1 else 0
  {
    if i + 1 < n {
      DivModUnique(i + 1, n, 0, i + 1);
    } else {
      DivModUnique(i + 1, n, 1, 0);
    }
  }

  /** Stepping the cursor shifts the closed form by one. */
  lemma OpportunityShift(s: HeavyPdo, c: Cursor, j: nat)
    requires InRange(s, c)
    ensures Exists(s, Use(s, c), j) == Exists(s, c, j + 1)
    ensures Exists(s, c, j + 1) ==> OpportunityTime(s, Use(s, c), j) == OpportunityTime(s, c, j + 1)
  {
    var n := |s.times|;
    if c.next + 1 == n && s.repeat {
      assert c.next + (j + 1) == j + 1 * n;
      DivModShift(j, n, 1);
      assert (j / n + 1) * Last(s) == j / n * Last(s) + Last(s);
    }
  }

  lemma FirstOpportunity(s: HeavyPdo, c: Cursor)
    requires InRange(s, c)
    ensures OpportunityTime(s, c, 0) == NextTime(s, c)
  {
    DivModUnique(c.next, |s.times|, 0, c.next);
  }

  /** From any index and base, the cursor after j steps is the modular closed form. */
  lemma {:induction false} UseManyClosedForm(s: HeavyPdo, c: Cursor, j: nat)
    requires InRange(s, c) && Exists(s, c, j)
    ensures !UseMany(s, c, j).finished
    ensures UseMany(s, c, j).next == (c.next + j) % |s.times|
    ensures UseMany(s, c, j).base == c.base + (c.next + j) / |s.times| * Last(s)
    ensures NextTime(s, UseMany(s, c, j)) == OpportunityTime(s, c, j)
    decreases j
  {
    var n := |s.times|;
    if j == 0 {
      DivModUnique(c.next, n, 0, c.next);
    } else {
      OpportunityShift(s, c, j - 1);
      UseManyClosedForm(s, Use(s, c), j - 1);
      if c.next + 1 == n {
        assert c.next + j == (j - 1) + 1 * n;
        DivModShift(j - 1, n, 1);
        assert ((j - 1) / n + 1) * Last(s) == (j - 1) / n * Last(s) + Last(s);
      }
    }
  }

  /** Without repetition exactly the n - d remaining opportunities occur. */
  lemma {:induction false} FinishesExactly(s: HeavyPdo, c: Cursor, j: nat)
    requires InRange(s, c) && !s.repeat && !c.finished && j <= |s.times| - c.next
    ensures UseMany(s, c, j).finished <==> j == |s.times| - c.next
    decreases j
  {
    if j > 0 && c.next + 1 < |s.times| {
      FinishesExactly(s, Use(s, c), j - 1);
    }
  }

  /** Opportunities come in nondecreasing order of time. */
  lemma {:induction false} OpportunitiesOrdered(s: HeavyPdo, c: Cursor, i: nat, j: nat)
    requires InRange(s, c) && i <= j && Exists(s, c, j)
    ensures OpportunityTime(s, c, i) <= OpportunityTime(s, c, j)
    decreases j - i
  {
    if i < j {
      OpportunitiesOrdered(s, c, i + 1, j);
      UseManyClosedForm(s, c, i);
      UseManyClosedForm(s, c, i + 1);
      UseManyAdd(s, c, i, 1);
      var d := UseMany(s, c, i);
      assert UseMany(s, d, 1) == Use(s, d);
    }
  }

  lemma {:induction false} UseManyAdd(s: HeavyPdo, c: Cursor, a: nat, b: nat)
    requires InRange(s, c)
    ensures UseMany(s, c, a + b) == UseMany(s, UseMany(s, c, a), b)
    decreases a
  {
    if a > 0 {
      UseManyAdd(s, Use(s, c), a - 1, b);
    }
  }

  /** Exactly the opportunities whose closed-form time has passed are due. */
  lemma {:induction false} DueExactly(s: HeavyPdo, c: Cursor, now: nat, j: nat)
    requires InRange(s, c)
    ensures j < Due(s, c, now) <==> Exists(s, c, j) && OpportunityTime(s, c, j) <= now
    decreases Due(s, c, now), j
  {
    FirstOpportunity(s, c);
    if c.finished {
    } else if NextTime(s, c) > now {
      if Exists(s, c, j) {
        OpportunitiesOrdered(s, c, 0, j);
      }
    } else if j > 0 {
      OpportunityShift(s, c, j - 1);
      DueExactly(s, Use(s, c), now, j - 1);
    }
  }

  /** Counting up to t1 and from there to t2 counts the same opportunities as counting to t2. */
  lemma {:induction false} DueSplit(s: HeavyPdo, c: Cursor, t1: nat, t2: nat)
    requires InRange(s, c) && t1 <= t2
    ensures Due(s, c, t2) == Due(s, c, t1) + Due(s, UseMany(s, c, Due(s, c, t1)), t2)
    decreases Due(s, c, t1)
  {
    if Due(s, c, t1) > 0 {
      DueSplit(s, Use(s, c), t1, t2);
    }
  }

  /** Nothing is due twice. */
  lemma {:induction false} DueUsed(s: HeavyPdo, c: Cursor, now: nat)
    requires InRange(s, c)
    ensures Due(s, UseMany(s, c, Due(s, c, now)), now) == 0
  {
    DueSplit(s, c, now, now);
  }

  /** Byte form of DueExactly: b bytes have been offered once the ceil(b/1400)-th opportunity has passed. */
  lemma OfferedBytes(s: HeavyPdo, c: Cursor, now: nat, b: nat)
    requires InRange(s, c) && b > 0
    ensures var j := (b + PACKET_SIZE - 1) / PACKET_SIZE - 1;
            j >= 0 &&
            (PACKET_SIZE * Due(s, c, now) >= b <==> Exists(s, c, j) && OpportunityTime(s, c, j) <= now)
  {
    var j := (b + PACKET_SIZE - 1) / PACKET_SIZE - 1;
    DueExactly(s, c, now, j);
  }
}
