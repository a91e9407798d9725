/** The recorded delay trace: stateless lookup, interpolation and the size offset. */
module DelayTrace {
  import opened Arithmetic
  import opened Packets
  import opened TraceFile

  /** One recorded instance: when it starts, its base delay and its light delivery opportunities. */
  datatype DelayPdoInstance = DelayPdoInstance(time: nat, delay: nat, pdo: seq<int>)

  predicate SortedTimes(tr: seq<DelayPdoInstance>)
  {
    forall i, j :: 0 <= i <= j < |tr| ==> tr[i].time <= tr[j].time
  }

  /** What the recorder writes into one instance: opportunities from 0 on, in order of arrival. */
  predicate ValidPdo(pdo: seq<int>)
  {
    |pdo| > 0 && pdo[0] == 0 && forall i, j :: 0 <= i <= j < |pdo| ==> pdo[i] <= pdo[j]
  }

  predicate ValidTrace(tr: seq<DelayPdoInstance>)
  {
    && |tr| >= 3
    && SortedTimes(tr)
    && tr[0].time == 0
    && tr[|tr| - 1].time > 0
    && forall i :: 0 <= i < |tr| ==> ValidPdo(tr[i].pdo)
  }

  const SAMPLE: seq<DelayPdoInstance> :=
    [DelayPdoInstance(0, 10, [0]), DelayPdoInstance(5, 20, [0]), DelayPdoInstance(10, 30, [0])]

  type Trace = tr: seq<DelayPdoInstance> | ValidTrace(tr) witness SAMPLE

  /** Length of one pass over the trace. */
  function Span(tr: Trace): nat
  {
    tr[|tr| - 1].time
  }

  // ---------- Loading ----------

  datatype LoadError = NotMonotone | TooFewLines

  function Rebased(start: nat): DelayPdoInstance --> DelayPdoInstance
  {
    (line: DelayPdoInstance) requires line.time >= start => line.(time := line.time - start)
  }

  /** The recorded instances from `start` on, with times relative to it. */
  function Shifted(lines: seq<DelayPdoInstance>, start: nat): seq<DelayPdoInstance>
  {
    Kept(lines, (line: DelayPdoInstance) => line.time >= start, Rebased(start))
  }

  /** The trace holds the recorded instances from `start` on, in order, with `start` taken off the time
      and delay and opportunities as recorded. */
  lemma ShiftedByIndex(lines: seq<DelayPdoInstance>, start: nat, k: nat)
    requires k < |lines|
    ensures var r := Shifted(lines, start);
            var place := KeptAmong(lines[..k], (line: DelayPdoInstance) => line.time >= start);
            && |r| == KeptAmong(lines, (line: DelayPdoInstance) => line.time >= start)
            && (lines[k].time >= start ==>
                  && place < |r| && r[place].time == lines[k].time - start
                  && r[place].delay == lines[k].delay && r[place].pdo == lines[k].pdo)
  {
    KeptByIndex(lines, (line: DelayPdoInstance) => line.time >= start, Rebased(start), k);
  }

  method LoadDelayTrace(lines: seq<DelayPdoInstance>, start: nat)
    returns (r: Result<seq<DelayPdoInstance>, LoadError>)
    ensures r.Ok? <==> SortedTimes(Shifted(lines, start)) && |Shifted(lines, start)| >= 3
    ensures r.Ok? ==> r.value == Shifted(lines, start)
    ensures r == Err(NotMonotone) <==> !SortedTimes(Shifted(lines, start))
  {
    var tr: seq<DelayPdoInstance> := [];
    for i := 0 to |lines|
      invariant tr == Shifted(lines[..i], start)
      invariant SortedTimes(tr)
    {
      assert lines[..i + 1][..i] == lines[..i];
      var line := lines[i];
      if line.time >= start {
        var next := line.(time := line.time - start);
        if tr != [] && next.time < tr[|tr| - 1].time {
          ghost var bad := tr + [next];
          assert bad[|tr| - 1].time > bad[|tr|].time;
          KeptPrefix(lines, (line: DelayPdoInstance) => line.time >= start, Rebased(start), i + 1);
          return Err(NotMonotone);
        }
        tr := tr + [next];
      }
    }
    assert lines[..|lines|] == lines;
    if |tr| <= 2 {
      return Err(TooFewLines);
    }
    return Ok(tr);
  }

  /** The guard of the lookup loop, with the cursor at instance i and `rel` ms into the pass. */
  predicate LookupGoesOn(tr: seq<DelayPdoInstance>, i: nat, rel: nat)
    requires i + 1 < |tr|
  {
    tr[i + 1].time <= rel
  }

  /** One turn of the lookup loop: on to the next instance, or past the last into a new pass. */
  function LookupTurn(tr: seq<DelayPdoInstance>, i: nat, rel: nat): (r: (nat, nat))
    requires i + 1 < |tr| && LookupGoesOn(tr, i, rel)
    ensures r.0 + 1 < |tr|
  {
    if i + 1 >= |tr| - 1 then (0, rel - tr[i + 1].time) else (i + 1, rel)
  }

  /** Where the loop stands after k turns, or where it ended before. */
  function AfterTurns(tr: seq<DelayPdoInstance>, i: nat, rel: nat, k: nat): (r: (nat, nat))
    requires i + 1 < |tr|
    ensures r.0 + 1 < |tr|
    decreases k
  {
    if k == 0 || !LookupGoesOn(tr, i, rel) then (i, rel)
    else
      var (j, rest) := LookupTurn(tr, i, rel);
      AfterTurns(tr, j, rest, k - 1)
  }

  ghost predicate EndsAfter(tr: seq<DelayPdoInstance>, i: nat, rel: nat, k: nat)
    requires i + 1 < |tr|
  {
    var (j, rest) := AfterTurns(tr, i, rel, k);
    !LookupGoesOn(tr, j, rest)
  }

  /** Every pass takes its length off the time, so the loop ends when a pass has a length. */
  lemma {:induction false} LookupEnds(tr: seq<DelayPdoInstance>, i: nat, rel: nat) returns (k: nat)
    requires i + 1 < |tr| && tr[|tr| - 1].time > 0
    ensures EndsAfter(tr, i, rel, k)
    decreases rel, |tr| - i
  {
    k := 0;
    if LookupGoesOn(tr, i, rel) {
      var (j, rest) := LookupTurn(tr, i, rel);
      k := LookupEnds(tr, j, rest);
      k := k + 1;
    }
  }

  lemma {:induction false} LookupSpins(tr: seq<DelayPdoInstance>, i: nat, rel: nat, k: nat)
    requires i + 1 < |tr| && SortedTimes(tr) && tr[|tr| - 1].time == 0
    ensures !EndsAfter(tr, i, rel, k)
    decreases k
  {
    assert tr[i + 1].time <= tr[|tr| - 1].time;
    if k > 0 {
      var (j, rest) := LookupTurn(tr, i, rel);
      LookupSpins(tr, j, rest, k - 1);
    }
  }

  /** On a trace the loader accepts, from any instance and any time, the lookup loop ends iff the trace
      lasts for some time. */
  lemma LookupEndsExactly(tr: seq<DelayPdoInstance>, i: nat, rel: nat)
    requires SortedTimes(tr) && |tr| >= 3 && i <= |tr| - 2
    ensures (exists k: nat :: EndsAfter(tr, i, rel, k)) <==> tr[|tr| - 1].time > 0
  {
    if tr[|tr| - 1].time > 0 {
      var k := LookupEnds(tr, i, rel);
    } else {
      forall k: nat ensures !EndsAfter(tr, i, rel, k) {
        LookupSpins(tr, i, rel, k);
      }
    }
  }

  // ---------- Lookup ----------

  function LookupFrom(tr: Trace, i: nat, rel: int): nat
    requires i <= |tr| - 2
  {
    if i == 0 || tr[i].time <= rel then i else LookupFrom(tr, i - 1, rel)
  }

  /** The instance in force `rel` ms into the trace: the last one that has started. */
  function Lookup(tr: Trace, rel: int): nat
  {
    LookupFrom(tr, |tr| - 2, rel)
  }

  lemma {:induction false} LookupFromFinds(tr: Trace, i: nat, rel: int, k: nat)
    requires i <= |tr| - 2 && k <= i && tr[k].time <= rel && rel < tr[k + 1].time
    ensures LookupFrom(tr, i, rel) == k
    decreases i
  {
    if i > k {
      assert tr[k + 1].time <= tr[i].time;
      LookupFromFinds(tr, i - 1, rel, k);
    }
  }

  /** Within a pass the lookup lands on the one interval that contains the time. */
  lemma {:induction false} LookupFromSound(tr: Trace, i: nat, rel: nat)
    requires i <= |tr| - 2 && rel < tr[i + 1].time
    ensures var k := LookupFrom(tr, i, rel); k <= i && tr[k].time <= rel < tr[k + 1].time
    decreases i
  {
    if i > 0 && tr[i].time > rel {
      LookupFromSound(tr, i - 1, rel);
    }
  }

  lemma LookupIsUnique(tr: Trace, rel: nat, k: nat)
    requires rel < Span(tr)
    ensures var i := Lookup(tr, rel); i <= |tr| - 2 && tr[i].time <= rel < tr[i + 1].time
    ensures k <= |tr| - 2 && tr[k].time <= rel < tr[k + 1].time ==> k == Lookup(tr, rel)
  {
    LookupFromSound(tr, |tr| - 2, rel);
    if k <= |tr| - 2 && tr[k].time <= rel < tr[k + 1].time {
      LookupFromFinds(tr, |tr| - 2, rel, k);
    }
  }

  // ---------- Interpolation ----------

  /** Base delay `rel` ms into the trace, between instance i and the next, rounded toward zero. */
  function Interpolated(tr: Trace, i: nat, rel: int): int
    requires i <= |tr| - 2 && tr[i].time <= rel < tr[i + 1].time
  {
    var width := tr[i + 1].time - tr[i].time;
    var rise := tr[i + 1].delay - tr[i].delay;
    (tr[i].delay * width + (rel - tr[i].time) * rise) / width
  }

  lemma DivMonotone(a: int, b: int, w: int)
    requires w > 0
    ensures a / w > b / w ==> a > b
  {
    if a / w > b / w {
      MulMonotone(b / w + 1, a / w, w);
      assert (b / w + 1) * w == (b / w) * w + w;
    }
    assert b == (b / w) * w + b % w && a == (a / w) * w + a % w;
  }

  /** The interpolated delay is the integer part of the point on the line between the recorded ones. */
  lemma InterpolatedOnLine(tr: Trace, i: nat, rel: int)
    requires i <= |tr| - 2 && tr[i].time <= rel < tr[i + 1].time
    ensures var width := tr[i + 1].time - tr[i].time;
            var line := tr[i].delay * (tr[i + 1].time - rel) + tr[i + 1].delay * (rel - tr[i].time);
            Interpolated(tr, i, rel) * width <= line < (Interpolated(tr, i, rel) + 1) * width
  {
    var w, x := tr[i + 1].time - tr[i].time, rel - tr[i].time;
    var d0, d1 := tr[i].delay, tr[i + 1].delay;
    var y := d0 * w + x * (d1 - d0);
    assert y == d0 * (w - x) + d1 * x;
    assert y == (y / w) * w + y % w;
    assert (y / w + 1) * w == (y / w) * w + w;
  }

  /** The weighted sum of two values stays between them. */
  lemma WeightedBetween(d0: int, d1: int, w: int, x: int)
    requires 0 <= x < w
    ensures Min(d0, d1) * w <= d0 * w + x * (d1 - d0) <= Max(d0, d1) * w
  {
    if d0 <= d1 {
      MulMonotone(0, d1 - d0, x);
      MulMonotone(x, w, d1 - d0);
      assert d0 * w + w * (d1 - d0) == d1 * w;
    } else {
      MulMonotone(0, d0 - d1, x);
      MulMonotone(x, w, d0 - d1);
      assert d0 * w - w * (d0 - d1) == d1 * w && x * (d1 - d0) == -(x * (d0 - d1));
    }
  }

  lemma DivBetween(y: int, w: int, lo: int, hi: int)
    requires w > 0 && lo * w <= y <= hi * w
    ensures lo <= y / w <= hi
  {
    DivModUnique(lo * w, w, lo, 0);
    DivModUnique(hi * w, w, hi, 0);
    DivMonotone(lo * w, y, w);
    DivMonotone(y, hi * w, w);
  }

  /** The interpolated delay stays between the two recorded ones. */
  lemma InterpolatedBetween(tr: Trace, i: nat, rel: int)
    requires i <= |tr| - 2 && tr[i].time <= rel < tr[i + 1].time
    ensures Min(tr[i].delay, tr[i + 1].delay) <= Interpolated(tr, i, rel) <= Max(tr[i].delay, tr[i + 1].delay)
    ensures rel == tr[i].time ==> Interpolated(tr, i, rel) == tr[i].delay
  {
    var w, x := tr[i + 1].time - tr[i].time, rel - tr[i].time;
    var d0, d1 := tr[i].delay, tr[i + 1].delay;
    WeightedBetween(d0, d1, w, x);
    DivBetween(d0 * w + x * (d1 - d0), w, Min(d0, d1), Max(d0, d1));
    if x == 0 {
      DivModUnique(d0 * w + x * (d1 - d0), w, d0, 0);
    }
  }

  // ---------- Size offset ----------

  /** Offset in ms for a packet size, from a table with one entry per 100 bytes. */
  function PsizeLatencyOffset(offsets: seq<real>, psize: nat): real
  {
    if |offsets| == 0 then 0.0
    else
      var idx := psize / 100 - 1;
      var remainder := psize % 100;
      if idx < 0 then offsets[0]
      else if idx >= |offsets| - 1 then offsets[|offsets| - 1]
      else offsets[idx] + Scaled(remainder, offsets[idx + 1] - offsets[idx])
  }

  /** `percent` hundredths of a rise. */
  function Scaled(percent: nat, rise: real): real
  {
    percent as real / 100.0 * rise
  }

  predicate NondecreasingOffsets(offsets: seq<real>)
  {
    forall i, j :: 0 <= i <= j < |offsets| ==> offsets[i] <= offsets[j]
  }

  lemma NonnegativeProduct(x: real, y: real)
    requires x >= 0.0 && y >= 0.0
    ensures x * y >= 0.0
  {
  }

  lemma ScaledMonotone(p: nat, q: nat, rise: real)
    requires p <= q <= 100 && rise >= 0.0
    ensures 0.0 <= Scaled(p, rise) <= Scaled(q, rise) <= rise
  {
    var f, g := p as real / 100.0, q as real / 100.0;
    assert 0.0 <= f <= g <= 1.0;
    NonnegativeProduct(g - f, rise);
    NonnegativeProduct(f, rise);
    NonnegativeProduct(1.0 - g, rise);
    assert g * rise == (g - f) * rise + f * rise && rise == (1.0 - g) * rise + g * rise;
  }

  /** Within the table an offset lies between its two neighbours. */
  lemma OffsetBetween(offsets: seq<real>, psize: nat)
    requires NondecreasingOffsets(offsets) && |offsets| > 0
    ensures var i := Max(0, Min(psize / 100 - 1, |offsets| - 1));
            var j := Min(i + 1, |offsets| - 1);
            offsets[i] <= PsizeLatencyOffset(offsets, psize) <= offsets[j]
  {
    var idx := psize / 100 - 1;
    if 0 <= idx < |offsets| - 1 {
      ScaledMonotone(psize % 100, 100, offsets[idx + 1] - offsets[idx]);
    }
  }

  /** The table is read at whole hundreds of bytes, and held constant at both ends. */
  lemma OffsetAtEntries(offsets: seq<real>, i: nat, psize: nat)
    requires i < |offsets|
    ensures PsizeLatencyOffset(offsets, 100 * (i + 1)) == offsets[i]
    ensures psize < 100 ==> PsizeLatencyOffset(offsets, psize) == offsets[0]
    ensures psize >= 100 * |offsets| ==> PsizeLatencyOffset(offsets, psize) == offsets[|offsets| - 1]
  {
    assert (100 * (i + 1)) / 100 - 1 == i && (100 * (i + 1)) % 100 == 0;
    if i < |offsets| - 1 {
      assert Scaled(0, offsets[i + 1] - offsets[i]) == 0.0;
    }
  }

  /** Between two whole hundreds of bytes the offset lies on the line through their entries. */
  lemma OffsetOnLine(offsets: seq<real>, i: nat, psize: nat)
    requires i + 1 < |offsets| && 100 * (i + 1) <= psize <= 100 * (i + 2)
    ensures 100.0 * PsizeLatencyOffset(offsets, psize)
            == offsets[i] * (100 * (i + 2) - psize) as real + offsets[i + 1] * (psize - 100 * (i + 1)) as real
  {
    if psize == 100 * (i + 2) {
      OffsetAtEntries(offsets, i + 1, psize);
    } else {
      var x := psize - 100 * (i + 1);
      assert psize / 100 - 1 == i && psize % 100 == x;
      assert PsizeLatencyOffset(offsets, psize) == offsets[i] + x as real / 100.0 * (offsets[i + 1] - offsets[i]);
    }
  }

  /** A table that never decreases gives an offset that never decreases, over all packet sizes. */
  lemma OffsetMonotone(offsets: seq<real>, p: nat, q: nat)
    requires NondecreasingOffsets(offsets) && p <= q
    ensures PsizeLatencyOffset(offsets, p) <= PsizeLatencyOffset(offsets, q)
  {
    if |offsets| > 0 {
      OffsetBetween(offsets, p);
      OffsetBetween(offsets, q);
      if p / 100 == q / 100 {
        var idx := p / 100 - 1;
        if 0 <= idx < |offsets| - 1 {
          ScaledMonotone(p % 100, q % 100, offsets[idx + 1] - offsets[idx]);
        }
      }
    }
  }

  /** C `round`: to nearest, halves away from zero. */
  function Round(x: real): int
  {
    if x >= 0.0 then (x + 0.5).Floor else -((0.5 - x).Floor)
  }

  lemma RoundIsNearest(x: real)
    ensures x - 0.5 <= Round(x) as real <= x + 0.5
    ensures x >= 0.0 ==> x - 0.5 < Round(x) as real
    ensures Round(-x) == -Round(x)
  {
  }

  /** The whole-millisecond adjustment `read_packet` adds. */
  function LatencyOffset(offsets: seq<real>, psize: nat): int
  {
    Round(PsizeLatencyOffset(offsets, psize))
  }

  /** It is the offset of the table rounded to nearest, halves away from zero. */
  lemma LatencyOffsetIsNearest(offsets: seq<real>, psize: nat)
    ensures var x, r := PsizeLatencyOffset(offsets, psize), LatencyOffset(offsets, psize) as real;
            && x - 0.5 <= r <= x + 0.5 && (x >= 0.0 ==> x - 0.5 < r) && (x <= 0.0 ==> r < x + 0.5)
  {
    var x := PsizeLatencyOffset(offsets, psize);
    RoundIsNearest(x);
    RoundIsNearest(-x);
  }

  predicate NonnegativeOffsets(offsets: seq<real>)
  {
    forall i :: 0 <= i < |offsets| ==> offsets[i] >= 0.0
  }

  lemma LatencyOffsetNonnegative(offsets: seq<real>, psize: nat)
    requires NonnegativeOffsets(offsets)
    ensures LatencyOffset(offsets, psize) >= 0
  {
    var idx := psize / 100 - 1;
    if 0 <= idx < |offsets| - 1 {
      var a, b := offsets[idx], offsets[idx + 1];
      if b >= a {
        ScaledMonotone(psize % 100, 100, b - a);
      } else {
        ScaledMonotone(psize % 100, 100, a - b);
        assert Scaled(psize % 100, b - a) == -Scaled(psize % 100, a - b);
      }
    }
  }
}
