/**
 * The mock smart-meter reading generator of the solar simulator worker
 * (`mockReadingsWorker.ts`): seed a running total from the device's last
 * stored reading, walk fixed-step windows from the start of yesterday up to
 * and including "now", and emit a cumulative reading for every window whose
 * rounded energy is positive.
 *
 * Timestamps are unix seconds. The calendar conversion of window bounds to
 * the reference year 2015 belongs to a date library and is the abstract
 * `withFixedYear` of a `Simulation`.
 */
module MockReadings {
  import opened Wrappers
  import opened Arith

  /** Fallback used when the interval variable is absent, not a number or 0. */
  const DefaultIntervalMinutes: int := 15
  const SecondsPerMinute: int := 60

  /** A smart-meter reading: cumulative energy and the unix time it refers to. */
  datatype MeterRead = MeterRead(meterReading: int, timestamp: int)

  /** A row of the seasonal dataset: its parsed unix time and its weighting factor. */
  datatype DataRow = DataRow(time: int, factor: real)

  /** A measurement window; a row belongs to it when `from < time <= to`. */
  datatype Window = Window(from: int, to: int)

  /** What one worker run reads: the device capacity, the dataset, and the
      conversion of a timestamp to the same moment in the year 2015. */
  datatype Simulation = Simulation(maxCapacity: real, data: seq<DataRow>, withFixedYear: int -> int)

  /** The readings pushed during the run and the final running total. */
  datatype Batch = Batch(readings: seq<MeterRead>, total: int)

  // ---------------------------------------------------------------------------
  // Seeding and configuration
  // ---------------------------------------------------------------------------

  /** The seed of the running total: the last stored reading's value, or 0. */
  function LatestMeterRead(stored: seq<MeterRead>): int
  {
    if stored == [] then 0 else stored[|stored| - 1].meterReading
  }

  /** `parseInt(value, 10) || 15`, where `None` stands for a NaN parse. */
  function IntervalMinutes(parsed: Option<int>): (m: int)
    ensures m != 0
    ensures parsed.None? || parsed.value == 0 ==> m == DefaultIntervalMinutes
    ensures parsed.Some? && parsed.value != 0 ==> m == parsed.value
    ensures (parsed.None? || parsed.value >= 0) ==> m > 0
  {
    match parsed
    case None => DefaultIntervalMinutes
    case Some(v) => if v == 0 then DefaultIntervalMinutes else v
  }

  // ---------------------------------------------------------------------------
  // Row aggregation and the energy of one window
  // ---------------------------------------------------------------------------

  predicate InWindow(row: DataRow, lo: int, hi: int)
  {
    lo < row.time <= hi
  }

  /** The dataset rows that fall strictly after `lo` and at or before `hi`. */
  function MatchingRows(data: seq<DataRow>, lo: int, hi: int): (r: seq<DataRow>)
    ensures |r| <= |data|
    ensures forall k :: 0 <= k < |r| ==> InWindow(r[k], lo, hi)
  {
    if data == [] then []
    else
      var rest := MatchingRows(data[1..], lo, hi);
      if InWindow(data[0], lo, hi) then [data[0]] + rest else rest
  }

  /** A row is counted toward a window exactly when its time is strictly after the
      window start and at or before the window end, as often as it occurs. */
  lemma {:induction false} MatchingRowsExactly(data: seq<DataRow>, lo: int, hi: int)
    ensures forall row :: multiset(MatchingRows(data, lo, hi))[row]
                       == if InWindow(row, lo, hi) then multiset(data)[row] else 0
    ensures forall row :: row in MatchingRows(data, lo, hi) <==> row in data && InWindow(row, lo, hi)
  {
    if data != [] {
      MatchingRowsExactly(data[1..], lo, hi);
      assert data == [data[0]] + data[1..];
    }
  }

  predicate NonNegativeFactors(rows: seq<DataRow>)
  {
    forall k :: 0 <= k < |rows| ==> rows[k].factor >= 0.0
  }

  /** The summed weighting factors of some rows; never negative when no factor is. */
  function SumFactors(rows: seq<DataRow>): (r: real)
    ensures NonNegativeFactors(rows) ==> r >= 0.0
  {
    if rows == [] then 0.0 else rows[0].factor + SumFactors(rows[1..])
  }

  /** JavaScript's `Math.round` on an exact real: the nearest integer, ties toward +infinity. */
  function RoundHalfUp(x: real): (r: int)
    ensures x - 0.5 < r as real <= x + 0.5
    ensures r > 0 <==> x >= 0.5
  {
    (x + 0.5).Floor
  }

  /** The energy generated in window `w`: capacity times the summed factors of the
      rows matching the window's bounds taken in the year 2015, rounded. */
  function WindowEnergy(sim: Simulation, w: Window): (e: int)
    ensures sim.maxCapacity >= 0.0 && NonNegativeFactors(sim.data) ==> e >= 0
  {
    var rows := MatchingRows(sim.data, sim.withFixedYear(w.from), sim.withFixedYear(w.to));
    MatchingRowsNonNegative(sim.data, sim.withFixedYear(w.from), sim.withFixedYear(w.to));
    RoundHalfUp(sim.maxCapacity * SumFactors(rows))
  }

  /** The per-window energy of a run, as a function of the window alone. */
  function EnergyOf(sim: Simulation): Window -> int
  {
    w => WindowEnergy(sim, w)
  }

  /** Selecting rows keeps their factors non-negative. */
  lemma MatchingRowsNonNegative(data: seq<DataRow>, lo: int, hi: int)
    ensures NonNegativeFactors(data) ==> NonNegativeFactors(MatchingRows(data, lo, hi))
  {
    if NonNegativeFactors(data) {
      MatchingRowsExactly(data, lo, hi);
      var r := MatchingRows(data, lo, hi);
      forall k | 0 <= k < |r|
        ensures r[k].factor >= 0.0
      {
        assert r[k] in r;
        var i :| 0 <= i < |data| && data[i] == r[k];
      }
    }
  }

  lemma NoMatchingRowsNoEnergy(sim: Simulation, w: Window)
    requires MatchingRows(sim.data, sim.withFixedYear(w.from), sim.withFixedYear(w.to)) == []
    ensures WindowEnergy(sim, w) == 0
  {
  }

  /** Each window bound is moved to the year 2015 on its own, so a window whose
      converted end is not after its converted start (one spanning New Year's
      midnight, say) matches no row and generates nothing. */
  lemma InvertedWindowGeneratesNothing(sim: Simulation, w: Window)
    requires sim.withFixedYear(w.to) <= sim.withFixedYear(w.from)
    ensures WindowEnergy(sim, w) == 0
  {
    var lo, hi := sim.withFixedYear(w.from), sim.withFixedYear(w.to);
    MatchingRowsExactly(sim.data, lo, hi);
  }

  // ---------------------------------------------------------------------------
  // The window iterator
  // ---------------------------------------------------------------------------

  /** How many window starts `start, start + step, ...` are at or before `now`. */
  function NumWindows(start: int, now: int, step: int): (n: nat)
    requires step > 0
    ensures n == 0 <==> now < start
    ensures start <= now ==> (n - 1) * step <= now - start < n * step
  {
    if start <= now then DivFloor(now - start, step); (now - start) / step + 1 else 0
  }

  /** The windows the loop visits, in order. */
  function Windows(start: int, now: int, step: int): seq<Window>
    requires step > 0
  {
    seq(NumWindows(start, now, step), k => Window(start + k * step, start + (k + 1) * step))
  }

  /** The `i`-th start is visited exactly when it is at or before `now`. */
  lemma {:induction false} VisitedIff(start: int, now: int, step: int, i: nat)
    requires step > 0
    ensures i < NumWindows(start, now, step) <==> start + i * step <= now
  {
    if start <= now {
      var q := (now - start) / step;
      assert q * step <= now - start < (q + 1) * step;
      if i <= q {
        MulMonotone(i, q, step);
      } else {
        MulMonotone(q + 1, i, step);
      }
    } else {
      MulMonotone(0, i, step);
    }
  }

  /** The iterator visits `start, start + step, ...` while at or before `now`:
      each window is one step long, consecutive windows meet without overlap,
      and the first start not visited lies after `now`. */
  lemma {:induction false} WindowsContiguous(start: int, now: int, step: int)
    requires step > 0
    ensures var ws := Windows(start, now, step);
      && |ws| == (if start <= now then (now - start) / step + 1 else 0)
      && (ws != [] ==> ws[0].from == start)
      && (forall k :: 0 <= k < |ws| ==> ws[k].from <= now && ws[k].to == ws[k].from + step)
      && (forall k :: 0 <= k < |ws| - 1 ==> ws[k].to == ws[k + 1].from)
      && start + |ws| * step > now
  {
    var ws := Windows(start, now, step);
    forall k | 0 <= k < |ws|
      ensures ws[k].from <= now && ws[k].to == ws[k].from + step
    {
      VisitedIff(start, now, step, k);
    }
    VisitedIff(start, now, step, |ws|);
  }

  lemma WindowAt(start: int, now: int, step: int, i: nat)
    requires step > 0 && i < NumWindows(start, now, step)
    ensures Windows(start, now, step)[i] == Window(start + i * step, start + i * step + step)
  {
    assert (i + 1) * step == i * step + step;
  }

  predicate StartsIncrease(ws: seq<Window>)
  {
    forall i, j :: 0 <= i < j < |ws| ==> ws[i].from < ws[j].from
  }

  lemma {:induction false} WindowsStartsIncrease(start: int, now: int, step: int)
    requires step > 0
    ensures StartsIncrease(Windows(start, now, step))
  {
    var ws := Windows(start, now, step);
    forall i, j | 0 <= i < j < |ws|
      ensures ws[i].from < ws[j].from
    {
      WindowAt(start, now, step, i);
      WindowAt(start, now, step, j);
      MulStrict(i, j, step);
    }
  }

  // ---------------------------------------------------------------------------
  // The accumulator
  // ---------------------------------------------------------------------------

  /** The emission rule applied to the windows in order, starting from `seed`:
      a window with positive energy adds its energy to the running total and
      pushes `(total, window start)`; any other window changes nothing. */
  function Accumulate(energy: Window -> int, seed: int, ws: seq<Window>): Batch
    decreases |ws|
  {
    if ws == [] then Batch([], seed)
    else
      var prev := Accumulate(energy, seed, ws[..|ws| - 1]);
      var w := ws[|ws| - 1];
      var e := energy(w);
      if e > 0 then
        Batch(prev.readings + [MeterRead(prev.total + e, w.from)], prev.total + e)
      else
        prev
  }

  /** One more loop step: extending the visited prefix by window `ws[i]`. */
  lemma AccumulateStep(energy: Window -> int, seed: int, ws: seq<Window>, i: nat)
    requires i < |ws|
    ensures var prev := Accumulate(energy, seed, ws[..i]);
      var e := energy(ws[i]);
      Accumulate(energy, seed, ws[..i + 1])
      == if e > 0 then Batch(prev.readings + [MeterRead(prev.total + e, ws[i].from)], prev.total + e) else prev
  {
    assert ws[..i + 1][..i] == ws[..i];
  }

  /** Independent reference: the sum of the positive window energies. */
  function SumPositive(energy: Window -> int, ws: seq<Window>): int
  {
    if ws == [] then 0
    else
      var e := energy(ws[0]);
      (if e > 0 then e else 0) + SumPositive(energy, ws[1..])
  }

  /** Independent reference: the windows with positive energy, in order. */
  function PositiveWindows(energy: Window -> int, ws: seq<Window>): (r: seq<Window>)
    ensures |r| <= |ws|
  {
    if ws == [] then []
    else
      var rest := PositiveWindows(energy, ws[1..]);
      if energy(ws[0]) > 0 then [ws[0]] + rest else rest
  }

  /** The positive windows are exactly the visited windows with positive energy. */
  lemma {:induction false} PositiveWindowsMembers(energy: Window -> int, ws: seq<Window>)
    ensures forall w :: w in PositiveWindows(energy, ws) <==> w in ws && energy(w) > 0
  {
    if ws != [] {
      PositiveWindowsMembers(energy, ws[1..]);
      assert ws == [ws[0]] + ws[1..];
    }
  }

  lemma {:induction false} SumPositiveSnoc(energy: Window -> int, ws: seq<Window>, w: Window)
    ensures SumPositive(energy, ws + [w])
         == SumPositive(energy, ws) + (if energy(w) > 0 then energy(w) else 0)
  {
    if ws == [] {
      assert [w][1..] == [];
    } else {
      assert (ws + [w])[1..] == ws[1..] + [w];
      SumPositiveSnoc(energy, ws[1..], w);
    }
  }

  lemma {:induction false} PositiveWindowsSnoc(energy: Window -> int, ws: seq<Window>, w: Window)
    ensures PositiveWindows(energy, ws + [w])
         == PositiveWindows(energy, ws) + (if energy(w) > 0 then [w] else [])
  {
    if ws == [] {
      assert [w][1..] == [];
    } else {
      assert (ws + [w])[1..] == ws[1..] + [w];
      PositiveWindowsSnoc(energy, ws[1..], w);
    }
  }

  /** The final total is the seed plus the sum of all positive window energies. */
  lemma {:induction false} AccumulateTotal(energy: Window -> int, seed: int, ws: seq<Window>)
    ensures Accumulate(energy, seed, ws).total == seed + SumPositive(energy, ws)
    decreases |ws|
  {
    if ws != [] {
      var init := ws[..|ws| - 1];
      AccumulateTotal(energy, seed, init);
      assert ws == init + [ws[|ws| - 1]];
      SumPositiveSnoc(energy, init, ws[|ws| - 1]);
    }
  }

  /** The cumulative value just before the `j`-th reading: the seed for the first. */
  function ValueBefore(seed: int, readings: seq<MeterRead>, j: nat): int
    requires j <= |readings|
  {
    if j == 0 then seed else readings[j - 1].meterReading
  }

  /** `b` pushes one reading per window of `pw`, in order: the j-th reading is
      stamped with that window's start and is the previous cumulative value (the
      seed for the first) plus that window's energy; the total is the last value. */
  predicate EmitsFor(energy: Window -> int, seed: int, b: Batch, pw: seq<Window>)
  {
    && |b.readings| == |pw|
    && (forall j :: 0 <= j < |pw| ==>
          b.readings[j].timestamp == pw[j].from
          && b.readings[j].meterReading == ValueBefore(seed, b.readings, j) + energy(pw[j]))
    && b.total == (if pw == [] then seed else b.readings[|pw| - 1].meterReading)
  }

  /** Pushing one more positive-energy window keeps the emission rule. */
  lemma EmitsForPush(energy: Window -> int, seed: int, prev: Batch, pw: seq<Window>, w: Window)
    requires EmitsFor(energy, seed, prev, pw)
    requires energy(w) > 0
    ensures EmitsFor(energy, seed,
      Batch(prev.readings + [MeterRead(prev.total + energy(w), w.from)], prev.total + energy(w)), pw + [w])
  {
    var b := Batch(prev.readings + [MeterRead(prev.total + energy(w), w.from)], prev.total + energy(w));
    var pw' := pw + [w];
    forall j | 0 <= j < |pw'|
      ensures b.readings[j].timestamp == pw'[j].from
      ensures b.readings[j].meterReading == ValueBefore(seed, b.readings, j) + energy(pw'[j])
    {
      if j < |pw| {
        assert pw'[j] == pw[j] && b.readings[j] == prev.readings[j];
        if j > 0 {
          assert b.readings[j - 1] == prev.readings[j - 1];
        }
      } else {
        assert j == |pw| && pw'[j] == w;
        assert b.readings[j] == MeterRead(prev.total + energy(w), w.from);
        if j > 0 {
          assert b.readings[j - 1] == prev.readings[j - 1];
          assert prev.total == prev.readings[|pw| - 1].meterReading;
        } else {
          assert prev.total == seed;
        }
      }
    }
  }

  /** The accumulator emits exactly one reading per positive-energy window, in window order. */
  lemma {:induction false} AccumulateEmits(energy: Window -> int, seed: int, ws: seq<Window>)
    ensures EmitsFor(energy, seed, Accumulate(energy, seed, ws), PositiveWindows(energy, ws))
    decreases |ws|
  {
    if ws != [] {
      var init, w := ws[..|ws| - 1], ws[|ws| - 1];
      AccumulateEmits(energy, seed, init);
      var prev, pw0 := Accumulate(energy, seed, init), PositiveWindows(energy, init);
      PositiveWindowsSnoc(energy, init, w);
      assert init + [w] == ws;
      var pw := PositiveWindows(energy, ws);
      if energy(w) > 0 {
        EmitsForPush(energy, seed, prev, pw0, w);
        assert pw == pw0 + [w];
        assert Accumulate(energy, seed, ws)
            == Batch(prev.readings + [MeterRead(prev.total + energy(w), w.from)], prev.total + energy(w));
      } else {
        assert pw == pw0;
        assert Accumulate(energy, seed, ws) == prev;
      }
    }
  }

  /** Emitted values strictly increase, all exceed the seed, and none exceeds the total. */
  lemma {:induction false} ReadingsStrictlyIncrease(energy: Window -> int, seed: int, ws: seq<Window>)
    ensures var b := Accumulate(energy, seed, ws);
      && seed <= b.total
      && (forall j :: 0 <= j < |b.readings| ==> seed < b.readings[j].meterReading <= b.total)
      && (forall i, j :: 0 <= i < j < |b.readings| ==> b.readings[i].meterReading < b.readings[j].meterReading)
    decreases |ws|
  {
    if ws != [] {
      ReadingsStrictlyIncrease(energy, seed, ws[..|ws| - 1]);
    }
  }

  /** Every emitted timestamp is the start of a visited window with positive energy. */
  predicate StampedByWindows(energy: Window -> int, readings: seq<MeterRead>, ws: seq<Window>)
  {
    forall j :: 0 <= j < |readings| ==>
      exists k :: 0 <= k < |ws| && ws[k].from == readings[j].timestamp && energy(ws[k]) > 0
  }

  predicate TimestampsIncrease(readings: seq<MeterRead>)
  {
    forall i, j :: 0 <= i < j < |readings| ==> readings[i].timestamp < readings[j].timestamp
  }

  /** Every emitted timestamp is the start of a visited window with positive energy. */
  lemma StampedByVisitedWindows(energy: Window -> int, seed: int, ws: seq<Window>)
    ensures StampedByWindows(energy, Accumulate(energy, seed, ws).readings, ws)
  {
    var b, pw := Accumulate(energy, seed, ws), PositiveWindows(energy, ws);
    AccumulateEmits(energy, seed, ws);
    PositiveWindowsMembers(energy, ws);
    forall j | 0 <= j < |b.readings|
      ensures exists k :: 0 <= k < |ws| && ws[k].from == b.readings[j].timestamp && energy(ws[k]) > 0
    {
      assert b.readings[j].timestamp == pw[j].from;
      assert pw[j] in pw;
      var k :| 0 <= k < |ws| && ws[k] == pw[j];
    }
  }

  /** When window starts increase, so do the emitted timestamps. */
  lemma {:induction false} TimestampsStrictlyIncrease(energy: Window -> int, seed: int, ws: seq<Window>)
    requires StartsIncrease(ws)
    ensures TimestampsIncrease(Accumulate(energy, seed, ws).readings)
    decreases |ws|
  {
    if ws != [] {
      var init, w := ws[..|ws| - 1], ws[|ws| - 1];
      assert StartsIncrease(init) by {
        forall i, j | 0 <= i < j < |init|
          ensures init[i].from < init[j].from
        {
          assert init[i] == ws[i] && init[j] == ws[j];
        }
      }
      TimestampsStrictlyIncrease(energy, seed, init);
      StampedByVisitedWindows(energy, seed, init);
      var prev, b := Accumulate(energy, seed, init), Accumulate(energy, seed, ws);
      if energy(w) > 0 {
        assert b.readings == prev.readings + [MeterRead(prev.total + energy(w), w.from)];
        forall i, j | 0 <= i < j < |b.readings|
          ensures b.readings[i].timestamp < b.readings[j].timestamp
        {
          assert b.readings[i] == prev.readings[i];
          if j < |prev.readings| {
            assert b.readings[j] == prev.readings[j];
          } else {
            var k :| 0 <= k < |init| && init[k].from == prev.readings[i].timestamp && energy(init[k]) > 0;
            assert init[k] == ws[k];
            assert b.readings[j].timestamp == ws[|ws| - 1].from;
          }
        }
      } else {
        assert b == prev;
      }
    }
  }

  /** No reading is emitted exactly when no window has positive energy; the total
      then stays at the seed. */
  lemma {:induction false} NothingEmittedIff(energy: Window -> int, seed: int, ws: seq<Window>)
    ensures Accumulate(energy, seed, ws).readings == []
        <==> forall k :: 0 <= k < |ws| ==> energy(ws[k]) <= 0
    ensures Accumulate(energy, seed, ws).readings == [] ==> Accumulate(energy, seed, ws).total == seed
  {
    AccumulateEmits(energy, seed, ws);
    assert |Accumulate(energy, seed, ws).readings| == |PositiveWindows(energy, ws)|;
    var pw := PositiveWindows(energy, ws);
    PositiveWindowsMembers(energy, ws);
    if pw != [] {
      assert pw[0] in pw;
    } else {
      forall k | 0 <= k < |ws|
        ensures energy(ws[k]) <= 0
      {
        assert ws[k] in ws;
      }
    }
  }

  /** With no dataset row in any window, nothing is emitted and the total is the seed. */
  lemma NoMatchingRowsNoReadings(sim: Simulation, seed: int, ws: seq<Window>)
    requires forall k :: 0 <= k < |ws| ==>
      MatchingRows(sim.data, sim.withFixedYear(ws[k].from), sim.withFixedYear(ws[k].to)) == []
    ensures Accumulate(EnergyOf(sim), seed, ws) == Batch([], seed)
  {
    forall k | 0 <= k < |ws|
      ensures EnergyOf(sim)(ws[k]) <= 0
    {
      NoMatchingRowsNoEnergy(sim, ws[k]);
    }
    NothingEmittedIff(EnergyOf(sim), seed, ws);
  }

  /** At most one reading per window. */
  lemma EmittedAtMostWindows(energy: Window -> int, seed: int, ws: seq<Window>)
    ensures |Accumulate(energy, seed, ws).readings| <= |ws|
  {
    AccumulateEmits(energy, seed, ws);
  }

  /** Saving the batch after the stored readings makes the next run's seed equal
      to this run's final total, so consecutive runs continue one meter. */
  lemma NextRunSeed(energy: Window -> int, stored: seq<MeterRead>, ws: seq<Window>)
    ensures var b := Accumulate(energy, LatestMeterRead(stored), ws);
      LatestMeterRead(stored + b.readings) == b.total
  {
    var seed := LatestMeterRead(stored);
    AccumulateEmits(energy, seed, ws);
    var b := Accumulate(energy, seed, ws);
    if b.readings == [] {
      assert stored + b.readings == stored;
    }
  }

  /** A worked instance: seed 0, capacity 100, the default 15-minute step and one
      matching row of factor 0.5 in the first of three windows give exactly one
      reading, of 50, stamped with the first window's start. */
  lemma SingleRowExample()
    ensures var sim := Simulation(100.0, [DataRow(450, 0.5)], t => t);
      var step := DefaultIntervalMinutes * SecondsPerMinute;
      Accumulate(EnergyOf(sim), 0, Windows(0, 2 * step, step)) == Batch([MeterRead(50, 0)], 50)
  {
    var sim := Simulation(100.0, [DataRow(450, 0.5)], t => t);
    var ws := Windows(0, 1800, 900);
    assert |ws| == 3;
    assert ws[0] == Window(0, 900) && ws[1] == Window(900, 1800) && ws[2] == Window(1800, 2700);
    assert MatchingRows(sim.data, 0, 900) == [DataRow(450, 0.5)];
    assert MatchingRows(sim.data, 900, 1800) == [];
    assert MatchingRows(sim.data, 1800, 2700) == [];
    assert WindowEnergy(sim, ws[0]) == 50;
    assert WindowEnergy(sim, ws[1]) == 0;
    assert WindowEnergy(sim, ws[2]) == 0;
    AccumulateStep(EnergyOf(sim), 0, ws, 0);
    AccumulateStep(EnergyOf(sim), 0, ws, 1);
    AccumulateStep(EnergyOf(sim), 0, ws, 2);
    assert ws[..3] == ws;
  }

  // ---------------------------------------------------------------------------
  // The worker loop
  // ---------------------------------------------------------------------------

  /** The seeding and the window loop of one worker run (the date library's
      `start of yesterday` and `now` are given as unix seconds). */
  method SynthesizeReadings(sim: Simulation, stored: seq<MeterRead>, start: int, now: int, intervalMinutes: int)
    returns (allSmartMeterReadings: seq<MeterRead>, currentMeterRead: int)
    requires intervalMinutes > 0
    ensures Batch(allSmartMeterReadings, currentMeterRead)
         == Accumulate(EnergyOf(sim), LatestMeterRead(stored), Windows(start, now, intervalMinutes * SecondsPerMinute))
    ensures currentMeterRead
         == LatestMeterRead(stored) + SumPositive(EnergyOf(sim), Windows(start, now, intervalMinutes * SecondsPerMinute))
    ensures |allSmartMeterReadings| <= NumWindows(start, now, intervalMinutes * SecondsPerMinute)
    ensures forall j :: 0 <= j < |allSmartMeterReadings| ==>
      LatestMeterRead(stored) < allSmartMeterReadings[j].meterReading <= currentMeterRead
    ensures forall i, j :: 0 <= i < j < |allSmartMeterReadings| ==>
      allSmartMeterReadings[i].meterReading < allSmartMeterReadings[j].meterReading
    ensures TimestampsIncrease(allSmartMeterReadings)
  {
    var step := intervalMinutes * SecondsPerMinute;
    ghost var seed := LatestMeterRead(stored);
    ghost var ws := Windows(start, now, step);
    ghost var i := 0;
    var measurementTime := start;
    currentMeterRead := LatestMeterRead(stored);
    allSmartMeterReadings := [];
    VisitedIff(start, now, step, 0);
    while measurementTime <= now
      invariant 0 <= i <= |ws|
      invariant measurementTime == start + i * step
      invariant i < |ws| <==> measurementTime <= now
      invariant Batch(allSmartMeterReadings, currentMeterRead) == Accumulate(EnergyOf(sim), seed, ws[..i])
      decreases now - measurementTime
    {
      var newMeasurementTime := measurementTime + step;
      WindowAt(start, now, step, i);
      AccumulateStep(EnergyOf(sim), seed, ws, i);
      var energyGenerated := WindowEnergy(sim, Window(measurementTime, newMeasurementTime));
      assert ws[i] == Window(measurementTime, newMeasurementTime);
      assert energyGenerated == EnergyOf(sim)(ws[i]);
      if energyGenerated > 0 {
        var newMeterReading := currentMeterRead + energyGenerated;
        allSmartMeterReadings := allSmartMeterReadings + [MeterRead(newMeterReading, measurementTime)];
        currentMeterRead := newMeterReading;
      }
      measurementTime := newMeasurementTime;
      i := i + 1;
      VisitedIff(start, now, step, i);
    }
    assert ws[..i] == ws;
    AccumulateTotal(EnergyOf(sim), seed, ws);
    EmittedAtMostWindows(EnergyOf(sim), seed, ws);
    ReadingsStrictlyIncrease(EnergyOf(sim), seed, ws);
    WindowsStartsIncrease(start, now, step);
    TimestampsStrictlyIncrease(EnergyOf(sim), seed, ws);
  }
}
