/** The noise-filtered accumulators of src/metricas_trilha.py. Each is a loop
    over consecutive rows; each is proved equal to a specification function
    defined over the row prefix, and the properties are lemmas about those. */
module TrailMetrics {
  import opened Wrappers
  import opened Foreign
  import opened Sorting
  import opened GpxReading

  const DefaultMinDisplacementM: real := 1.0
  const DefaultMinRiseM: real := 3.0

  function Position(s: Sample): Coord {
    Coord(s.latitude, s.longitude)
  }

  // ---------------------------------------------------------------- distance

  /** Metres the segment a -> b adds: its whole geodesic length when that is
      at least `minM`, nothing otherwise. */
  function SegmentM(a: Sample, b: Sample, minM: real, lib: Libraries): real {
    var d := lib.geodesicM(Position(a), Position(b));
    if d >= minM then d else 0.0
  }

  /** Sum of the segments between consecutive rows, each measured from its
      immediate predecessor. */
  function DistanceM(rows: seq<Sample>, minM: real, lib: Libraries): real {
    if |rows| <= 1 then 0.0
    else DistanceM(rows[..|rows| - 1], minM, lib) + SegmentM(rows[|rows| - 2], rows[|rows| - 1], minM, lib)
  }

  /** Sum of all segment lengths, with no threshold. */
  function PathLengthM(rows: seq<Sample>, lib: Libraries): real {
    if |rows| <= 1 then 0.0
    else PathLengthM(rows[..|rows| - 1], lib) + lib.geodesicM(Position(rows[|rows| - 2]), Position(rows[|rows| - 1]))
  }

  /** `calcular_distancia_total_km`. */
  method TotalDistanceKm(rows: seq<Sample>, minM: real, lib: Libraries) returns (km: real)
    ensures km == DistanceM(rows, minM, lib) / 1000.0
    ensures |rows| <= 1 ==> km == 0.0
  {
    var totalM := 0.0;
    var i := 1;
    while i < |rows|
      invariant 1 <= i
      invariant |rows| >= 1 ==> i <= |rows| && totalM == DistanceM(rows[..i], minM, lib)
      invariant |rows| == 0 ==> totalM == 0.0
    {
      var previous := Position(rows[i - 1]);
      var current := Position(rows[i]);
      var d := lib.geodesicM(previous, current);
      assert rows[..i + 1][..i] == rows[..i];
      if d >= minM {
        totalM := totalM + d;
      }
      i := i + 1;
    }
    if |rows| >= 1 {
      assert rows[..i] == rows;
    }
    km := totalM / 1000.0;
  }

  /** The distance never goes below zero and never exceeds the unfiltered
      path length. */
  lemma {:induction false} DistanceBounds(rows: seq<Sample>, minM: real, lib: Libraries)
    requires GeodesicNonNegative(lib)
    ensures 0.0 <= DistanceM(rows, minM, lib) <= PathLengthM(rows, lib)
  {
    if |rows| > 1 {
      DistanceBounds(rows[..|rows| - 1], minM, lib);
    }
  }

  /** A segment below the threshold does not move the reference point: the
      distance of a track is the distance up to any row plus the distance from
      that row on, so every segment is measured from its immediate predecessor. */
  lemma {:induction false} DistanceSplits(rows: seq<Sample>, k: nat, minM: real, lib: Libraries)
    requires k < |rows|
    ensures DistanceM(rows, minM, lib) == DistanceM(rows[..k + 1], minM, lib) + DistanceM(rows[k..], minM, lib)
    decreases |rows|
  {
    if k + 1 < |rows| {
      var init := rows[..|rows| - 1];
      DistanceSplits(init, k, minM, lib);
      assert init[..k + 1] == rows[..k + 1];
      assert rows[k..][..|rows[k..]| - 1] == init[k..];
    } else {
      assert rows[..k + 1] == rows;
    }
  }

  /** Lowering the minimum displacement never decreases the distance. */
  lemma {:induction false} DistanceAntitoneInThreshold(rows: seq<Sample>, lower: real, higher: real, lib: Libraries)
    requires GeodesicNonNegative(lib)
    requires lower <= higher
    ensures DistanceM(rows, higher, lib) <= DistanceM(rows, lower, lib)
  {
    if |rows| > 1 {
      DistanceAntitoneInThreshold(rows[..|rows| - 1], lower, higher, lib);
    }
  }

  // ---------------------------------------------------------- elevation gain

  function Altitudes(rows: seq<Sample>): (alts: seq<real>)
    ensures |alts| == |rows| && forall i :: 0 <= i < |rows| ==> alts[i] == rows[i].altitudeM
  {
    seq(|rows|, i requires 0 <= i < |rows| => rows[i].altitudeM)
  }

  /** What the step a -> b adds: the whole rise when it is at least
      `minStepM`, nothing otherwise. */
  function StepGainM(a: real, b: real, minStepM: real): real {
    var delta := b - a;
    if delta >= minStepM then delta else 0.0
  }

  function GainM(alts: seq<real>, minStepM: real): real {
    if |alts| <= 1 then 0.0
    else GainM(alts[..|alts| - 1], minStepM) + StepGainM(alts[|alts| - 2], alts[|alts| - 1], minStepM)
  }

  /** Sum of every positive rise between consecutive altitudes. */
  function TotalRiseM(alts: seq<real>): real {
    if |alts| <= 1 then 0.0
    else
      var delta := alts[|alts| - 1] - alts[|alts| - 2];
      TotalRiseM(alts[..|alts| - 1]) + (if delta > 0.0 then delta else 0.0)
  }

  /** `calcular_ganho_elevacao_m`. */
  method ElevationGainM(rows: seq<Sample>, minStepM: real) returns (gain: real)
    ensures gain == GainM(Altitudes(rows), minStepM)
  {
    gain := 0.0;
    var altitudes := Altitudes(rows);
    var i := 1;
    while i < |altitudes|
      invariant 1 <= i
      invariant |altitudes| >= 1 ==> i <= |altitudes| && gain == GainM(altitudes[..i], minStepM)
      invariant |altitudes| == 0 ==> gain == 0.0
    {
      var delta := altitudes[i] - altitudes[i - 1];
      assert altitudes[..i + 1][..i] == altitudes[..i];
      if delta >= minStepM {
        gain := gain + delta;
      }
      i := i + 1;
    }
    if |altitudes| >= 1 {
      assert altitudes[..i] == altitudes;
    }
  }

  /** With a non-negative threshold the gain is at least zero and at most
      the sum of the positive rises: small steps never accumulate. */
  lemma {:induction false} GainBounds(alts: seq<real>, minStepM: real)
    requires minStepM >= 0.0
    ensures 0.0 <= GainM(alts, minStepM) <= TotalRiseM(alts)
  {
    if |alts| > 1 {
      GainBounds(alts[..|alts| - 1], minStepM);
    }
  }

  predicate NonIncreasing(alts: seq<real>) {
    forall i :: 0 < i < |alts| ==> alts[i] <= alts[i - 1]
  }

  lemma {:induction false} NoRiseWhenNonIncreasing(alts: seq<real>)
    requires NonIncreasing(alts)
    ensures TotalRiseM(alts) == 0.0
  {
    if |alts| > 1 {
      NoRiseWhenNonIncreasing(alts[..|alts| - 1]);
    }
  }

  /** A descent, or a flat track, gains nothing. */
  lemma DescentGainsNothing(alts: seq<real>, minStepM: real)
    requires minStepM >= 0.0 && NonIncreasing(alts)
    ensures GainM(alts, minStepM) == 0.0
  {
    GainBounds(alts, minStepM);
    NoRiseWhenNonIncreasing(alts);
  }

  /** Inserting samples along a steady climb can lose gain: 0 m -> 6 m gains
      6 m, but 0, 2, 4, 6 m gains nothing, since no step reaches 3 m. */
  lemma RefinedRampLosesGain()
    ensures GainM([0.0, 6.0], DefaultMinRiseM) == 6.0
    ensures GainM([0.0, 2.0, 4.0, 6.0], DefaultMinRiseM) == 0.0
  {
    assert [0.0, 6.0][..1] == [0.0];
    var ramp := [0.0, 2.0, 4.0, 6.0];
    assert ramp[..3] == [0.0, 2.0, 4.0];
    assert ramp[..3][..2] == [0.0, 2.0];
    assert ramp[..3][..2][..1] == [0.0];
  }

  // ------------------------------------------------------------- active time

  /** Minutes the pair a -> b adds: its time step, when both stamps exist,
      the step is positive and the speed lies within [vminKmh, vmaxKmh]. */
  function PairActiveMin(a: Sample, b: Sample, vminKmh: real, vmaxKmh: real, lib: Libraries): real {
    if a.time.None? || b.time.None? then 0.0
    else
      var deltaH := (b.time.value - a.time.value) as real / 3600.0;
      if deltaH <= 0.0 then 0.0
      else
        var km := lib.geodesicM(Position(a), Position(b)) / 1000.0;
        var speedKmh := km / deltaH;
        if vminKmh <= speedKmh <= vmaxKmh then deltaH * 60.0 else 0.0
  }

  function ActiveMin(rows: seq<Sample>, vminKmh: real, vmaxKmh: real, lib: Libraries): real {
    if |rows| <= 1 then 0.0
    else ActiveMin(rows[..|rows| - 1], vminKmh, vmaxKmh, lib) + PairActiveMin(rows[|rows| - 2], rows[|rows| - 1], vminKmh, vmaxKmh, lib)
  }

  /** Minutes between consecutive timestamped rows, counting positive steps only. */
  function TimedGapsMin(rows: seq<Sample>): real {
    if |rows| <= 1 then 0.0
    else
      var a := rows[|rows| - 2];
      var b := rows[|rows| - 1];
      var step := if a.time.Some? && b.time.Some? && b.time.value > a.time.value
                  then (b.time.value - a.time.value) as real / 60.0 else 0.0;
      TimedGapsMin(rows[..|rows| - 1]) + step
  }

  /** `calcular_tempo_ativo_min`: the active minutes, rounded to 2 places;
      None for a table without a time column. */
  method ActiveTimeMin(t: Table, vminKmh: real, vmaxKmh: real, lib: Libraries) returns (r: Option<real>)
    ensures r.None? <==> !t.hasTime
    ensures r.Some? ==> r.value == lib.round(ActiveMin(t.rows, vminKmh, vmaxKmh, lib), 2)
  {
    if !t.hasTime {
      return None;
    }
    var rows := t.rows;
    var activeMin := 0.0;
    var i := 1;
    while i < |rows|
      invariant 1 <= i
      invariant |rows| >= 1 ==> i <= |rows| && activeMin == ActiveMin(rows[..i], vminKmh, vmaxKmh, lib)
      invariant |rows| == 0 ==> activeMin == 0.0
    {
      var p0 := rows[i - 1];
      var p1 := rows[i];
      assert rows[..i + 1][..i] == rows[..i];
      i := i + 1;
      if p0.time.None? || p1.time.None? {
        continue;
      }
      var deltaTH := (p1.time.value - p0.time.value) as real / 3600.0;
      if deltaTH <= 0.0 {
        continue;
      }
      var distanceKm := lib.geodesicM(Position(p0), Position(p1)) / 1000.0;
      var velocidadeKmh := distanceKm / deltaTH;
      if vminKmh <= velocidadeKmh <= vmaxKmh {
        activeMin := activeMin + deltaTH * 60.0;
      }
    }
    if |rows| >= 1 {
      assert rows[..i] == rows;
    }
    return Some(lib.round(activeMin, 2));
  }

  /** Active time is never negative and never exceeds the sum of the
      positive time steps between timestamped neighbours. */
  lemma {:induction false} ActiveTimeBounds(rows: seq<Sample>, vminKmh: real, vmaxKmh: real, lib: Libraries)
    ensures 0.0 <= ActiveMin(rows, vminKmh, vmaxKmh, lib) <= TimedGapsMin(rows)
  {
    if |rows| > 1 {
      ActiveTimeBounds(rows[..|rows| - 1], vminKmh, vmaxKmh, lib);
    }
  }

  /** On a time-ordered table the active time fits inside the elapsed time
      (zero when there is no elapsed time). */
  lemma ActiveWithinElapsed(t: Table, vminKmh: real, vmaxKmh: real, lib: Libraries)
    requires t.hasTime && TimeOrdered(t.rows)
    ensures ElapsedMinutes(t).None? ==> ActiveMin(t.rows, vminKmh, vmaxKmh, lib) == 0.0
    ensures ElapsedMinutes(t).Some? ==> ActiveMin(t.rows, vminKmh, vmaxKmh, lib) <= ElapsedMinutes(t).value
  {
    ActiveTimeBounds(t.rows, vminKmh, vmaxKmh, lib);
    GapsTelescope(t.rows);
  }

  /** The span of the valid timestamps, in minutes; 0 with fewer than two. */
  function SpanMin(vt: seq<int>): real {
    if |vt| < 2 then 0.0 else (vt[|vt| - 1] - vt[0]) as real / 60.0
  }

  /** On a time-ordered table the timestamped rows come first, so the
      positive gaps between them add up to exactly the span of the stamps. */
  lemma {:induction false} GapsTelescope(rows: seq<Sample>)
    requires TimeOrdered(rows)
    ensures TimedGapsMin(rows) == SpanMin(ValidTimes(rows))
  {
    if |rows| > 1 {
      var init := rows[..|rows| - 1];
      var a := rows[|rows| - 2];
      var b := rows[|rows| - 1];
      TimeOrderedPrefix(rows, |rows| - 1);
      GapsTelescope(init);
      assert init[|init| - 1] == a;
      assert KeyLe(TimeKey(a), TimeKey(b));
      if b.time.Some? {
        assert a.time.Some? && a.time.value <= b.time.value;
        var vt := ValidTimes(init);
        assert ValidTimes(rows) == vt + [b.time.value];
        assert ValidTimes(init[..|init| - 1]) + [a.time.value] == vt;
        assert vt[|vt| - 1] == a.time.value;
      } else {
        assert ValidTimes(rows) == ValidTimes(init);
      }
    } else if |rows| == 1 {
      assert ValidTimes(rows[..0]) == [];
    }
  }
}
