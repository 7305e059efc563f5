/** The two time-estimation models of src/modelos_tempo.py. Both are plain
    arithmetic on already-computed distance, gain and slope. */
module TimeModels {
  import opened Foreign

  /** Naismith's rule: an hour per 5 km plus an hour per 600 m of climb. */
  function NaismithMin(distanceKm: real, gainM: real): (r: real)
    ensures r == 12.0 * distanceKm + gainM / 10.0
  {
    (distanceKm / 5.0 + gainM / 600.0) * 60.0
  }

  lemma NaismithFlatTenKm()
    ensures NaismithMin(10.0, 0.0) == 120.0
  {
  }

  lemma NaismithMonotone(d1: real, g1: real, d2: real, g2: real)
    requires d1 <= d2 && g1 <= g2
    ensures NaismithMin(d1, g1) <= NaismithMin(d2, g2)
  {
  }

  function Abs(x: real): real {
    if x < 0.0 then -x else x
  }

  /** Tobler's hiking function, floored at 0.1 km/h. */
  function ToblerSpeedKmh(slopeDeg: real, lib: Libraries): (v: real)
    ensures v >= 0.1
  {
    var slopeRad := Radians(slopeDeg);
    var speed := 6.0 * lib.exp(-3.5 * Abs(lib.tan(slopeRad) + 0.05));
    if speed > 0.1 then speed else 0.1
  }

  /** Since exp of a non-positive argument is at most 1, the speed never
      exceeds the 6 km/h peak of the curve. */
  lemma ToblerSpeedAtMostSix(slopeDeg: real, lib: Libraries)
    requires ExpAtMostOneOnNonPositive(lib)
    ensures ToblerSpeedKmh(slopeDeg, lib) <= 6.0
  {
    var x := -3.5 * Abs(lib.tan(Radians(slopeDeg)) + 0.05);
    assert lib.exp(x) <= 1.0;
  }

  /** Minutes to walk `distanceKm` at the Tobler speed for the slope. */
  function ToblerMin(distanceKm: real, slopeDeg: real, lib: Libraries): (r: real)
    ensures r * ToblerSpeedKmh(slopeDeg, lib) == 60.0 * distanceKm
    ensures distanceKm == 0.0 ==> r == 0.0
    ensures distanceKm >= 0.0 ==> 0.0 <= r <= 600.0 * distanceKm
  {
    var v := ToblerSpeedKmh(slopeDeg, lib);
    var horas := distanceKm / v;
    HoursWithinSpeedBand(distanceKm, v);
    horas * 60.0
  }

  /** For d >= 0 and a speed v >= 0.1, d / v hours is at most 10 d, and at
      least d / 6 when v <= 6. */
  lemma HoursWithinSpeedBand(d: real, v: real)
    requires v >= 0.1
    ensures d >= 0.0 ==> 0.0 <= d / v <= 10.0 * d
    ensures d >= 0.0 && v <= 6.0 ==> d / 6.0 <= d / v
  {
    if d >= 0.0 {
      var h := d / v;
      assert h * v == d;
      assert h >= 0.0;
      assert h * 0.1 <= h * v;
      if v <= 6.0 {
        assert h * 6.0 >= h * v;
      }
    }
  }

  /** For d >= 0 the Tobler time lies between 10 d minutes (6 km/h) and
      600 d minutes (0.1 km/h). */
  lemma ToblerTimeBounds(distanceKm: real, slopeDeg: real, lib: Libraries)
    requires ExpAtMostOneOnNonPositive(lib)
    requires distanceKm >= 0.0
    ensures 10.0 * distanceKm <= ToblerMin(distanceKm, slopeDeg, lib) <= 600.0 * distanceKm
  {
    ToblerSpeedAtMostSix(slopeDeg, lib);
    HoursWithinSpeedBand(distanceKm, ToblerSpeedKmh(slopeDeg, lib));
  }
}
