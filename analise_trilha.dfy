/** Per-trail analysis (src/analise_trilha.py): the trail's name, origin,
    distance, gain, mean slope, real elapsed time, both model estimates and
    the error of each model against the real time. */
module TrailAnalysis {
  import opened Wrappers
  import opened Foreign
  import opened GpxReading
  import opened TrailMetrics
  import opened TimeModels

  // ------------------------------------------------------------ slope

  /** `calcular_inclinacao_media_graus`: arctan of climb over horizontal
      metres, in degrees; 0 for a non-positive distance. */
  function MeanSlopeDeg(distanceKm: real, gainM: real, lib: Libraries): (r: real)
    ensures distanceKm <= 0.0 ==> r == 0.0
  {
    if distanceKm <= 0.0 then 0.0
    else Degrees(lib.arctan(gainM / (distanceKm * 1000.0)))
  }

  /** For a positive distance and a non-negative gain the slope lies in
      [0, 90] degrees and is 0 exactly when the gain is. A climb far steeper
      than any trail's reaches 90, since arctan then returns Pi / 2. */
  lemma MeanSlopeRange(distanceKm: real, gainM: real, lib: Libraries)
    requires ArctanOnNonNegative(lib)
    requires distanceKm > 0.0 && gainM >= 0.0
    ensures 0.0 <= MeanSlopeDeg(distanceKm, gainM, lib) <= 90.0
    ensures MeanSlopeDeg(distanceKm, gainM, lib) == 0.0 <==> gainM == 0.0
  {
    var y := gainM / (distanceKm * 1000.0);
    assert y * (distanceKm * 1000.0) == gainM;
    if gainM > 0.0 {
      assert y > 0.0;
      assert 0.0 < lib.arctan(y) <= Pi / 2.0;
    } else {
      assert y == 0.0;
    }
  }

  // ------------------------------------------------------------ name

  function LastIndexOf(s: string, c: char): (r: int)
    ensures -1 <= r < |s|
    ensures r >= 0 ==> s[r] == c
    ensures forall i :: r < i < |s| ==> s[i] != c
  {
    if s == [] then -1
    else if s[|s| - 1] == c then |s| - 1
    else LastIndexOf(s[..|s| - 1], c)
  }

  /** os.path.basename: what follows the last '/'. */
  function Basename(path: string): (b: string)
    ensures '/' !in b
    ensures |b| <= |path| && b == path[|path| - |b|..]
    ensures |b| < |path| ==> path[|path| - |b| - 1] == '/'
  {
    path[LastIndexOf(path, '/') + 1..]
  }

  /** The number of '.' characters `s` starts with. */
  function LeadingDots(s: string): (n: nat)
    ensures n <= |s| && (n < |s| ==> s[n] != '.')
    ensures forall i :: 0 <= i < n ==> s[i] == '.'
  {
    if s == [] || s[0] != '.' then 0 else 1 + LeadingDots(s[1..])
  }

  /** os.path.splitext(name)[0]: drops the text from the last '.' on,
      unless every character before that dot is itself a dot. So the name is
      cut exactly when some '.' follows a character other than '.', and then
      at its last '.'. */
  function StripExtension(name: string): (r: string)
    ensures r <= name
    ensures r == name <==> forall i, j :: 0 <= i < j < |name| && name[i] != '.' ==> name[j] != '.'
    ensures r != name ==> name[|r|] == '.' && '.' !in name[|r| + 1..] && LeadingDots(name) < |r|
  {
    var dot := LastIndexOf(name, '.');
    var n := LeadingDots(name);
    if n < dot then
      assert name[n] != '.' && name[dot] == '.';
      name[..dot]
    else
      assert forall i, j :: 0 <= i < j < |name| && name[i] != '.' && name[j] == '.' ==> n <= i < j <= dot;
      name
  }

  /** The trail's name: the path's last component without its final extension. */
  function TrailName(path: string): (r: string)
    ensures '/' !in r && r <= Basename(path)
  {
    var b := Basename(path);
    assert forall c :: c in StripExtension(b) ==> c in b;
    StripExtension(b)
  }

  /** The name is a prefix of the path's last component. It is shorter
      exactly when that component has a '.' after some other character; what
      is cut is then the last '.' and what follows it, and what remains is
      not made of dots only. */
  lemma TrailNameShape(path: string)
    ensures var r, b := TrailName(path), Basename(path);
            && (r == b <==> forall i, j :: 0 <= i < j < |b| && b[i] != '.' ==> b[j] != '.')
            && (r != b ==>
                  && r == b[..LastIndexOf(b, '.')]
                  && exists i :: 0 <= i < |r| && r[i] != '.')
  {
    var b := Basename(path);
    assert TrailName(path) == StripExtension(b);
    CutAtLastDot(b);
  }

  /** When splitext cuts a name, it cuts at the last '.' and keeps a
      character other than '.'. */
  lemma CutAtLastDot(name: string)
    ensures var r := StripExtension(name);
            r != name ==> r == name[..LastIndexOf(name, '.')] && exists i :: 0 <= i < |r| && r[i] != '.'
  {
    var r := StripExtension(name);
    if r != name {
      LastIndexOfAt(name, '.', |r|);
      var n := LeadingDots(name);
      assert r[n] == name[n] != '.';
    }
  }

  lemma LastIndexOfAt(s: string, c: char, k: nat)
    requires k < |s| && s[k] == c && c !in s[k + 1..]
    ensures LastIndexOf(s, c) == k
  {
  }

  /** The directory and the extension go. */
  lemma TrailNameOfGpxPath()
    ensures TrailName("d/Pico.gpx") == "Pico"
  {
    LastIndexOfAt("d/Pico.gpx", '/', 1);
    LastIndexOfAt("Pico.gpx", '.', 4);
    assert LeadingDots("Pico.gpx") == 0;
  }

  /** A name that is only an extension keeps it, as with a dot file. */
  lemma TrailNameOfDotName()
    ensures TrailName("d/.gpx") == ".gpx"
  {
    LastIndexOfAt("d/.gpx", '/', 1);
    LastIndexOfAt(".gpx", '.', 0);
  }

  // ------------------------------------------------------------ record

  datatype AnalysisError =
    | Unreadable      // the file could not be opened or parsed
    | EmptyTrack      // ler_gpx's ValueError
    | NoElapsedTime   // None - float: the TypeError when there is no real time

  datatype TrailRecord = TrailRecord(
    name: string,
    latitudeStart: real, longitudeStart: real,
    distanceKm: real, gainM: real, meanSlopeDeg: real,
    realMin: real, naismithMin: real, toblerMin: real,
    naismithErrorMin: real, toblerErrorMin: real)

  /** The measurements of a non-empty, time-ordered table. */
  function MeasureTable(name: string, table: Table, lib: Libraries): (r: Result<TrailRecord, AnalysisError>)
    requires |table.rows| > 0 && TimeOrdered(table.rows)
    ensures r.Failure? <==> ElapsedMinutes(table).None?
    ensures r.Failure? ==> r.error == NoElapsedTime
    ensures r.Success? ==> r.value.name == name && r.value.realMin >= 0.0
    ensures r.Success? ==> && r.value.naismithErrorMin == r.value.realMin - r.value.naismithMin
                           && r.value.toblerErrorMin == r.value.realMin - r.value.toblerMin
  {
    var distanceKm := DistanceM(table.rows, DefaultMinDisplacementM, lib) / 1000.0;
    var gainM := GainM(Altitudes(table.rows), DefaultMinRiseM);
    var realMin := ElapsedMinutes(table);
    var slope := MeanSlopeDeg(distanceKm, gainM, lib);
    var naismith := NaismithMin(distanceKm, gainM);
    var tobler := ToblerMin(distanceKm, slope, lib);
    if realMin.None? then Failure(NoElapsedTime)
    else
      ElapsedNonNegative(table);
      Success(TrailRecord(
        name, table.rows[0].latitude, table.rows[0].longitude,
        distanceKm, gainM, slope,
        realMin.value, naismith, tobler,
        realMin.value - naismith, realMin.value - tobler))
  }

  /** `analisar_trilha` before rounding. `gpx` is the parsed file, None when
      opening or parsing it fails. */
  function Measure(path: string, gpx: Option<GpxFile>, lib: Libraries): (r: Result<TrailRecord, AnalysisError>)
    ensures gpx.None? ==> r == Failure(Unreadable)
    ensures gpx.Some? && Ingest(gpx.value).Failure? ==> r == Failure(EmptyTrack)
    ensures r.Success? ==> r.value.name == TrailName(path) && r.value.realMin >= 0.0
    ensures r.Success? ==> && r.value.naismithErrorMin == r.value.realMin - r.value.naismithMin
                           && r.value.toblerErrorMin == r.value.realMin - r.value.toblerMin
  {
    var name := TrailName(path);
    if gpx.None? then Failure(Unreadable)
    else match Ingest(gpx.value)
      case Failure(_) => Failure(EmptyTrack)
      case Success(table) => MeasureTable(name, table, lib)
  }

  /** A record is produced exactly when the file parses and at least two of
      its complete points carry a valid timestamp. */
  lemma MeasureSucceedsIff(path: string, gpx: Option<GpxFile>, lib: Libraries)
    ensures Measure(path, gpx, lib).Success? <==> gpx.Some? && |ValidTimes(Keep(AllPoints(gpx.value)))| >= 2
  {
    if gpx.Some? {
      var kept := Keep(AllPoints(gpx.value));
      var ing := Ingest(gpx.value);
      if ing.Success? {
        ValidTimesCountPermutation(ing.value.rows, kept);
      } else {
        KeepMembers(AllPoints(gpx.value));
        assert kept == [];
      }
    }
  }

  /** The record's origin is the first row of the time-ordered table, its
      distance and gain come from the rows with the default thresholds
      (1 m of displacement, 3 m of rise) and its real time is the table's
      elapsed time. */
  lemma MeasureInputs(name: string, t: Table, lib: Libraries)
    requires |t.rows| > 0 && TimeOrdered(t.rows)
    requires MeasureTable(name, t, lib).Success?
    ensures MeasureTable(name, t, lib).value.latitudeStart == t.rows[0].latitude
    ensures MeasureTable(name, t, lib).value.longitudeStart == t.rows[0].longitude
    ensures MeasureTable(name, t, lib).value.distanceKm == DistanceM(t.rows, 1.0, lib) / 1000.0
    ensures MeasureTable(name, t, lib).value.gainM == GainM(Altitudes(t.rows), 3.0)
    ensures Some(MeasureTable(name, t, lib).value.realMin) == ElapsedMinutes(t)
  {
  }

  /** Naismith takes the raw distance and gain, Tobler the distance and the
      global mean slope. */
  lemma MeasureEstimates(name: string, t: Table, lib: Libraries)
    requires |t.rows| > 0 && TimeOrdered(t.rows)
    requires MeasureTable(name, t, lib).Success?
    ensures var m := MeasureTable(name, t, lib).value;
            && m.meanSlopeDeg == MeanSlopeDeg(m.distanceKm, m.gainM, lib)
            && m.naismithMin == NaismithMin(m.distanceKm, m.gainM)
            && m.toblerMin == ToblerMin(m.distanceKm, m.meanSlopeDeg, lib)
  {
  }

  /** For a non-negative distance and gain both estimates lie in their
      physical ranges, whatever the slope; the slope lies in [0, 90] when
      arctan behaves as numpy's does on non-negative arguments. */
  lemma EstimatesInRange(distanceKm: real, gainM: real, lib: Libraries)
    requires ExpAtMostOneOnNonPositive(lib)
    requires distanceKm >= 0.0 && gainM >= 0.0
    ensures var slope := MeanSlopeDeg(distanceKm, gainM, lib);
            && NaismithMin(distanceKm, gainM) >= 0.0
            && 10.0 * distanceKm <= ToblerMin(distanceKm, slope, lib) <= 600.0 * distanceKm
    ensures ArctanOnNonNegative(lib) ==>
              var slope := MeanSlopeDeg(distanceKm, gainM, lib);
              && 0.0 <= slope <= 90.0
              && (distanceKm > 0.0 ==> (slope == 0.0 <==> gainM == 0.0))
  {
    if distanceKm > 0.0 && ArctanOnNonNegative(lib) {
      MeanSlopeRange(distanceKm, gainM, lib);
    }
    ToblerTimeBounds(distanceKm, MeanSlopeDeg(distanceKm, gainM, lib), lib);
  }

  /** With a non-negative geodesic and exp bounded by 1 on non-positive
      arguments, every measured quantity lies in its physical range; the
      slope does too when arctan behaves as numpy's. */
  lemma MeasureBounds(path: string, gpx: GpxFile, lib: Libraries)
    requires GeodesicNonNegative(lib) && ExpAtMostOneOnNonPositive(lib)
    requires Measure(path, Some(gpx), lib).Success?
    ensures var m := Measure(path, Some(gpx), lib).value;
            && m.distanceKm >= 0.0 && m.gainM >= 0.0
            && m.naismithMin >= 0.0
            && 10.0 * m.distanceKm <= m.toblerMin <= 600.0 * m.distanceKm
    ensures ArctanOnNonNegative(lib) ==>
              var m := Measure(path, Some(gpx), lib).value;
              && 0.0 <= m.meanSlopeDeg <= 90.0
              && (m.distanceKm > 0.0 ==> (m.meanSlopeDeg == 0.0 <==> m.gainM == 0.0))
  {
    var t := Ingest(gpx).value;
    assert Measure(path, Some(gpx), lib) == MeasureTable(TrailName(path), t, lib);
    MeasureInputs(TrailName(path), t, lib);
    MeasureEstimates(TrailName(path), t, lib);
    var m := Measure(path, Some(gpx), lib).value;
    DistanceBounds(t.rows, DefaultMinDisplacementM, lib);
    GainBounds(Altitudes(t.rows), DefaultMinRiseM);
    EstimatesInRange(m.distanceKm, m.gainM, lib);
  }

  // ------------------------------------------------------------ rounding

  /** The returned dict: every number rounded at the boundary, coordinates to
      6 places, distance to 3, gain to 1, slope, times and errors to 2. */
  function Present(m: TrailRecord, lib: Libraries): (r: TrailRecord)
    ensures r.name == m.name
  {
    TrailRecord(
      m.name,
      lib.round(m.latitudeStart, 6), lib.round(m.longitudeStart, 6),
      lib.round(m.distanceKm, 3), lib.round(m.gainM, 1), lib.round(m.meanSlopeDeg, 2),
      lib.round(m.realMin, 2), lib.round(m.naismithMin, 2), lib.round(m.toblerMin, 2),
      lib.round(m.naismithErrorMin, 2), lib.round(m.toblerErrorMin, 2))
  }

  /** The rounded record keeps the name and rounds the errors from the
      unrounded differences, not from the rounded times. */
  lemma PresentedErrors(m: TrailRecord, lib: Libraries)
    requires m.naismithErrorMin == m.realMin - m.naismithMin
    requires m.toblerErrorMin == m.realMin - m.toblerMin
    ensures Present(m, lib).name == m.name
    ensures Present(m, lib).naismithErrorMin == lib.round(m.realMin - m.naismithMin, 2)
    ensures Present(m, lib).toblerErrorMin == lib.round(m.realMin - m.toblerMin, 2)
  {
  }

  /** `analisar_trilha`: the measurements, rounded for presentation; any
      failure of the measurement is the analysis' failure. */
  function AnalyseTrail(path: string, gpx: Option<GpxFile>, lib: Libraries): (r: Result<TrailRecord, AnalysisError>)
    ensures match Measure(path, gpx, lib)
            case Failure(e) => r == Failure(e)
            case Success(m) => r == Success(Present(m, lib)) && r.value.name == TrailName(path)
  {
    match Measure(path, gpx, lib)
    case Failure(e) => Failure(e)
    case Success(m) => Success(Present(m, lib))
  }
}
