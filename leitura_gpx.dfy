/** Track ingestion (src/leitura_gpx.py): the points of a parsed GPX file are
    filtered, their timestamps normalised to UTC seconds, and the table is
    ordered by time; elapsed time is read off the first and last valid stamps. */
module GpxReading {
  import opened Wrappers
  import opened Sorting

  /** A point's time as the XML parser hands it over. */
  datatype RawTime =
    | NoTime                                   // the point has no <time>
    | Unparseable                              // a <time> that does not parse as a date
    | Stamp(wallSeconds: int, utcOffset: int)  // local wall-clock seconds and offset; a naive stamp has offset 0

  datatype RawPoint = RawPoint(
    latitude: Option<real>, longitude: Option<real>, elevation: Option<real>, time: RawTime)

  datatype GpxSegment = GpxSegment(points: seq<RawPoint>)
  datatype GpxTrack = GpxTrack(segments: seq<GpxSegment>)
  datatype GpxFile = GpxFile(tracks: seq<GpxTrack>)

  /** One row of the ingested table; `time` is UTC seconds, None for NaT. */
  datatype Sample = Sample(latitude: real, longitude: real, altitudeM: real, time: Option<int>)

  /** The table; `hasTime` says whether it has a `time` column at all. */
  datatype Table = Table(rows: seq<Sample>, hasTime: bool)

  datatype IngestError = NoValidPoints

  /** pd.to_datetime(utc=True, errors='coerce') on one value. */
  function UtcSeconds(t: RawTime): (r: Option<int>)
    ensures r.None? <==> !t.Stamp?
    ensures t.Stamp? ==> r.value + t.utcOffset == t.wallSeconds
  {
    match t
    case NoTime => None
    case Unparseable => None
    case Stamp(wall, offset) => Some(wall - offset)
  }

  predicate Complete(p: RawPoint) {
    p.latitude.Some? && p.longitude.Some? && p.elevation.Some?
  }

  function ToSample(p: RawPoint): Sample
    requires Complete(p)
  {
    Sample(p.latitude.value, p.longitude.value, p.elevation.value, UtcSeconds(p.time))
  }

  /** The complete points of `ps`, in order, as table rows. */
  function Keep(ps: seq<RawPoint>): (r: seq<Sample>)
    ensures |r| <= |ps|
  {
    if ps == [] then []
    else
      var last := ps[|ps| - 1];
      if Complete(last) then Keep(ps[..|ps| - 1]) + [ToSample(last)] else Keep(ps[..|ps| - 1])
  }

  /** A point is kept exactly when its latitude, longitude and elevation are
      all present; nothing else about it (its time included) matters. */
  lemma {:induction false} KeepMembers(ps: seq<RawPoint>)
    ensures forall x :: x in Keep(ps) <==> exists i :: 0 <= i < |ps| && Complete(ps[i]) && ToSample(ps[i]) == x
    ensures Keep(ps) == [] <==> forall i :: 0 <= i < |ps| ==> !Complete(ps[i])
  {
    if ps != [] {
      var init := ps[..|ps| - 1];
      KeepMembers(init);
      assert forall i :: 0 <= i < |init| ==> init[i] == ps[i];
    }
  }

  lemma {:induction false} KeepAppend(a: seq<RawPoint>, b: seq<RawPoint>)
    ensures Keep(a + b) == Keep(a) + Keep(b)
    decreases |b|
  {
    if b == [] {
      assert a + b == a;
    } else {
      var b' := b[..|b| - 1];
      assert (a + b)[..|a + b| - 1] == a + b';
      assert b[..|b| - 1] == b';
      KeepAppend(a, b');
    }
  }

  /** The points of a segment list, segment after segment. */
  function SegmentsPoints(segs: seq<GpxSegment>): seq<RawPoint> {
    if segs == [] then [] else SegmentsPoints(segs[..|segs| - 1]) + segs[|segs| - 1].points
  }

  /** The points of a track list, track after track. */
  function TracksPoints(tracks: seq<GpxTrack>): seq<RawPoint> {
    if tracks == [] then [] else TracksPoints(tracks[..|tracks| - 1]) + SegmentsPoints(tracks[|tracks| - 1].segments)
  }

  /** Every point of the file in document order: track, then segment, then point. */
  function AllPoints(gpx: GpxFile): seq<RawPoint> {
    TracksPoints(gpx.tracks)
  }

  function TimeKey(s: Sample): SortKey {
    if s.time.Some? then At(s.time.value as real) else Missing
  }

  /** Ascending by time, rows without a timestamp last. */
  predicate TimeOrdered(rows: seq<Sample>) {
    forall i, j :: 0 <= i < j < |rows| ==> KeyLe(TimeKey(rows[i]), TimeKey(rows[j]))
  }

  lemma TimeOrderedPrefix(rows: seq<Sample>, k: nat)
    requires TimeOrdered(rows) && k <= |rows|
    ensures TimeOrdered(rows[..k])
  {
    forall i, j | 0 <= i < j < k ensures KeyLe(TimeKey(rows[..k][i]), TimeKey(rows[..k][j])) {
      assert rows[..k][i] == rows[i] && rows[..k][j] == rows[j];
    }
  }

  /** What `ler_gpx` returns for a parsed file. */
  function Ingest(gpx: GpxFile): (r: Result<Table, IngestError>)
    ensures r.Failure? <==> forall i :: 0 <= i < |AllPoints(gpx)| ==> !Complete(AllPoints(gpx)[i])
    ensures r.Success? ==> r.value.hasTime && |r.value.rows| > 0
    ensures r.Success? ==> multiset(r.value.rows) == multiset(Keep(AllPoints(gpx)))
    ensures r.Success? ==> TimeOrdered(r.value.rows)
    ensures r.Success? ==> MissingKeyed(r.value.rows, TimeKey) == MissingKeyed(Keep(AllPoints(gpx)), TimeKey)
  {
    var kept := Keep(AllPoints(gpx));
    KeepMembers(AllPoints(gpx));
    if kept == [] then Failure(NoValidPoints)
    else
      SortByKeepsMissingOrder(kept, TimeKey);
      Success(Table(SortBy(kept, TimeKey), true))
  }

  /** One more point of the current segment. */
  lemma KeepPointStep(upto: seq<RawPoint>, pts: seq<RawPoint>, p: nat)
    requires p < |pts|
    ensures Keep(upto + pts[..p + 1]) ==
              Keep(upto + pts[..p]) + (if Complete(pts[p]) then [ToSample(pts[p])] else [])
  {
    assert upto + pts[..p + 1] == (upto + pts[..p]) + [pts[p]];
    KeepAppend(upto + pts[..p], [pts[p]]);
    assert [pts[p]][..0] == [];
  }

  /** One more segment of the current track. */
  lemma SegmentStep(before: seq<RawPoint>, segs: seq<GpxSegment>, s: nat)
    requires s < |segs|
    ensures before + SegmentsPoints(segs[..s + 1]) == before + SegmentsPoints(segs[..s]) + segs[s].points
  {
    assert segs[..s + 1][..s] == segs[..s];
  }

  /** One more track of the file. */
  lemma TrackStep(tracks: seq<GpxTrack>, t: nat)
    requires t < |tracks|
    ensures TracksPoints(tracks[..t + 1]) == TracksPoints(tracks[..t]) + SegmentsPoints(tracks[t].segments)
  {
    assert tracks[..t + 1][..t] == tracks[..t];
  }

  /** `ler_gpx` after the file has been parsed: nested loops collect the
      complete points, then the table is checked for emptiness and sorted. */
  method ReadGpx(gpx: GpxFile) returns (r: Result<Table, IngestError>)
    ensures r == Ingest(gpx)
  {
    var points: seq<Sample> := [];
    for t := 0 to |gpx.tracks|
      invariant points == Keep(TracksPoints(gpx.tracks[..t]))
    {
      var track := gpx.tracks[t];
      ghost var before := TracksPoints(gpx.tracks[..t]);
      assert before + SegmentsPoints(track.segments[..0]) == before;
      for s := 0 to |track.segments|
        invariant points == Keep(before + SegmentsPoints(track.segments[..s]))
      {
        var segment := track.segments[s];
        ghost var upto := before + SegmentsPoints(track.segments[..s]);
        assert upto + segment.points[..0] == upto;
        for p := 0 to |segment.points|
          invariant points == Keep(upto + segment.points[..p])
        {
          var point := segment.points[p];
          KeepPointStep(upto, segment.points, p);
          if point.latitude.None? || point.longitude.None? || point.elevation.None? {
            continue;
          }
          points := points + [Sample(point.latitude.value, point.longitude.value, point.elevation.value, UtcSeconds(point.time))];
        }
        assert segment.points[..|segment.points|] == segment.points;
        SegmentStep(before, track.segments, s);
      }
      assert track.segments[..|track.segments|] == track.segments;
      TrackStep(gpx.tracks, t);
    }
    assert gpx.tracks[..|gpx.tracks|] == gpx.tracks;
    if |points| == 0 {
      return Failure(NoValidPoints);
    }
    r := Success(Table(SortBy(points, TimeKey), true));
  }

  /** A point kept because its coordinates are complete keeps a missing
      timestamp when its time did not parse: the time is not a reason to drop it. */
  lemma UnparseableTimeKept(p: RawPoint)
    requires Complete(p) && p.time == Unparseable
    ensures Keep([p]) == [Sample(p.latitude.value, p.longitude.value, p.elevation.value, None)]
  {
    assert [p][..0] == [];
  }

  /** The valid timestamps of the table's rows, in row order (`dropna`). */
  function ValidTimes(rows: seq<Sample>): (r: seq<int>)
    ensures |r| <= |rows|
    ensures forall x :: x in r <==> exists i :: 0 <= i < |rows| && rows[i].time == Some(x)
  {
    if rows == [] then []
    else
      var init := rows[..|rows| - 1];
      assert forall i :: 0 <= i < |init| ==> init[i] == rows[i];
      var last := rows[|rows| - 1];
      if last.time.Some? then ValidTimes(init) + [last.time.value] else ValidTimes(init)
  }

  /** `calcular_tempo_total_minutos`: minutes from the first to the last valid
      timestamp, None without a time column or with fewer than two stamps. */
  function ElapsedMinutes(t: Table): (r: Option<real>)
    ensures r.None? <==> !t.hasTime || |ValidTimes(t.rows)| < 2
  {
    if !t.hasTime then None
    else
      var times := ValidTimes(t.rows);
      if |times| < 2 then None
      else Some((times[|times| - 1] - times[0]) as real / 60.0)
  }

  lemma {:induction false} ValidTimesAppend(a: seq<Sample>, b: seq<Sample>)
    ensures ValidTimes(a + b) == ValidTimes(a) + ValidTimes(b)
    decreases |b|
  {
    if b == [] {
      assert a + b == a;
    } else {
      var b' := b[..|b| - 1];
      assert (a + b)[..|a + b| - 1] == a + b';
      ValidTimesAppend(a, b');
    }
  }

  /** Reordering the rows does not change how many valid timestamps they hold. */
  lemma {:induction false} ValidTimesCountPermutation(r: seq<Sample>, s: seq<Sample>)
    requires multiset(r) == multiset(s)
    ensures |ValidTimes(r)| == |ValidTimes(s)|
    decreases |s|
  {
    if s != [] {
      var x := s[|s| - 1];
      var init := s[..|s| - 1];
      assert s == init + [x];
      assert x in multiset(r);
      var j :| 0 <= j < |r| && r[j] == x;
      var r' := r[..j] + r[j + 1..];
      assert r == r[..j] + [x] + r[j + 1..];
      assert multiset(r) == multiset(r[..j]) + multiset{x} + multiset(r[j + 1..]);
      assert multiset(s) == multiset(init) + multiset{x};
      assert multiset(r') == multiset(r[..j]) + multiset(r[j + 1..]);
      assert multiset(r') == multiset(r) - multiset{x};
      assert multiset(init) == multiset(s) - multiset{x};
      ValidTimesCountPermutation(r', init);
      ValidTimesAppend(r[..j] + [x], r[j + 1..]);
      ValidTimesAppend(r[..j], [x]);
      ValidTimesAppend(r[..j], r[j + 1..]);
      ValidTimesAppend(init, [x]);
      assert [x][..0] == [];
    }
  }

  /** On a time-ordered table the valid timestamps are ascending. */
  lemma {:induction false} ValidTimesAscending(rows: seq<Sample>)
    requires TimeOrdered(rows)
    ensures forall i, j :: 0 <= i < j < |ValidTimes(rows)| ==> ValidTimes(rows)[i] <= ValidTimes(rows)[j]
  {
    if rows != [] {
      var init := rows[..|rows| - 1];
      var last := rows[|rows| - 1];
      TimeOrderedPrefix(rows, |rows| - 1);
      ValidTimesAscending(init);
      if last.time.Some? {
        var vt := ValidTimes(init);
        forall x | x in vt ensures x <= last.time.value {
          var i :| 0 <= i < |init| && init[i].time == Some(x);
          assert rows[i] == init[i];
          assert KeyLe(TimeKey(rows[i]), TimeKey(rows[|rows| - 1]));
        }
        assert ValidTimes(rows) == vt + [last.time.value];
        assert forall i :: 0 <= i < |vt| ==> vt[i] in vt;
      }
    }
  }

  /** Elapsed time of a time-ordered table, in particular of any table that
      `Ingest` returns, is never negative. */
  lemma ElapsedNonNegative(t: Table)
    requires TimeOrdered(t.rows)
    ensures ElapsedMinutes(t).Some? ==> ElapsedMinutes(t).value >= 0.0
  {
    ValidTimesAscending(t.rows);
  }
}
