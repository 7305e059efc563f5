/** The foreign numerics the pipeline calls: geopy's ellipsoidal geodesic and
    numpy's exp, tan, arctan and round. None of them is modelled; each is a
    field of a `Libraries` record, and the ghost predicates below state the only
    facts about them that the properties of the model rely on. */
module Foreign {

  /** A latitude/longitude pair in degrees, as handed to `geodesic`. */
  datatype Coord = Coord(latitude: real, longitude: real)

  datatype Libraries = Libraries(
    geodesicM: (Coord, Coord) -> real,  // geodesic(p, q).meters; `.km` is this divided by 1000
    exp: real -> real,                  // numpy.exp
    tan: real -> real,                  // numpy.tan, argument in radians
    arctan: real -> real,               // numpy.arctan, result in radians
    round: (real, nat) -> real          // Python's round(x, ndigits)
  )

  /** numpy.pi: the exact value of the double closest to pi, which lies
      just below pi. */
  const Pi: real := 3.141592653589793115997963468544185161590576171875

  /** numpy.radians; converting back with `Degrees` gives the angle again. */
  function Radians(degrees: real): (r: real)
    ensures Degrees(r) == degrees
  {
    degrees * Pi / 180.0
  }

  /** numpy.degrees; a right angle, Pi / 2 radians, is 90 degrees. */
  function Degrees(radians: real): (r: real)
    ensures 0.0 <= radians <= Pi / 2.0 ==> 0.0 <= r <= 90.0
    ensures r == 0.0 <==> radians == 0.0
    ensures radians == Pi / 2.0 ==> r == 90.0
  {
    radians * 180.0 / Pi
  }

  /** A geodesic length is never negative. */
  ghost predicate GeodesicNonNegative(lib: Libraries) {
    forall p, q :: lib.geodesicM(p, q) >= 0.0
  }

  /** exp(x) <= 1 whenever x <= 0. */
  ghost predicate ExpAtMostOneOnNonPositive(lib: Libraries) {
    forall x :: x <= 0.0 ==> lib.exp(x) <= 1.0
  }

  /** arctan(0) = 0 and arctan maps the positive reals into (0, Pi/2]. The
      upper end is reached: for a large enough argument numpy returns the
      double nearest pi/2, which is exactly Pi / 2. */
  ghost predicate ArctanOnNonNegative(lib: Libraries) {
    && lib.arctan(0.0) == 0.0
    && forall x :: x > 0.0 ==> 0.0 < lib.arctan(x) <= Pi / 2.0
  }
}
