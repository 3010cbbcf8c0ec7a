/** The per-point arithmetic that precedes the risk grid: a velocity from the
    quadratic trend fitted to each point's series (with the optional
    latitude-dependent reference-frame correction), the displacement that
    velocity projects over the years from the reference year to the target
    year, and the relative sea-level rise left after subtracting it. The
    least-squares fit itself is outside the model: its coefficients are
    inputs. */
module Analysis {
  import opened Common

  /** Slopes are per day; velocities are reported per year of 365.25 days. */
  const DaysPerYear: real := 365.25
  /** The defaults of the projection: from 2011 to ten years after now. */
  const DefaultReferenceYear: int := 2011
  const DefaultFutureOffset: int := 10

  /** The earliest of the acquisition dates, given as day numbers. */
  function Earliest(days: seq<int>): (m: int)
    requires |days| > 0
    ensures m in days
    ensures forall k :: 0 <= k < |days| ==> m <= days[k]
  {
    if |days| == 1 then days[0]
    else
      var rest := Earliest(days[1..]);
      assert forall k :: 1 <= k < |days| ==> days[k] == days[1..][k - 1];
      if days[0] <= rest then days[0] else rest
  }

  function Latest(days: seq<int>): (m: int)
    requires |days| > 0
    ensures m in days
    ensures forall k :: 0 <= k < |days| ==> days[k] <= m
  {
    if |days| == 1 then days[0]
    else
      var rest := Latest(days[1..]);
      assert forall k :: 1 <= k < |days| ==> days[k] == days[1..][k - 1];
      if days[0] >= rest then days[0] else rest
  }

  /** The number of days from the earliest acquisition to each acquisition:
      never negative, zero at the earliest one, and differences between
      acquisitions are kept. */
  function DayOffsets(days: seq<int>): (offsets: seq<real>)
    requires |days| > 0
    ensures |offsets| == |days|
    ensures forall k :: 0 <= k < |days| ==> 0.0 <= offsets[k] <= (Latest(days) - Earliest(days)) as real
    ensures exists k :: 0 <= k < |days| && offsets[k] == 0.0
    ensures forall k, l :: 0 <= k < |days| && 0 <= l < |days| ==> offsets[k] - offsets[l] == (days[k] - days[l]) as real
  {
    var first := Earliest(days);
    var offsets := seq(|days|, k requires 0 <= k < |days| => (days[k] - first) as real);
    var k0 :| 0 <= k0 < |days| && days[k0] == first;
    assert offsets[k0] == 0.0;
    offsets
  }

  /** The day at which every point's trend is differentiated: the mean day
      offset over all acquisitions, the same for every point. It lies within
      the acquisition span. */
  function MidDay(days: seq<int>): (mid: real)
    requires |days| > 0
    ensures 0.0 <= mid <= (Latest(days) - Earliest(days)) as real
  {
    MeanBetween(DayOffsets(days), 0.0, (Latest(days) - Earliest(days)) as real);
    Mean(DayOffsets(days))
  }

  function Shifted(days: seq<int>, t: int): (s: seq<int>)
    ensures |s| == |days|
    ensures forall k :: 0 <= k < |days| ==> s[k] == days[k] + t
  {
    seq(|days|, k requires 0 <= k < |days| => days[k] + t)
  }

  lemma EarliestShifted(days: seq<int>, t: int)
    requires |days| > 0
    ensures Earliest(Shifted(days, t)) == Earliest(days) + t
  {
    var e := Earliest(Shifted(days, t));
    var k :| 0 <= k < |days| && Shifted(days, t)[k] == e;
    var l :| 0 <= l < |days| && days[l] == Earliest(days);
    assert e <= Shifted(days, t)[l];
  }

  /** Offsets are relative to the earliest acquisition, so moving every date
      by the same number of days changes neither the offsets nor the mid day. */
  lemma MidDayShiftInvariant(days: seq<int>, t: int)
    requires |days| > 0
    ensures DayOffsets(Shifted(days, t)) == DayOffsets(days)
    ensures MidDay(Shifted(days, t)) == MidDay(days)
  {
    EarliestShifted(days, t);
    var a := DayOffsets(Shifted(days, t));
    var b := DayOffsets(days);
    var k0 :| 0 <= k0 < |days| && b[k0] == 0.0;
    forall k | 0 <= k < |days|
      ensures a[k] == b[k]
    {
      assert a[k] - a[k0] == b[k] - b[k0];
    }
  }

  /** The fitted trend intercept + linear * t + quadratic * t * t
      (LinearRegression's intercept_, coef_[1] and coef_[2] after
      PolynomialFeatures(2)). */
  datatype QuadraticFit = QuadraticFit(intercept: real, linear: real, quadratic: real)

  function Evaluate(q: QuadraticFit, t: real): real {
    q.intercept + q.linear * t + q.quadratic * t * t
  }

  /** The slope of the trend at day t, in measurement units per day; the
      two lemmas below show it is the derivative of the trend. */
  function Slope(q: QuadraticFit, t: real): real {
    2.0 * q.quadratic * t + q.linear
  }

  /** Slope is the derivative of the trend: the change over h days departs
      from h * Slope only by the curvature term quadratic * h * h. */
  lemma SlopeIsDerivative(q: QuadraticFit, t: real, h: real)
    ensures Evaluate(q, t + h) - Evaluate(q, t) == h * Slope(q, t) + q.quadratic * h * h
  {
    calc {
      Evaluate(q, t + h) - Evaluate(q, t);
      q.linear * h + q.quadratic * ((t + h) * (t + h) - t * t);
      { assert (t + h) * (t + h) - t * t == 2.0 * t * h + h * h; }
      q.linear * h + q.quadratic * (2.0 * t * h + h * h);
      h * Slope(q, t) + q.quadratic * h * h;
    }
  }

  /** On a symmetric interval around t the curvature cancels exactly: the
      slope is the central difference quotient. */
  lemma SlopeIsCentralDifference(q: QuadraticFit, t: real, h: real)
    ensures Evaluate(q, t + h) - Evaluate(q, t - h) == 2.0 * h * Slope(q, t)
  {
    SlopeIsDerivative(q, t, h);
    SlopeIsDerivative(q, t, -h);
  }

  /** The reference-frame correction added when ITRF2014 correction is
      requested; the latitude enters only linearly. */
  function LatitudeCorrection(latitude: real): (c: real)
    ensures c == 0.0398 * latitude - 0.87
  {
    -0.0002 * latitude + 0.04 * latitude - 0.87
  }

  /** The velocity of one point in mm/year from its fitted trend, taken at
      the shared mid day, with the correction for its latitude if asked:
      the trend's change from the day before the mid day to the day after,
      halved and scaled to a year, plus the correction. */
  function PointVelocity(q: QuadraticFit, midDay: real, latitude: real, applyItrf2014: bool): (v: real)
    ensures !applyItrf2014 ==> v == (Evaluate(q, midDay + 1.0) - Evaluate(q, midDay - 1.0)) / 2.0 * DaysPerYear
    ensures applyItrf2014 ==> v - (0.0398 * latitude - 0.87)
                              == (Evaluate(q, midDay + 1.0) - Evaluate(q, midDay - 1.0)) / 2.0 * DaysPerYear
  {
    SlopeIsCentralDifference(q, midDay, 1.0);
    var velocity := Slope(q, midDay) * DaysPerYear;
    if applyItrf2014 then velocity + LatitudeCorrection(latitude) else velocity
  }

  /** The velocity is the yearly rate of the trend: DaysPerYear times its
      central difference quotient around the mid day. */
  lemma VelocityIsYearlyRate(q: QuadraticFit, midDay: real, h: real)
    requires h > 0.0
    ensures PointVelocity(q, midDay, 0.0, false)
            == (Evaluate(q, midDay + h) - Evaluate(q, midDay - h)) / (2.0 * h) * DaysPerYear
  {
    SlopeIsCentralDifference(q, midDay, h);
  }

  /** A straight-line trend of `linear` units per day gives linear * 365.25
      per year, wherever the mid day falls. */
  lemma LinearTrendVelocity(q: QuadraticFit, midDay: real, latitude: real)
    requires q.quadratic == 0.0
    ensures PointVelocity(q, midDay, latitude, false) == q.linear * DaysPerYear
  {
  }

  /** The correction shifts every velocity by an amount that depends on the
      latitude alone, not on the fitted trend. */
  lemma CorrectionIsAdditive(q: QuadraticFit, midDay: real, latitude: real)
    ensures PointVelocity(q, midDay, latitude, true) - PointVelocity(q, midDay, latitude, false)
            == LatitudeCorrection(latitude)
  {
  }

  function AddFits(p: QuadraticFit, q: QuadraticFit): QuadraticFit {
    QuadraticFit(p.intercept + q.intercept, p.linear + q.linear, p.quadratic + q.quadratic)
  }

  function ScaleFit(c: real, q: QuadraticFit): QuadraticFit {
    QuadraticFit(c * q.intercept, c * q.linear, c * q.quadratic)
  }

  /** The uncorrected velocity is linear in the fitted trend: superposed
      trends give summed velocities and a trend scaled by c gives c times
      the velocity. */
  lemma VelocityLinearInFit(p: QuadraticFit, q: QuadraticFit, c: real, midDay: real)
    ensures PointVelocity(AddFits(p, q), midDay, 0.0, false)
            == PointVelocity(p, midDay, 0.0, false) + PointVelocity(q, midDay, 0.0, false)
    ensures PointVelocity(ScaleFit(c, q), midDay, 0.0, false) == c * PointVelocity(q, midDay, 0.0, false)
  {
    VelocityAdditive(p, q, midDay);
    VelocityHomogeneous(c, q, midDay);
  }

  /** Superposed trends give summed velocities. */
  lemma VelocityAdditive(p: QuadraticFit, q: QuadraticFit, midDay: real)
    ensures PointVelocity(AddFits(p, q), midDay, 0.0, false)
            == PointVelocity(p, midDay, 0.0, false) + PointVelocity(q, midDay, 0.0, false)
  {
    SlopeLinearInFit(p, q, 0.0, midDay);
    UncorrectedVelocity(AddFits(p, q), midDay);
    UncorrectedVelocity(p, midDay);
    UncorrectedVelocity(q, midDay);
    var sp, sq := Slope(p, midDay), Slope(q, midDay);
    assert (sp + sq) * DaysPerYear == sp * DaysPerYear + sq * DaysPerYear;
  }

  /** A trend scaled by c gives c times the velocity. */
  lemma VelocityHomogeneous(c: real, q: QuadraticFit, midDay: real)
    ensures PointVelocity(ScaleFit(c, q), midDay, 0.0, false) == c * PointVelocity(q, midDay, 0.0, false)
  {
    SlopeLinearInFit(q, q, c, midDay);
    UncorrectedVelocity(ScaleFit(c, q), midDay);
    UncorrectedVelocity(q, midDay);
    var sq := Slope(q, midDay);
    assert (c * sq) * DaysPerYear == c * (sq * DaysPerYear);
  }

  /** Without the correction the velocity is the slope at the mid day in
      units per year. */
  lemma UncorrectedVelocity(q: QuadraticFit, midDay: real)
    ensures PointVelocity(q, midDay, 0.0, false) == Slope(q, midDay) * DaysPerYear
  {
  }

  lemma SlopeLinearInFit(p: QuadraticFit, q: QuadraticFit, c: real, t: real)
    ensures Slope(AddFits(p, q), t) == Slope(p, t) + Slope(q, t)
    ensures Slope(ScaleFit(c, q), t) == c * Slope(q, t)
  {
    assert 2.0 * (c * q.quadratic) * t == c * (2.0 * q.quadratic * t);
  }

  /** The per-point loop: every row gets the velocity of its own fit, all
      taken at the mid day of the common acquisition dates. */
  method CalcVelocities(epochDays: seq<int>, fits: seq<QuadraticFit>, latitudes: seq<real>, applyItrf2014: bool)
    returns (velocities: seq<real>)
    requires |epochDays| > 0
    requires |latitudes| == |fits|
    ensures |velocities| == |fits|
    ensures forall k :: 0 <= k < |fits| ==>
              velocities[k] == PointVelocity(fits[k], MidDay(epochDays), latitudes[k], applyItrf2014)
  {
    var offsets := DayOffsets(epochDays);
    velocities := [];
    var k := 0;
    while k < |fits|
      invariant 0 <= k <= |fits|
      invariant |velocities| == k
      invariant forall m :: 0 <= m < k ==>
                  velocities[m] == PointVelocity(fits[m], MidDay(epochDays), latitudes[m], applyItrf2014)
    {
      var midDay := Mean(offsets);
      var velocity := Slope(fits[k], midDay) * DaysPerYear;
      if applyItrf2014 {
        velocity := velocity + LatitudeCorrection(latitudes[k]);
      }
      velocities := velocities + [velocity];
      k := k + 1;
    }
  }

  /** Years from the reference year to the target year `futureOffset` years
      after the current one: counting them on from the reference year reaches
      the target year, and they are positive exactly when the target year is
      later than the reference year. */
  function TotalYears(currentYear: int, futureOffset: int, referenceYear: int): (years: int)
    ensures referenceYear + years == currentYear + futureOffset
    ensures years > 0 <==> currentYear + futureOffset > referenceYear
  {
    currentYear + futureOffset - referenceYear
  }

  /** With the default reference year and offset the span is positive from
      2002 on, and each further current year adds one year to it. */
  lemma DefaultSpan(currentYear: int)
    ensures TotalYears(currentYear, DefaultFutureOffset, DefaultReferenceYear) == currentYear - 2001
    ensures currentYear > 2001 ==> TotalYears(currentYear, DefaultFutureOffset, DefaultReferenceYear) > 0
  {
  }

  /** The displacement in metres of a point moving at `velocity` mm/year for
      `years` years. */
  function Displacement(velocity: real, years: int): (d: real)
    ensures d * 1000.0 == velocity * years as real
  {
    velocity * years as real / 1000.0
  }

  /** The displacement column: one projected displacement per velocity, all
      over the same number of years. */
  function ProjectDisplacements(velocities: seq<real>, currentYear: int, referenceYear: int, futureOffset: int)
    : (displacements: seq<real>)
    ensures |displacements| == |velocities|
    ensures forall k :: 0 <= k < |velocities| ==>
              displacements[k] == Displacement(velocities[k], TotalYears(currentYear, futureOffset, referenceYear))
  {
    var years := TotalYears(currentYear, futureOffset, referenceYear);
    seq(|velocities|, k requires 0 <= k < |velocities| => Displacement(velocities[k], years))
  }

  /** Displacement is linear in the velocity. */
  lemma DisplacementLinear(v1: real, v2: real, c: real, years: int)
    ensures Displacement(v1 + v2, years) == Displacement(v1, years) + Displacement(v2, years)
    ensures Displacement(c * v1, years) == c * Displacement(v1, years)
  {
    assert (c * v1) * years as real == c * (v1 * years as real);
  }

  /** Over a positive span a point that rises is displaced upward and one
      that subsides downward; a point at rest does not move. */
  lemma DisplacementSign(velocity: real, years: int)
    requires years > 0
    ensures Displacement(velocity, years) > 0.0 <==> velocity > 0.0
    ensures Displacement(velocity, years) < 0.0 <==> velocity < 0.0
    ensures Displacement(velocity, years) == 0.0 <==> velocity == 0.0
  {
    var y := years as real;
    if velocity > 0.0 {
      assert velocity * y > 0.0;
    } else if velocity < 0.0 {
      assert (-velocity) * y > 0.0;
    }
  }

  /** Relative sea-level rise at a point: the sea-level rise less the
      point's own vertical displacement. */
  function Rslr(slr: real, displacement: real): (r: real)
    ensures r + displacement == slr
  {
    slr - displacement
  }

  function ComputeRslr(slr: real, displacements: seq<real>): (rslr: seq<real>)
    ensures |rslr| == |displacements|
    ensures forall k :: 0 <= k < |displacements| ==> rslr[k] == Rslr(slr, displacements[k])
  {
    seq(|displacements|, k requires 0 <= k < |displacements| => Rslr(slr, displacements[k]))
  }

  /** A point that rises faces less relative sea-level rise than one that
      rises less or subsides. */
  lemma RslrAntitone(slr: real, d1: real, d2: real)
    requires d1 <= d2
    ensures Rslr(slr, d1) >= Rslr(slr, d2)
  {
  }

  /** Along the whole chain, over a positive span: a subsiding point sees
      more than the sea-level rise, a rising one less. */
  lemma SubsidenceRaisesRslr(slr: real, velocity: real, currentYear: int, referenceYear: int, futureOffset: int)
    requires TotalYears(currentYear, futureOffset, referenceYear) > 0
    ensures velocity < 0.0 ==> Rslr(slr, Displacement(velocity, TotalYears(currentYear, futureOffset, referenceYear))) > slr
    ensures velocity > 0.0 ==> Rslr(slr, Displacement(velocity, TotalYears(currentYear, futureOffset, referenceYear))) < slr
  {
    DisplacementSign(velocity, TotalYears(currentYear, futureOffset, referenceYear));
  }
}
