/** Contact detection and the three conduction contact-area models
    (fix_heat_gran_radiation.cpp, lines 550-601). */
module ContactGeometry {
  import opened Wrappers
  import opened FixParams

  datatype Vec3 = Vec3(x: real, y: real, z: real)

  function Sub(a: Vec3, b: Vec3): Vec3 { Vec3(a.x - b.x, a.y - b.y, a.z - b.z) }
  function Add(a: Vec3, b: Vec3): Vec3 { Vec3(a.x + b.x, a.y + b.y, a.z + b.z) }
  function Scale(k: real, v: Vec3): Vec3 { Vec3(k * v.x, k * v.y, k * v.z) }

  /** `delx*delx + dely*dely + delz*delz` */
  function NormSq(d: Vec3): real { d.x * d.x + d.y * d.y + d.z * d.z }

  /** `M_PI` as a real (the host's double rounds it). */
  const Pi: real := 3.14159265358979323846

  /** `fmax` / `fmin` / `std::max` on radii. */
  function Max(a: real, b: real): real { if a >= b then a else b }
  function Min(a: real, b: real): real { if a <= b then a else b }

  /** Centres closer than the sum of the radii. */
  predicate Overlapping(rsq: real, radsum: real) { rsq < radsum * radsum }

  /** The contact test of the neighbour loop.  Without history, contact is
      `rsq < radsum*radsum`; with history, the pair's stored contact flag is
      consulted first and the geometry is then re-checked, a stale flag being
      skipped (`continue`). */
  predicate InContact(hist: bool, flag: bool, rsq: real, radsum: real)
    ensures InContact(hist, flag, rsq, radsum) ==> Overlapping(rsq, radsum)
  {
    var candidate := (hist && flag) || (!hist && Overlapping(rsq, radsum));
    candidate && !(hist && !Overlapping(rsq, radsum))
  }

  /** With history a pair counts iff its flag is set and it still overlaps;
      without history iff it overlaps. */
  lemma ContactDecision(hist: bool, flag: bool, rsq: real, radsum: real)
    ensures hist ==> (InContact(hist, flag, rsq, radsum) <==> flag && rsq < radsum * radsum)
    ensures !hist ==> (InContact(hist, flag, rsq, radsum) <==> rsq < radsum * radsum)
  {
  }

  /** Area correction: the overlap `radsum - r` is scaled by the stiffness
      ratio of the two types and `r` recomputed from it.  Equal stiffnesses
      (ratio 1) leave the distance as it is. */
  function CorrectedDistance(r: real, radsum: real, ratio: real): (rc: real)
    ensures ratio == 1.0 ==> rc == r
    ensures ratio == 0.0 ==> rc == radsum
  {
    radsum - (radsum - r) * ratio
  }

  /** A positive ratio keeps a touching pair touching, however large it is. */
  lemma CorrectionKeepsContact(r: real, radsum: real, ratio: real)
    requires r < radsum && ratio > 0.0
    ensures CorrectedDistance(r, radsum, ratio) < radsum
  {
    MulPos(radsum - r, ratio);
    assert (radsum - r) * ratio == radsum * ratio - r * ratio;
  }

  /** A ratio between 0 and 1 (a softened material) only shrinks the overlap:
      the corrected distance lies between the true distance and `radsum`, so
      a touching pair stays touching. */
  lemma CorrectionShrinksOverlap(r: real, radsum: real, ratio: real)
    requires r <= radsum && 0.0 <= ratio <= 1.0
    ensures r <= CorrectedDistance(r, radsum, ratio) <= radsum
  {
    var d := radsum - r;
    MulNonneg(d, ratio);
    MulNonneg(d, 1.0 - ratio);
    assert d * ratio + d * (1.0 - ratio) == d;
  }

  lemma MulNonneg(a: real, b: real)
    requires a >= 0.0 && b >= 0.0
    ensures a * b >= 0.0
  {
  }

  /** Overlap model.  If the (corrected) distance is below the larger radius
      the area of the smaller sphere's cross-section is used; otherwise the
      area of the circle in which the two sphere surfaces intersect.  Every
      touching pair has a positive area, and a pair that just touches has
      none. */
  function OverlapArea(r: real, radi: real, radj: real): (a: real)
    requires radi > 0.0 && radj > 0.0
    ensures r < radi + radj ==> a > 0.0
    ensures r == radi + radj ==> a == 0.0
  {
    if r < Max(radi, radj) then
      var c := Min(radi, radj);
      var cp := c * Pi;
      MulPos(c, Pi);
      MulPos(c, cp);
      c * cp
    else LensArea(r, radi, radj)
  }

  /** The area of the circle in which two sphere surfaces at distance `r`
      intersect: `-pi/4 * (r-ri-rj)(r+ri-rj)(r-ri+rj)(r+ri+rj) / r^2`.  It
      is positive while neither centre lies inside the other sphere and the
      spheres still touch, and it closes to 0 when they just touch. */
  function LensArea(r: real, radi: real, radj: real): (a: real)
    requires r != 0.0
    ensures r == radi + radj ==> a == 0.0
    ensures radi > 0.0 && radj > 0.0 && Max(radi, radj) <= r < radi + radj ==> a > 0.0
  {
    ClosedForm(r - radi - radj, r + radi - radj, r - radi + radj, r + radi + radj, r)
  }

  function ClosedForm(a: real, b: real, c: real, d: real, r: real): (v: real)
    requires r != 0.0
    ensures a == 0.0 ==> v == 0.0
    ensures a < 0.0 && b > 0.0 && c > 0.0 && d > 0.0 ==> v > 0.0
  {
    FactorSigns(a, b, c, d, r);
    - Pi / 4.0 * (a * b * c * d) / (r * r)
  }

  /** One negative factor and three positive ones make the closed form
      positive; a zero factor makes it 0. */
  lemma FactorSigns(a: real, b: real, c: real, d: real, r: real)
    requires r != 0.0
    ensures a == 0.0 ==> - Pi / 4.0 * (a * b * c * d) / (r * r) == 0.0
    ensures a < 0.0 && b > 0.0 && c > 0.0 && d > 0.0 ==> - Pi / 4.0 * (a * b * c * d) / (r * r) > 0.0
  {
    if a < 0.0 && b > 0.0 && c > 0.0 && d > 0.0 {
      MulPos(b, c);
      MulPos(b * c, d);
      MulNegPos(a, b * c * d);
      assert a * b * c * d == a * (b * c * d);
      if r > 0.0 { MulPos(r, r); } else { MulNegNeg(r, r); }
      var k := - Pi / 4.0;
      var x := a * b * c * d;
      MulNegNeg(k, x);
      DivPos(k * x, r * r);
    } else if a == 0.0 {
      assert a * b * c * d == 0.0;
      ZeroNumerator(- Pi / 4.0, a * b * c * d, r);
    }
  }

  /** The area of the selected model.  `correction` carries the type pair's
      ratio when area correction is on.  A touching pair has a positive area
      in every mode, given a positive configured constant (which the parser
      guarantees) and a positive ratio. */
  function ContactArea(mode: AreaMode, r: real, radi: real, radj: real, fixedArea: real,
                       correction: Option<real>): (a: real)
    requires radi > 0.0 && radj > 0.0
    ensures (&& r < radi + radj
             && (mode == Constant ==> fixedArea > 0.0)
             && (correction.Some? ==> correction.value > 0.0)) ==> a > 0.0
  {
    match mode
    case Overlap =>
      var rc := if correction.Some? then
                  (if r < radi + radj && correction.value > 0.0 then
                     CorrectionKeepsContact(r, radi + radj, correction.value);
                     CorrectedDistance(r, radi + radj, correction.value)
                   else CorrectedDistance(r, radi + radj, correction.value))
                else r;
      OverlapArea(rc, radi, radj)
    case Constant => fixedArea
    case Projection =>
      var rmax := Max(radi, radj);
      var prmax := Pi * rmax;
      MulPos(Pi, rmax);
      MulPos(prmax, rmax);
      prmax * rmax
  }

  /** Constant mode gives the configured area for every contact, and
      projection mode the larger cross-section, whatever the distance. */
  lemma AreaIgnoresGeometry(r1: real, r2: real, radi: real, radj: real, fixedArea: real,
                            c1: Option<real>, c2: Option<real>)
    requires radi > 0.0 && radj > 0.0
    ensures ContactArea(Constant, r1, radi, radj, fixedArea, c1) == fixedArea
    ensures ContactArea(Projection, r1, radi, radj, fixedArea, c1)
         == ContactArea(Projection, r2, radi, radj, fixedArea, c2)
         == Pi * Max(radi, radj) * Max(radi, radj)
  {
  }

  /** One centre inside the other sphere: the smaller cross-section. */
  lemma OverlapInside(r: real, radi: real, radj: real, ratio: Option<real>)
    requires radi > 0.0 && radj > 0.0
    requires (if ratio.Some? then CorrectedDistance(r, radi + radj, ratio.value) else r) < Max(radi, radj)
    ensures ContactArea(Overlap, r, radi, radj, 0.0, ratio) == Min(radi, radj) * (Min(radi, radj) * Pi)
  {
  }

  lemma MulPos(a: real, b: real)
    requires a > 0.0 && b > 0.0
    ensures a * b > 0.0
  {
  }

  lemma MulNegPos(a: real, b: real)
    requires a < 0.0 && b > 0.0
    ensures a * b < 0.0
  {
  }

  lemma MulNegNeg(a: real, b: real)
    requires a < 0.0 && b < 0.0
    ensures a * b > 0.0
  {
  }

  lemma ZeroNumerator(k: real, x: real, r: real)
    requires x == 0.0 && r != 0.0
    ensures k * x / (r * r) == 0.0
  {
    SquarePos(r);
    assert k * x == 0.0;
    assert 0.0 / (r * r) == 0.0;
  }

  lemma SquarePos(r: real)
    requires r != 0.0
    ensures r * r > 0.0
  {
    if r > 0.0 { MulPos(r, r); } else { MulNegNeg(r, r); }
  }

  lemma DivPos(a: real, b: real)
    requires a > 0.0 && b > 0.0
    ensures a / b > 0.0
  {
  }

  /** The overlap area does not depend on which particle is called i. */
  lemma OverlapAreaSymmetric(r: real, radi: real, radj: real)
    requires radi > 0.0 && radj > 0.0
    ensures OverlapArea(r, radi, radj) == OverlapArea(r, radj, radi)
  {
    if r >= Max(radi, radj) {
      ClosedFormSwap(r - radi - radj, r + radi - radj, r - radi + radj, r + radi + radj, r);
    }
  }

  lemma ClosedFormSwap(a: real, b: real, c: real, d: real, r: real)
    requires r != 0.0
    ensures ClosedForm(a, b, c, d, r) == ClosedForm(a, c, b, d, r)
  {
    assert a * b * c * d == a * c * b * d;
  }

  /** The overlap model is not continuous where its two branches meet: for
      two unit spheres, any distance below 1 gives the full cross-section `pi`,
      while the closed form at distance 1 gives `3*pi/4`. */
  lemma OverlapAreaJumpsAtLargerRadius(r: real)
    requires 0.0 <= r < 1.0
    ensures OverlapArea(r, 1.0, 1.0) == Pi
    ensures OverlapArea(1.0, 1.0, 1.0) == 3.0 * Pi / 4.0
  {
  }
}
