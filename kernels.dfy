/** The expression-only physics of one pair: the temperature-corrected
    conductivity, the conduction heat-transfer coefficient and flux
    (fix_heat_gran_radiation.cpp, lines 605-612) and the radiative view factor
    and flux (lines 480-492).  The square root is the host's `sqrt`, passed in
    uninterpreted. */
module FluxKernels {
  import ContactGeometry

  /** `STEFAN_BOLTZMANN` (5.67e-8). */
  const StefanBoltzmann: real := 0.0000000567

  /** The value of pi written out in the radiation kernel (not `M_PI`). */
  const RadiationPi: real := 3.1415926

  /** Linear temperature correction of a type's base conductivity: the base
      value holds at 273.15 K, and the conductivity rises above it and falls
      below it. */
  function CorrectedConductivity(base: real, temp: real): (k: real)
    ensures temp == 273.15 ==> k == base
    ensures k > base <==> temp > 273.15
    ensures k < base <==> temp < 273.15
  {
    base + 0.000425 * (temp - 273.15)
  }

  /** `hc`: zero when either conductivity is below the threshold `small`
      (`SMALL_FIX_HEAT_GRAN`), otherwise the harmonic-mean style combination
      scaled by the square root of the contact area.  Two conducting
      particles with a positive root of the area have a positive
      coefficient. */
  function HeatTransferCoeff(tcoi: real, tcoj: real, area: real, sqrt: real -> real, small: real): (hc: real)
    requires small > 0.0
    ensures tcoi < small || tcoj < small ==> hc == 0.0
    ensures tcoi >= small && tcoj >= small && sqrt(area) > 0.0 ==> hc > 0.0
  {
    if tcoi < small || tcoj < small then 0.0
    else
      CoeffPositive(tcoi, tcoj, sqrt(area));
      4.0 * tcoi * tcoj / (tcoi + tcoj) * sqrt(area)
  }

  lemma CoeffPositive(tcoi: real, tcoj: real, s: real)
    requires tcoi > 0.0 && tcoj > 0.0
    ensures s > 0.0 ==> 4.0 * tcoi * tcoj / (tcoi + tcoj) * s > 0.0
  {
    if s > 0.0 {
      ContactGeometry.MulPos(tcoi, tcoj);
      assert 4.0 * tcoi * tcoj > 0.0;
      ContactGeometry.DivPos(4.0 * tcoi * tcoj, tcoi + tcoj);
      ContactGeometry.MulPos(4.0 * tcoi * tcoj / (tcoi + tcoj), s);
    }
  }

  /** `flux = (Temp[j]-Temp[i])*hc`: heat flowing into particle i.  With a
      positive coefficient heat flows into i exactly when j is hotter, out of
      i exactly when j is colder; equal temperatures or no conductance
      exchange nothing. */
  function ConductionFlux(tempi: real, tempj: real, hc: real): (flux: real)
    ensures hc > 0.0 ==> (flux > 0.0 <==> tempj > tempi) && (flux < 0.0 <==> tempj < tempi)
    ensures hc == 0.0 || tempi == tempj ==> flux == 0.0
  {
    FluxSign(tempi, tempj, hc);
    (tempj - tempi) * hc
  }

  lemma FluxSign(tempi: real, tempj: real, hc: real)
    ensures hc > 0.0 && tempj > tempi ==> (tempj - tempi) * hc > 0.0
    ensures hc > 0.0 && tempj < tempi ==> (tempj - tempi) * hc < 0.0
    ensures hc == 0.0 || tempi == tempj ==> (tempj - tempi) * hc == 0.0
  {
    if hc > 0.0 && tempj > tempi {
      ContactGeometry.MulPos(tempj - tempi, hc);
    } else if hc > 0.0 && tempj < tempi {
      ContactGeometry.MulNegPos(tempj - tempi, hc);
    }
  }

  /** A pair in which either particle conducts too little exchanges no heat by
      conduction. */
  lemma NoConductanceNoFlux(tempi: real, tempj: real, tcoi: real, tcoj: real, area: real,
                            sqrt: real -> real, small: real)
    requires small > 0.0
    requires tcoi < small || tcoj < small
    ensures HeatTransferCoeff(tcoi, tcoj, area, sqrt, small) == 0.0
    ensures ConductionFlux(tempi, tempj, HeatTransferCoeff(tcoi, tcoj, area, sqrt, small)) == 0.0
  {
  }

  /** Exchanging the two particles negates the conduction flux. */
  lemma ConductionAntisymmetric(tempi: real, tempj: real, tcoi: real, tcoj: real, area: real,
                                sqrt: real -> real, small: real)
    requires small > 0.0
    ensures ConductionFlux(tempi, tempj, HeatTransferCoeff(tcoi, tcoj, area, sqrt, small))
         == - ConductionFlux(tempj, tempi, HeatTransferCoeff(tcoj, tcoi, area, sqrt, small))
  {
    if !(tcoi < small || tcoj < small) {
      assert tcoi * tcoj == tcoj * tcoi;
      assert tcoi + tcoj == tcoj + tcoi;
      assert HeatTransferCoeff(tcoi, tcoj, area, sqrt, small) == HeatTransferCoeff(tcoj, tcoi, area, sqrt, small);
    }
  }

  /** With a positive square root of the contact area, conduction carries heat
      from the hotter to the colder particle. */
  lemma ConductionFlowsDownhill(tempi: real, tempj: real, tcoi: real, tcoj: real, area: real,
                                sqrt: real -> real, small: real)
    requires small > 0.0 && tcoi >= small && tcoj >= small && sqrt(area) > 0.0
    requires tempi > tempj
    ensures ConductionFlux(tempi, tempj, HeatTransferCoeff(tcoi, tcoj, area, sqrt, small)) < 0.0
  {
    var s := sqrt(area);
    assert tcoi * tcoj > 0.0;
    assert 4.0 * tcoi * tcoj > 0.0;
    assert 4.0 * tcoi * tcoj / (tcoi + tcoj) > 0.0;
    assert 4.0 * tcoi * tcoj / (tcoi + tcoj) * s > 0.0;
  }

  /** The view-factor approximation for a normalised distance `disless`.
      The fit is positive exactly while `0.000052 * disless^2 < 0.064`, i.e.
      up to a normalised distance of about 35. */
  function ViewFactor(disless: real): (vf: real)
    requires disless != 0.0
    ensures vf > 0.0 <==> 0.000052 * (disless * disless) < 0.064
  {
    ViewFactorSign(disless * disless);
    -0.000052 + 0.064 / (disless * disless)
  }

  lemma ViewFactorSign(x: real)
    requires x > 0.0
    ensures -0.000052 + 0.064 / x > 0.0 <==> 0.000052 * x < 0.064
  {
    var q := 0.064 / x;
    assert q * x == 0.064;
    if q > 0.000052 {
      ContactGeometry.MulPos(q - 0.000052, x);
    } else {
      ContactGeometry.MulNonneg(0.000052 - q, x);
    }
  }

  /** Radiative flux into particle i from particle j at centre distance
      `dist`: the distance is normalised by twice the radius of j only, and
      the emitting area is that of sphere j.  Where the view factor is
      positive, heat radiates from the hotter particle to the colder one
      (temperatures are absolute, so not negative); equal temperatures
      exchange nothing. */
  function RadiationFlux(tempi: real, tempj: real, dist: real, radj: real): (q: real)
    requires dist != 0.0 && radj != 0.0
    ensures tempi == tempj ==> q == 0.0
    ensures 0.0 <= tempi < tempj && ViewFactor(dist / (2.0 * radj)) > 0.0 ==> q > 0.0
    ensures 0.0 <= tempj < tempi && ViewFactor(dist / (2.0 * radj)) > 0.0 ==> q < 0.0
  {
    var disless := dist / (2.0 * radj);
    var tempi4 := tempi * tempi * tempi * tempi;
    var tempj4 := tempj * tempj * tempj * tempj;
    var aSphere := 4.0 * RadiationPi * radj * radj;
    SphereAreaPositive(radj);
    RadiationSign(StefanBoltzmann * ViewFactor(disless), tempi, tempj, aSphere);
    StefanBoltzmann * ViewFactor(disless) * (tempj4 - tempi4) * aSphere
  }

  /** The sign of `c * (tempj^4 - tempi^4) * a` for a positive coefficient
      `c` and a positive area `a`. */
  lemma RadiationSign(c: real, tempi: real, tempj: real, a: real)
    requires a > 0.0
    ensures tempi == tempj
            ==> c * (tempj * tempj * tempj * tempj - tempi * tempi * tempi * tempi) * a == 0.0
    ensures c > 0.0 && 0.0 <= tempi < tempj
            ==> c * (tempj * tempj * tempj * tempj - tempi * tempi * tempi * tempi) * a > 0.0
    ensures c > 0.0 && 0.0 <= tempj < tempi
            ==> c * (tempj * tempj * tempj * tempj - tempi * tempi * tempi * tempi) * a < 0.0
  {
    if c > 0.0 && 0.0 <= tempi < tempj {
      Pow4Less(tempi, tempj);
      Pos3(c, tempj * tempj * tempj * tempj - tempi * tempi * tempi * tempi, a);
    } else if c > 0.0 && 0.0 <= tempj < tempi {
      Pow4Less(tempj, tempi);
      Neg3(c, tempj * tempj * tempj * tempj - tempi * tempi * tempi * tempi, a);
    }
  }

  /** The surface of sphere j is positive. */
  lemma SphereAreaPositive(radj: real)
    requires radj != 0.0
    ensures 4.0 * RadiationPi * radj * radj > 0.0
  {
    if radj > 0.0 {
      ContactGeometry.MulPos(4.0 * RadiationPi, radj);
      ContactGeometry.MulPos(4.0 * RadiationPi * radj, radj);
    } else {
      ContactGeometry.MulNegPos(radj, 4.0 * RadiationPi);
      assert radj * (4.0 * RadiationPi) == 4.0 * RadiationPi * radj;
      ContactGeometry.MulNegNeg(4.0 * RadiationPi * radj, radj);
    }
  }

  lemma Pos3(x: real, y: real, z: real)
    requires x > 0.0
    requires y > 0.0
    requires z > 0.0
    ensures x * y * z > 0.0
  {
    ContactGeometry.MulPos(x, y);
    ContactGeometry.MulPos(x * y, z);
  }

  lemma Neg3(x: real, y: real, z: real)
    requires x > 0.0 && y < 0.0 && z > 0.0
    ensures x * y * z < 0.0
  {
    ContactGeometry.MulNegPos(y, x);
    assert x * y == y * x;
    ContactGeometry.MulNegPos(x * y, z);
  }

  /** The fourth power is increasing on the non-negative reals. */
  lemma Pow4Less(a: real, b: real)
    requires 0.0 <= a < b
    ensures a * a * a * a < b * b * b * b
  {
    ContactGeometry.MulNonneg(a, b - a);
    ContactGeometry.MulPos(b, b - a);
    assert a * a < b * b;
    ContactGeometry.MulNonneg(a * a, b * b - a * a);
    ContactGeometry.MulPos(b * b, b * b - a * a);
    assert (a * a) * (a * a) < (b * b) * (b * b);
    assert a * a * a * a == (a * a) * (a * a);
    assert b * b * b * b == (b * b) * (b * b);
  }

  /** Equal temperatures exchange no radiation. */
  lemma RadiationZeroAtEqualTemperatures(temp: real, dist: real, radj: real)
    requires dist != 0.0 && radj != 0.0
    ensures RadiationFlux(temp, temp, dist, radj) == 0.0
  {
  }

  /** Exchanging the temperatures (same geometry) negates the radiative flux. */
  lemma RadiationAntisymmetricInTemperatures(tempi: real, tempj: real, dist: real, radj: real)
    requires dist != 0.0 && radj != 0.0
    ensures RadiationFlux(tempi, tempj, dist, radj) == - RadiationFlux(tempj, tempi, dist, radj)
  {
  }

  /** Because only particle j's radius enters the formula, the flux computed
      for (i, j) is not the negation of the one for (j, i) when the radii
      differ: here radius 2 for i, 1 for j, temperatures 1 and 2, distance 2. */
  lemma RadiationDependsOnPairOrder()
    ensures RadiationFlux(1.0, 2.0, 2.0, 1.0) != - RadiationFlux(2.0, 1.0, 2.0, 2.0)
  {
    assert RadiationFlux(1.0, 2.0, 2.0, 1.0)
        == StefanBoltzmann * ViewFactor(1.0) * 15.0 * (4.0 * RadiationPi);
    assert RadiationFlux(2.0, 1.0, 2.0, 2.0)
        == StefanBoltzmann * ViewFactor(0.5) * (-15.0) * (16.0 * RadiationPi);
  }
}
