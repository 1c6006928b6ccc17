/** What one pass of the fix does to the per-particle accumulators
    `heatFlux`, `directionalHeatFlux`, `conduction_contact_area_` and
    `n_conduction_contacts_` (fix_heat_gran_radiation.cpp, lines 447-451,
    500-523, 617-645 and 659-664), stated on sequences.  The class in
    fix.dfy keeps these accumulators in arrays and is proved against the
    functions here. */
module Accumulation {
  import opened Wrappers
  import opened ContactGeometry

  /** One processed pair: particle i gains `flux`, particle j (when `both`,
      i.e. `newton_pair || j < nlocal`) loses it, and each receives half of
      the directional flux.  `area` is the conduction contact area; the
      radiation loop records none. */
  datatype Contribution = Contribution(i: nat, j: nat, flux: real, dirFlux: Vec3, area: Option<real>, both: bool)

  /** `cpl->add_heat(i, j, flux)`: what a forwarding pass hands to the
      registered pair consumer. */
  datatype HeatRecord = HeatRecord(i: nat, j: nat, flux: real)

  /** The four per-particle accumulators. */
  datatype Accum = Accum(heat: seq<real>, dir: seq<Vec3>, area: seq<real>, count: seq<real>)

  predicate WellSized(s: Accum) {
    |s.dir| == |s.heat| && |s.area| == |s.heat| && |s.count| == |s.heat|
  }

  /** Every pair names particles that have accumulators. */
  predicate InRange(cs: seq<Contribution>, n: nat) {
    forall k :: 0 <= k < |cs| ==> cs[k].i < n && cs[k].j < n
  }

  /** One side of a pair: heat `dheat`, directional `half`, and, when contact
      data is stored and the pair has a contact area, that area and one
      contact.  The pairs of a pass only name particles that have
      accumulators (see `RadEvent` and `CondEvent`); for any other index the
      accumulators are left as they are, so that the pass functions need no
      range conditions. */
  function Side(s: Accum, k: nat, dheat: real, half: Vec3, area: Option<real>, store: bool): (t: Accum)
    requires WellSized(s)
    ensures WellSized(t) && |t.heat| == |s.heat|
    ensures k >= |s.heat| ==> t == s
    ensures !(store && area.Some?) ==> t.area == s.area && t.count == s.count
  {
    var stored := store && area.Some?;
    if k >= |s.heat| then s else
    Accum(s.heat[k := s.heat[k] + dheat],
          s.dir[k := Add(s.dir[k], half)],
          if stored then s.area[k := s.area[k] + area.value] else s.area,
          if stored then s.count[k := s.count[k] + 1.0] else s.count)
  }

  /** The body of both pair loops when not forwarding: first particle i, then
      (when `both`) particle j. */
  function Apply(s: Accum, c: Contribution, store: bool): (t: Accum)
    requires WellSized(s)
    ensures WellSized(t) && |t.heat| == |s.heat|
  {
    var half := Scale(0.5, c.dirFlux);
    var t := Side(s, c.i, c.flux, half, c.area, store);
    if c.both then Side(t, c.j, - c.flux, half, c.area, store) else t
  }

  /** The pairs applied in order. */
  function ApplyAll(s: Accum, cs: seq<Contribution>, store: bool): (t: Accum)
    requires WellSized(s)
    ensures WellSized(t) && |t.heat| == |s.heat|
  {
    if cs == [] then s
    else
      var t := ApplyAll(s, cs[..|cs| - 1], store);
      Apply(t, cs[|cs| - 1], store)
  }

  /** What is handed to the consumer when forwarding. */
  function Records(cs: seq<Contribution>): (rs: seq<HeatRecord>)
    ensures |rs| == |cs|
  {
    if cs == [] then []
    else Records(cs[..|cs| - 1]) + [HeatRecord(cs[|cs| - 1].i, cs[|cs| - 1].j, cs[|cs| - 1].flux)]
  }

  /** Record k is pair k's particles and flux. */
  lemma {:induction false} RecordsContents(cs: seq<Contribution>)
    ensures forall k :: 0 <= k < |cs| ==> Records(cs)[k] == HeatRecord(cs[k].i, cs[k].j, cs[k].flux)
  {
    if cs != [] {
      var init := cs[..|cs| - 1];
      RecordsContents(init);
      assert forall k :: 0 <= k < |init| ==> cs[k] == init[k];
    }
  }

  function Zeros(n: nat): (z: seq<real>)
    ensures |z| == n && forall k :: 0 <= k < n ==> z[k] == 0.0
  {
    seq(n, _ => 0.0)
  }

  /** `set_all(0.)` on the contact-area and contact-count properties. */
  function Reset(s: Accum): (t: Accum)
    requires WellSized(s)
    ensures WellSized(t) && |t.heat| == |s.heat|
    ensures t.heat == s.heat && t.dir == s.dir
    ensures forall k :: 0 <= k < |t.area| ==> t.area[k] == 0.0 && t.count[k] == 0.0
  {
    s.(area := Zeros(|s.heat|), count := Zeros(|s.heat|))
  }

  /** The mean contact area: each local particle with more than half a
      contact has its summed area divided by its contact count. */
  function Finalise(s: Accum, nlocal: nat): (t: Accum)
    requires WellSized(s)
    ensures WellSized(t)
  {
    s.(area := seq(|s.area|, k requires 0 <= k < |s.area| =>
                   if k < nlocal && s.count[k] > 0.5 then s.area[k] / s.count[k] else s.area[k]))
  }

  /** A whole pass: reset the statistics when they are stored, then either
      apply every pair or (forwarding) leave the accumulators to the
      consumer, and finally average the areas when not forwarding. */
  function PassResult(s: Accum, cs: seq<Contribution>, forward: bool, store: bool, nlocal: nat): (t: Accum)
    requires WellSized(s)
    ensures WellSized(t) && |t.heat| == |s.heat|
  {
    var s1 := if store then Reset(s) else s;
    var s2 := if forward then s1 else ApplyAll(s1, cs, store);
    if !forward && store then Finalise(s2, nlocal) else s2
  }

  // ---------------------------------------------------------------------
  // Sums and counts used to state what a pass computes.

  function Sum(xs: seq<real>): real {
    if xs == [] then 0.0 else xs[0] + Sum(xs[1..])
  }

  /** The flux of the pairs whose j side is not updated (a ghost particle
      without Newton's third law): the only heat a pass does not balance. */
  function OneSided(cs: seq<Contribution>): real {
    if cs == [] then 0.0
    else OneSided(cs[..|cs| - 1]) + (if cs[|cs| - 1].both then 0.0 else cs[|cs| - 1].flux)
  }

  predicate AllBoth(cs: seq<Contribution>) {
    forall k :: 0 <= k < |cs| ==> cs[k].both
  }

  /** Number of pair sides with a contact area that land on particle k. */
  function Touches(cs: seq<Contribution>, k: nat): nat {
    if cs == [] then 0
    else
      var c := cs[|cs| - 1];
      Touches(cs[..|cs| - 1], k)
        + (if c.area.Some? && c.i == k then 1 else 0)
        + (if c.area.Some? && c.both && c.j == k then 1 else 0)
  }

  /** Sum of the contact areas of those sides. */
  function AreaAt(cs: seq<Contribution>, k: nat): real {
    if cs == [] then 0.0
    else
      var c := cs[|cs| - 1];
      AreaAt(cs[..|cs| - 1], k)
        + (if c.area.Some? && c.i == k then c.area.value else 0.0)
        + (if c.area.Some? && c.both && c.j == k then c.area.value else 0.0)
  }

  lemma {:induction false} SumUpdate(xs: seq<real>, k: nat, v: real)
    requires k < |xs|
    ensures Sum(xs[k := v]) == Sum(xs) - xs[k] + v
    decreases k
  {
    if k > 0 {
      assert xs[k := v][1..] == xs[1..][k - 1 := v];
      SumUpdate(xs[1..], k - 1, v);
    } else {
      assert xs[k := v][1..] == xs[1..];
    }
  }

  // ---------------------------------------------------------------------
  // Properties of one pair.

  /** A pair adds `flux` to i and, when both sides are updated, removes it
      from j: the total heat flux changes only by the flux of a one-sided
      pair. */
  lemma ApplyHeatSum(s: Accum, c: Contribution, store: bool)
    requires WellSized(s) && c.i < |s.heat| && c.j < |s.heat|
    ensures Sum(Apply(s, c, store).heat) == Sum(s.heat) + (if c.both then 0.0 else c.flux)
  {
    var half := Scale(0.5, c.dirFlux);
    var t := Side(s, c.i, c.flux, half, c.area, store);
    SumUpdate(s.heat, c.i, s.heat[c.i] + c.flux);
    if c.both {
      SumUpdate(t.heat, c.j, t.heat[c.j] - c.flux);
    }
  }

  /** Both particles of a two-sided pair receive the identical half of the
      directional flux, the two halves make up the whole, and no other
      particle's accumulators change. */
  lemma ApplyDirectionalSplit(s: Accum, c: Contribution, store: bool)
    requires WellSized(s) && c.i < |s.heat| && c.j < |s.heat|
    requires c.both && c.i != c.j
    ensures var t := Apply(s, c, store);
      && t.dir[c.i] == Add(s.dir[c.i], Scale(0.5, c.dirFlux))
      && t.dir[c.j] == Add(s.dir[c.j], Scale(0.5, c.dirFlux))
      && Add(Scale(0.5, c.dirFlux), Scale(0.5, c.dirFlux)) == c.dirFlux
      && t.heat[c.i] == s.heat[c.i] + c.flux
      && t.heat[c.j] == s.heat[c.j] - c.flux
      && forall k :: 0 <= k < |s.heat| && k != c.i && k != c.j ==>
           t.heat[k] == s.heat[k] && t.dir[k] == s.dir[k] && t.area[k] == s.area[k] && t.count[k] == s.count[k]
  {
  }

  /** A one-sided pair (j a ghost without `newton_pair`) updates particle i
      only: i gains `flux` and the half vector, and, when contact data is
      stored, the area and one contact; j and every other particle keep
      their accumulators. */
  lemma ApplyOneSided(s: Accum, c: Contribution, store: bool)
    requires WellSized(s) && c.i < |s.heat| && c.j < |s.heat|
    requires !c.both
    ensures var t := Apply(s, c, store);
      var stored := store && c.area.Some?;
      && t.heat[c.i] == s.heat[c.i] + c.flux
      && t.dir[c.i] == Add(s.dir[c.i], Scale(0.5, c.dirFlux))
      && t.area[c.i] == (if stored then s.area[c.i] + c.area.value else s.area[c.i])
      && t.count[c.i] == (if stored then s.count[c.i] + 1.0 else s.count[c.i])
      && forall k :: 0 <= k < |s.heat| && k != c.i ==>
           t.heat[k] == s.heat[k] && t.dir[k] == s.dir[k] && t.area[k] == s.area[k] && t.count[k] == s.count[k]
  {
  }

  // ---------------------------------------------------------------------
  // Properties of a sequence of pairs.

  /** The heat balance of a pass: the sum of `heatFlux` changes only by the
      flux of one-sided pairs. */
  lemma {:induction false} ApplyAllHeatSum(s: Accum, cs: seq<Contribution>, store: bool)
    requires WellSized(s) && InRange(cs, |s.heat|)
    ensures Sum(ApplyAll(s, cs, store).heat) == Sum(s.heat) + OneSided(cs)
  {
    if cs != [] {
      ApplyAllHeatSum(s, cs[..|cs| - 1], store);
      ApplyHeatSum(ApplyAll(s, cs[..|cs| - 1], store), cs[|cs| - 1], store);
    }
  }

  lemma {:induction false} OneSidedOfAllBoth(cs: seq<Contribution>)
    requires AllBoth(cs)
    ensures OneSided(cs) == 0.0
  {
    if cs != [] {
      OneSidedOfAllBoth(cs[..|cs| - 1]);
    }
  }

  /** When every pair updates both sides, the total heat flux is conserved. */
  lemma HeatConserved(s: Accum, cs: seq<Contribution>, store: bool)
    requires WellSized(s) && InRange(cs, |s.heat|) && AllBoth(cs)
    ensures Sum(ApplyAll(s, cs, store).heat) == Sum(s.heat)
  {
    ApplyAllHeatSum(s, cs, store);
    OneSidedOfAllBoth(cs);
  }

  /** Pairs without a contact area (radiation) or a pass that does not store
      contact data leave the area and count accumulators alone. */
  lemma {:induction false} ApplyAllKeepsStats(s: Accum, cs: seq<Contribution>, store: bool)
    requires WellSized(s)
    requires !store || forall k :: 0 <= k < |cs| ==> cs[k].area.None?
    ensures ApplyAll(s, cs, store).area == s.area
    ensures ApplyAll(s, cs, store).count == s.count
  {
    if cs != [] {
      ApplyAllKeepsStats(s, cs[..|cs| - 1], store);
    }
  }

  /** With contact data stored, each particle's count grows by the number of
      contact sides that land on it and its area by their areas. */
  lemma {:induction false} ApplyAllStats(s: Accum, cs: seq<Contribution>)
    requires WellSized(s)
    ensures var t := ApplyAll(s, cs, true);
      forall k :: 0 <= k < |s.heat| ==>
        t.count[k] == s.count[k] + Touches(cs, k) as real && t.area[k] == s.area[k] + AreaAt(cs, k)
  {
    if cs != [] {
      ApplyAllStats(s, cs[..|cs| - 1]);
    }
  }

  /** After a stored, non-forwarding pass each local particle's area is the
      mean area of its contacts, and 0 when it has none. */
  lemma MeanContactArea(s: Accum, cs: seq<Contribution>, nlocal: nat)
    requires WellSized(s)
    ensures var t := PassResult(s, cs, false, true, nlocal);
      forall k :: 0 <= k < nlocal && k < |s.heat| ==>
        && t.count[k] == Touches(cs, k) as real
        && t.area[k] == (if Touches(cs, k) > 0 then AreaAt(cs, k) / Touches(cs, k) as real else 0.0)
  {
    var r := Reset(s);
    ApplyAllStats(r, cs);
    var a := ApplyAll(r, cs, true);
    assert PassResult(s, cs, false, true, nlocal) == Finalise(a, nlocal);
    forall k | 0 <= k < nlocal && k < |s.heat|
      ensures Finalise(a, nlocal).count[k] == Touches(cs, k) as real
      ensures Finalise(a, nlocal).area[k]
              == (if Touches(cs, k) > 0 then AreaAt(cs, k) / Touches(cs, k) as real else 0.0)
    {
      assert r.count[k] == 0.0 && r.area[k] == 0.0;
      assert a.count[k] == Touches(cs, k) as real && a.area[k] == AreaAt(cs, k);
      if Touches(cs, k) == 0 {
        assert AreaAt(cs, k) == 0.0 by { ZeroTouchesZeroArea(cs, k); }
      }
    }
  }

  lemma {:induction false} ZeroTouchesZeroArea(cs: seq<Contribution>, k: nat)
    requires Touches(cs, k) == 0
    ensures AreaAt(cs, k) == 0.0
  {
    if cs != [] {
      ZeroTouchesZeroArea(cs[..|cs| - 1], k);
    }
  }

  /** A forwarding pass leaves the heat accumulators alone and only resets
      the statistics (when they are stored). */
  lemma ForwardingKeepsAccumulators(s: Accum, cs: seq<Contribution>, store: bool, nlocal: nat)
    requires WellSized(s)
    ensures var t := PassResult(s, cs, true, store, nlocal);
      && t.heat == s.heat && t.dir == s.dir
      && (store ==> forall k :: 0 <= k < |s.heat| ==> t.area[k] == 0.0 && t.count[k] == 0.0)
      && (!store ==> t.area == s.area && t.count == s.count)
  {
  }

  /** Finalising does not touch remote particles nor those with no contact. */
  lemma FinaliseOnlyAverages(s: Accum, nlocal: nat)
    requires WellSized(s)
    ensures var t := Finalise(s, nlocal);
      && t.heat == s.heat && t.dir == s.dir && t.count == s.count
      && forall k :: 0 <= k < |s.area| ==>
           t.area[k] == (if k < nlocal && s.count[k] > 0.5 then s.area[k] / s.count[k] else s.area[k])
  {
  }

  // ---------------------------------------------------------------------
  // Splitting a pass into its radiation and conduction loops.

  lemma {:induction false} ApplyAllAppend(s: Accum, a: seq<Contribution>, b: seq<Contribution>, store: bool)
    requires WellSized(s)
    ensures ApplyAll(s, a + b, store) == ApplyAll(ApplyAll(s, a, store), b, store)
    decreases |b|
  {
    if b != [] {
      assert (a + b)[..|a + b| - 1] == a + b[..|b| - 1];
      ApplyAllAppend(s, a, b[..|b| - 1], store);
    } else {
      assert a + b == a;
    }
  }

  lemma {:induction false} RecordsAppend(a: seq<Contribution>, b: seq<Contribution>)
    ensures Records(a + b) == Records(a) + Records(b)
    decreases |b|
  {
    if b != [] {
      assert (a + b)[..|a + b| - 1] == a + b[..|b| - 1];
      RecordsAppend(a, b[..|b| - 1]);
    } else {
      assert a + b == a;
    }
  }

  /** A consumer that already holds `h0 + done` and receives `more` holds
      `h0` followed by everything handed over in this pass. */
  lemma RecordsAssoc(h0: seq<HeatRecord>, done: seq<HeatRecord>, more: seq<HeatRecord>)
    ensures (h0 + done) + more == h0 + (done + more)
  {
  }

  /** Appending one pair: the step the loops take. */
  lemma ApplyAllSnoc(s: Accum, cs: seq<Contribution>, c: Contribution, store: bool)
    requires WellSized(s)
    ensures ApplyAll(s, cs + [c], store) == Apply(ApplyAll(s, cs, store), c, store)
    ensures Records(cs + [c]) == Records(cs) + [HeatRecord(c.i, c.j, c.flux)]
  {
    assert (cs + [c])[..|cs|] == cs;
  }
}
