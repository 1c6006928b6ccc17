/** The fix object itself: its per-particle accumulators (arrays the host
    owns), the registration of a pair/local compute that takes the pair
    fluxes instead (fix_heat_gran_radiation.cpp, lines 671-685), the
    evaluation pass `post_force_eval` (lines 408-665), its two entry points
    `post_force` and `cpl_evaluate` (lines 365-404), and the conductivity
    table built by `init` (lines 278-290). */
module FixHeatGranRad {
  import opened Wrappers
  import opened FixParams
  import opened ContactGeometry
  import opened Accumulation
  import opened PairEvents

  datatype FixError =
    | OnlyOneConsumer        // a second pair/local compute registers
    | IllegalUnregister      // unregistering a compute that is not the registered one
    | IllegalCaller          // `cpl_evaluate` from a compute that is not registered
    | NegativeConductivity   // a type's thermal conductivity is below 0
    | CorrectionNeedsGranular

  /** A pair/local compute as far as this fix sees it: it receives
      `add_heat(i, j, flux)` for every pair of a forwarding pass. */
  class PairLocalConsumer {
    var heats: seq<HeatRecord>

    constructor ()
      ensures heats == []
    {
      heats := [];
    }

    method AddHeat(i: nat, j: nat, flux: real)
      modifies this
      ensures heats == old(heats) + [HeatRecord(i, j, flux)]
    {
      heats := heats + [HeatRecord(i, j, flux)];
    }
  }

  /** `conductivity_[i-1] = compute_vector(i-1)` for every type, with the
      error on a negative value. */
  function ConductivityTable(values: seq<real>, maxType: nat): (r: Result<seq<real>, FixError>)
    requires maxType <= |values|
    ensures r.Success? <==> forall k :: 0 <= k < maxType ==> values[k] >= 0.0
    ensures r.Success? ==> |r.value| == maxType && forall k :: 0 <= k < maxType ==> r.value[k] == values[k]
    ensures r.Failure? ==> r.error == NegativeConductivity
  {
    if exists k :: 0 <= k < maxType && values[k] < 0.0 then Failure(NegativeConductivity)
    else Success(values[..maxType])
  }

  /** The double loop of `init` over type pairs; the inner loop stores the
      same entry `max_type` times and stops the run at the first negative
      conductivity. */
  method BuildConductivityTable(values: seq<real>, maxType: nat) returns (r: Result<seq<real>, FixError>)
    requires maxType <= |values|
    ensures r == ConductivityTable(values, maxType)
  {
    var table := new real[maxType];
    var i := 1;
    while i < maxType + 1
      invariant 1 <= i <= maxType + 1
      invariant forall k :: 0 <= k < i - 1 ==> table[k] == values[k] && values[k] >= 0.0
    {
      var j := 1;
      while j < maxType + 1
        invariant 1 <= j <= maxType + 1
        invariant forall k :: 0 <= k < i - 1 ==> table[k] == values[k] && values[k] >= 0.0
        invariant j > 1 ==> table[i - 1] == values[i - 1] && values[i - 1] >= 0.0
      {
        table[i - 1] := values[i - 1];
        if table[i - 1] < 0.0 {
          return Failure(NegativeConductivity);
        }
        j := j + 1;
      }
      i := i + 1;
    }
    assert table[..] == values[..maxType];
    r := Success(table[..]);
  }

  class Fix {
    /** `heatFlux`, `directionalHeatFlux`, `conduction_contact_area_` and
        `n_conduction_contacts_`: one entry per owned or ghost particle. */
    const heatFlux: array<real>
    const dirHeatFlux: array<Vec3>
    const contactArea: array<real>
    const nContacts: array<real>

    /** What the constructor parsed, and the base class's `history_flag`. */
    const cfg: Config
    const historyFlag: int

    /** The registered pair/local compute, if any (`cpl`). */
    var cpl: PairLocalConsumer?

    /** `conductivity_` and `deltan_ratio_`, set by `init`. */
    var materials: Materials

    predicate Valid() {
      && dirHeatFlux.Length == heatFlux.Length
      && contactArea.Length == heatFlux.Length
      && nContacts.Length == heatFlux.Length
      && heatFlux != contactArea && heatFlux != nContacts && contactArea != nContacts
    }

    /** The accumulators as values. */
    function State(): (s: Accum)
      reads heatFlux, dirHeatFlux, contactArea, nContacts
      ensures Valid() ==> WellSized(s) && |s.heat| == heatFlux.Length
    {
      Accum(heatFlux[..], dirHeatFlux[..], contactArea[..], nContacts[..])
    }

    constructor (cfg: Config, historyFlag: int, nmax: nat)
      ensures Valid() && this.cfg == cfg && this.historyFlag == historyFlag
      ensures State() == Accum(Zeros(nmax), seq(nmax, _ => Vec3(0.0, 0.0, 0.0)), Zeros(nmax), Zeros(nmax))
      ensures cpl == null && materials == Materials([], [])
    {
      this.cfg := cfg;
      this.historyFlag := historyFlag;
      heatFlux := new real[nmax](_ => 0.0);
      dirHeatFlux := new Vec3[nmax](_ => Vec3(0.0, 0.0, 0.0));
      contactArea := new real[nmax](_ => 0.0);
      nContacts := new real[nmax](_ => 0.0);
      cpl := null;
      materials := Materials([], []);
    }

    // -------------------------------------------------------------------
    // Registration of the pair/local compute.

    /** Only one compute may register. */
    method Register(ptr: PairLocalConsumer?) returns (r: Outcome<FixError>)
      modifies this
      ensures old(cpl) != null ==> r == Fail(OnlyOneConsumer) && cpl == old(cpl)
      ensures old(cpl) == null ==> r == Pass && cpl == ptr
      ensures materials == old(materials)
    {
      if cpl != null {
        return Fail(OnlyOneConsumer);
      }
      cpl := ptr;
      r := Pass;
    }

    /** Only the registered compute may unregister; afterwards none is. */
    method Unregister(ptr: PairLocalConsumer?) returns (r: Outcome<FixError>)
      modifies this
      ensures old(cpl) != ptr ==> r == Fail(IllegalUnregister) && cpl == old(cpl)
      ensures old(cpl) == ptr ==> r == Pass && cpl == null
      ensures materials == old(materials)
    {
      if cpl != ptr {
        return Fail(IllegalUnregister);
      }
      cpl := null;
      r := Pass;
    }

    // -------------------------------------------------------------------
    // init

    /** The conductivity table of `init` and, with area correction, the
        check that the pair style is granular and the stiffness ratios
        (whose computation is not part of this model). */
    method Init(values: seq<real>, maxType: nat, granularPair: bool, ratio: seq<seq<real>>)
      returns (r: Outcome<FixError>)
      requires maxType <= |values|
      modifies this
      ensures cpl == old(cpl)
      ensures ConductivityTable(values, maxType).Failure? ==> r == Fail(NegativeConductivity)
      ensures ConductivityTable(values, maxType).Success? && cfg.areaCorrection && !granularPair
              ==> r == Fail(CorrectionNeedsGranular)
      ensures r.Pass? <==> ConductivityTable(values, maxType).Success? && (cfg.areaCorrection ==> granularPair)
      ensures r.Pass? ==> materials.conductivity == values[..maxType]
                          && materials.deltanRatio == (if cfg.areaCorrection then ratio else old(materials.deltanRatio))
    {
      var table := BuildConductivityTable(values, maxType);
      if table.Failure? {
        return Fail(table.error);
      }
      materials := materials.(conductivity := table.value);
      if cfg.areaCorrection {
        if !granularPair {
          return Fail(CorrectionNeedsGranular);
        }
        materials := materials.(deltanRatio := ratio);
      }
      r := Pass;
    }

    // -------------------------------------------------------------------
    // The pieces of post_force_eval.

    /** One processed pair when not forwarding. */
    method Handle(c: Contribution)
      requires Valid() && c.i < heatFlux.Length && c.j < heatFlux.Length
      modifies heatFlux, dirHeatFlux, contactArea, nContacts
      ensures State() == Apply(old(State()), c, cfg.storeContactData)
    {
      ghost var s0 := State();
      var half := Scale(0.5, c.dirFlux);
      heatFlux[c.i] := heatFlux[c.i] + c.flux;
      dirHeatFlux[c.i] := Add(dirHeatFlux[c.i], half);
      if cfg.storeContactData && c.area.Some? {
        contactArea[c.i] := contactArea[c.i] + c.area.value;
        nContacts[c.i] := nContacts[c.i] + 1.0;
      }
      ghost var s1 := State();
      assert s1 == Side(s0, c.i, c.flux, half, c.area, cfg.storeContactData);
      if c.both {
        heatFlux[c.j] := heatFlux[c.j] - c.flux;
        dirHeatFlux[c.j] := Add(dirHeatFlux[c.j], half);
        if cfg.storeContactData && c.area.Some? {
          contactArea[c.j] := contactArea[c.j] + c.area.value;
          nContacts[c.j] := nContacts[c.j] + 1.0;
        }
        assert State() == Side(s1, c.j, - c.flux, half, c.area, cfg.storeContactData);
      }
    }

    /** `set_all(0.)` on the two statistics arrays. */
    method ResetStats()
      requires Valid()
      modifies contactArea, nContacts
      ensures State() == Reset(old(State()))
    {
      var k := 0;
      while k < contactArea.Length
        invariant 0 <= k <= contactArea.Length
        invariant forall q :: 0 <= q < k ==> contactArea[q] == 0.0 && nContacts[q] == 0.0
        invariant forall q :: k <= q < contactArea.Length ==>
                    contactArea[q] == old(contactArea[q]) && nContacts[q] == old(nContacts[q])
      {
        contactArea[k] := 0.0;
        nContacts[k] := 0.0;
        k := k + 1;
      }
      assert contactArea[..] == Zeros(heatFlux.Length);
      assert nContacts[..] == Zeros(heatFlux.Length);
    }

    /** The final loop: mean contact area of each owned particle. */
    method FinaliseStats(nlocal: nat)
      requires Valid() && nlocal <= heatFlux.Length
      modifies contactArea
      ensures State() == Finalise(old(State()), nlocal)
    {
      ghost var s0 := State();
      var i := 0;
      while i < nlocal
        invariant 0 <= i <= nlocal
        invariant forall q :: 0 <= q < i ==>
                    contactArea[q] == (if s0.count[q] > 0.5 then s0.area[q] / s0.count[q] else s0.area[q])
        invariant forall q :: i <= q < contactArea.Length ==> contactArea[q] == s0.area[q]
      {
        if nContacts[i] > 0.5 {
          contactArea[i] := contactArea[i] / nContacts[i];
        }
        i := i + 1;
      }
      assert contactArea[..] == Finalise(s0, nlocal).area;
    }

    // The two pair loops.  `cpl_flag` does not change during a pass, so
    // each loop is written twice: once accumulating into the arrays and once
    // handing every pair's flux to the registered compute.

    /** Row i of the radiation loop, accumulating: the pairs (i, j) for
        i < j < nlocal. */
    method RadiationRow(p: Particles, h: Host, i: nat)
      requires Valid() && ValidParticles(p) && Separated(p, h) && |p.x| == heatFlux.Length
      requires i < p.nlocal
      modifies heatFlux, dirHeatFlux, contactArea, nContacts
      ensures State() == ApplyAll(old(State()), RadRow(p, h, i, p.nlocal), cfg.storeContactData)
    {
      hide RadEvent, Apply, Side;
      ghost var s0 := State();
      var n := p.nlocal;
      var j := i + 1;
      while j < n
        invariant i + 1 <= j <= n
        invariant State() == ApplyAll(s0, RadRow(p, h, i, j), cfg.storeContactData)
      {
        RadRowApply(p, h, i, j, s0, cfg.storeContactData);
        ghost var before := State();
        var c := RadEvent(p, h, i, j);
        Handle(c);
        assert State() == Apply(before, c, cfg.storeContactData);
        j := j + 1;
      }
    }

    /** The radiation loop over every local pair i < j, accumulating. */
    method RadiationPass(p: Particles, h: Host)
      requires Valid() && ValidParticles(p) && Separated(p, h) && |p.x| == heatFlux.Length
      modifies heatFlux, dirHeatFlux, contactArea, nContacts
      ensures State() == ApplyAll(old(State()), RadiationEvents(p, h), cfg.storeContactData)
    {
      hide RadEvent, RadRow, Apply, Side;
      ghost var s0 := State();
      var n := p.nlocal;
      var i := 0;
      while i < n
        invariant 0 <= i <= n
        invariant State() == ApplyAll(s0, RadRows(p, h, i), cfg.storeContactData)
      {
        RadRowsApply(p, h, i, s0, cfg.storeContactData);
        ghost var before := State();
        RadiationRow(p, h, i);
        assert State() == ApplyAll(before, RadRow(p, h, i, p.nlocal), cfg.storeContactData);
        i := i + 1;
      }
    }

    /** Row i of the radiation loop, forwarding to `consumer`. */
    method ForwardRadiationRow(consumer: PairLocalConsumer, p: Particles, h: Host, i: nat)
      requires ValidParticles(p) && Separated(p, h) && i < p.nlocal
      modifies consumer
      ensures consumer.heats == old(consumer.heats) + Records(RadRow(p, h, i, p.nlocal))
    {
      hide RadEvent;
      ghost var h0 := consumer.heats;
      var n := p.nlocal;
      var j := i + 1;
      while j < n
        invariant i + 1 <= j <= n
        invariant consumer.heats == h0 + Records(RadRow(p, h, i, j))
      {
        RadRowRecords(p, h, i, j);
        var c := RadEvent(p, h, i, j);
        RecordsAssoc(h0, Records(RadRow(p, h, i, j)), [HeatRecord(i, j, c.flux)]);
        consumer.AddHeat(i, j, c.flux);
        j := j + 1;
      }
    }

    /** The radiation loop, forwarding every pair to `consumer`. */
    method ForwardRadiation(consumer: PairLocalConsumer, p: Particles, h: Host)
      requires ValidParticles(p) && Separated(p, h)
      modifies consumer
      ensures consumer.heats == old(consumer.heats) + Records(RadiationEvents(p, h))
    {
      hide RadEvent, RadRow;
      ghost var h0 := consumer.heats;
      var n := p.nlocal;
      var i := 0;
      while i < n
        invariant 0 <= i <= n
        invariant consumer.heats == h0 + Records(RadRows(p, h, i))
      {
        RadRowsRecords(p, h, i);
        ghost var done := Records(RadRows(p, h, i));
        ghost var row := Records(RadRow(p, h, i, p.nlocal));
        ForwardRadiationRow(consumer, p, h, i);
        RecordsAssoc(h0, done, row);
        i := i + 1;
      }
    }

    /** The neighbours of the particle at list position ii, accumulating. */
    method ConductionRow(p: Particles, nl: NeighborList, h: Host, m: Materials, hist: bool, mode: AreaMode, ii: nat)
      requires Valid() && ValidParticles(p) && ValidList(p, nl) && ValidMaterials(p, m, cfg) && ValidHost(h)
      requires |p.x| == heatFlux.Length && ii < |nl.ilist|
      modifies heatFlux, dirHeatFlux, contactArea, nContacts
      ensures State() == ApplyAll(old(State()), CondRow(p, nl, h, m, cfg, hist, mode, ii, |nl.firstneigh[nl.ilist[ii]]|),
                                  cfg.storeContactData)
    {
      hide CondEvent, Apply, Side;
      ghost var s0 := State();
      var i := nl.ilist[ii];
      var jnum := |nl.firstneigh[i]|;
      var jj := 0;
      while jj < jnum
        invariant 0 <= jj <= jnum
        invariant State() == ApplyAll(s0, CondRow(p, nl, h, m, cfg, hist, mode, ii, jj), cfg.storeContactData)
      {
        CondRowApply(p, nl, h, m, cfg, hist, mode, ii, jj, s0, cfg.storeContactData);
        var e := CondEvent(p, nl, h, m, cfg, hist, mode, i, jj);
        if e.Some? {
          ghost var before := State();
          Handle(e.value);
          assert State() == Apply(before, e.value, cfg.storeContactData);
        }
        jj := jj + 1;
      }
    }

    /** The conduction loop over the neighbour list, accumulating. */
    method ConductionPass(p: Particles, nl: NeighborList, h: Host, m: Materials, hist: bool, mode: AreaMode)
      requires Valid() && ValidParticles(p) && ValidList(p, nl) && ValidMaterials(p, m, cfg) && ValidHost(h)
      requires |p.x| == heatFlux.Length
      modifies heatFlux, dirHeatFlux, contactArea, nContacts
      ensures State() == ApplyAll(old(State()), ConductionEvents(p, nl, h, m, cfg, hist, mode), cfg.storeContactData)
    {
      hide CondEvent, CondRow, Apply, Side;
      ghost var s0 := State();
      var inum := |nl.ilist|;
      var ii := 0;
      while ii < inum
        invariant 0 <= ii <= inum
        invariant State() == ApplyAll(s0, CondRows(p, nl, h, m, cfg, hist, mode, ii), cfg.storeContactData)
      {
        CondRowsApply(p, nl, h, m, cfg, hist, mode, ii, s0, cfg.storeContactData);
        ghost var before := State();
        ConductionRow(p, nl, h, m, hist, mode, ii);
        assert State() == ApplyAll(before, CondRow(p, nl, h, m, cfg, hist, mode, ii, |nl.firstneigh[nl.ilist[ii]]|),
                                   cfg.storeContactData);
        ii := ii + 1;
      }
    }

    /** The neighbours of list position ii, forwarding to `consumer`. */
    method ForwardConductionRow(consumer: PairLocalConsumer, p: Particles, nl: NeighborList, h: Host, m: Materials,
                                hist: bool, mode: AreaMode, ii: nat)
      requires ValidParticles(p) && ValidList(p, nl) && ValidMaterials(p, m, cfg) && ValidHost(h)
      requires ii < |nl.ilist|
      modifies consumer
      ensures consumer.heats
              == old(consumer.heats) + Records(CondRow(p, nl, h, m, cfg, hist, mode, ii, |nl.firstneigh[nl.ilist[ii]]|))
    {
      hide CondEvent;
      ghost var h0 := consumer.heats;
      var i := nl.ilist[ii];
      var jnum := |nl.firstneigh[i]|;
      var jj := 0;
      while jj < jnum
        invariant 0 <= jj <= jnum
        invariant consumer.heats == h0 + Records(CondRow(p, nl, h, m, cfg, hist, mode, ii, jj))
      {
        CondRowRecords(p, nl, h, m, cfg, hist, mode, ii, jj);
        var e := CondEvent(p, nl, h, m, cfg, hist, mode, i, jj);
        if e.Some? {
          RecordsAssoc(h0, Records(CondRow(p, nl, h, m, cfg, hist, mode, ii, jj)), [HeatRecord(i, e.value.j, e.value.flux)]);
          consumer.AddHeat(i, e.value.j, e.value.flux);
        }
        jj := jj + 1;
      }
    }

    /** The conduction loop, forwarding every contact to `consumer`. */
    method ForwardConduction(consumer: PairLocalConsumer, p: Particles, nl: NeighborList, h: Host, m: Materials,
                             hist: bool, mode: AreaMode)
      requires ValidParticles(p) && ValidList(p, nl) && ValidMaterials(p, m, cfg) && ValidHost(h)
      modifies consumer
      ensures consumer.heats == old(consumer.heats) + Records(ConductionEvents(p, nl, h, m, cfg, hist, mode))
    {
      hide CondEvent, CondRow;
      ghost var h0 := consumer.heats;
      var inum := |nl.ilist|;
      var ii := 0;
      while ii < inum
        invariant 0 <= ii <= inum
        invariant consumer.heats == h0 + Records(CondRows(p, nl, h, m, cfg, hist, mode, ii))
      {
        CondRowsRecords(p, nl, h, m, cfg, hist, mode, ii);
        ghost var done := Records(CondRows(p, nl, h, m, cfg, hist, mode, ii));
        ghost var row := Records(CondRow(p, nl, h, m, cfg, hist, mode, ii, |nl.firstneigh[nl.ilist[ii]]|));
        ForwardConductionRow(consumer, p, nl, h, m, hist, mode, ii);
        RecordsAssoc(h0, done, row);
        ii := ii + 1;
      }
    }

    /** `post_force_eval<HISTFLAG, CONTACTAREA>(vflag, cpl_flag)`: reset the
        statistics, run both loops, and average the contact areas unless
        forwarding.  The reverse communication between processes is not part
        of this model. */
    method PostForceEval(p: Particles, nl: NeighborList, h: Host, hist: bool, mode: AreaMode, forward: bool)
      requires Valid() && ValidParticles(p) && ValidList(p, nl) && ValidMaterials(p, materials, cfg) && ValidHost(h)
      requires Separated(p, h) && |p.x| == heatFlux.Length
      modifies heatFlux, dirHeatFlux, contactArea, nContacts, cpl
      ensures State() == PassResult(old(State()), Events(p, nl, h, materials, cfg, hist, mode), forward,
                                    cfg.storeContactData, p.nlocal)
      ensures cpl != null ==>
                cpl.heats == if forward then old(cpl.heats) + Records(Events(p, nl, h, materials, cfg, hist, mode))
                             else old(cpl.heats)
    {
      var m := materials;
      ghost var all := Events(p, nl, h, m, cfg, hist, mode);
      if cfg.storeContactData {
        ResetStats();
      }
      if !forward {
        ghost var s1 := State();
        EventsApply(p, nl, h, m, cfg, hist, mode, s1, cfg.storeContactData);
        RadiationPass(p, h);
        ConductionPass(p, nl, h, m, hist, mode);
        assert State() == ApplyAll(s1, all, cfg.storeContactData);
        if cfg.storeContactData {
          FinaliseStats(p.nlocal);
        }
      } else if cpl != null {
        EventsRecords(p, nl, h, m, cfg, hist, mode);
        ghost var h0 := cpl.heats;
        ForwardRadiation(cpl, p, h);
        ForwardConduction(cpl, p, nl, h, m, hist, mode);
        RecordsAssoc(h0, Records(RadiationEvents(p, h)), Records(ConductionEvents(p, nl, h, m, cfg, hist, mode)));
      }
    }

    /** `post_force`: the instance of the pass for `history_flag` and the
        area mode, accumulating into the arrays.  A `history_flag` other
        than 0 or 1 matches no instance. */
    method PostForce(p: Particles, nl: NeighborList, h: Host)
      requires Valid() && ValidParticles(p) && ValidList(p, nl) && ValidMaterials(p, materials, cfg) && ValidHost(h)
      requires Separated(p, h) && |p.x| == heatFlux.Length
      modifies heatFlux, dirHeatFlux, contactArea, nContacts, cpl
      ensures (historyFlag == 0 || historyFlag == 1) ==>
                State() == PassResult(old(State()), Events(p, nl, h, materials, cfg, historyFlag == 1, cfg.mode), false,
                                cfg.storeContactData, p.nlocal)
      ensures !(historyFlag == 0 || historyFlag == 1) ==> State() == old(State())
      ensures cpl != null ==> cpl.heats == old(cpl.heats)
    {
      if historyFlag == 0 && cfg.mode == Overlap {
        PostForceEval(p, nl, h, false, Overlap, false);
      }
      if historyFlag == 1 && cfg.mode == Overlap {
        PostForceEval(p, nl, h, true, Overlap, false);
      }
      if historyFlag == 0 && cfg.mode == Constant {
        PostForceEval(p, nl, h, false, Constant, false);
      }
      if historyFlag == 1 && cfg.mode == Constant {
        PostForceEval(p, nl, h, true, Constant, false);
      }
      if historyFlag == 0 && cfg.mode == Projection {
        PostForceEval(p, nl, h, false, Projection, false);
      }
      if historyFlag == 1 && cfg.mode == Projection {
        PostForceEval(p, nl, h, true, Projection, false);
      }
    }

    /** `cpl_evaluate`: only the registered compute may ask; the pass then
        forwards every pair's flux to it. */
    method CplEvaluate(caller: PairLocalConsumer?, p: Particles, nl: NeighborList, h: Host)
      returns (r: Outcome<FixError>)
      requires Valid() && ValidParticles(p) && ValidList(p, nl) && ValidMaterials(p, materials, cfg) && ValidHost(h)
      requires Separated(p, h) && |p.x| == heatFlux.Length
      modifies heatFlux, dirHeatFlux, contactArea, nContacts, cpl
      ensures r == Fail(IllegalCaller) <==> caller != cpl
      ensures r.Fail? ==> State() == old(State()) && (cpl != null ==> cpl.heats == old(cpl.heats))
      ensures r.Pass? && (historyFlag == 0 || historyFlag == 1) ==>
                State() == PassResult(old(State()), Events(p, nl, h, materials, cfg, historyFlag == 1, cfg.mode), true,
                                cfg.storeContactData, p.nlocal)
                && (cpl != null ==> cpl.heats == old(cpl.heats)
                                                 + Records(Events(p, nl, h, materials, cfg, historyFlag == 1, cfg.mode)))
      ensures r.Pass? && !(historyFlag == 0 || historyFlag == 1) ==>
                State() == old(State()) && (cpl != null ==> cpl.heats == old(cpl.heats))
    {
      if caller != cpl {
        return Fail(IllegalCaller);
      }
      if historyFlag == 0 && cfg.mode == Overlap {
        PostForceEval(p, nl, h, false, Overlap, true);
      }
      if historyFlag == 1 && cfg.mode == Overlap {
        PostForceEval(p, nl, h, true, Overlap, true);
      }
      if historyFlag == 0 && cfg.mode == Constant {
        PostForceEval(p, nl, h, false, Constant, true);
      }
      if historyFlag == 1 && cfg.mode == Constant {
        PostForceEval(p, nl, h, true, Constant, true);
      }
      if historyFlag == 0 && cfg.mode == Projection {
        PostForceEval(p, nl, h, false, Projection, true);
      }
      if historyFlag == 1 && cfg.mode == Projection {
        PostForceEval(p, nl, h, true, Projection, true);
      }
      r := Pass;
    }
  }

  /** The registration protocol on a fresh fix: the first compute registers,
      a second is refused, only the registered one may unregister, and after
      it has the slot is free again. */
  method RegistrationProtocol() returns (first: Outcome<FixError>, second: Outcome<FixError>,
                                         third: Outcome<FixError>, fourth: Outcome<FixError>,
                                         fifth: Outcome<FixError>)
    ensures first == Pass && second == Fail(OnlyOneConsumer) && third == Fail(IllegalUnregister)
    ensures fourth == Pass && fifth == Pass
  {
    var fix := new Fix(DefaultConfig, 0, 0);
    var a := new PairLocalConsumer();
    var b := new PairLocalConsumer();
    first := fix.Register(a);
    second := fix.Register(b);
    third := fix.Unregister(b);
    fourth := fix.Unregister(a);
    fifth := fix.Register(b);
  }
}
