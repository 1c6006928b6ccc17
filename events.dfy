/** The pairs one pass processes, in the order it processes them, and the
    contribution of each: the all-pairs radiation loop
    (fix_heat_gran_radiation.cpp, lines 462-530) and the neighbour-list
    conduction loop (lines 534-648). */
module PairEvents {
  import opened Wrappers
  import opened FixParams
  import opened ContactGeometry
  import opened FluxKernels
  import opened Accumulation

  /** A neighbour entry is a 32-bit word whose low 30 bits hold the particle
      index and whose top two bits mark special bonds; `j & NEIGHMASK`
      (`NEIGHMASK = 0x3FFFFFFF`) keeps the index, i.e. the entry modulo 2^30. */
  const NeighIndexRange: nat := 0x4000_0000

  /** The per-particle state the pass reads; the first `nlocal` particles are
      owned, the rest are ghost copies. */
  datatype Particles = Particles(x: seq<Vec3>, radius: seq<real>, ptype: seq<int>, temp: seq<real>,
                                 mask: seq<bv32>, nlocal: nat)

  /** The granular pair style's neighbour list: `ilist` (its length is
      `inum`), each particle's neighbour entries, and, in history mode, the
      stored contact flag of each entry. */
  datatype NeighborList = NeighborList(ilist: seq<int>, firstneigh: seq<seq<nat>>, contactFlags: seq<seq<bool>>)

  /** The host's settings: `newton_pair`, the fix group's bit, the `sqrt`
      of the host and the threshold `SMALL_FIX_HEAT_GRAN`. */
  datatype Host = Host(newtonPair: bool, groupbit: bv32, sqrt: real -> real, small: real)

  /** The per-type tables the fix keeps: `conductivity_` and, with area
      correction, `deltan_ratio_`. */
  datatype Materials = Materials(conductivity: seq<real>, deltanRatio: seq<seq<real>>)

  predicate ValidParticles(p: Particles) {
    && |p.radius| == |p.x| && |p.ptype| == |p.x| && |p.temp| == |p.x| && |p.mask| == |p.x|
    && p.nlocal <= |p.x|
    && (forall k :: 0 <= k < |p.radius| ==> p.radius[k] > 0.0)
  }

  /** Every particle type has a conductivity, and with area correction a
      full row and column of stiffness ratios. */
  predicate ValidMaterials(p: Particles, m: Materials, cfg: Config) {
    && (forall k :: 0 <= k < |p.ptype| ==> 1 <= p.ptype[k] <= |m.conductivity|)
    && (cfg.areaCorrection ==>
          |m.deltanRatio| == |m.conductivity|
          && forall t :: 0 <= t < |m.deltanRatio| ==> |m.deltanRatio[t]| == |m.conductivity|)
  }

  predicate ValidHost(h: Host) {
    h.small > 0.0
  }

  /** `sqrt(rsq)`: the host's square root of the squared centre distance. */
  function Distance(p: Particles, h: Host, i: nat, j: nat): real
    requires ValidParticles(p) && i < |p.x| && j < |p.x|
  {
    h.sqrt(NormSq(Sub(p.x[i], p.x[j])))
  }

  /** Radiation divides by the distance of every two local particles. */
  predicate Separated(p: Particles, h: Host)
    requires ValidParticles(p)
  {
    forall i, j :: 0 <= i < j < p.nlocal ==> Distance(p, h, i, j) != 0.0
  }

  /** The entries of the list index particles that exist, the listed
      particles are owned, and the contact flags match the entries. */
  predicate ValidList(p: Particles, nl: NeighborList) {
    && |nl.contactFlags| == |nl.firstneigh|
    && (forall ii :: 0 <= ii < |nl.ilist| ==> 0 <= nl.ilist[ii] < p.nlocal && nl.ilist[ii] < |nl.firstneigh|)
    && (forall i :: 0 <= i < |nl.firstneigh| ==> |nl.contactFlags[i]| == |nl.firstneigh[i]|)
    && (forall i, jj :: 0 <= i < |nl.firstneigh| && 0 <= jj < |nl.firstneigh[i]| ==>
          nl.firstneigh[i][jj] % NeighIndexRange < |p.x|)
  }

  // ---------------------------------------------------------------------
  // Radiation: every local pair i < j.

  /** The contribution of the local pair (i, j). */
  function RadEvent(p: Particles, h: Host, i: nat, j: nat): (c: Contribution)
    requires ValidParticles(p) && Separated(p, h)
    requires i < j < p.nlocal
    ensures c.i == i && c.j == j && c.both && c.area.None?
  {
    var del := Sub(p.x[i], p.x[j]);
    var flux := RadiationFlux(p.temp[i], p.temp[j], Distance(p, h, i, j), p.radius[j]);
    Contribution(i, j, flux, Scale(flux, del), None, h.newtonPair || j < p.nlocal)
  }

  /** Row i of the radiation loop up to (excluding) column `j`. */
  function RadRow(p: Particles, h: Host, i: nat, j: nat): (cs: seq<Contribution>)
    requires ValidParticles(p) && Separated(p, h)
    requires i < p.nlocal && j <= p.nlocal
    ensures |cs| == if j <= i + 1 then 0 else j - i - 1
    decreases j
  {
    if j <= i + 1 then [] else RadRow(p, h, i, j - 1) + [RadEvent(p, h, i, j - 1)]
  }

  /** The radiation loop's rows 0 .. i-1: row r has `nlocal - r - 1` pairs. */
  function RadRows(p: Particles, h: Host, i: nat): (cs: seq<Contribution>)
    requires ValidParticles(p) && Separated(p, h)
    requires i <= p.nlocal
    ensures 2 * |cs| == i * (2 * p.nlocal - i - 1)
  {
    if i == 0 then []
    else
      TriangleStep(i, p.nlocal);
      RadRows(p, h, i - 1) + RadRow(p, h, i - 1, p.nlocal)
  }

  /** Adding row i-1, which has `n - i` pairs, to rows 0 .. i-2. */
  lemma TriangleStep(i: nat, n: nat)
    requires 1 <= i <= n
    ensures (i - 1) * (2 * n - (i - 1) - 1) + 2 * (n - i) == i * (2 * n - i - 1)
  {
    assert (i - 1) * (2 * n - i) == i * (2 * n - i) - (2 * n - i);
    assert i * (2 * n - i - 1) == i * (2 * n - i) - i;
  }

  /** The whole radiation loop: `nlocal * (nlocal - 1) / 2` pairs. */
  function RadiationEvents(p: Particles, h: Host): (cs: seq<Contribution>)
    requires ValidParticles(p) && Separated(p, h)
    ensures 2 * |cs| == p.nlocal * (p.nlocal - 1)
  {
    RadRows(p, h, p.nlocal)
  }

  /** One more column of row i. */
  lemma RadRowApply(p: Particles, h: Host, i: nat, j: nat, s: Accum, store: bool)
    requires ValidParticles(p) && Separated(p, h)
    requires i < j < p.nlocal
    requires WellSized(s)
    ensures ApplyAll(s, RadRow(p, h, i, j + 1), store)
            == Apply(ApplyAll(s, RadRow(p, h, i, j), store), RadEvent(p, h, i, j), store)
  {
    var prev := RadRow(p, h, i, j);
    var c := RadEvent(p, h, i, j);
    assert RadRow(p, h, i, j + 1) == prev + [c];
    ApplyAllSnoc(s, prev, c, store);
  }

  lemma RadRowRecords(p: Particles, h: Host, i: nat, j: nat)
    requires ValidParticles(p) && Separated(p, h)
    requires i < j < p.nlocal
    ensures Records(RadRow(p, h, i, j + 1)) == Records(RadRow(p, h, i, j)) + [HeatRecord(i, j, RadEvent(p, h, i, j).flux)]
  {
    var prev := RadRow(p, h, i, j);
    var c := RadEvent(p, h, i, j);
    assert RadRow(p, h, i, j + 1) == prev + [c];
    assert (prev + [c])[..|prev|] == prev;
  }

  /** One more row of the radiation loop. */
  lemma RadRowsApply(p: Particles, h: Host, i: nat, s: Accum, store: bool)
    requires ValidParticles(p) && Separated(p, h)
    requires i < p.nlocal
    requires WellSized(s)
    ensures ApplyAll(s, RadRows(p, h, i + 1), store)
            == ApplyAll(ApplyAll(s, RadRows(p, h, i), store), RadRow(p, h, i, p.nlocal), store)
  {
    var done := RadRows(p, h, i);
    var row := RadRow(p, h, i, p.nlocal);
    assert RadRows(p, h, i + 1) == done + row;
    ApplyAllAppend(s, done, row, store);
  }

  lemma RadRowsRecords(p: Particles, h: Host, i: nat)
    requires ValidParticles(p) && Separated(p, h)
    requires i < p.nlocal
    ensures Records(RadRows(p, h, i + 1)) == Records(RadRows(p, h, i)) + Records(RadRow(p, h, i, p.nlocal))
  {
    var done := RadRows(p, h, i);
    var row := RadRow(p, h, i, p.nlocal);
    assert RadRows(p, h, i + 1) == done + row;
    RecordsAppend(done, row);
  }

  /** Pair (a, b) strictly before pair (c, d) in row-major order. */
  predicate Before(a: nat, b: nat, c: nat, d: nat) {
    a < c || (a == c && b < d)
  }

  /** The pairs of a list come in strictly increasing row-major order, so no
      pair occurs twice. */
  predicate Ordered(cs: seq<Contribution>) {
    forall k, l :: 0 <= k < l < |cs| ==> Before(cs[k].i, cs[k].j, cs[l].i, cs[l].j)
  }

  /** The pair (a, b) occurs in the list. */
  predicate HasPair(cs: seq<Contribution>, a: nat, b: nat) {
    exists k :: 0 <= k < |cs| && cs[k].i == a && cs[k].j == b
  }

  lemma HasPairAppend(x: seq<Contribution>, y: seq<Contribution>, a: nat, b: nat)
    requires HasPair(x, a, b) || HasPair(y, a, b)
    ensures HasPair(x + y, a, b)
  {
    if HasPair(x, a, b) {
      var k :| 0 <= k < |x| && x[k].i == a && x[k].j == b;
      assert (x + y)[k] == x[k];
    } else {
      var k :| 0 <= k < |y| && y[k].i == a && y[k].j == b;
      assert (x + y)[|x| + k] == y[k];
    }
  }

  lemma {:induction false} RadRowShape(p: Particles, h: Host, i: nat, j: nat)
    requires ValidParticles(p) && Separated(p, h)
    requires i < p.nlocal && j <= p.nlocal
    ensures var cs := RadRow(p, h, i, j);
      && (forall k :: 0 <= k < |cs| ==> cs[k].i == i && i < cs[k].j < j && cs[k].both && cs[k].area.None?)
      && Ordered(cs)
      && (forall b: nat :: i < b < j ==> HasPair(cs, i, b))
    decreases j
  {
    if j > i + 1 {
      RadRowShape(p, h, i, j - 1);
      var prev := RadRow(p, h, i, j - 1);
      var e := RadEvent(p, h, i, j - 1);
      var cs := RadRow(p, h, i, j);
      assert cs == prev + [e];
      forall b: nat | i < b < j
        ensures HasPair(cs, i, b)
      {
        if b == j - 1 {
          assert cs[|prev|] == e;
        } else {
          HasPairAppend(prev, [e], i, b);
        }
      }
    }
  }

  lemma {:induction false} RadRowsShape(p: Particles, h: Host, i: nat)
    requires ValidParticles(p) && Separated(p, h)
    requires i <= p.nlocal
    ensures var cs := RadRows(p, h, i);
      && (forall k :: 0 <= k < |cs| ==> cs[k].i < i && cs[k].i < cs[k].j < p.nlocal && cs[k].both && cs[k].area.None?)
      && Ordered(cs)
      && (forall a: nat, b: nat :: a < i && a < b < p.nlocal ==> HasPair(cs, a, b))
  {
    if i > 0 {
      RadRowsShape(p, h, i - 1);
      RadRowShape(p, h, i - 1, p.nlocal);
      var prev := RadRows(p, h, i - 1);
      var row := RadRow(p, h, i - 1, p.nlocal);
      var cs := RadRows(p, h, i);
      assert cs == prev + row;
      forall a: nat, b: nat | a < i && a < b < p.nlocal
        ensures HasPair(cs, a, b)
      {
        HasPairAppend(prev, row, a, b);
      }
    }
  }

  /** The radiation loop visits every unordered pair of local particles
      exactly once, as (i, j) with i < j, always updating both sides and never
      the contact statistics. */
  lemma RadiationVisitsEachPairOnce(p: Particles, h: Host)
    requires ValidParticles(p) && Separated(p, h)
    ensures var cs := RadiationEvents(p, h);
      && (forall k :: 0 <= k < |cs| ==> cs[k].i < cs[k].j < p.nlocal && cs[k].both && cs[k].area.None?)
      && (forall a: nat, b: nat :: a < b < p.nlocal ==> HasPair(cs, a, b))
      && (forall k, l :: 0 <= k < l < |cs| ==> (cs[k].i, cs[k].j) != (cs[l].i, cs[l].j))
  {
    RadRowsShape(p, h, p.nlocal);
  }

  // ---------------------------------------------------------------------
  // Conduction: the neighbours of every listed particle that touch it.

  /** `j &= NEIGHMASK`: the index lies below 2^30, and an entry without
      special-bond bits is its own index. */
  function Neighbour(nl: NeighborList, i: nat, jj: nat): (j: nat)
    requires i < |nl.firstneigh| && jj < |nl.firstneigh[i]|
    ensures j < NeighIndexRange
    ensures nl.firstneigh[i][jj] < NeighIndexRange ==> j == nl.firstneigh[i][jj]
  {
    nl.firstneigh[i][jj] % NeighIndexRange
  }

  /** The stiffness ratio of the pair's types when area correction is on. */
  function Correction(p: Particles, m: Materials, cfg: Config, i: nat, j: nat): (ratio: Option<real>)
    requires ValidParticles(p) && ValidMaterials(p, m, cfg) && i < |p.x| && j < |p.x|
    ensures ratio.Some? <==> cfg.areaCorrection
  {
    if cfg.areaCorrection then Some(m.deltanRatio[p.ptype[i] - 1][p.ptype[j] - 1]) else None
  }

  /** `!(mask[i] & groupbit) && !(mask[j] & groupbit)` fails. */
  predicate InGroup(p: Particles, h: Host, i: nat, j: nat)
    requires ValidParticles(p) && i < |p.x| && j < |p.x|
  {
    p.mask[i] & h.groupbit != 0 || p.mask[j] & h.groupbit != 0
  }

  /** The contribution of a conducting pair (i, j): the contact area of the
      model `mode`, the conduction flux for the temperature-corrected
      conductivities of the two types, and the directional flux along the
      centre line. */
  function ConductionPair(p: Particles, h: Host, m: Materials, cfg: Config, mode: AreaMode,
                          i: nat, j: nat): (c: Contribution)
    requires ValidParticles(p) && ValidMaterials(p, m, cfg) && ValidHost(h)
    requires i < p.nlocal && j < |p.x|
    ensures c.i == i && c.j == j && c.area.Some? && (c.both <==> h.newtonPair || j < p.nlocal)
  {
    var del := Sub(p.x[i], p.x[j]);
    var rsq := NormSq(del);
    var area := ContactArea(mode, h.sqrt(rsq), p.radius[i], p.radius[j], cfg.fixedArea, Correction(p, m, cfg, i, j));
    var tcoi := CorrectedConductivity(m.conductivity[p.ptype[i] - 1], p.temp[i]);
    var tcoj := CorrectedConductivity(m.conductivity[p.ptype[j] - 1], p.temp[j]);
    var hc := HeatTransferCoeff(tcoi, tcoj, area, h.sqrt, h.small);
    var flux := ConductionFlux(p.temp[i], p.temp[j], hc);
    Contribution(i, j, flux, Scale(flux, del), Some(area), h.newtonPair || j < p.nlocal)
  }

  /** The contribution of neighbour entry `jj` of particle i, or None when the
      pair is skipped: neither particle in the fix group, or not in contact.
      `hist` and `mode` are the two template parameters of the pass. */
  function CondEvent(p: Particles, nl: NeighborList, h: Host, m: Materials, cfg: Config,
                     hist: bool, mode: AreaMode, i: nat, jj: nat): (e: Option<Contribution>)
    requires ValidParticles(p) && ValidList(p, nl) && ValidMaterials(p, m, cfg) && ValidHost(h)
    requires i < p.nlocal && i < |nl.firstneigh| && jj < |nl.firstneigh[i]|
    ensures e.Some? ==> e.value.i == i && e.value.j == Neighbour(nl, i, jj)
    ensures e.Some? ==> e.value.area.Some? && (e.value.both <==> h.newtonPair || e.value.j < p.nlocal)
  {
    var j := Neighbour(nl, i, jj);
    if !InGroup(p, h, i, j) then None
    else if !InContact(hist, nl.contactFlags[i][jj], NormSq(Sub(p.x[i], p.x[j])), p.radius[i] + p.radius[j]) then None
    else Some(ConductionPair(p, h, m, cfg, mode, i, j))
  }

  function AsSeq(e: Option<Contribution>): seq<Contribution> {
    if e.Some? then [e.value] else []
  }

  /** The contributions of entries 0 .. jj-1 of list position `ii`: at
      most one per entry. */
  function CondRow(p: Particles, nl: NeighborList, h: Host, m: Materials, cfg: Config,
                   hist: bool, mode: AreaMode, ii: nat, jj: nat): (cs: seq<Contribution>)
    requires ValidParticles(p) && ValidList(p, nl) && ValidMaterials(p, m, cfg) && ValidHost(h)
    requires ii < |nl.ilist| && jj <= |nl.firstneigh[nl.ilist[ii]]|
    ensures |cs| <= jj
  {
    if jj == 0 then []
    else CondRow(p, nl, h, m, cfg, hist, mode, ii, jj - 1)
         + AsSeq(CondEvent(p, nl, h, m, cfg, hist, mode, nl.ilist[ii], jj - 1))
  }

  /** The conduction loop's list positions 0 .. ii-1. */
  function CondRows(p: Particles, nl: NeighborList, h: Host, m: Materials, cfg: Config,
                    hist: bool, mode: AreaMode, ii: nat): (cs: seq<Contribution>)
    requires ValidParticles(p) && ValidList(p, nl) && ValidMaterials(p, m, cfg) && ValidHost(h)
    requires ii <= |nl.ilist|
  {
    if ii == 0 then []
    else CondRows(p, nl, h, m, cfg, hist, mode, ii - 1)
         + CondRow(p, nl, h, m, cfg, hist, mode, ii - 1, |nl.firstneigh[nl.ilist[ii - 1]]|)
  }

  function ConductionEvents(p: Particles, nl: NeighborList, h: Host, m: Materials, cfg: Config,
                            hist: bool, mode: AreaMode): (cs: seq<Contribution>)
    requires ValidParticles(p) && ValidList(p, nl) && ValidMaterials(p, m, cfg) && ValidHost(h)
  {
    CondRows(p, nl, h, m, cfg, hist, mode, |nl.ilist|)
  }

  /** Everything one pass processes: radiation first, then conduction. */
  function Events(p: Particles, nl: NeighborList, h: Host, m: Materials, cfg: Config,
                  hist: bool, mode: AreaMode): (cs: seq<Contribution>)
    requires ValidParticles(p) && ValidList(p, nl) && ValidMaterials(p, m, cfg) && ValidHost(h)
    requires Separated(p, h)
  {
    RadiationEvents(p, h) + ConductionEvents(p, nl, h, m, cfg, hist, mode)
  }

  /** One more neighbour entry of list position ii. */
  lemma CondRowApply(p: Particles, nl: NeighborList, h: Host, m: Materials, cfg: Config,
                     hist: bool, mode: AreaMode, ii: nat, jj: nat, s: Accum, store: bool)
    requires ValidParticles(p) && ValidList(p, nl) && ValidMaterials(p, m, cfg) && ValidHost(h)
    requires ii < |nl.ilist| && jj < |nl.firstneigh[nl.ilist[ii]]|
    requires WellSized(s) && |p.x| == |s.heat|
    ensures var e := CondEvent(p, nl, h, m, cfg, hist, mode, nl.ilist[ii], jj);
      var prev := CondRow(p, nl, h, m, cfg, hist, mode, ii, jj);
      var next := CondRow(p, nl, h, m, cfg, hist, mode, ii, jj + 1);
      && (e.Some? ==> e.value.i < |s.heat| && e.value.j < |s.heat|
                      && ApplyAll(s, next, store) == Apply(ApplyAll(s, prev, store), e.value, store))
      && (e.None? ==> next == prev)
  {
    var e := CondEvent(p, nl, h, m, cfg, hist, mode, nl.ilist[ii], jj);
    var prev := CondRow(p, nl, h, m, cfg, hist, mode, ii, jj);
    if e.Some? {
      assert CondRow(p, nl, h, m, cfg, hist, mode, ii, jj + 1) == prev + [e.value];
      ApplyAllSnoc(s, prev, e.value, store);
    } else {
      assert prev + AsSeq(e) == prev;
    }
  }

  lemma CondRowRecords(p: Particles, nl: NeighborList, h: Host, m: Materials, cfg: Config,
                       hist: bool, mode: AreaMode, ii: nat, jj: nat)
    requires ValidParticles(p) && ValidList(p, nl) && ValidMaterials(p, m, cfg) && ValidHost(h)
    requires ii < |nl.ilist| && jj < |nl.firstneigh[nl.ilist[ii]]|
    ensures var e := CondEvent(p, nl, h, m, cfg, hist, mode, nl.ilist[ii], jj);
      var prev := CondRow(p, nl, h, m, cfg, hist, mode, ii, jj);
      var next := CondRow(p, nl, h, m, cfg, hist, mode, ii, jj + 1);
      && (e.Some? ==> Records(next) == Records(prev) + [HeatRecord(e.value.i, e.value.j, e.value.flux)])
      && (e.None? ==> next == prev)
  {
    var e := CondEvent(p, nl, h, m, cfg, hist, mode, nl.ilist[ii], jj);
    var prev := CondRow(p, nl, h, m, cfg, hist, mode, ii, jj);
    if e.Some? {
      assert CondRow(p, nl, h, m, cfg, hist, mode, ii, jj + 1) == prev + [e.value];
      assert (prev + [e.value])[..|prev|] == prev;
    } else {
      assert prev + AsSeq(e) == prev;
    }
  }

  /** One more list position of the conduction loop. */
  lemma CondRowsApply(p: Particles, nl: NeighborList, h: Host, m: Materials, cfg: Config,
                      hist: bool, mode: AreaMode, ii: nat, s: Accum, store: bool)
    requires ValidParticles(p) && ValidList(p, nl) && ValidMaterials(p, m, cfg) && ValidHost(h)
    requires ii < |nl.ilist|
    requires WellSized(s) && |p.x| == |s.heat|
    ensures var done := CondRows(p, nl, h, m, cfg, hist, mode, ii);
      var row := CondRow(p, nl, h, m, cfg, hist, mode, ii, |nl.firstneigh[nl.ilist[ii]]|);
      var next := CondRows(p, nl, h, m, cfg, hist, mode, ii + 1);
      ApplyAll(s, next, store) == ApplyAll(ApplyAll(s, done, store), row, store)
  {
    var done := CondRows(p, nl, h, m, cfg, hist, mode, ii);
    var row := CondRow(p, nl, h, m, cfg, hist, mode, ii, |nl.firstneigh[nl.ilist[ii]]|);
    assert CondRows(p, nl, h, m, cfg, hist, mode, ii + 1) == done + row;
    ApplyAllAppend(s, done, row, store);
  }

  lemma CondRowsRecords(p: Particles, nl: NeighborList, h: Host, m: Materials, cfg: Config,
                        hist: bool, mode: AreaMode, ii: nat)
    requires ValidParticles(p) && ValidList(p, nl) && ValidMaterials(p, m, cfg) && ValidHost(h)
    requires ii < |nl.ilist|
    ensures var done := CondRows(p, nl, h, m, cfg, hist, mode, ii);
      var row := CondRow(p, nl, h, m, cfg, hist, mode, ii, |nl.firstneigh[nl.ilist[ii]]|);
      var next := CondRows(p, nl, h, m, cfg, hist, mode, ii + 1);
      Records(next) == Records(done) + Records(row)
  {
    var done := CondRows(p, nl, h, m, cfg, hist, mode, ii);
    var row := CondRow(p, nl, h, m, cfg, hist, mode, ii, |nl.firstneigh[nl.ilist[ii]]|);
    assert CondRows(p, nl, h, m, cfg, hist, mode, ii + 1) == done + row;
    RecordsAppend(done, row);
  }

  /** A pass is its radiation loop followed by its conduction loop. */
  lemma EventsApply(p: Particles, nl: NeighborList, h: Host, m: Materials, cfg: Config,
                    hist: bool, mode: AreaMode, s: Accum, store: bool)
    requires ValidParticles(p) && ValidList(p, nl) && ValidMaterials(p, m, cfg) && ValidHost(h)
    requires Separated(p, h)
    requires WellSized(s) && |p.x| == |s.heat|
    ensures var rad := RadiationEvents(p, h);
      var cond := ConductionEvents(p, nl, h, m, cfg, hist, mode);
      && ApplyAll(s, Events(p, nl, h, m, cfg, hist, mode), store) == ApplyAll(ApplyAll(s, rad, store), cond, store)
  {
    var rad := RadiationEvents(p, h);
    var cond := ConductionEvents(p, nl, h, m, cfg, hist, mode);
    ApplyAllAppend(s, rad, cond, store);
  }

  lemma EventsRecords(p: Particles, nl: NeighborList, h: Host, m: Materials, cfg: Config,
                      hist: bool, mode: AreaMode)
    requires ValidParticles(p) && ValidList(p, nl) && ValidMaterials(p, m, cfg) && ValidHost(h)
    requires Separated(p, h)
    ensures Records(Events(p, nl, h, m, cfg, hist, mode))
            == Records(RadiationEvents(p, h)) + Records(ConductionEvents(p, nl, h, m, cfg, hist, mode))
  {
    RecordsAppend(RadiationEvents(p, h), ConductionEvents(p, nl, h, m, cfg, hist, mode));
  }

  /** Which pairs conduct: a pair outside the fix group on both sides, a
      pair that does not overlap, and in history mode a pair whose stored
      contact flag is clear or whose flag is stale (set, but the spheres no
      longer overlap) is skipped; any other pair contributes. */
  lemma ConductionContactTest(p: Particles, nl: NeighborList, h: Host, m: Materials, cfg: Config,
                              hist: bool, mode: AreaMode, i: nat, jj: nat)
    requires ValidParticles(p) && ValidList(p, nl) && ValidMaterials(p, m, cfg) && ValidHost(h)
    requires i < p.nlocal && i < |nl.firstneigh| && jj < |nl.firstneigh[i]|
    ensures var j := Neighbour(nl, i, jj);
      var rsq := NormSq(Sub(p.x[i], p.x[j]));
      var radsum := p.radius[i] + p.radius[j];
      && (hist ==> (CondEvent(p, nl, h, m, cfg, hist, mode, i, jj).Some?
                    <==> InGroup(p, h, i, j) && nl.contactFlags[i][jj] && rsq < radsum * radsum))
      && (!hist ==> (CondEvent(p, nl, h, m, cfg, hist, mode, i, jj).Some?
                     <==> InGroup(p, h, i, j) && rsq < radsum * radsum))
  {
    hide ConductionPair;
    var j := Neighbour(nl, i, jj);
    ContactDecision(hist, nl.contactFlags[i][jj], NormSq(Sub(p.x[i], p.x[j])), p.radius[i] + p.radius[j]);
  }

  /** The area and flux a contributing pair carries: the area of the
      selected model at the distance `sqrt(rsq)`, and the conduction flux for
      the temperature-corrected conductivities of the two types, which is 0
      when either conductivity is below the threshold. */
  lemma ConductionContribution(p: Particles, h: Host, m: Materials, cfg: Config, mode: AreaMode,
                               i: nat, j: nat)
    requires ValidParticles(p) && ValidMaterials(p, m, cfg) && ValidHost(h)
    requires i < p.nlocal && j < |p.x|
    ensures var c := ConductionPair(p, h, m, cfg, mode, i, j);
      var rsq := NormSq(Sub(p.x[i], p.x[j]));
      var tcoi := CorrectedConductivity(m.conductivity[p.ptype[i] - 1], p.temp[i]);
      var tcoj := CorrectedConductivity(m.conductivity[p.ptype[j] - 1], p.temp[j]);
      && c.area == Some(ContactArea(mode, h.sqrt(rsq), p.radius[i], p.radius[j], cfg.fixedArea,
                                    Correction(p, m, cfg, i, j)))
      && c.flux == ConductionFlux(p.temp[i], p.temp[j], HeatTransferCoeff(tcoi, tcoj, c.area.value, h.sqrt, h.small))
      && c.dirFlux == Scale(c.flux, Sub(p.x[i], p.x[j]))
      && ((tcoi < h.small || tcoj < h.small) ==> c.flux == 0.0)
  {
  }

  /** Every conduction pair has a contact area and updates j exactly when
      `newton_pair || j < nlocal`. */
  predicate CondShaped(cs: seq<Contribution>, h: Host, nlocal: nat, n: nat) {
    forall k :: 0 <= k < |cs| ==>
      && cs[k].i < nlocal && cs[k].j < n
      && cs[k].area.Some? && (cs[k].both <==> h.newtonPair || cs[k].j < nlocal)
  }

  lemma {:induction false} CondRowShape(p: Particles, nl: NeighborList, h: Host, m: Materials, cfg: Config,
                                        hist: bool, mode: AreaMode, ii: nat, jj: nat)
    requires ValidParticles(p) && ValidList(p, nl) && ValidMaterials(p, m, cfg) && ValidHost(h)
    requires ii < |nl.ilist| && jj <= |nl.firstneigh[nl.ilist[ii]]|
    ensures CondShaped(CondRow(p, nl, h, m, cfg, hist, mode, ii, jj), h, p.nlocal, |p.x|)
  {
    if jj > 0 {
      CondRowShape(p, nl, h, m, cfg, hist, mode, ii, jj - 1);
      var prev := CondRow(p, nl, h, m, cfg, hist, mode, ii, jj - 1);
      var e := AsSeq(CondEvent(p, nl, h, m, cfg, hist, mode, nl.ilist[ii], jj - 1));
      assert CondShaped(e, h, p.nlocal, |p.x|);
      CondShapedAppend(prev, e, h, p.nlocal, |p.x|);
    }
  }

  lemma CondShapedAppend(x: seq<Contribution>, y: seq<Contribution>, h: Host, nlocal: nat, n: nat)
    requires CondShaped(x, h, nlocal, n) && CondShaped(y, h, nlocal, n)
    ensures CondShaped(x + y, h, nlocal, n)
  {
    forall k | 0 <= k < |x + y|
      ensures (x + y)[k].i < nlocal && (x + y)[k].j < n
      ensures (x + y)[k].area.Some? && ((x + y)[k].both <==> h.newtonPair || (x + y)[k].j < nlocal)
    {
      if k < |x| {
        assert (x + y)[k] == x[k];
      } else {
        assert (x + y)[k] == y[k - |x|];
      }
    }
  }

  lemma {:induction false} CondRowsShape(p: Particles, nl: NeighborList, h: Host, m: Materials, cfg: Config,
                                         hist: bool, mode: AreaMode, ii: nat)
    requires ValidParticles(p) && ValidList(p, nl) && ValidMaterials(p, m, cfg) && ValidHost(h)
    requires ii <= |nl.ilist|
    ensures CondShaped(CondRows(p, nl, h, m, cfg, hist, mode, ii), h, p.nlocal, |p.x|)
  {
    if ii > 0 {
      CondRowsShape(p, nl, h, m, cfg, hist, mode, ii - 1);
      CondRowShape(p, nl, h, m, cfg, hist, mode, ii - 1, |nl.firstneigh[nl.ilist[ii - 1]]|);
      CondShapedAppend(CondRows(p, nl, h, m, cfg, hist, mode, ii - 1),
                       CondRow(p, nl, h, m, cfg, hist, mode, ii - 1, |nl.firstneigh[nl.ilist[ii - 1]]|),
                       h, p.nlocal, |p.x|);
    }
  }

  /** With `newton_pair` every pair of the pass updates both of its
      particles, so the pass conserves the total heat flux. */
  lemma NewtonPairConserves(p: Particles, nl: NeighborList, h: Host, m: Materials, cfg: Config,
                            hist: bool, mode: AreaMode, s: Accum)
    requires ValidParticles(p) && ValidList(p, nl) && ValidMaterials(p, m, cfg) && ValidHost(h)
    requires Separated(p, h) && h.newtonPair
    requires WellSized(s) && |s.heat| == |p.x|
    ensures Sum(ApplyAll(s, Events(p, nl, h, m, cfg, hist, mode), cfg.storeContactData).heat) == Sum(s.heat)
  {
    var rad := RadiationEvents(p, h);
    var cond := ConductionEvents(p, nl, h, m, cfg, hist, mode);
    RadRowsShape(p, h, p.nlocal);
    CondRowsShape(p, nl, h, m, cfg, hist, mode, |nl.ilist|);
    EventsInRange(p, nl, h, m, cfg, hist, mode);
    assert Events(p, nl, h, m, cfg, hist, mode) == rad + cond;
    var all: seq<Contribution> := rad + cond;
    forall k | 0 <= k < |all|
      ensures all[k].both
    {
      if k < |rad| {
        assert all[k] == rad[k];
      } else {
        assert all[k] == cond[k - |rad|];
      }
    }
    HeatConserved(s, all, cfg.storeContactData);
  }

  /** Without `newton_pair` the total heat flux of the owned and ghost
      particles changes by exactly the flux of the conduction pairs with a
      ghost j. */
  lemma GhostPairsLeak(p: Particles, nl: NeighborList, h: Host, m: Materials, cfg: Config,
                       hist: bool, mode: AreaMode, s: Accum)
    requires ValidParticles(p) && ValidList(p, nl) && ValidMaterials(p, m, cfg) && ValidHost(h)
    requires Separated(p, h)
    requires WellSized(s) && |s.heat| == |p.x|
    ensures var cs := Events(p, nl, h, m, cfg, hist, mode);
      Sum(ApplyAll(s, cs, cfg.storeContactData).heat)
        == Sum(s.heat) + OneSided(ConductionEvents(p, nl, h, m, cfg, hist, mode))
  {
    var rad := RadiationEvents(p, h);
    var cond := ConductionEvents(p, nl, h, m, cfg, hist, mode);
    RadRowsShape(p, h, p.nlocal);
    EventsInRange(p, nl, h, m, cfg, hist, mode);
    OneSidedOfAllBoth(rad);
    OneSidedAppend(rad, cond);
    ApplyAllHeatSum(s, rad + cond, cfg.storeContactData);
  }

  /** Every pair of a pass names a particle that exists. */
  lemma EventsInRange(p: Particles, nl: NeighborList, h: Host, m: Materials, cfg: Config,
                      hist: bool, mode: AreaMode)
    requires ValidParticles(p) && ValidList(p, nl) && ValidMaterials(p, m, cfg) && ValidHost(h)
    requires Separated(p, h)
    ensures InRange(Events(p, nl, h, m, cfg, hist, mode), |p.x|)
  {
    var rad := RadiationEvents(p, h);
    var cond := ConductionEvents(p, nl, h, m, cfg, hist, mode);
    RadRowsShape(p, h, p.nlocal);
    CondRowsShape(p, nl, h, m, cfg, hist, mode, |nl.ilist|);
    var all: seq<Contribution> := rad + cond;
    forall k | 0 <= k < |all|
      ensures all[k].i < |p.x| && all[k].j < |p.x|
    {
      if k < |rad| {
        assert all[k] == rad[k];
      } else {
        assert all[k] == cond[k - |rad|];
      }
    }
  }

  lemma {:induction false} OneSidedAppend(a: seq<Contribution>, b: seq<Contribution>)
    ensures OneSided(a + b) == OneSided(a) + OneSided(b)
    decreases |b|
  {
    if b != [] {
      assert (a + b)[..|a + b| - 1] == a + b[..|b| - 1];
      OneSidedAppend(a, b[..|b| - 1]);
    } else {
      assert a + b == a;
    }
  }
}
