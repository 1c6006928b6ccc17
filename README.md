# fix heat/gran/radiation — a Dafny model

This project models the per-step heat-exchange pass of LIGGGHTS's
`fix heat/gran/radiation` (`FixHeatGranRad`, fix_heat_gran_radiation.cpp).
The pass works on a granular particle system. Each step it adds to every
particle's heat flux:

- radiation between every pair of owned particles;
- conduction between touching neighbours, through one of three contact-area
  models (overlap, constant, projection).

It can also hand every pair's flux to a registered `compute pair/gran/local`
instead of accumulating it.

The model has seven modules, one per file:

- `Wrappers` (wrappers.dfy): the `Option`, `Result` and `Outcome` types.

- `FixParams` (params.dfy): the constructor's keyword loop.
  - `ParseFrom` and `KeywordStep` are its pure specification.
  - `ParseArgs` is the imperative loop, proved equal to it. It implements the
    corrected parser, which checks that a word follows `contact_area` (see
    Findings).
- `ContactGeometry` (geometry.dfy): the contact test and the three
  contact-area models, as functions over `real`.
- `FluxKernels` (kernels.dfy): the temperature-corrected conductivity, the
  heat-transfer coefficient, the conduction flux, the view factor and the
  radiative flux.
- `Accumulation` (accumulation.dfy): what one pass does to the four
  per-particle accumulators (`heatFlux`, `directionalHeatFlux`,
  `conduction_contact_area_`, `n_conduction_contacts_`), stated on sequences.
  It also holds the balance and statistics lemmas.
- `PairEvents` (events.dfy): the pairs a pass processes, in loop order, and
  the contribution of each.
  - The radiation loop visits all owned pairs i < j.
  - The conduction loop visits the neighbour list.
- `FixHeatGranRad` (fix.dfy): the fix object as a class.
  - The accumulators are arrays.
  - The registered compute is a nullable reference.
  - The loops are `while` loops proved against the functions above.
  - It also covers `post_force`, `cpl_evaluate`, the register/unregister
    protocol and the conductivity table of `init`.

Things the host provides are inputs:

- `sqrt` is an uninterpreted function `real -> real` in `Host`.
- `SMALL_FIX_HEAT_GRAN` is a positive threshold in `Host`. It is defined in
  fix_heat_gran.h, which is not part of this model.
- `newton_pair`, the group bit, the particle arrays and the neighbour list are
  inputs too.
- `force->numeric` is a function `string -> Option<real>`.
- `NEIGHMASK` comes from a header that is not part of this model. It is taken
  as `0x3FFFFFFF`, so `j & NEIGHMASK` is the neighbour entry modulo 2^30.

Where a description of the module and the code differ, the model follows the
code:

- **Overlap area.** The overlap model switches to the smaller cross-section
  whenever `r < max(radi, radj)` (line 585), not only when one sphere lies
  inside the other.
  - The area is therefore not continuous at `r = max(radi, radj)`
    (`ContactGeometry.OverlapAreaJumpsAtLargerRadius`).
- **Radiation pair order.** The radiative flux normalises the distance by, and
  takes the emitting area of, particle j only (lines 481-491).
  - Swapping i and j does not negate it
    (`FluxKernels.RadiationDependsOnPairOrder`).
  - Within one pass each pair is visited once, as (i, j) with i < j, and both
    sides get the same flux, so the pass still balances.
- **Radiation range.** Radiation runs over all owned pairs, with no cutoff.
  - It never reaches ghost particles, so `newton_pair || j < nlocal` always
    holds there.
- **Statistics reset.** The contact statistics are reset at the start of every
  pass when contact data is stored (lines 447-451). This includes a forwarding
  pass, which then leaves them at zero.
- **Missing compute.** A forwarding pass with no registered compute hands
  nothing to any compute (`cpl_flag && cpl`, lines 523 and 645). The
  statistics are still reset when contact data is stored.

## Model

| member | source | states |
|---|---|---|
| FixParams.KeywordStep | fix_heat_gran_radiation.cpp:94-132 | an accepted keyword moves the cursor forward and never past the last word |
| FixParams.ParseFrom | fix_heat_gran_radiation.cpp:88-136 | the keyword loop from a cursor, then the final check; the only word it ever reads past the end is `arg[narg]`, and only when the last word is `contact_area` |
| FixParams.ParseKeywordsAsWritten | fix_heat_gran_radiation.cpp:88-136 | the constructor's parsing as written accepts only consistent configurations (a positive constant area, area correction only with overlap); its one read past the end is `arg[narg]` after a final `contact_area` |
| FixParams.ParseKeywords | fix_heat_gran_radiation.cpp:88-136 | the parsing with the arity check on `contact_area` accepts only consistent configurations and never reads past the last word |
| FixParams.Finish | fix_heat_gran_radiation.cpp:135-136 | the final check fails exactly when area correction is on with a mode other than overlap; otherwise the configuration and cursor are returned unchanged |
| FixParams.ParseArgs | fix_heat_gran_radiation.cpp:88-136 | the imperative keyword loop (cursor `iarg`, flag `hasargs`) returns exactly what the specification `ParseKeywords` gives, errors included; it is the corrected parser, which reports `NotEnoughArgs` where the code as written reads `arg[narg]` |
| FixParams.StepAccepts | fix_heat_gran_radiation.cpp:94-130 | every well-formed keyword is accepted and sets exactly its own field: `overlap`/`projection` the mode, `constant v` (v > 0) the mode and the area v, `area_correction` and `store_contact_data` yes/no their flag; the other fields are kept and the cursor moves by 2, or 3 for `constant` |
| FixParams.ProjectionCommand | fix_heat_gran_radiation.cpp:88-136 | the command with only `contact_area projection` parses to the default configuration with the projection model and the cursor at 7 |
| FixParams.StepAdvance | fix_heat_gran_radiation.cpp:94-130 | an accepted step is one of the three keywords and advances the cursor by 3 for `contact_area constant <v>` and by 2 otherwise |
| FixParams.StepRejects | fix_heat_gran_radiation.cpp:100-132 | each malformed keyword gives its own error: too few words after `contact_area constant`, a value ≤ 0, a mode word other than overlap/projection/constant, a yes/no keyword with a missing value or with a value other than yes/no; an unknown word is an error for style heat/gran/conduction and ends the loop otherwise |
| FixParams.ParsedConfigConsistent | fix_heat_gran_radiation.cpp:100-136 | every accepted configuration has a positive constant area (when constant) and area correction only with the overlap model |
| FixParams.ParseStopsAtEndOrUnknown | fix_heat_gran_radiation.cpp:91-132 | a successful parse ends at the last word, or, only for a style other than heat/gran/conduction, at a word that is no keyword |
| FixParams.GuardedParseReadsInBounds | fix_heat_gran_radiation.cpp:94-96 | with the arity check on `contact_area`, the parser never reads past the last word |
| FixParams.GuardOnlyRemovesUndefinedRead | fix_heat_gran_radiation.cpp:94-132 | the parser with the check added agrees with the code as written on every input except those where the code reads `arg[narg]`; there it reports the missing value |
| FixParams.ContactAreaLastWordReadsPastEnd | fix_heat_gran_radiation.cpp:94-96 | `contact_area` as the last word makes the code as written read `arg[narg]` |
| ContactGeometry.InContact | fix_heat_gran_radiation.cpp:560-571 | a pair the neighbour loop treats as touching always overlaps (`rsq < radsum²`), with or without history |
| ContactGeometry.ContactDecision | fix_heat_gran_radiation.cpp:550-571 | with history a pair is in contact iff its stored flag is set and `rsq < radsum²`; without history iff `rsq < radsum²` |
| ContactGeometry.CorrectedDistance | fix_heat_gran_radiation.cpp:578-583 | a ratio of 1 leaves the distance unchanged and a ratio of 0 moves it to `radsum` |
| ContactGeometry.CorrectionShrinksOverlap | fix_heat_gran_radiation.cpp:578-583 | for a touching pair and a ratio in [0, 1], the corrected distance lies between the true distance and `radsum`: the correction only shrinks the overlap |
| ContactGeometry.CorrectionKeepsContact | fix_heat_gran_radiation.cpp:578-583 | for a touching pair, any positive ratio leaves the corrected distance below `radsum`, so the pair still touches |
| ContactGeometry.AreaIgnoresGeometry | fix_heat_gran_radiation.cpp:595-601 | constant mode gives the configured area and projection mode `π·max(radi,radj)²`, whatever the distance and correction |
| ContactGeometry.OverlapInside | fix_heat_gran_radiation.cpp:575-590 | overlap mode with a (corrected) distance below the larger radius gives `π·min(radi,radj)²` |
| ContactGeometry.OverlapArea | fix_heat_gran_radiation.cpp:585-593 | every pair closer than the sum of its radii has a positive overlap area, in both branches; at distance exactly `radi + radj` the area is 0 |
| ContactGeometry.LensArea | fix_heat_gran_radiation.cpp:592-593 | the closed form is 0 when the spheres just touch and positive from the larger radius up to `radi + radj` |
| ContactGeometry.ContactArea | fix_heat_gran_radiation.cpp:575-601 | a touching pair has a positive contact area in every mode, given a positive constant area (which the parser guarantees) and a positive correction ratio |
| ContactGeometry.OverlapAreaSymmetric | fix_heat_gran_radiation.cpp:585-593 | the overlap area does not depend on which particle is i |
| ContactGeometry.OverlapAreaJumpsAtLargerRadius | fix_heat_gran_radiation.cpp:585-593 | for two unit spheres the area is π below distance 1 but 3π/4 at distance 1: the two branches do not meet |
| FluxKernels.CorrectedConductivity | fix_heat_gran_radiation.cpp:605-606 | the base conductivity holds at 273.15 K; the corrected value is larger exactly above that temperature and smaller exactly below it |
| FluxKernels.HeatTransferCoeff | fix_heat_gran_radiation.cpp:609-610 | `hc` is 0 when either conductivity is below the threshold, and positive for two conducting particles with a positive root of the area |
| FluxKernels.ConductionFlux | fix_heat_gran_radiation.cpp:612 | with a positive `hc` the flux into i is positive exactly when j is hotter and negative exactly when j is colder; no conductance or equal temperatures give 0 |
| FluxKernels.ViewFactor | fix_heat_gran_radiation.cpp:481-482 | the view factor is positive exactly when `0.000052·disless² < 0.064`, i.e. up to a normalised distance of about 35 |
| FluxKernels.RadiationFlux | fix_heat_gran_radiation.cpp:480-492 | equal temperatures exchange nothing; where the view factor is positive, heat radiates from the hotter to the colder particle (absolute temperatures, not negative) |
| FluxKernels.NoConductanceNoFlux | fix_heat_gran_radiation.cpp:605-612 | if either temperature-corrected conductivity is below the threshold, `hc` and the conduction flux are 0 |
| FluxKernels.ConductionAntisymmetric | fix_heat_gran_radiation.cpp:605-612 | exchanging the two particles negates the conduction flux |
| FluxKernels.ConductionFlowsDownhill | fix_heat_gran_radiation.cpp:609-612 | with conducting particles and a positive root of the area, heat flows from the hotter particle to the colder |
| FluxKernels.RadiationZeroAtEqualTemperatures | fix_heat_gran_radiation.cpp:480-492 | equal temperatures exchange no radiation |
| FluxKernels.RadiationAntisymmetricInTemperatures | fix_heat_gran_radiation.cpp:480-492 | exchanging the temperatures at fixed geometry negates the radiative flux |
| FluxKernels.RadiationDependsOnPairOrder | fix_heat_gran_radiation.cpp:480-492 | because only j's radius enters, the flux for (i, j) is not the negation of the flux for (j, i) when the radii differ |
| Accumulation.Side | fix_heat_gran_radiation.cpp:617-641 | one side of a pair keeps the accumulators the same size, changes nothing for an index that has no accumulator, and leaves the statistics alone unless a contact area is stored |
| Accumulation.Apply | fix_heat_gran_radiation.cpp:500-518 | processing one pair keeps every accumulator the same length; what it adds and where is stated by `ApplyHeatSum` and `ApplyDirectionalSplit` |
| Accumulation.ApplyAll | fix_heat_gran_radiation.cpp:462-530 | processing a sequence of pairs keeps every accumulator the same length; its heat balance and statistics are stated by `ApplyAllHeatSum` and `ApplyAllStats` |
| Accumulation.Records | fix_heat_gran_radiation.cpp:523 | a forwarding pass hands the consumer one `add_heat` record per pair |
| Accumulation.RecordsContents | fix_heat_gran_radiation.cpp:523 | record k holds pair k's particles i and j and its flux |
| Accumulation.Reset | fix_heat_gran_radiation.cpp:447-451 | the contact areas and counts become 0 in every entry and the heat and directional fluxes are unchanged; that `set_all(0.)` zeroes ghost entries as well as owned ones is an assumption of the model, since `FixPropertyAtom::set_all` is not part of it |
| Accumulation.Finalise | fix_heat_gran_radiation.cpp:659-664 | averaging the areas keeps the accumulators consistent in size; which entries change is stated by `FinaliseOnlyAverages` |
| Accumulation.PassResult | fix_heat_gran_radiation.cpp:447-664 | a whole pass keeps every accumulator the same length; its effect is stated by `MeanContactArea`, `ForwardingKeepsAccumulators` and `NewtonPairConserves` |
| Accumulation.ApplyHeatSum | fix_heat_gran_radiation.cpp:506-518 | one pair changes the total heat flux by 0 when both sides are updated, and by its flux otherwise |
| Accumulation.ApplyOneSided | fix_heat_gran_radiation.cpp:617-630 | a one-sided pair (`newton_pair \|\| j < nlocal` false) gives i `+flux`, the half vector and, when stored, the area and one contact; j and every other particle are unchanged |
| Accumulation.ApplyDirectionalSplit | fix_heat_gran_radiation.cpp:506-518 | a two-sided pair adds `flux` to i and subtracts it from j; both get the identical half of the directional flux, the halves sum to the whole, and no other particle changes |
| Accumulation.ApplyAllHeatSum | fix_heat_gran_radiation.cpp:617-642 | over a sequence of pairs the total heat flux changes by exactly the flux of the one-sided pairs |
| Accumulation.HeatConserved | fix_heat_gran_radiation.cpp:617-642 | when every pair updates both sides, the total heat flux is unchanged |
| Accumulation.ApplyAllKeepsStats | fix_heat_gran_radiation.cpp:625-641 | pairs without a contact area, or a pass that stores no contact data, leave contact areas and counts alone |
| Accumulation.ApplyAllStats | fix_heat_gran_radiation.cpp:625-641 | with contact data stored, each particle's count grows by the contact sides that land on it and its area by their areas |
| Accumulation.MeanContactArea | fix_heat_gran_radiation.cpp:447-664 | after a stored, accumulating pass each owned particle's count is its number of contact sides and its area their mean (0 with none) |
| Accumulation.ForwardingKeepsAccumulators | fix_heat_gran_radiation.cpp:447-451 | a forwarding pass leaves the heat and directional accumulators unchanged and only zeroes the statistics when they are stored |
| Accumulation.FinaliseOnlyAverages | fix_heat_gran_radiation.cpp:659-664 | finalising divides area by count exactly for owned particles with count > 0.5 and changes nothing else |
| Accumulation.ApplyAllAppend | fix_heat_gran_radiation.cpp:462-648 | running two loops one after the other is running their concatenated pairs |
| PairEvents.RadEvent | fix_heat_gran_radiation.cpp:470-518 | a radiation pair (i, j) updates both sides and records no contact area |
| PairEvents.RadRow | fix_heat_gran_radiation.cpp:470-527 | row i up to column j holds `j - i - 1` pairs, none when `j <= i + 1` |
| PairEvents.RadRowShape | fix_heat_gran_radiation.cpp:470-527 | row i up to column j holds exactly the pairs (i, b) with i < b < j, in increasing order, each two-sided and without contact area |
| PairEvents.RadRows | fix_heat_gran_radiation.cpp:462-530 | rows 0 .. i-1 together hold `i·(2·nlocal - i - 1)/2` pairs |
| PairEvents.RadRowsShape | fix_heat_gran_radiation.cpp:462-530 | rows 0 .. i-1 hold exactly the pairs (a, b) with a < i and a < b < nlocal, in row-major order, each two-sided and without contact area |
| PairEvents.RadiationEvents | fix_heat_gran_radiation.cpp:462-530 | the radiation loop processes `nlocal·(nlocal - 1)/2` pairs |
| PairEvents.RadiationVisitsEachPairOnce | fix_heat_gran_radiation.cpp:462-470 | the radiation loop visits every owned pair i < j, and each exactly once, always two-sided and without contact area |
| PairEvents.Neighbour | fix_heat_gran_radiation.cpp:545-546 | `j & NEIGHMASK` is below 2^30 and leaves an entry without special-bond bits unchanged |
| PairEvents.InGroup | fix_heat_gran_radiation.cpp:548 | computes whether particle i or particle j is in the fix group; `ConductionContactTest` states that a pair with neither is skipped |
| PairEvents.Correction | fix_heat_gran_radiation.cpp:578-582 | a stiffness ratio is supplied exactly when area correction is on |
| PairEvents.ConductionPair | fix_heat_gran_radiation.cpp:575-630 | a conducting pair has a contact area and updates j exactly when `newton_pair \|\| j < nlocal` |
| PairEvents.CondEvent | fix_heat_gran_radiation.cpp:544-630 | a contributing entry is the pair (i, `j & NEIGHMASK`), has a contact area and updates j exactly when `newton_pair \|\| j < nlocal` |
| PairEvents.CondRow | fix_heat_gran_radiation.cpp:543-647 | neighbour entries 0 .. jj-1 of one list position give at most one pair each |
| PairEvents.CondRowShape | fix_heat_gran_radiation.cpp:543-647 | every pair of one list position has an owned i, an existing j and a contact area, and updates j exactly when `newton_pair \|\| j < nlocal` |
| PairEvents.CondRows | fix_heat_gran_radiation.cpp:534-648 | computes the pairs of list positions 0 .. ii-1 in loop order; `CondRowsShape` states their shape |
| PairEvents.CondRowsShape | fix_heat_gran_radiation.cpp:534-648 | every pair of list positions 0 .. ii-1 has an owned i, an existing j and a contact area, and updates j exactly when `newton_pair \|\| j < nlocal` |
| PairEvents.ConductionEvents | fix_heat_gran_radiation.cpp:534-648 | computes the pairs of the whole conduction loop in order; `EventsInRange` and `GhostPairsLeak` state what they contain and what they do to the heat balance |
| PairEvents.Events | fix_heat_gran_radiation.cpp:462-648 | computes the pairs of one pass, radiation first and then conduction; `EventsApply`, `EventsRecords` and `EventsInRange` state what they do |
| PairEvents.ConductionContactTest | fix_heat_gran_radiation.cpp:548-571 | an entry contributes iff one of the two particles is in the fix group and the pair is in contact; with history the stored flag must also be set, and a stale flag is skipped |
| PairEvents.ConductionContribution | fix_heat_gran_radiation.cpp:575-616 | a contributing pair carries the area of the selected model at distance `sqrt(rsq)`, the flux `(T_j - T_i)·hc` for the corrected conductivities of its two types, the directional flux `flux·del`, and zero flux when either conductivity is below the threshold |
| PairEvents.EventsApply | fix_heat_gran_radiation.cpp:462-648 | a pass is its radiation loop followed by its conduction loop |
| PairEvents.EventsRecords | fix_heat_gran_radiation.cpp:523-645 | a forwarding pass hands over the radiation records and then the conduction records |
| PairEvents.EventsInRange | fix_heat_gran_radiation.cpp:462-546 | every pair of a pass names particles that exist |
| PairEvents.NewtonPairConserves | fix_heat_gran_radiation.cpp:462-648 | with `newton_pair`, a whole pass leaves the total heat flux unchanged |
| PairEvents.GhostPairsLeak | fix_heat_gran_radiation.cpp:462-648 | without `newton_pair`, the total heat flux changes by exactly the flux of the conduction pairs with a ghost j |
| FixHeatGranRad.ConductivityTable | fix_heat_gran_radiation.cpp:278-290 | the table succeeds iff no type's conductivity is negative; it then holds the first `max_type` values, and otherwise reports the negative-conductivity error |
| FixHeatGranRad.BuildConductivityTable | fix_heat_gran_radiation.cpp:278-290 | the double loop over type pairs returns exactly `ConductivityTable` |
| FixHeatGranRad.PairLocalConsumer.AddHeat | fix_heat_gran_radiation.cpp:523 | `add_heat(i, j, flux)` appends one record to what the compute has received |
| FixHeatGranRad.Fix.Register | fix_heat_gran_radiation.cpp:671-677 | registering while a compute is registered fails and keeps the old one; otherwise the pointer is registered |
| FixHeatGranRad.Fix.Unregister | fix_heat_gran_radiation.cpp:679-685 | unregistering a pointer other than the registered one fails and changes nothing; otherwise no compute is registered afterwards |
| FixHeatGranRad.Fix.Init | fix_heat_gran_radiation.cpp:278-317 | `init` fails on a negative conductivity, then on area correction without a granular pair style; on success the table holds the type conductivities and, with correction, the given ratios |
| FixHeatGranRad.Fix.Handle | fix_heat_gran_radiation.cpp:500-518 | the array updates for one pair equal `Apply` on the accumulators |
| FixHeatGranRad.Fix.ResetStats | fix_heat_gran_radiation.cpp:447-451 | the contact areas and counts become zero and heat fluxes are untouched (`Reset`) |
| FixHeatGranRad.Fix.FinaliseStats | fix_heat_gran_radiation.cpp:659-664 | the final loop leaves the arrays equal to `Finalise` of their old values |
| FixHeatGranRad.Fix.RadiationRow | fix_heat_gran_radiation.cpp:470-527 | row i of the radiation loop, accumulating, equals applying the row's pairs in order |
| FixHeatGranRad.Fix.RadiationPass | fix_heat_gran_radiation.cpp:462-530 | the radiation loop, accumulating, equals applying `RadiationEvents` in order |
| FixHeatGranRad.Fix.ForwardRadiationRow | fix_heat_gran_radiation.cpp:470-527 | row i, forwarding, appends the row's records to the compute and touches no array |
| FixHeatGranRad.Fix.ForwardRadiation | fix_heat_gran_radiation.cpp:462-530 | the radiation loop, forwarding, appends the records of `RadiationEvents` |
| FixHeatGranRad.Fix.ConductionRow | fix_heat_gran_radiation.cpp:534-647 | the neighbours of one list entry, accumulating, equal applying that row's contributing pairs |
| FixHeatGranRad.Fix.ConductionPass | fix_heat_gran_radiation.cpp:534-648 | the conduction loop, accumulating, equals applying `ConductionEvents` in order |
| FixHeatGranRad.Fix.ForwardConductionRow | fix_heat_gran_radiation.cpp:534-647 | one list entry, forwarding, appends that row's records |
| FixHeatGranRad.Fix.ForwardConduction | fix_heat_gran_radiation.cpp:534-648 | the conduction loop, forwarding, appends the records of `ConductionEvents` |
| FixHeatGranRad.Fix.PostForceEval | fix_heat_gran_radiation.cpp:409-665 | a pass leaves the arrays equal to `PassResult` (reset, apply or forward, finalise), and the compute receives every pair's record exactly when forwarding |
| FixHeatGranRad.Fix.PostForce | fix_heat_gran_radiation.cpp:365-382 | `post_force` runs the accumulating pass for `history_flag` and the area mode, hands nothing to the compute, and does nothing for a `history_flag` other than 0 or 1 |
| FixHeatGranRad.Fix.CplEvaluate | fix_heat_gran_radiation.cpp:386-404 | a caller other than the registered compute is refused with nothing changed; otherwise the pass forwards every pair to the compute and only resets the statistics |
| FixHeatGranRad.RegistrationProtocol | fix_heat_gran_radiation.cpp:671-685 | on a fresh fix: register A succeeds, register B fails, unregister B fails, unregister A succeeds, then register B succeeds |

## Left out

- `do_reverse_comm` (lines 651-657) is left out. It runs only with `newton_pair`. It folds all four accumulators of the ghost entries back onto the owning particles: the heat flux, the directional heat flux, the contact area and the contact count. This happens before the averaging of lines 659-664.
  - With `newton_pair`, `NewtonPairConserves` shows the pass balances over owned and ghost entries together.
  - Without `newton_pair` there is no reverse communication. The process that owns j evaluates the pair itself, and `GhostPairsLeak` gives the heat this process's pass leaves unbalanced.
- Accumulation.MeanContactArea and FixHeatGranRad.Fix.PostForceEval: an owned particle's final contact count and mean area cover only the contact sides that land in its own entry. They match the program only when no contact side lands in a ghost entry. That holds with `newton_pair` off, or when no conduction pair has a ghost j. Otherwise the program first adds the ghost entry's area and count to the owner, which the model does not do.
- The area-correction ratio table of `init` (lines 319-342) is left out. It uses `pow` with the pair style's stress-strain exponent. `Fix.Init` takes the ratios as an input.
- The `atom->cond` writes (lines 271-299 and 607-608) are left out. They are a side channel that nothing in this pass reads. The temperature-corrected value at line 296, which line 297 overwrites, is also not modelled.
- `post_create`, `updatePtrs`, `setmask`, `pre_delete`, `pre_force` and the destructor are left out. They are host registration and storage plumbing, so the `find_fix_property` lookups are not modelled.
- The hybrid pair-style warnings (lines 424-427) are left out. They are diagnostics that do not change state.
- Floating point is not modelled. All quantities are mathematical reals.
  - `sqrt` is an uninterpreted host function.
  - `M_PI` and the Stefan-Boltzmann and view-factor constants are exact reals.
  - Rounding, infinities and NaN are not modelled. Radiation therefore requires owned particles to be at non-zero distance (`PairEvents.Separated`).
- Accumulation.Side is a total function. An index that has no accumulator leaves the accumulators unchanged, where the code would write out of bounds. `PairEvents.EventsInRange` proves that no pair of a pass has such an index. `Fix.Handle` requires both indices in range.
- FixHeatGranRad.Fix.PostForce and FixHeatGranRad.Fix.CplEvaluate take the particle state, neighbour list and host settings as parameters. In the source these come from `atom`, `force` and the pair style's lists.

## Findings

| source | as written | input that shows it | evidently intended | confidence | as-written member | corrected member |
|---|---|---|---|---|---|---|
| fix_heat_gran_radiation.cpp:94-96 | `contact_area` reads `arg[iarg_+1]` without checking that a word follows. The other two keywords check `iarg_+2 > narg` first. | `fix hf all heat/gran/radiation initial_temperature 300 contact_area` (narg = 6): the code reads `arg[6]`, past the last word | report "not enough arguments for keyword 'contact_area'", like `area_correction` and `store_contact_data` | high; not executed | FixParams.ContactAreaLastWordReadsPastEnd | FixParams.GuardedParseReadsInBounds |
