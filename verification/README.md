# SuperNEMO half-life limit and plot modules, modelled in Dafny

This project models three analysis modules of the SuperNEMO Falaise
pipeline (the `PlotModule` analysis plug-in). Each module fills 1-D
histograms in a shared histogram pool.

- **`halflife_limit_module`** works per event and then at reset.
  - Per event: it counts the electrons, positrons and undefined-charge
    particles that have one or two associated calorimeter hits. It sums
    their calorimeter energy once per geometry id. Events with exactly
    two electrons fill an `energy` histogram, named after the event header
    fields and the charge multiplicities (`<fields>2e-<m>e+<k>u`, where
    each header field contributes its value and a `_`).
  - At reset, the efficiency pass turns every energy histogram into an
    `<name>_efficiency` histogram. Bin `i` holds the weighted number of
    entries at or above bin `i`. The histogram is flagged signal when its
    name mentions `0nubb`, background otherwise.
  - Then the limit pass normalises each background efficiency histogram
    to an expected number of events. The factor comes from the
    two-neutrino rate or from an element's activity. The pass sums the
    backgrounds bin by bin. For every signal histogram it writes
    `<name>_halflife`: the half-life limit the signal efficiency and the
    Feldman–Cousins exclusion of the summed background imply.
  - The `experiment.` configuration (mass number, mass, reference
    half-life, exposure, background activities) is read by
    `experiment_entry_type::initialize`.
- **`universal_plot_module`** keeps events whose topology pattern is `1e`.
  The electron energy fills an `energy_distrib` histogram named after the
  header fields. The first event whose weight can be computed stores it
  on the histogram; the fill comes before the weight, so an event whose
  weight throws still fills. The weight is derived from the generator
  label (`0nubb`, `2nubb`, `Tl208`, `Bi214_Po214` with its vertex origin)
  and the generator's own weight.
- **`vertices_plot_module`** keeps events whose pattern is `2e`. The
  vertex probability and the three vertex distances each fill a
  histogram of the `vertices` group. Invalid values are skipped.

Modules, in dependency order:

| module | file | content |
|---|---|---|
| `Wrappers` | wrappers.dfy | `Option`, `Result`. `Value` is a real or NaN, with NaN-propagating arithmetic. |
| `Text` | text.dfy | substring search (`std::string::find`), natural-number rendering and parsing |
| `OrderedMap` | ordered_map.dfy | sorted association lists, modelling `std::map` and the pool's name order |
| `Histogram` | histogram.dfy | histograms, the pool, get-or-create, fill, set, scale, group and flag listings |
| `Event` | event.dfy | header properties, particle track data, topology patterns, process status |
| `KeyBuilder` | key_builder.dfy | histogram names built from header fields, and their decoding |
| `Classifier` | classifier.dfy | the particle loop of the half-life module |
| `HalflifeProcess` | halflife_process.dfy | `halflife_limit_module::process` |
| `Efficiency` | efficiency.dfy | `_compute_efficiency` |
| `Experiment` | experiment.dfy | `experiment_entry_type::initialize` |
| `FeldmanCousins` | feldman_cousins.dfy | `get_number_of_excluded_events` |
| `HalflifeLimit` | limit.dfy | `_compute_halflife` and `reset` |
| `EnergyPlot` | energy_plot.dfy | `universal_plot_module::process` |
| `VerticesPlot` | vertices_plot.dfy | `vertices_plot_module::process` |

How the model represents the source:

- Reals are Dafny `real`s. A NaN is `None`.
- A division by zero is modelled as NaN. Arithmetic on NaN gives NaN.
- Exceptions are a `Raised` status. It carries the pool as it stood when
  the exception was thrown.
- The square root, `std::log(2)`, the Avogadro constant and the CLHEP
  units are parameters.
- Histogram templates are a `Templates` parameter. It gives a template's
  bin count and the bin a value falls in.

Where the code and the module's documentation differ, the model follows
the code:

- At exactly 29 expected background events, `get_number_of_excluded_events`
  uses the Gaussian form, because the polynomial is used only for `n < 29`.
  `FeldmanCousins.DropAtBoundary` shows the two forms do not meet there.
- The universal plot module selects the `1e` pattern, although its warning
  text speaks of `2e`.

## Model

| member | source | states |
|---|---|---|
| FeldmanCousins.NoBackground | source/falaise/snemo/analysis/halflife_limit_module.cc:41-51 | With no expected background, the approximation excludes 2.5617 events. |
| FeldmanCousins.GaussianRegime | source/falaise/snemo/analysis/halflife_limit_module.cc:52-55 | From 29 expected events on, the excluded count is non-negative and its square is 1.64² times the background: the one-sided Gaussian bound. |
| FeldmanCousins.GaussianMonotone | source/falaise/snemo/analysis/halflife_limit_module.cc:52-55 | In the Gaussian regime, more expected background never excludes fewer events. |
| FeldmanCousins.DropAtBoundary | source/falaise/snemo/analysis/halflife_limit_module.cc:44-55 | The two branches do not join. Just below 29 the fit excludes more than 10.1 events, and at 29 the Gaussian form excludes fewer than 8.86. |
| Experiment.ActivitiesFromEffect | source/falaise/snemo/analysis/halflife_limit_module.cc:83-103 | The background-list loop fails exactly when some listed element has no real `<name>.activity`. Otherwise every listed element maps to its activity, and every other entry is kept. |
| Experiment.ActivityOf | source/falaise/snemo/analysis/halflife_limit_module.cc:91-98 | An activity that was read is a real property, taken as written when it carries a unit and in becquerel per kilogram otherwise. |
| Experiment.InitializeEffect | source/falaise/snemo/analysis/halflife_limit_module.cc:60-105 | Reading the section succeeds exactly when every present key has the expected type and every listed element has an activity. Then each absent key keeps the prior condition; the mass number is in g/mol, the mass in kg unless written with a unit; listed elements record their activities and the others keep theirs. |
| Classifier.AddHitsMatchesReference | source/falaise/snemo/analysis/halflife_limit_module.cc:349-361 | From any earlier state, the calorimeter-hit loop yields the energy summed over the first hit of each geometry id, and the set of all ids seen: the reference definition. |
| Classifier.ClassifyEnergy | source/falaise/snemo/analysis/halflife_limit_module.cc:325-367 | The total energy of an event sums, over the hits of the counted particles, the first hit of each geometry id. The ids seen are exactly those hits' ids. |
| Classifier.FirstOccurrencesOnce | source/falaise/snemo/analysis/halflife_limit_module.cc:349-356 | Each geometry id contributes at most one hit, and every id among the hits contributes one. |
| Classifier.ClassifyStep | source/falaise/snemo/analysis/halflife_limit_module.cc:332-365 | A particle with no calorimeter hit, or more than two, changes nothing. Any other particle raises exactly one counter, the one its charge selects (negative: electrons, positive: positrons, else undefined). |
| Classifier.ClassifyCountsCounted | source/falaise/snemo/analysis/halflife_limit_module.cc:325-367 | The three charge counters add up to the number of particles with one or two calorimeter hits. |
| Text.ContainsIffAt | source/falaise/snemo/analysis/halflife_limit_module.cc:541 | A name contains a token (`find` does not return `npos`) exactly when the token occurs at some position of the name. |
| Text.ParseRendered | source/falaise/snemo/analysis/halflife_limit_module.cc:407 | Reading back the decimal rendering of a counter gives the counter. |
| KeyBuilder.FieldPartAppend | source/falaise/snemo/analysis/halflife_limit_module.cc:376-402 | The field part of a key is built field by field in declared order: the key for a concatenation of field lists is the concatenation of their keys. |
| KeyBuilder.FieldPartSingle | source/falaise/snemo/analysis/halflife_limit_module.cc:380-402 | A scalar header field contributes its rendering followed by `_`. A missing or vector field contributes nothing. |
| KeyBuilder.SkippedFieldIsInvisible | source/falaise/snemo/analysis/halflife_limit_module.cc:380-393 | Declaring a field that is missing from the header, or a vector, gives the same key as not declaring it. |
| KeyBuilder.FieldPartEndsWithSeparator | source/falaise/snemo/analysis/halflife_limit_module.cc:400-401 | The field part is empty or ends with the `_` separator. |
| KeyBuilder.DecodeChargeKeyRoundTrip | source/falaise/snemo/analysis/halflife_limit_module.cc:372-407 | A half-life module key decodes back to its field part and its three charge multiplicities. |
| KeyBuilder.NameSpacesDisjoint | source/falaise/snemo/analysis/universal_plot_module.cc:233-265 | A universal-plot key (`…energy`) never equals a half-life module key (`…<n>e-<n>e+<n>u`) and is never decoded as one. |
| Histogram.GetOrCreate | source/falaise/snemo/analysis/halflife_limit_module.cc:433-441 | Afterwards the name is present. An existing histogram is left untouched. A new one is an empty mimic of the template in the given group. Every other name is unchanged. |
| Histogram.GetOrCreateIdempotent | source/falaise/snemo/analysis/halflife_limit_module.cc:434-441 | Getting or creating a histogram a second time changes nothing. |
| Histogram.InGroup | source/falaise/snemo/analysis/halflife_limit_module.cc:476-477 | `names(…, "group=g")` lists exactly the histograms of group `g`, each once, in name order. |
| Histogram.WithFlag | source/falaise/snemo/analysis/halflife_limit_module.cc:579-580 | `names(…, "flag=f")` lists exactly the histograms carrying flag `f`, each once, in name order. |
| Histogram.FillCountsOneEntry | source/falaise/snemo/analysis/halflife_limit_module.cc:445 | A fill inside the binning adds exactly one entry to a valid total. A fill outside it changes nothing. |
| Histogram.Accumulate | source/falaise/snemo/analysis/vertices_plot_module.cc:192-213 | Get-or-create followed by a fill guarded by `is_valid`: the named histogram becomes the prior one (or a new mimic), filled when the value is valid. Every other name is unchanged. |
| HalflifeProcess.Process | source/falaise/snemo/analysis/halflife_limit_module.cc:258-468 | A missing header or particle-track bank stops the chain. An event with unassociated calorimeter hits, or without exactly two electrons, continues with the pool unchanged. Success happens exactly for the accepted events, and then only the event's histogram changes: it is filled with the total energy and keeps the first weight, 1. |
| HalflifeProcess.FillAndWeigh | source/falaise/snemo/analysis/halflife_limit_module.cc:444-465 | Filling and weighing keep group, binning, flags and bin count. The weight is the existing one, or 1. The fill adds one entry inside the binning and nothing outside it. |
| HalflifeProcess.AcceptedEventEffect | source/falaise/snemo/analysis/halflife_limit_module.cc:426-467 | An accepted event's histogram exists afterwards; a new one is in group `energy`, mimics `energy_template` and weighs 1. Its name decodes to two electrons. |
| HalflifeProcess.RepeatedEventReusesHistogram | source/falaise/snemo/analysis/halflife_limit_module.cc:433-465 | A second event with the same key fills the same histogram: weight, group, binning and bin count are those left by the first. |
| Efficiency.Efficiencies | source/falaise/snemo/analysis/halflife_limit_module.cc:496-505 | There is one value per bin, and an invalid bin writes nothing. |
| Efficiency.EfficiencyAt | source/falaise/snemo/analysis/halflife_limit_module.cc:496-522 | Bin `i` of a valid bin receives (sum − the valid bins before `i`) × weight. |
| Efficiency.TailSum | source/falaise/snemo/analysis/halflife_limit_module.cc:498-516 | With all bins valid, efficiency bin `i` is the weighted number of entries at or above bin `i`. |
| Efficiency.FirstAndLastBin | source/falaise/snemo/analysis/halflife_limit_module.cc:498-516 | With all bins valid, the first efficiency bin is the weighted total and the last is the weighted last bin. |
| Efficiency.InvalidBinSpoilsAll | source/falaise/snemo/analysis/halflife_limit_module.cc:498-522 | One invalid bin makes the sum invalid, so no bin of that histogram yields an efficiency. |
| Efficiency.ThreeBinExample | source/falaise/snemo/analysis/halflife_limit_module.cc:515-516 | Bins 3, 2, 5 with weight 1 give efficiencies 10, 7, 5. |
| Efficiency.WriteOne | source/falaise/snemo/analysis/halflife_limit_module.cc:525-548 | One write sets the bin and adds the flag on the efficiency histogram, which is created if needed. Nothing else changes. |
| Efficiency.WriteUpToEffect | source/falaise/snemo/analysis/halflife_limit_module.cc:496-549 | After the inner loop, the efficiency histogram is untouched when no bin was written. Otherwise it is the prior (or new) histogram with every written bin replaced and the flag added. Nothing else changes. |
| Efficiency.DeriveEffect | source/falaise/snemo/analysis/halflife_limit_module.cc:487-550 | One outer iteration changes only `<name>_efficiency`. |
| Efficiency.InvalidHistogramDerivesNothing | source/falaise/snemo/analysis/halflife_limit_module.cc:498-522 | An energy histogram with an invalid bin leaves the pool unchanged. |
| Efficiency.NewEfficiencyHistogram | source/falaise/snemo/analysis/halflife_limit_module.cc:525-548 | A created efficiency histogram is in group `efficiency` and mimics `halflife_limit_efficiency_template`. Its only flag is signal exactly when the name contains `0nubb`, and background otherwise. |
| Efficiency.TargetAfterIdempotent | source/falaise/snemo/analysis/halflife_limit_module.cc:487-550 | Deriving the same efficiencies twice has the effect of deriving them once. |
| Efficiency.EfficiencyNameInjective | source/falaise/snemo/analysis/halflife_limit_module.cc:525 | Distinct energy histograms get distinct efficiency names, and no efficiency name is its own source. |
| Efficiency.DeriveAllEffect | source/falaise/snemo/analysis/halflife_limit_module.cc:487-550 | When no efficiency name is itself an energy histogram, each `<name>_efficiency` becomes what its own energy histogram derives, and nothing else changes. |
| Efficiency.ComputeEfficiencyIdempotent | source/falaise/snemo/analysis/halflife_limit_module.cc:470-553 | Without name collisions, running the efficiency pass twice gives the same pool as running it once. |
| HalflifeLimit.LastMatchWins | source/falaise/snemo/analysis/halflife_limit_module.cc:613-637 | The activity scan overwrites the factor at every matching element. The factor kept is that of the last matching element in key order, and none when no element matches. |
| HalflifeLimit.NormFactorCases | source/falaise/snemo/analysis/halflife_limit_module.cc:604-643 | A name containing `2nubb` uses the two-neutrino rate. Any other name has no factor exactly when no element matches, and otherwise takes the factor of the last matching element. |
| HalflifeLimit.RadonUsesWireMass | source/falaise/snemo/analysis/halflife_limit_module.cc:621-626 | `Rn222_wire_2e-0e+0u_efficiency`, when `Rn222` is the last matching element, is normalised with the 15.2 kg wire mass instead of the source mass. |
| HalflifeLimit.CountAllSums | source/falaise/snemo/analysis/halflife_limit_module.cc:589-662 | The background loop throws exactly when some counted histogram has more bins than the first counted histogram with bins. Otherwise the counts hold one entry per bin of that first histogram, each the sum over counted histograms of that bin times the histogram's factor; they stay empty when no counted histogram has bins. |
| HalflifeLimit.TwoBackgroundsExample | source/falaise/snemo/analysis/halflife_limit_module.cc:589-662 | A pool holding `Bi214_efficiency` with bins (10, 0) and `Tl208_efficiency` with bins (0, 10), both flagged as backgrounds, with activities 2 and 3, unit masses and a one-second exposure, goes through the background loop without throwing and leaves the counts (20, 30). |
| HalflifeLimit.RaisedSticks | source/falaise/snemo/analysis/halflife_limit_module.cc:589-662 | Once `vbkg_counts.at` has thrown, the rest of the background loop does nothing. |
| HalflifeLimit.CountAllEffect | source/falaise/snemo/analysis/halflife_limit_module.cc:589-662 | When the background loop does not throw, each listed histogram that is in group `efficiency` and has a factor is rescaled by it, and every other histogram is unchanged. |
| HalflifeLimit.UniformBackgroundsDoNotRaise | source/falaise/snemo/analysis/halflife_limit_module.cc:647-655 | When all counted backgrounds have the same bin count, the loop does not throw. The counts are then empty or have one entry per bin. |
| HalflifeLimit.NothingCounted | source/falaise/snemo/analysis/halflife_limit_module.cc:597-643 | When no background histogram is counted, the loop leaves the pool and the empty counts as they were. |
| HalflifeLimit.BackgroundFreeBin | source/falaise/snemo/analysis/halflife_limit_module.cc:693-695 | A bin with no expected background gets the limit efficiency / 2.5617 × kbg × T½(2ν). |
| HalflifeLimit.SetHalflivesEffect | source/falaise/snemo/analysis/halflife_limit_module.cc:688-714 | After the first `n` bins, the `<name>_halflife` histogram is the prior (or new) one with those bins replaced. Nothing else changes. |
| HalflifeLimit.LimitOneEffect | source/falaise/snemo/analysis/halflife_limit_module.cc:673-717 | One signal iteration throws exactly when its histogram is in group `efficiency` and has more bins than the counts. It writes only `<name>_halflife`, and a histogram outside the group is skipped. |
| HalflifeLimit.LimitAllEffect | source/falaise/snemo/analysis/halflife_limit_module.cc:673-717 | The signal loop throws exactly when some processed histogram outruns the counts. Otherwise each processed histogram's `<name>_halflife` is what that histogram implies, and nothing else changes. |
| HalflifeLimit.RaisedStageSticks | source/falaise/snemo/analysis/halflife_limit_module.cc:673-717 | Once the signal loop has thrown, the remaining iterations do nothing. |
| HalflifeLimit.HalflifeNameInjective | source/falaise/snemo/analysis/halflife_limit_module.cc:701 | Distinct signal histograms get distinct `_halflife` names. |
| HalflifeLimit.BestLimitIsMaximum | source/falaise/snemo/analysis/halflife_limit_module.cc:676-698 | The best limit is non-negative and at least every valid limit. It is either 0 or one of the limits. |
| HalflifeLimit.ComputeHalflife | source/falaise/snemo/analysis/halflife_limit_module.cc:555-585 | The pass succeeds or throws. It changes nothing when there is no efficiency histogram or no background histogram. |
| HalflifeLimit.Reset | source/falaise/snemo/analysis/halflife_limit_module.cc:217-227 | Reset succeeds or throws. It changes nothing when the pool has neither energy nor efficiency histograms. |
| HalflifeLimit.NothingCountedRaises | source/falaise/snemo/analysis/halflife_limit_module.cc:647-693 | With no background histogram counted, a signal efficiency histogram with a bin makes `vbkg_counts.at(0)` throw. |
| HalflifeLimit.HalflifePassEffect | source/falaise/snemo/analysis/halflife_limit_module.cc:555-718 | A pass whose counted backgrounds do not fit the counts throws. A successful pass found that they fit and rescaled every counted background. Every signal efficiency histogram gets the half-life histogram its (possibly rescaled) bins and the per-bin background sums of HalflifeLimit.CountAllSums imply. Every other histogram, except the `<name>_halflife` of a signal histogram, is left as it was. |
| EnergyPlot.DivisionChain | source/falaise/snemo/analysis/universal_plot_module.cc:282-301 | The chain of conditional divisions equals one divided by the product of the selected scales. |
| EnergyPlot.LabelWeightIsReciprocalDivisor | source/falaise/snemo/analysis/universal_plot_module.cc:282-301 | The label weight throws exactly when a present label, or the origin it needs, cannot be fetched as a string. Without a label it is 1. Otherwise it is one over the product of the divisors the label and origin select. |
| EnergyPlot.EventWeightFactors | source/falaise/snemo/analysis/universal_plot_module.cc:282-306 | The event weight throws exactly when the label weight does or the generator weight is not a real. Otherwise it is the label weight times the generator weight, when one is present. |
| EnergyPlot.SignalWeight | source/falaise/snemo/analysis/universal_plot_module.cc:282-290 | A `Se82.0nubb` event without a generator weight weighs 1/96000. |
| EnergyPlot.Process | source/falaise/snemo/analysis/universal_plot_module.cc:167-316 | A missing bank stops the chain. A missing topology or pattern is an error. A pattern other than `1e` continues. Success happens exactly for `1e` events whose weight can be computed, and a weight failure throws. Only the event's histogram changes: it is filled when the energy is valid and keeps its first weight. |
| EnergyPlot.FirstWeightSticks | source/falaise/snemo/analysis/universal_plot_module.cc:308-312 | Once stored, a histogram's weight is never replaced by a later event's. A new histogram gets the first event's weight. |
| EnergyPlot.InvalidEnergyFillsNothing | source/falaise/snemo/analysis/universal_plot_module.cc:267-312 | An invalid energy leaves the bins as they were (empty for a new histogram), yet the weight is still stored when absent. |
| EnergyPlot.NewEnergyHistogram | source/falaise/snemo/analysis/universal_plot_module.cc:267-274 | The histogram an event creates is in `energy_distrib` and mimics `energy_template`. |
| VerticesPlot.Process | source/falaise/snemo/analysis/vertices_plot_module.cc:159-274 | A missing topology or pattern, or a pattern other than `2e`, is an error. Otherwise the probability and the three distances each fill their own histogram, invalid values are skipped, and nothing else changes. |
| VerticesPlot.NamesDistinct | source/falaise/snemo/analysis/vertices_plot_module.cc:192-269 | The four histogram names are pairwise distinct, so each fill is independent. |
| VerticesPlot.AccumulateFour | source/falaise/snemo/analysis/vertices_plot_module.cc:192-269 | Four accumulations into distinct names each see only their own histogram's prior state, and every other name is unchanged. |
| VerticesPlot.InvalidObservableIsSkipped | source/falaise/snemo/analysis/vertices_plot_module.cc:212-213 | An invalid observable leaves an existing histogram unchanged. A new histogram is in group `vertices` with the given template. An existing one keeps its group. |
| VerticesPlot.OnlyTwoElectronPatterns | source/falaise/snemo/analysis/vertices_plot_module.cc:185-190 | With a pattern present, the step succeeds exactly when its id is `2e`. Any other id leaves the pool unchanged. |

## Left out

- Module lifecycle, the `initialize` wiring of the modules, the service
  manager and the histogram-pool service are left out; configuration
  arrives as parameters. Reading an unknown experiment name's defaults is
  the `base` conditions parameter of `Experiment.Initialize`.
- Logging, `tree_dump`, `dump_result` and the `std::cout` line in the
  vertices module are left out: they produce output only.
- 2-D histograms are left out. The `has_1d` checks can then never throw.
- The internals of the histogram library (`mygsl`) are abstracted. Binning
  is a `Templates` parameter that gives bin counts and bin lookup. A
  `set` past the last bin is modelled as a no-op.
- IEEE floating point is left out: reals are exact. Rounding and
  non-associativity are not modelled. NaN is an explicit invalid value.
  Infinity from a division by zero is modelled as invalid.
- Calorimeter hit energies are plain reals, assumed finite: a NaN
  `get_energy()` would reach the unguarded energy fill at
  halflife_limit_module.cc:445, and the model cannot represent it.
- HalflifeProcess.Process: the trajectory and pattern reads made for
  every new calorimeter id of a counted particle
  (halflife_limit_module.cc:357-360) are not modelled, since the pattern
  id is never used. A counted particle without a trajectory is assumed
  not to occur; the source would read through an empty handle there.
- `ostream` formatting of real header fields is not modelled: a real
  property carries its own rendering.
- The `dynamic_cast` of the pattern and the lookup of the `vertex_e1_e2`
  measurement are assumed to succeed once the pattern id matches.
- The value of `mctools::event_utils::EVENT_GENBB_WEIGHT` is defined in a
  library that is not part of this model. It is assumed to be
  `genbb.weight`.
- `std::sqrt`, `std::log(2)`, CLHEP's Avogadro constant and unit values
  are parameters, not computed.
- After the two passes, `reset` logs a dump, marks the module
  uninitialised and restores its defaults. The module's own state is not
  modelled, only the pool it leaves.
- HalflifeLimit.BestLimit: the best limit is only logged by the source.
  It is modelled apart from the pass and does not change the pool.
- `control_plot_module` is not part of this model.
- Efficiency.ComputeEfficiencyIdempotent: holds only when no energy
  histogram is named like another's `_efficiency` histogram. Otherwise
  the pass writes into that energy histogram, and a second pass reads the
  altered bins. Efficiency.DeriveAllEffect makes the same assumption.
- HalflifeLimit.LimitAllEffect: assumes no `<name>_halflife` is itself one
  of the signal histograms, so that a write never alters a histogram the
  loop still has to read.
- HalflifeLimit.HalflifePassEffect: assumes no `<name>_halflife` is a
  signal or background histogram. Of the thrown cases it names only the
  background loop's; the signal loop's are covered by
  HalflifeLimit.LimitAllEffect and HalflifeLimit.NothingCountedRaises.
