/** The half-life module's limit pass, run at reset after the efficiency
    pass: the background efficiency histograms are normalised to expected
    event counts and summed bin by bin, and every signal efficiency
    histogram yields a histogram `<name>_halflife` holding, per bin, the
    half-life limit the signal efficiency and the Feldman–Cousins
    exclusion of the summed background imply. */
module HalflifeLimit {
  import opened Wrappers
  import opened OrderedMap
  import opened Histogram
  import opened Event
  import opened Text
  import opened Experiment
  import opened FeldmanCousins
  import Efficiency
  import HalflifeProcess

  const HalflifeGroup := "halflife"
  const HalflifeTemplate := "halflife_template"
  const HalflifeSuffix := "_halflife"

  /** The one background efficiency histogram normalised with the mass of
      the tracker wires rather than the source mass. */
  const RadonName := "Rn222_wire_2e-0e+0u_efficiency"
  const RadonElement := "Rn222"
  const WireMass: real := 15.2
  const TwoNeutrinoToken := "2nubb"

  const YearInSeconds: real := 3600.0 * 24.0 * 365.25

  /** The message `std::vector::at` raises for an index past the end. */
  const OutOfRange := "vector::_M_range_check"

  function HalflifeName(name: string): string {
    name + HalflifeSuffix
  }

  /** The expected number of two-neutrino decays over the exposure,
      evaluated as the source does, left to right; a zero divisor makes it
      invalid. */
  function Kbg(c: Conditions, u: Units): Value {
    var numerator := u.ln2 * c.mass * u.avogadro * c.exposure;
    Div(Div(Div(Some(numerator), Some(c.massNumber)), Some(u.mole)), Some(c.bb2nuHalflife))
  }

  // ---------------------------------------------------------------------
  // Normalisation of one background histogram.

  /** The activity entry `element` applies to the histogram `name`. */
  predicate Matches(name: string, element: string) {
    (name == RadonName && element == RadonElement) || Contains(name, element)
  }

  function MatcherFor(name: string): string -> bool {
    element => Matches(name, element)
  }

  /** The mass whose contamination the histogram `name` counts: the wire
      mass for radon on the wires, the source mass otherwise. */
  function ExposedMass(name: string, element: string, c: Conditions, u: Units): real {
    if name == RadonName && element == RadonElement then WireMass * u.kg else c.mass
  }

  /** The expected number of decays of `element` over the exposure. */
  function FactorOf(name: string, element: string, activity: real, c: Conditions, u: Units): real {
    activity / u.becquerel * c.exposure * YearInSeconds * ExposedMass(name, element, c, u)
  }

  /** The scan over the activities, in key order: each element `matches`
      accepts overwrites the factor. Returns the position of the element
      whose factor is kept, none when no element is accepted. */
  function ScanActivities(matches: string -> bool, acts: seq<(string, real)>): (r: Option<nat>)
    ensures r.Some? ==> r.value < |acts|
    decreases |acts|
  {
    if |acts| == 0 then None
    else if matches(acts[|acts| - 1].0) then Some(|acts| - 1)
    else ScanActivities(matches, acts[..|acts| - 1])
  }

  /** The normalisation factor of the background histogram `name`;
      invalid when no activity applies. */
  function NormFactor(name: string, c: Conditions, u: Units): Value {
    if Contains(name, TwoNeutrinoToken) then Kbg(c, u) else ActivityFactor(name, c, u)
  }

  /** The factor the activity scan yields for `name`. */
  function ActivityFactor(name: string, c: Conditions, u: Units): Value {
    var found := ScanActivities(MatcherFor(name), c.activities);
    if found.None? then None
    else Some(FactorOf(name, c.activities[found.value].0, c.activities[found.value].1, c, u))
  }

  /** No element after position `i` is accepted. */
  predicate NoneAfter(matches: string -> bool, acts: seq<(string, real)>, i: nat) {
    forall j :: i < j < |acts| ==> !matches(acts[j].0)
  }

  /** The scan is a search for the last accepted element: it finds
      nothing exactly when no element is accepted, and otherwise the
      accepted element that comes last in key order. */
  lemma {:induction false} LastMatchWins(matches: string -> bool, acts: seq<(string, real)>)
    ensures ScanActivities(matches, acts).None? <==> forall i :: 0 <= i < |acts| ==> !matches(acts[i].0)
    ensures forall i :: 0 <= i < |acts| ==>
              (ScanActivities(matches, acts) == Some(i) <==> matches(acts[i].0) && NoneAfter(matches, acts, i))
    decreases |acts|
  {
    if |acts| > 0 {
      var n := |acts| - 1;
      var front := acts[..n];
      LastMatchWins(matches, front);
      assert forall i :: 0 <= i < n ==> front[i] == acts[i];
      if matches(acts[n].0) {
        assert ScanActivities(matches, acts) == Some(n);
      } else {
        assert ScanActivities(matches, acts) == ScanActivities(matches, front);
        forall i | 0 <= i < n ensures NoneAfter(matches, acts, i) <==> NoneAfter(matches, front, i) {
        }
      }
    }
  }

  /** A two-neutrino background is normalised with `kbg`; any other is
      invalid exactly when no configured element applies to it, and
      otherwise takes the factor of the last element, in key order, that
      applies. */
  lemma NormFactorCases(name: string, c: Conditions, u: Units)
    ensures Contains(name, TwoNeutrinoToken) ==> NormFactor(name, c, u) == Kbg(c, u)
    ensures !Contains(name, TwoNeutrinoToken) ==>
      (NormFactor(name, c, u).None? <==> forall i :: 0 <= i < |c.activities| ==> !Matches(name, c.activities[i].0))
    ensures !Contains(name, TwoNeutrinoToken) ==>
      forall i :: 0 <= i < |c.activities| && LastApplying(name, c.activities, i)
                  ==> NormFactor(name, c, u) == Some(FactorOf(name, c.activities[i].0, c.activities[i].1, c, u))
  {
    if !Contains(name, TwoNeutrinoToken) {
      var matches := MatcherFor(name);
      var acts := c.activities;
      assert NormFactor(name, c, u) == ActivityFactor(name, c, u);
      LastMatchWins(matches, acts);
      assert forall i :: 0 <= i < |acts| ==> (matches(acts[i].0) <==> Matches(name, acts[i].0));
      forall i | 0 <= i < |acts| && LastApplying(name, acts, i)
        ensures ScanActivities(matches, acts) == Some(i)
      {
        assert matches(acts[i].0);
        assert NoneAfter(matches, acts, i);
      }
    }
  }

  /** The element at position `i` applies to `name`, and none after it. */
  predicate LastApplying(name: string, acts: seq<(string, real)>, i: nat)
    requires i < |acts|
  {
    Matches(name, acts[i].0) && forall j :: i < j < |acts| ==> !Matches(name, acts[j].0)
  }

  /** The radon histogram is normalised with the wire mass when radon is
      the last element that applies to it. */
  lemma RadonUsesWireMass(c: Conditions, u: Units, i: nat)
    requires i < |c.activities| && c.activities[i].0 == RadonElement
    requires forall j :: i < j < |c.activities| ==> !Matches(RadonName, c.activities[j].0)
    ensures NormFactor(RadonName, c, u) == Some(FactorOf(RadonName, RadonElement, c.activities[i].1, c, u))
    ensures ExposedMass(RadonName, RadonElement, c, u) == WireMass * u.kg
  {
    RadonIsNotTwoNeutrino();
    assert LastApplying(RadonName, c.activities, i);
    RadonScan(c.activities, i);
    FoundFactor(RadonName, c, u, i);
  }

  /** The factor of `name` is the one of the element the scan keeps. */
  lemma FoundFactor(name: string, c: Conditions, u: Units, i: nat)
    requires i < |c.activities| && ScanActivities(MatcherFor(name), c.activities) == Some(i)
    ensures ActivityFactor(name, c, u) == Some(FactorOf(name, c.activities[i].0, c.activities[i].1, c, u))
  {
  }

  lemma RadonScan(acts: seq<(string, real)>, i: nat)
    requires i < |acts| && LastApplying(RadonName, acts, i)
    ensures ScanActivities(MatcherFor(RadonName), acts) == Some(i)
  {
    var matches := MatcherFor(RadonName);
    LastMatchWins(matches, acts);
    assert matches(acts[i].0);
    assert NoneAfter(matches, acts, i);
  }

  lemma RadonIsNotTwoNeutrino()
    ensures !Contains(RadonName, TwoNeutrinoToken)
  {
    assert TwoNeutrinoToken[3] == 'b';
    MissingCharacter(RadonName, TwoNeutrinoToken, 3);
  }

  // ---------------------------------------------------------------------
  // The background loop.

  /** `vbkg_counts.at(i) += bins[i] * factor` for every bin of the
      histogram; defined when the counts are at least as long. */
  function AddScaled(counts: seq<Value>, bins: seq<Value>, factor: real): (r: seq<Value>)
    requires |bins| <= |counts|
    ensures |r| == |counts|
  {
    seq(|counts|, i requires 0 <= i < |counts| =>
      if i < |bins| then Add(counts[i], Mul(bins[i], Some(factor))) else counts[i])
  }

  /** The state of the background loop: the pool, the summed counts
      (empty until the first normalised histogram with bins) and the
      exception raised, if any. */
  datatype Counting = Counting(pool: Pool, counts: seq<Value>, raised: Option<string>)

  /** The background histogram `name` takes part in the sum. */
  predicate Counted(pool: Pool, name: string, c: Conditions, u: Units) {
    Has(pool, name) && Get(pool, name).group == Efficiency.EfficiencyGroup && NormFactor(name, c, u).Some?
  }

  /** One iteration of the background loop. A histogram outside the
      efficiency group, or without a factor, is skipped; otherwise its bins
      are added to the counts, which it must not outgrow, and it is
      rescaled by its factor. */
  function CountOne(s: Counting, name: string, c: Conditions, u: Units): Counting {
    if s.raised.Some? || !Counted(s.pool, name, c, u) then s
    else
      var h := Get(s.pool, name);
      var nf := NormFactor(name, c, u).value;
      var base := if |s.counts| == 0 then Zeros(|h.bins|) else s.counts;
      if |h.bins| > |base| then Counting(s.pool, s.counts, Some(OutOfRange))
      else Counting(Insert(s.pool, name, h.(bins := ScaleBins(h.bins, nf))), AddScaled(base, h.bins, nf), None)
  }

  /** The background loop over `names`, in order. */
  function CountAll(s: Counting, names: seq<string>, c: Conditions, u: Units): Counting
    decreases |names|
  {
    if |names| == 0 then s else CountOne(CountAll(s, names[..|names| - 1], c, u), names[|names| - 1], c, u)
  }

  /** What the background loop leaves under `k`: a counted histogram
      rescaled by its factor, anything else as it was. */
  function Rescaled(pool: Pool, k: string, c: Conditions, u: Units): Option<Histo> {
    if Counted(pool, k, c, u) then Some(Get(pool, k).(bins := ScaleBins(Get(pool, k).bins, NormFactor(k, c, u).value)))
    else Lookup(pool, k)
  }

  /** Once raised, the loop stays raised. */
  lemma {:induction false} RaisedSticks(s: Counting, names: seq<string>, c: Conditions, u: Units)
    requires s.raised.Some?
    ensures CountAll(s, names, c, u) == s
    decreases |names|
  {
    if |names| > 0 {
      RaisedSticks(s, names[..|names| - 1], c, u);
    }
  }

  /** The background loop over distinct names, when it does not raise,
      rescales exactly the counted histograms among them and leaves every
      other histogram as it was. */
  lemma {:induction false} CountAllEffect(pool: Pool, counts: seq<Value>, names: seq<string>, c: Conditions, u: Units)
    requires Increasing(names)
    ensures var r := CountAll(Counting(pool, counts, None), names, c, u);
      r.raised.None? ==>
        forall k :: Lookup(r.pool, k) == if k in names then Rescaled(pool, k, c, u) else Lookup(pool, k)
    decreases |names|
  {
    if |names| > 0 {
      var n := |names| - 1;
      var front, m := names[..n], names[n];
      assert names == front + [m];
      assert Increasing(front);
      var s := CountAll(Counting(pool, counts, None), front, c, u);
      var r := CountOne(s, m, c, u);
      if r.raised.None? {
        CountAllEffect(pool, counts, front, c, u);
        assert m !in front by {
          forall i | 0 <= i < n ensures front[i] != m {
            assert Less(names[i], names[n]);
            LessIrreflexive(m);
          }
        }
        assert Lookup(s.pool, m) == Lookup(pool, m);
        forall k ensures Lookup(r.pool, k) == if k in names then Rescaled(pool, k, c, u) else Lookup(pool, k) {
          if k != m {
            assert k in names <==> k in front;
          }
        }
      }
    }
  }

  /** All counted histograms among `names` have `n` bins. */
  predicate UniformBins(pool: Pool, names: seq<string>, c: Conditions, u: Units, n: nat) {
    forall k :: k in names && Counted(pool, k, c, u) ==> |Get(pool, k).bins| == n
  }

  /** When every counted background histogram has the same binning, the
      loop does not raise, and the counts end empty (nothing counted) or
      with one entry per bin. */
  lemma {:induction false} UniformBackgroundsDoNotRaise(pool: Pool, names: seq<string>, c: Conditions, u: Units, n: nat)
    requires Increasing(names)
    requires UniformBins(pool, names, c, u, n)
    ensures var r := CountAll(Counting(pool, [], None), names, c, u);
      r.raised.None? && (|r.counts| == 0 || |r.counts| == n)
    decreases |names|
  {
    if |names| > 0 {
      var l := |names| - 1;
      var front, m := names[..l], names[l];
      assert Increasing(front);
      assert UniformBins(pool, front, c, u, n);
      UniformBackgroundsDoNotRaise(pool, front, c, u, n);
      CountAllEffect(pool, [], front, c, u);
      var s := CountAll(Counting(pool, [], None), front, c, u);
      assert m !in front by {
        forall i | 0 <= i < l ensures front[i] != m {
          assert Less(names[i], names[l]);
          LessIrreflexive(m);
        }
      }
      assert Lookup(s.pool, m) == Lookup(pool, m);
      if Counted(s.pool, m, c, u) {
        assert Get(s.pool, m) == Get(pool, m);
        assert |Get(s.pool, m).bins| == n;
      }
    }
  }

  // ---------------------------------------------------------------------
  // Reference definition of the summed background counts.

  /** The bin count of the first counted histogram among `names` that has
      bins: the size `vbkg_counts` takes when it is first assigned. */
  function FirstBinCount(pool: Pool, names: seq<string>, c: Conditions, u: Units): nat
    decreases |names|
  {
    if |names| == 0 then 0
    else if Counted(pool, names[0], c, u) && |Get(pool, names[0]).bins| > 0 then |Get(pool, names[0]).bins|
    else FirstBinCount(pool, names[1..], c, u)
  }

  /** What histogram `k` adds to bin `i`: its content times its factor,
      nothing when it is not counted or has no bin `i`. */
  function Contribution(pool: Pool, k: string, c: Conditions, u: Units, i: nat): Value {
    if Counted(pool, k, c, u) && i < |Get(pool, k).bins| then Mul(Get(pool, k).bins[i], Some(NormFactor(k, c, u).value))
    else Some(0.0)
  }

  /** Bin `i` summed over `names`, from 0. */
  function BinSum(pool: Pool, names: seq<string>, c: Conditions, u: Units, i: nat): Value
    decreases |names|
  {
    if |names| == 0 then Some(0.0)
    else Add(BinSum(pool, names[..|names| - 1], c, u, i), Contribution(pool, names[|names| - 1], c, u, i))
  }

  /** The background counts: one sum per bin of the first counted
      histogram with bins, empty when there is none. */
  function SummedCounts(pool: Pool, names: seq<string>, c: Conditions, u: Units): seq<Value> {
    seq(FirstBinCount(pool, names, c, u), i requires 0 <= i => BinSum(pool, names, c, u, i))
  }

  /** No counted histogram among `names` outgrows the counts. */
  predicate Fits(pool: Pool, names: seq<string>, c: Conditions, u: Units) {
    forall k :: k in names && Counted(pool, k, c, u) ==> |Get(pool, k).bins| <= FirstBinCount(pool, names, c, u)
  }

  /** Appending a name changes the first bin count only when there was
      none before. */
  lemma {:induction false} FirstBinCountSnoc(pool: Pool, front: seq<string>, m: string, c: Conditions, u: Units)
    ensures FirstBinCount(pool, front + [m], c, u)
         == if FirstBinCount(pool, front, c, u) > 0 then FirstBinCount(pool, front, c, u)
            else if Counted(pool, m, c, u) && |Get(pool, m).bins| > 0 then |Get(pool, m).bins|
            else 0
    decreases |front|
  {
    if |front| == 0 {
      assert front + [m] == [m] && [m][1..] == [];
    } else {
      assert (front + [m])[0] == front[0];
      assert (front + [m])[1..] == front[1..] + [m];
      FirstBinCountSnoc(pool, front[1..], m, c, u);
    }
  }

  /** Without a first bin count, every counted histogram is empty and
      every bin sums to 0. */
  lemma {:induction false} NoFirstBinCount(pool: Pool, names: seq<string>, c: Conditions, u: Units)
    requires FirstBinCount(pool, names, c, u) == 0
    ensures forall k :: k in names && Counted(pool, k, c, u) ==> |Get(pool, k).bins| == 0
    ensures forall i: nat :: BinSum(pool, names, c, u, i) == Some(0.0)
    decreases |names|
  {
    if |names| > 0 {
      var n := |names| - 1;
      var front, m := names[..n], names[n];
      assert names == front + [m];
      FirstBinCountSnoc(pool, front, m, c, u);
      NoFirstBinCount(pool, front, c, u);
      forall i: nat ensures BinSum(pool, names, c, u, i) == Some(0.0) {
        assert BinSum(pool, names, c, u, i) == Add(BinSum(pool, front, c, u, i), Contribution(pool, m, c, u, i));
      }
    }
  }

  /** The background loop over distinct names throws exactly when some
      counted histogram has more bins than the first counted histogram
      with bins; otherwise the counts are, bin by bin, the sum of every
      counted histogram's content times its factor. */
  lemma {:induction false} CountAllSums(pool: Pool, names: seq<string>, c: Conditions, u: Units)
    requires Increasing(names)
    ensures var r := CountAll(Counting(pool, [], None), names, c, u);
      && (r.raised.None? <==> Fits(pool, names, c, u))
      && (r.raised.None? ==> r.counts == SummedCounts(pool, names, c, u))
    decreases |names|
  {
    if |names| > 0 {
      var n := |names| - 1;
      var front, m := names[..n], names[n];
      assert names == front + [m];
      assert Increasing(front);
      assert m !in front by {
        forall i | 0 <= i < n ensures front[i] != m {
          assert Less(names[i], names[n]);
          LessIrreflexive(m);
        }
      }
      CountAllSums(pool, front, c, u);
      FirstBinCountSnoc(pool, front, m, c, u);
      var s := CountAll(Counting(pool, [], None), front, c, u);
      if s.raised.Some? {
        RaisedSticks(s, [m], c, u);
        if FirstBinCount(pool, front, c, u) == 0 {
          NoFirstBinCount(pool, front, c, u);
        }
      } else {
        CountAllEffect(pool, [], front, c, u);
        assert Lookup(s.pool, m) == Lookup(pool, m);
        CountStep(pool, s, front, m, c, u);
      }
    }
  }

  /** One step of `CountAllSums`, after a prefix that did not throw. */
  lemma CountStep(pool: Pool, s: Counting, front: seq<string>, m: string, c: Conditions, u: Units)
    requires s.raised.None? && s.counts == SummedCounts(pool, front, c, u) && Fits(pool, front, c, u)
    requires Lookup(s.pool, m) == Lookup(pool, m)
    requires FirstBinCount(pool, front + [m], c, u)
          == if FirstBinCount(pool, front, c, u) > 0 then FirstBinCount(pool, front, c, u)
             else if Counted(pool, m, c, u) && |Get(pool, m).bins| > 0 then |Get(pool, m).bins|
             else 0
    ensures var r := CountOne(s, m, c, u);
      && (r.raised.None? <==> Fits(pool, front + [m], c, u))
      && (r.raised.None? ==> r.counts == SummedCounts(pool, front + [m], c, u))
  {
    var names := front + [m];
    var r := CountOne(s, m, c, u);
    assert names[..|names| - 1] == front && names[|names| - 1] == m;
    assert forall k :: k in names <==> k in front || k == m;
    if FirstBinCount(pool, front, c, u) == 0 {
      NoFirstBinCount(pool, front, c, u);
    }
    forall i: nat | i < |r.counts| && r.raised.None?
      ensures r.counts[i] == BinSum(pool, names, c, u, i)
    {
      assert BinSum(pool, names, c, u, i) == Add(BinSum(pool, front, c, u, i), Contribution(pool, m, c, u, i));
    }
  }

  // ---------------------------------------------------------------------
  // A worked example of the background loop: two background efficiency
  // histograms, `Bi214_efficiency` holding [10, 0] and `Tl208_efficiency`
  // holding [0, 10], whose elements' activities give factors 2 and 3.

  const BismuthExample := "Bi214_efficiency"
  const ThalliumExample := "Tl208_efficiency"

  function ExampleUnits(): Units {
    UnitSystem(1.0, 0.001, 1.0, 1.0, 1.0, 1.0)
  }

  /** Unit masses and an exposure of one second, so that each factor is
      the activity itself. */
  function ExampleConditions(): Conditions {
    Conditions(1.0, 1.0, 1.0, 1.0 / YearInSeconds, [("Bi214", 2.0), ("Tl208", 3.0)])
  }

  function ExamplePool(): Pool {
    [(BismuthExample, Histo(Efficiency.EfficiencyGroup, Efficiency.EfficiencyTemplate, [Some(10.0), Some(0.0)], None, {Efficiency.BackgroundFlag})),
     (ThalliumExample, Histo(Efficiency.EfficiencyGroup, Efficiency.EfficiencyTemplate, [Some(0.0), Some(10.0)], None, {Efficiency.BackgroundFlag}))]
  }

  // The example lemmas take the example's values as parameters: stated on
  // the literals themselves, the solver unfolds the string search
  // without bound.

  /** The factors of the two histograms are their elements' activities. */
  lemma ExampleFactors(c: Conditions, u: Units)
    requires c == ExampleConditions() && u == ExampleUnits()
    ensures NormFactor(BismuthExample, c, u) == Some(2.0)
    ensures NormFactor(ThalliumExample, c, u) == Some(3.0)
  {
    BismuthApplies(BismuthExample, c);
    ExampleNotTwoNeutrino(BismuthExample);
    LastFactor(BismuthExample, c, u, 0);
    ExampleFactor(BismuthExample, "Bi214", 2.0);
    ThalliumApplies(ThalliumExample, c);
    ExampleNotTwoNeutrino(ThalliumExample);
    LastFactor(ThalliumExample, c, u, 1);
    ExampleFactor(ThalliumExample, "Tl208", 3.0);
  }

  lemma BismuthApplies(name: string, c: Conditions)
    requires name == BismuthExample && c == ExampleConditions()
    ensures LastApplying(name, c.activities, 0)
  {
    SuffixedMatches(name, "Bi214", "_efficiency");
    assert name[0] != RadonName[0];
    assert "Tl208"[0] == 'T' && 'T' !in name;
    Unmatched(name, "Tl208", 0);
  }

  lemma ThalliumApplies(name: string, c: Conditions)
    requires name == ThalliumExample && c == ExampleConditions()
    ensures LastApplying(name, c.activities, 1)
  {
    SuffixedMatches(name, "Tl208", "_efficiency");
  }

  lemma SuffixedMatches(name: string, element: string, suffix: string)
    requires name == element + suffix
    ensures Matches(name, element)
  {
    assert name == "" + element + suffix;
    ContainsInfix("", element, suffix);
  }

  lemma Unmatched(name: string, element: string, k: nat)
    requires k < |element| && element[k] !in name && name != RadonName
    ensures !Matches(name, element)
  {
    MissingCharacter(name, element, k);
  }

  lemma LastFactor(name: string, c: Conditions, u: Units, i: nat)
    requires i < |c.activities| && !Contains(name, TwoNeutrinoToken) && LastApplying(name, c.activities, i)
    ensures NormFactor(name, c, u) == Some(FactorOf(name, c.activities[i].0, c.activities[i].1, c, u))
  {
    NormFactorCases(name, c, u);
  }

  lemma ExampleNotTwoNeutrino(name: string)
    requires name == BismuthExample || name == ThalliumExample
    ensures !Contains(name, TwoNeutrinoToken)
  {
    assert TwoNeutrinoToken[2] == 'u' && 'u' !in name;
    MissingCharacter(name, TwoNeutrinoToken, 2);
  }

  /** With unit masses and a year of exposure the factor is the activity. */
  lemma ExampleFactor(name: string, element: string, activity: real)
    requires name == BismuthExample || name == ThalliumExample
    ensures FactorOf(name, element, activity, ExampleConditions(), ExampleUnits()) == activity
  {
    var c, u := ExampleConditions(), ExampleUnits();
    assert name != RadonName by { assert name[0] != RadonName[0]; }
    assert ExposedMass(name, element, c, u) == 1.0;
    assert c.exposure * YearInSeconds == 1.0;
  }

  /** The background-flagged histograms of the example pool, in name order. */
  lemma ExampleBackgrounds(pool: Pool)
    requires pool == ExamplePool()
    ensures WithFlag(pool, Efficiency.BackgroundFlag) == [BismuthExample, ThalliumExample]
    ensures Get(pool, BismuthExample) == pool[0].1
    ensures Get(pool, ThalliumExample) == pool[1].1
  {
    assert Less(BismuthExample, ThalliumExample);
    LookupCons(pool, BismuthExample);
    LookupCons(pool, ThalliumExample);
    LookupCons(pool[1..], ThalliumExample);
    assert KeySet(pool) == {BismuthExample, ThalliumExample};
    var names := WithFlag(pool, Efficiency.BackgroundFlag);
    forall k ensures k in names <==> k in [BismuthExample, ThalliumExample] {
      if k != BismuthExample && k != ThalliumExample {
        assert !Has(pool, k);
      }
    }
    IncreasingUnique(names, [BismuthExample, ThalliumExample]);
  }

  /** Run through the background loop, the example's counts are
      [10 * 2 + 0 * 3, 0 * 2 + 10 * 3] = [20, 30], and nothing throws. */
  lemma TwoBackgroundsExample(pool: Pool, c: Conditions, u: Units)
    requires pool == ExamplePool() && c == ExampleConditions() && u == ExampleUnits()
    ensures var r := CountAll(Counting(pool, [], None), WithFlag(pool, Efficiency.BackgroundFlag), c, u);
      r.raised.None? && r.counts == [Some(20.0), Some(30.0)]
  {
    ExampleBackgrounds(pool);
    ExampleFactors(c, u);
    ExampleSums(pool, BismuthExample, ThalliumExample, c, u);
    CountAllSums(pool, [BismuthExample, ThalliumExample], c, u);
  }

  /** The summed counts of two two-bin histograms with factors 2 and 3. */
  lemma ExampleSums(pool: Pool, a: string, b: string, c: Conditions, u: Units)
    requires Has(pool, a) && Get(pool, a).group == Efficiency.EfficiencyGroup && Get(pool, a).bins == [Some(10.0), Some(0.0)]
    requires Has(pool, b) && Get(pool, b).group == Efficiency.EfficiencyGroup && Get(pool, b).bins == [Some(0.0), Some(10.0)]
    requires NormFactor(a, c, u) == Some(2.0) && NormFactor(b, c, u) == Some(3.0)
    ensures Fits(pool, [a, b], c, u)
    ensures SummedCounts(pool, [a, b], c, u) == [Some(20.0), Some(30.0)]
  {
    var names := [a, b];
    assert FirstBinCount(pool, names, c, u) == 2;
    MulOfValid(10.0, 2.0);
    MulOfValid(0.0, 2.0);
    MulOfValid(0.0, 3.0);
    MulOfValid(10.0, 3.0);
    assert names[..1] == [a] && [a][..0] == [];
    assert BinSum(pool, [a], c, u, 0) == Some(20.0);
    assert BinSum(pool, [a], c, u, 1) == Some(0.0);
    assert BinSum(pool, names, c, u, 0) == Some(20.0);
    assert BinSum(pool, names, c, u, 1) == Some(30.0);
  }

  // ---------------------------------------------------------------------
  // The signal loop.

  /** The half-life limit of each bin the loop reaches before the counts
      run out: the bin's efficiency over the number of excluded events,
      times `kbg` and the two-neutrino half-life. */
  function Halflives(bins: seq<Value>, counts: seq<Value>, kbg: Value, c: Conditions, sqrt: real -> real): (r: seq<Value>)
    ensures |r| == if |bins| <= |counts| then |bins| else |counts|
  {
    var n := if |bins| <= |counts| then |bins| else |counts|;
    seq(n, i requires 0 <= i < n =>
      Mul(Mul(Div(bins[i], ExcludedEvents(counts[i], sqrt)), kbg), Some(c.bb2nuHalflife)))
  }

  /** A bin without expected background excludes 2.5617 events. */
  lemma BackgroundFreeBin(bins: seq<Value>, counts: seq<Value>, k: real, c: Conditions, sqrt: real -> real, i: nat)
    requires i < |bins| && i < |counts|
    requires bins[i].Some? && counts[i] == Some(0.0)
    ensures Halflives(bins, counts, Some(k), c, sqrt)[i].Some?
    ensures Halflives(bins, counts, Some(k), c, sqrt)[i].value == bins[i].value / 2.5617 * k * c.bb2nuHalflife
  {
    NoBackground(sqrt);
    assert Halflives(bins, counts, Some(k), c, sqrt)[i]
        == Mul(Mul(Div(bins[i], ExcludedEvents(counts[i], sqrt)), Some(k)), Some(c.bb2nuHalflife));
    assert ExcludedEvents(counts[i], sqrt) == Some(2.5617);
  }

  /** The half-life histogram before the loop: the pool's, or a fresh
      mimic of the half-life template. */
  function HalflifeBefore(pool: Pool, target: string, t: Templates): (h: Histo)
    ensures Has(pool, target) ==> Lookup(pool, target) == Some(h)
  {
    if Has(pool, target) then Get(pool, target) else Mimic(HalflifeGroup, HalflifeTemplate, t)
  }

  /** One write: create the half-life histogram if needed, then `set(i, v)`. */
  function SetHalflife(p: Pool, target: string, i: nat, v: Value, t: Templates): (r: Pool)
    ensures Lookup(r, target) == Some(HalflifeBefore(p, target, t).(bins := SetBin(HalflifeBefore(p, target, t).bins, i, v)))
    ensures forall k :: k != target ==> Lookup(r, k) == Lookup(p, k)
  {
    var q := GetOrCreate(p, target, HalflifeGroup, HalflifeTemplate, t);
    Insert(q, target, Get(q, target).(bins := SetBin(Get(q, target).bins, i, v)))
  }

  /** The writes of the first `n` limits, in order. */
  function SetHalflives(pool: Pool, target: string, values: seq<Value>, n: nat, t: Templates): Pool
    requires n <= |values|
    decreases n
  {
    if n == 0 then pool else SetHalflife(SetHalflives(pool, target, values, n - 1, t), target, n - 1, values[n - 1], t)
  }

  /** The bins after the first `n` writes. */
  function Replaced(bins: seq<Value>, values: seq<Value>, n: nat): (r: seq<Value>)
    requires n <= |values|
    ensures |r| == |bins|
  {
    seq(|bins|, j requires 0 <= j < |bins| => if j < n then values[j] else bins[j])
  }

  /** The writes, stated declaratively: the half-life histogram exists
      after the first write and then holds the first `n` limits over its
      previous bins; nothing else in the pool changes. */
  lemma {:induction false} SetHalflivesEffect(pool: Pool, target: string, values: seq<Value>, n: nat, t: Templates)
    requires n <= |values|
    ensures Lookup(SetHalflives(pool, target, values, n, t), target)
         == if n == 0 then Lookup(pool, target)
            else Some(HalflifeBefore(pool, target, t).(bins := Replaced(HalflifeBefore(pool, target, t).bins, values, n)))
    ensures forall k :: k != target ==> Lookup(SetHalflives(pool, target, values, n, t), k) == Lookup(pool, k)
    decreases n
  {
    if n > 0 {
      SetHalflivesEffect(pool, target, values, n - 1, t);
      var p := SetHalflives(pool, target, values, n - 1, t);
      var b := HalflifeBefore(pool, target, t);
      assert SetHalflives(pool, target, values, n, t) == SetHalflife(p, target, n - 1, values[n - 1], t);
      assert HalflifeBefore(p, target, t) == b.(bins := Replaced(b.bins, values, n - 1)) by {
        if n == 1 {
          ReplacedNothing(b.bins, values);
        }
      }
      ReplacedStep(b.bins, values, n);
    }
  }

  lemma ReplacedNothing(bins: seq<Value>, values: seq<Value>)
    ensures Replaced(bins, values, 0) == bins
  {
  }

  /** Writing limit `n - 1` over the first `n - 1` limits gives the
      first `n`. */
  lemma ReplacedStep(bins: seq<Value>, values: seq<Value>, n: nat)
    requires 0 < n <= |values|
    ensures SetBin(Replaced(bins, values, n - 1), n - 1, values[n - 1]) == Replaced(bins, values, n)
  {
  }

  /** The state of the signal loop: the pool and the exception raised. */
  datatype Stage = Stage(pool: Pool, raised: Option<string>)

  /** The signal histogram `name` is processed. */
  predicate Limited(pool: Pool, name: string) {
    Has(pool, name) && Get(pool, name).group == Efficiency.EfficiencyGroup
  }

  /** One iteration of the signal loop: the limits of the bins the counts
      cover are written; a histogram with more bins than the counts raises
      at the first bin past them. */
  function LimitOne(s: Stage, name: string, counts: seq<Value>, kbg: Value, c: Conditions, t: Templates, sqrt: real -> real): Stage {
    if s.raised.Some? || !Limited(s.pool, name) then s
    else
      var h := Get(s.pool, name);
      var values := Halflives(h.bins, counts, kbg, c, sqrt);
      var p := SetHalflives(s.pool, HalflifeName(name), values, |values|, t);
      Stage(p, if |h.bins| > |counts| then Some(OutOfRange) else None)
  }

  /** The signal loop over `names`, in order. */
  function LimitAll(s: Stage, names: seq<string>, counts: seq<Value>, kbg: Value, c: Conditions, t: Templates, sqrt: real -> real): Stage
    decreases |names|
  {
    if |names| == 0 then s else LimitOne(LimitAll(s, names[..|names| - 1], counts, kbg, c, t, sqrt), names[|names| - 1], counts, kbg, c, t, sqrt)
  }

  /** The half-life histogram one signal histogram `src` leaves behind,
      given what its name held before. */
  function HalflifeAfter(src: Histo, prior: Option<Histo>, counts: seq<Value>, kbg: Value, c: Conditions, t: Templates, sqrt: real -> real): Option<Histo> {
    var values := Halflives(src.bins, counts, kbg, c, sqrt);
    if |values| == 0 then prior
    else
      var b := if prior.Some? then prior.value else Mimic(HalflifeGroup, HalflifeTemplate, t);
      Some(b.(bins := Replaced(b.bins, values, |values|)))
  }

  /** `k` is none of the half-life histograms of `names`. */
  predicate NotALimit(k: string, names: seq<string>) {
    forall n :: n in names ==> k != HalflifeName(n)
  }

  /** Some processed histogram among `names` has more bins than the counts. */
  predicate Overruns(pool: Pool, names: seq<string>, counts: seq<Value>) {
    exists n :: n in names && Limited(pool, n) && |Get(pool, n).bins| > |counts|
  }

  /** The signal loop over distinct names, none of which is the half-life
      histogram of another: it raises exactly when some processed
      histogram has more bins than the counts; otherwise each processed
      histogram's `<name>_halflife` becomes what that histogram implies,
      and nothing else changes. */
  lemma {:induction false} LimitAllEffect(pool: Pool, names: seq<string>, counts: seq<Value>, kbg: Value, c: Conditions, t: Templates, sqrt: real -> real)
    requires Increasing(names)
    requires forall n, m :: n in names && m in names ==> HalflifeName(n) != m
    ensures var r := LimitAll(Stage(pool, None), names, counts, kbg, c, t, sqrt);
      && (r.raised.Some? <==> Overruns(pool, names, counts))
      && (r.raised.None? ==>
            && (forall n :: n in names && Limited(pool, n) ==>
                  Lookup(r.pool, HalflifeName(n)) == HalflifeAfter(Get(pool, n), Lookup(pool, HalflifeName(n)), counts, kbg, c, t, sqrt))
            && (forall k :: NotALimit(k, names) ==> Lookup(r.pool, k) == Lookup(pool, k)))
    decreases |names|
  {
    if |names| > 0 {
      var l := |names| - 1;
      var front, m := names[..l], names[l];
      assert names == front + [m];
      assert Increasing(front);
      assert forall k :: k in front ==> k in names;
      LimitAllEffect(pool, front, counts, kbg, c, t, sqrt);
      var s := LimitAll(Stage(pool, None), front, counts, kbg, c, t, sqrt);
      assert m !in front by {
        forall i | 0 <= i < l ensures front[i] != m {
          assert Less(names[i], names[l]);
          LessIrreflexive(m);
        }
      }
      assert Overruns(pool, names, counts) <==> Overruns(pool, front, counts) || (Limited(pool, m) && |Get(pool, m).bins| > |counts|);
      if s.raised.None? {
        assert NotALimit(m, front) by {
          forall n | n in front ensures m != HalflifeName(n) {
            assert n in names && m in names;
          }
        }
        assert NotALimit(HalflifeName(m), front) by {
          forall n | n in front ensures HalflifeName(m) != HalflifeName(n) {
            HalflifeNameInjective(m, n);
          }
        }
        LimitLast(pool, s, front, m, counts, kbg, c, t, sqrt);
      } else {
        RaisedStageSticks(s, [m], counts, kbg, c, t, sqrt);
      }
    }
  }

  /** The last iteration of `LimitAllEffect` when the earlier names did
      not raise: `s` is the stage they left behind, and `m` is new and not
      a half-life histogram of theirs. */
  lemma LimitLast(pool: Pool, s: Stage, front: seq<string>, m: string, counts: seq<Value>, kbg: Value, c: Conditions, t: Templates, sqrt: real -> real)
    requires s.raised.None? && m !in front
    requires NotALimit(m, front) && NotALimit(HalflifeName(m), front)
    requires forall n :: n in front && Limited(pool, n) ==>
      Lookup(s.pool, HalflifeName(n)) == HalflifeAfter(Get(pool, n), Lookup(pool, HalflifeName(n)), counts, kbg, c, t, sqrt)
    requires forall k :: NotALimit(k, front) ==> Lookup(s.pool, k) == Lookup(pool, k)
    ensures var r := LimitOne(s, m, counts, kbg, c, t, sqrt);
      && (r.raised.Some? <==> Limited(pool, m) && |Get(pool, m).bins| > |counts|)
      && (r.raised.None? ==>
            && (forall n :: n in front + [m] && Limited(pool, n) ==>
                  Lookup(r.pool, HalflifeName(n)) == HalflifeAfter(Get(pool, n), Lookup(pool, HalflifeName(n)), counts, kbg, c, t, sqrt))
            && (forall k :: NotALimit(k, front + [m]) ==> Lookup(r.pool, k) == Lookup(pool, k)))
  {
    assert Lookup(s.pool, m) == Lookup(pool, m);
    assert Lookup(s.pool, HalflifeName(m)) == Lookup(pool, HalflifeName(m));
    assert Limited(s.pool, m) == Limited(pool, m);
    LimitOneEffect(s, m, counts, kbg, c, t, sqrt);
    var r := LimitOne(s, m, counts, kbg, c, t, sqrt);
    forall n | n in front + [m] && Limited(pool, n)
      ensures Lookup(r.pool, HalflifeName(n)) == HalflifeAfter(Get(pool, n), Lookup(pool, HalflifeName(n)), counts, kbg, c, t, sqrt)
    {
      if n != m {
        HalflifeNameInjective(m, n);
        assert n in front;
      }
    }
    forall k | NotALimit(k, front + [m]) ensures Lookup(r.pool, k) == Lookup(pool, k) {
      assert NotALimit(k, front) && k != HalflifeName(m);
    }
  }

  lemma HalflifeNameInjective(a: string, b: string)
    ensures HalflifeName(a) == HalflifeName(b) ==> a == b
  {
    if HalflifeName(a) == HalflifeName(b) {
      assert HalflifeName(a)[..|a|] == a;
      assert HalflifeName(b)[..|b|] == b;
    }
  }

  /** One iteration of the signal loop, stated declaratively. */
  lemma LimitOneEffect(s: Stage, m: string, counts: seq<Value>, kbg: Value, c: Conditions, t: Templates, sqrt: real -> real)
    requires s.raised.None?
    ensures var r := LimitOne(s, m, counts, kbg, c, t, sqrt);
      && (r.raised.Some? <==> Limited(s.pool, m) && |Get(s.pool, m).bins| > |counts|)
      && (Limited(s.pool, m) ==>
            Lookup(r.pool, HalflifeName(m)) == HalflifeAfter(Get(s.pool, m), Lookup(s.pool, HalflifeName(m)), counts, kbg, c, t, sqrt))
      && (!Limited(s.pool, m) ==> r == s)
      && (forall k :: k != HalflifeName(m) ==> Lookup(r.pool, k) == Lookup(s.pool, k))
  {
    if Limited(s.pool, m) {
      var values := Halflives(Get(s.pool, m).bins, counts, kbg, c, sqrt);
      SetHalflivesEffect(s.pool, HalflifeName(m), values, |values|, t);
    }
  }

  /** Once raised, the signal loop stays raised. */
  lemma RaisedStageSticks(s: Stage, names: seq<string>, counts: seq<Value>, kbg: Value, c: Conditions, t: Templates, sqrt: real -> real)
    requires s.raised.Some?
    ensures LimitAll(s, names, counts, kbg, c, t, sqrt) == s
    decreases |names|
  {
    if |names| > 0 {
      RaisedStageSticks(s, names[..|names| - 1], counts, kbg, c, t, sqrt);
    }
  }

  // ---------------------------------------------------------------------
  // The best limit reported for a signal histogram.

  /** `best = std::max(best, halflife)` over the bins, from 0. */
  function BestLimit(values: seq<Value>): real
    decreases |values|
  {
    if |values| == 0 then 0.0 else MaxKeep(BestLimit(values[..|values| - 1]), values[|values| - 1])
  }

  /** The best limit is the largest valid limit, or 0 when none is
      positive. */
  lemma {:induction false} BestLimitIsMaximum(values: seq<Value>)
    ensures BestLimit(values) >= 0.0
    ensures forall i :: 0 <= i < |values| && values[i].Some? ==> values[i].value <= BestLimit(values)
    ensures BestLimit(values) == 0.0 || exists i :: 0 <= i < |values| && values[i] == Some(BestLimit(values))
    decreases |values|
  {
    if |values| > 0 {
      var n := |values| - 1;
      BestLimitIsMaximum(values[..n]);
      assert forall i :: 0 <= i < n ==> values[..n][i] == values[i];
      if BestLimit(values) != BestLimit(values[..n]) {
        assert values[n] == Some(BestLimit(values));
      } else if BestLimit(values) != 0.0 {
        var i :| 0 <= i < n && values[..n][i] == Some(BestLimit(values[..n]));
        assert values[i] == Some(BestLimit(values));
      }
    }
  }

  // ---------------------------------------------------------------------
  // The pass.

  /** `_compute_halflife`: nothing happens without efficiency or
      background histograms; the background loop runs over the
      background-flagged histograms, then the signal loop over the
      signal-flagged ones, each in name order. */
  function ComputeHalflife(pool: Pool, c: Conditions, u: Units, t: Templates, sqrt: real -> real): (o: Outcome)
    ensures o.status == Success || o.status.Raised?
    ensures |InGroup(pool, Efficiency.EfficiencyGroup)| == 0 ==> o == Outcome(Success, pool)
    ensures |WithFlag(pool, Efficiency.BackgroundFlag)| == 0 ==> o == Outcome(Success, pool)
  {
    if |InGroup(pool, Efficiency.EfficiencyGroup)| == 0 then Outcome(Success, pool)
    else
      var backgrounds := WithFlag(pool, Efficiency.BackgroundFlag);
      if |backgrounds| == 0 then Outcome(Success, pool)
      else
        var counted := CountAll(Counting(pool, [], None), backgrounds, c, u);
        if counted.raised.Some? then Outcome(Raised(counted.raised.value), counted.pool)
        else
          var signals := WithFlag(counted.pool, Efficiency.SignalFlag);
          var limited := LimitAll(Stage(counted.pool, None), signals, counted.counts, Kbg(c, u), c, t, sqrt);
          if limited.raised.Some? then Outcome(Raised(limited.raised.value), limited.pool)
          else Outcome(Success, limited.pool)
  }

  /** `reset`: the efficiency pass, then the limit pass. */
  function Reset(pool: Pool, c: Conditions, u: Units, t: Templates, sqrt: real -> real): (o: Outcome)
    ensures o.status == Success || o.status.Raised?
    ensures |InGroup(pool, HalflifeProcess.EnergyGroup)| == 0 && |InGroup(pool, Efficiency.EfficiencyGroup)| == 0
            ==> o == Outcome(Success, pool)
  {
    ComputeHalflife(Efficiency.ComputeEfficiency(pool, t), c, u, t, sqrt)
  }

  /** When no background histogram is counted, any signal efficiency
      histogram with a bin makes the signal loop index the empty counts,
      which raises. */
  lemma NothingCountedRaises(pool: Pool, c: Conditions, u: Units, t: Templates, sqrt: real -> real, s: string)
    requires |InGroup(pool, Efficiency.EfficiencyGroup)| > 0
    requires |WithFlag(pool, Efficiency.BackgroundFlag)| > 0
    requires forall k :: k in WithFlag(pool, Efficiency.BackgroundFlag) ==> !Counted(pool, k, c, u)
    requires Limited(pool, s) && Efficiency.SignalFlag in Get(pool, s).flags && |Get(pool, s).bins| > 0
    requires forall n, m :: n in WithFlag(pool, Efficiency.SignalFlag) && m in WithFlag(pool, Efficiency.SignalFlag) ==> HalflifeName(n) != m
    ensures ComputeHalflife(pool, c, u, t, sqrt).status.Raised?
  {
    var backgrounds := WithFlag(pool, Efficiency.BackgroundFlag);
    NothingCounted(pool, backgrounds, c, u);
    var counted := CountAll(Counting(pool, [], None), backgrounds, c, u);
    assert counted == Counting(pool, [], None);
    var signals := WithFlag(pool, Efficiency.SignalFlag);
    LimitAllEffect(pool, signals, [], Kbg(c, u), c, t, sqrt);
    assert s in signals;
  }

  lemma {:induction false} NothingCounted(pool: Pool, names: seq<string>, c: Conditions, u: Units)
    requires forall k :: k in names ==> !Counted(pool, k, c, u)
    ensures CountAll(Counting(pool, [], None), names, c, u) == Counting(pool, [], None)
    decreases |names|
  {
    if |names| > 0 {
      NothingCounted(pool, names[..|names| - 1], c, u);
    }
  }
  /** Rescaling changes bins only: every histogram keeps its name, group
      and flags. */
  lemma RescalingKeepsLabels(pool: Pool, p: Pool, names: seq<string>, c: Conditions, u: Units)
    requires forall k :: Lookup(p, k) == if k in names then Rescaled(pool, k, c, u) else Lookup(pool, k)
    ensures forall k :: Has(p, k) == Has(pool, k)
    ensures forall k :: Has(p, k) ==> Get(p, k).flags == Get(pool, k).flags && Get(p, k).group == Get(pool, k).group
  {
    forall k ensures Has(p, k) == Has(pool, k)
      && (Has(p, k) ==> Get(p, k).flags == Get(pool, k).flags && Get(p, k).group == Get(pool, k).group)
    {
      assert Lookup(p, k) == if k in names then Rescaled(pool, k, c, u) else Lookup(pool, k);
    }
  }

  /** No signal efficiency histogram's `<name>_halflife` is itself a
      flagged histogram of the pool. */
  ghost predicate Separate(pool: Pool) {
    forall n, k :: Has(pool, n) && Has(pool, k) && Efficiency.SignalFlag in Get(pool, n).flags
      && (Efficiency.SignalFlag in Get(pool, k).flags || Efficiency.BackgroundFlag in Get(pool, k).flags)
      ==> HalflifeName(n) != k
  }

  /** In a pool whose names are separate, the half-life histograms of the
      signal histograms are neither background nor signal histograms. */
  lemma SeparateNames(pool: Pool, backgrounds: seq<string>, signals: seq<string>)
    requires Separate(pool)
    requires forall k :: k in backgrounds ==> Has(pool, k) && Efficiency.BackgroundFlag in Get(pool, k).flags
    requires forall n :: n in signals ==> Has(pool, n) && Efficiency.SignalFlag in Get(pool, n).flags
    ensures forall k :: k in backgrounds ==> NotALimit(k, signals)
    ensures forall n :: n in signals ==> HalflifeName(n) !in backgrounds
    ensures forall n, m :: n in signals && m in signals ==> HalflifeName(n) != m
  {
  }

  /** One signal histogram through the pass: its half-life histogram is
      the one its bins after the background loop imply. */
  lemma SignalAfterPass(pool: Pool, p: Pool, backgrounds: seq<string>, signals: seq<string>, counts: seq<Value>,
                        kbg: Value, c: Conditions, u: Units, t: Templates, sqrt: real -> real, r: Pool, n: string)
    requires forall k :: Lookup(p, k) == if k in backgrounds then Rescaled(pool, k, c, u) else Lookup(pool, k)
    requires Has(pool, n) && n in signals && Limited(p, n)
    requires forall n :: n in signals ==> HalflifeName(n) !in backgrounds
    requires forall m :: m in signals && Limited(p, m) ==>
      Lookup(r, HalflifeName(m)) == HalflifeAfter(Get(p, m), Lookup(p, HalflifeName(m)), counts, kbg, c, t, sqrt)
    ensures Lookup(r, HalflifeName(n))
         == HalflifeAfter(AfterCounting(pool, backgrounds, n, c, u), Lookup(pool, HalflifeName(n)), counts, kbg, c, t, sqrt)
  {
    assert Lookup(p, n) == if n in backgrounds then Rescaled(pool, n, c, u) else Lookup(pool, n);
    assert Get(p, n) == AfterCounting(pool, backgrounds, n, c, u);
    assert Lookup(p, HalflifeName(n)) == Lookup(pool, HalflifeName(n));
  }

  /** A histogram as the background loop over `backgrounds` leaves it. */
  function AfterCounting(pool: Pool, backgrounds: seq<string>, n: string, c: Conditions, u: Units): Histo
    requires Has(pool, n)
  {
    if n in backgrounds then Rescaled(pool, n, c, u).value else Get(pool, n)
  }

  /** A pass over backgrounds whose bins do not fit the counts raises;
      a pass that succeeds found that they fit, rescaled every counted
      background histogram by its factor and gave every signal efficiency
      histogram the half-life histogram its (possibly rescaled) bins and
      the per-bin background sums imply, leaving every other histogram
      as it was. */
  lemma HalflifePassEffect(pool: Pool, c: Conditions, u: Units, t: Templates, sqrt: real -> real)
    requires Separate(pool)
    requires |InGroup(pool, Efficiency.EfficiencyGroup)| > 0 && |WithFlag(pool, Efficiency.BackgroundFlag)| > 0
    ensures var backgrounds := WithFlag(pool, Efficiency.BackgroundFlag);
      var o := ComputeHalflife(pool, c, u, t, sqrt);
      && (!Fits(pool, backgrounds, c, u) ==> o.status.Raised?)
      && (o.status == Success ==>
        && Fits(pool, backgrounds, c, u)
        && (forall k :: k in backgrounds ==> Lookup(o.pool, k) == Rescaled(pool, k, c, u))
        && (forall n :: Has(pool, n) && Efficiency.SignalFlag in Get(pool, n).flags && Get(pool, n).group == Efficiency.EfficiencyGroup ==>
              Lookup(o.pool, HalflifeName(n))
                == HalflifeAfter(AfterCounting(pool, backgrounds, n, c, u), Lookup(pool, HalflifeName(n)),
                                 SummedCounts(pool, backgrounds, c, u), Kbg(c, u), c, t, sqrt))
        && (forall k :: k !in backgrounds && (forall n :: Has(pool, n) && Efficiency.SignalFlag in Get(pool, n).flags ==> k != HalflifeName(n))
              ==> Lookup(o.pool, k) == Lookup(pool, k)))
  {
    var backgrounds := WithFlag(pool, Efficiency.BackgroundFlag);
    var counted := CountAll(Counting(pool, [], None), backgrounds, c, u);
    var o := ComputeHalflife(pool, c, u, t, sqrt);
    CountAllSums(pool, backgrounds, c, u);
    if o.status == Success {
      CountAllEffect(pool, [], backgrounds, c, u);
      var p := counted.pool;
      RescalingKeepsLabels(pool, p, backgrounds, c, u);
      var signals := WithFlag(p, Efficiency.SignalFlag);
      var limited := LimitAll(Stage(p, None), signals, counted.counts, Kbg(c, u), c, t, sqrt);
      assert counted.raised.None? && limited.raised.None? && o.pool == limited.pool;
      assert forall n :: n in signals <==> Has(pool, n) && Efficiency.SignalFlag in Get(pool, n).flags;
      SeparateNames(pool, backgrounds, signals);
      LimitAllEffect(p, signals, counted.counts, Kbg(c, u), c, t, sqrt);
      forall n | Has(pool, n) && Efficiency.SignalFlag in Get(pool, n).flags && Get(pool, n).group == Efficiency.EfficiencyGroup
        ensures Lookup(o.pool, HalflifeName(n))
             == HalflifeAfter(AfterCounting(pool, backgrounds, n, c, u), Lookup(pool, HalflifeName(n)), counted.counts, Kbg(c, u), c, t, sqrt)
      {
        assert n in signals && Limited(p, n);
        SignalAfterPass(pool, p, backgrounds, signals, counted.counts, Kbg(c, u), c, u, t, sqrt, o.pool, n);
      }
      forall k | k !in backgrounds && (forall n :: Has(pool, n) && Efficiency.SignalFlag in Get(pool, n).flags ==> k != HalflifeName(n))
        ensures Lookup(o.pool, k) == Lookup(pool, k)
      {
        assert NotALimit(k, signals);
      }
    }
  }
}
