/** The universal plot module's per-event step: for an event whose topology
    pattern is `1e`, the electron energy fills the histogram named after
    the header fields (group `energy_distrib`), and the event weight the
    generator label implies is stored on that histogram the first time. */
module EnergyPlot {
  import opened Wrappers
  import opened OrderedMap
  import opened Histogram
  import opened Event
  import opened Text
  import opened KeyBuilder

  const EnergyGroup := "energy_distrib"
  const LabelKey := "event.genbb_label"
  const OriginKey := "analysis.vertex_origin"
  /** The key `mctools::event_utils::EVENT_GENBB_WEIGHT` names; its value
      is defined in a library that is not part of this model. */
  const GeneratorWeightKey := "genbb.weight"

  /** Scale of the 0nubb samples: 10^5 generated events, 48 of 50 kept. */
  const DoubleBetaZeroScale: real := 100000.0 * (48.0 / 50.0)
  /** Scale of the 2nubb, Tl208 and Bi214_Po214 samples. */
  const BackgroundScale: real := 10000000.0

  /** `if (found) weight /= scale;` */
  function DivideIf(w: real, found: bool, scale: real): real
    requires scale > 0.0
  {
    if found then w / scale else w
  }

  /** The weight the generator label implies, divisor by divisor, as the
      source applies them; the origin is fetched only for Bi214_Po214. */
  function LabelWeight(h: Header): Result<real> {
    if LabelKey !in h then Ok(1.0)
    else
      var fetched := FetchString(h, LabelKey);
      if fetched.Fail? then Fail(fetched.reason)
      else
        var genbb := fetched.value;
        var w1 := DivideIf(1.0, Contains(genbb, "0nubb"), DoubleBetaZeroScale);
        var w2 := DivideIf(w1, Contains(genbb, "2nubb"), BackgroundScale);
        var w3 := DivideIf(w2, Contains(genbb, "Tl208"), BackgroundScale);
        if !Contains(genbb, "Bi214_Po214") then Ok(w3)
        else
          var origin := FetchString(h, OriginKey);
          if origin.Fail? then Fail(origin.reason)
          else
            var w4 := DivideIf(w3, Contains(origin.value, "source"), BackgroundScale);
            Ok(DivideIf(w4, Contains(origin.value, "wire_surface"), BackgroundScale))
  }

  /** The label weight times the generator's own weight, when the header
      carries one. */
  function EventWeight(h: Header): Result<real> {
    var w := LabelWeight(h);
    if w.Fail? || GeneratorWeightKey !in h then w
    else
      var g := FetchReal(h, GeneratorWeightKey);
      if g.Fail? then Fail(g.reason) else Ok(w.value * g.value)
  }

  // Reference definition of the weight: one over the product of the
  // divisors the label and the origin select.

  function Factor(found: bool, scale: real): real {
    if found then scale else 1.0
  }

  function Divisor(genbb: string, origin: string): (d: real)
    ensures d >= 1.0
  {
    var bi := Contains(genbb, "Bi214_Po214");
    Factor(Contains(genbb, "0nubb"), DoubleBetaZeroScale)
      * Factor(Contains(genbb, "2nubb"), BackgroundScale)
      * Factor(Contains(genbb, "Tl208"), BackgroundScale)
      * Factor(bi && Contains(origin, "source"), BackgroundScale)
      * Factor(bi && Contains(origin, "wire_surface"), BackgroundScale)
  }

  /** Five conditional divisions are one division by the product of the
      selected scales. */
  lemma DivisionChain(c0: bool, c1: bool, c2: bool, c3: bool, c4: bool)
    ensures DivideIf(DivideIf(DivideIf(DivideIf(DivideIf(1.0, c0, DoubleBetaZeroScale), c1, BackgroundScale),
              c2, BackgroundScale), c3, BackgroundScale), c4, BackgroundScale)
         == 1.0 / (Factor(c0, DoubleBetaZeroScale) * Factor(c1, BackgroundScale) * Factor(c2, BackgroundScale)
                   * Factor(c3, BackgroundScale) * Factor(c4, BackgroundScale))
  {
    var p0 := Factor(c0, DoubleBetaZeroScale);
    var p1 := p0 * Factor(c1, BackgroundScale);
    var p2 := p1 * Factor(c2, BackgroundScale);
    var p3 := p2 * Factor(c3, BackgroundScale);
    var w1 := DivideIf(1.0, c0, DoubleBetaZeroScale);
    var w2 := DivideIf(w1, c1, BackgroundScale);
    var w3 := DivideIf(w2, c2, BackgroundScale);
    var w4 := DivideIf(w3, c3, BackgroundScale);
    assert w1 == 1.0 / p0;
    DivideOnce(1.0, p0, w1, c1, BackgroundScale);
    DivideOnce(1.0, p1, w2, c2, BackgroundScale);
    DivideOnce(1.0, p2, w3, c3, BackgroundScale);
    DivideOnce(1.0, p3, w4, c4, BackgroundScale);
  }

  lemma DivideOnce(x: real, p: real, w: real, c: bool, scale: real)
    requires p >= 1.0 && scale > 1.0 && w == x / p
    ensures p * Factor(c, scale) >= 1.0
    ensures DivideIf(w, c, scale) == x / (p * Factor(c, scale))
  {
    if c {
      assert (x / p) / scale == x / (p * scale);
    }
  }

  /** The header carries a string label, and the origin too if the label
      names Bi214_Po214. */
  predicate WellLabelled(h: Header) {
    LabelKey in h && h[LabelKey].Text?
    && (Contains(h[LabelKey].s, "Bi214_Po214") ==> FetchString(h, OriginKey).Ok?)
  }

  function OriginOf(h: Header): string {
    var origin := FetchString(h, OriginKey);
    if origin.Ok? then origin.value else ""
  }

  /** The label weight raises exactly when the label, or an origin it
      needs, is present but not a string (or the origin missing), and
      otherwise is one over the product of the selected divisors. */
  lemma LabelWeightIsReciprocalDivisor(h: Header)
    ensures LabelWeight(h).Fail? <==> LabelKey in h && !WellLabelled(h)
    ensures LabelKey !in h ==> LabelWeight(h) == Ok(1.0)
    ensures WellLabelled(h) ==> LabelWeight(h) == Ok(1.0 / Divisor(h[LabelKey].s, OriginOf(h)))
  {
    if WellLabelled(h) {
      var genbb := h[LabelKey].s;
      var origin := OriginOf(h);
      var bi := Contains(genbb, "Bi214_Po214");
      DivisionChain(Contains(genbb, "0nubb"), Contains(genbb, "2nubb"), Contains(genbb, "Tl208"),
                    bi && Contains(origin, "source"), bi && Contains(origin, "wire_surface"));
    }
  }

  /** The event weight raises exactly when the label weight does or the
      generator weight is present but not a real; otherwise it is the label
      weight times the generator weight (1 when absent). */
  lemma EventWeightFactors(h: Header)
    ensures EventWeight(h).Fail? <==>
      LabelWeight(h).Fail? || (GeneratorWeightKey in h && !h[GeneratorWeightKey].Real?)
    ensures EventWeight(h).Ok? ==>
      EventWeight(h).value == LabelWeight(h).value * (if GeneratorWeightKey in h then h[GeneratorWeightKey].r else 1.0)
  {
  }

  /** A 0nubb signal event without generator weight weighs 1/96000. */
  lemma SignalWeight(h: Header)
    requires LabelKey in h && h[LabelKey] == Text("Se82.0nubb") && GeneratorWeightKey !in h
    ensures EventWeight(h) == Ok(1.0 / 96000.0)
  {
    SignalIsZeroNeutrino();
    SignalNotTwoNeutrino();
    SignalNotThallium();
    SignalNotBismuth();
    assert LabelWeight(h) == Ok(1.0 / DoubleBetaZeroScale);
  }

  /** The label "Se82.0nubb" selects the 0nubb scale and no other. */
  lemma SignalIsZeroNeutrino()
    ensures Contains("Se82.0nubb", "0nubb")
  {
    ContainsInfix("Se82.", "0nubb", "");
    assert "Se82." + "0nubb" + "" == "Se82.0nubb";
  }

  lemma SignalNotThallium()
    ensures !Contains("Se82.0nubb", "Tl208")
  {
    MissingCharacter("Se82.0nubb", "Tl208", 0);
  }

  lemma SignalNotBismuth()
    ensures !Contains("Se82.0nubb", "Bi214_Po214")
  {
    ShortDoesNotContain("Se82.0nubb", "Bi214_Po214");
  }

  lemma SignalNotTwoNeutrino()
    ensures !Contains("Se82.0nubb", "2nubb")
  {
    var genbb := "Se82.0nubb";
    forall i ensures !At(genbb, "2nubb", i) {
      NotAtMismatch(genbb, "2nubb", i);
    }
    ContainsIffAt(genbb, "2nubb");
  }

  /** The event carries a topology pattern with id `1e`. */
  predicate Selected(rec: Record) {
    && rec.header.Some?
    && rec.tracks.Some?
    && rec.topology.Some?
    && rec.topology.value.pattern.Some?
    && rec.topology.value.pattern.value.id == "1e"
  }

  /** `universal_plot_module::process`. When the weight cannot be computed
      the exception leaves the histogram filled but without a weight. */
  function Process(fields: seq<string>, t: Templates, rec: Record, pool: Pool): (o: Outcome)
    ensures rec.header.None? || rec.tracks.None? ==> o == Outcome(Stop, pool)
    ensures rec.header.Some? && rec.tracks.Some? && (rec.topology.None? || rec.topology.value.pattern.None?) ==>
              o == Outcome(Error, pool)
    ensures && rec.header.Some? && rec.tracks.Some? && rec.topology.Some? && rec.topology.value.pattern.Some?
            && rec.topology.value.pattern.value.id != "1e"
            ==> o == Outcome(Continue, pool)
    ensures o.status == Success <==> Selected(rec) && EventWeight(rec.header.value).Ok?
    ensures o.status.Raised? <==> Selected(rec) && EventWeight(rec.header.value).Fail?
    ensures Selected(rec) ==>
      var key := EnergyKey(fields, rec.header.value);
      var seen := Observed(Lookup(pool, key), EnergyGroup, EnergyTemplate, rec.topology.value.pattern.value.electronEnergy, t);
      && Lookup(o.pool, key) == Some(if o.status == Success then KeepFirstWeight(seen, EventWeight(rec.header.value).value) else seen)
      && forall k :: k != key ==> Lookup(o.pool, k) == Lookup(pool, k)
  {
    if rec.header.None? || rec.tracks.None? then Outcome(Stop, pool)
    else if rec.topology.None? || rec.topology.value.pattern.None? then Outcome(Error, pool)
    else
      var pattern := rec.topology.value.pattern.value;
      if pattern.id != "1e" then Outcome(Continue, pool)
      else
        var key := EnergyKey(fields, rec.header.value);
        var filled := Accumulate(pool, key, EnergyGroup, EnergyTemplate, pattern.electronEnergy, t);
        match EventWeight(rec.header.value)
        case Fail(r) => Outcome(Raised(r), filled)
        case Ok(w) => Outcome(Success, KeepFirstWeightNamed(filled, key, w))
  }

  /** The first successful event under a name fixes the histogram's
      weight; later events, whatever their label, keep it. */
  lemma FirstWeightSticks(fields: seq<string>, t: Templates, r1: Record, r2: Record, pool: Pool)
    requires Selected(r1) && Selected(r2)
    requires EnergyKey(fields, r1.header.value) == EnergyKey(fields, r2.header.value)
    requires Process(fields, t, r1, pool).status == Success
    ensures var key := EnergyKey(fields, r1.header.value);
      var o1 := Process(fields, t, r1, pool);
      var o2 := Process(fields, t, r2, o1.pool);
      && Has(o2.pool, key)
      && Get(o2.pool, key).weight == Get(o1.pool, key).weight
      && Get(o1.pool, key).weight.Some?
      && (!Has(pool, key) ==> Get(o1.pool, key).weight == Some(EventWeight(r1.header.value).value))
  {
    var key := EnergyKey(fields, r1.header.value);
    var o1 := Process(fields, t, r1, pool);
    var e1 := r1.topology.value.pattern.value.electronEnergy;
    var seen1 := Observed(Lookup(pool, key), EnergyGroup, EnergyTemplate, e1, t);
    var h1 := KeepFirstWeight(seen1, EventWeight(r1.header.value).value);
    assert Lookup(o1.pool, key) == Some(h1);
    assert h1.weight.Some?;
    assert !Has(pool, key) ==> seen1.weight.None?;
    var o2 := Process(fields, t, r2, o1.pool);
    var e2 := r2.topology.value.pattern.value.electronEnergy;
    var seen2 := Observed(Some(h1), EnergyGroup, EnergyTemplate, e2, t);
    assert seen2.weight == h1.weight;
    assert Lookup(o2.pool, key) == Some(if o2.status == Success then KeepFirstWeight(seen2, EventWeight(r2.header.value).value) else seen2);
  }

  /** An invalid electron energy fills nothing: the bins are as they were
      (empty ones for a new histogram), yet the weight is still recorded
      when the histogram has none. */
  lemma InvalidEnergyFillsNothing(fields: seq<string>, t: Templates, rec: Record, pool: Pool)
    requires Selected(rec) && rec.topology.value.pattern.value.electronEnergy.None?
    ensures var key := EnergyKey(fields, rec.header.value);
      var o := Process(fields, t, rec, pool);
      && Has(o.pool, key)
      && Get(o.pool, key).bins == (if Has(pool, key) then Get(pool, key).bins else Zeros(t.binCount(EnergyTemplate)))
      && (o.status == Success && (!Has(pool, key) || Get(pool, key).weight.None?) ==>
            Get(o.pool, key).weight == Some(EventWeight(rec.header.value).value))
  {
    var key := EnergyKey(fields, rec.header.value);
    var seen := Observed(Lookup(pool, key), EnergyGroup, EnergyTemplate, None, t);
    assert seen == if Has(pool, key) then Get(pool, key) else Mimic(EnergyGroup, EnergyTemplate, t);
  }

  /** The histogram an event creates lies in the `energy_distrib` group
      and mimics the energy template. */
  lemma NewEnergyHistogram(fields: seq<string>, t: Templates, rec: Record, pool: Pool)
    requires Selected(rec) && !Has(pool, EnergyKey(fields, rec.header.value))
    ensures var key := EnergyKey(fields, rec.header.value);
      var o := Process(fields, t, rec, pool);
      && Has(o.pool, key)
      && Get(o.pool, key).group == EnergyGroup && Get(o.pool, key).binning == EnergyTemplate
  {
    var key := EnergyKey(fields, rec.header.value);
    var v := rec.topology.value.pattern.value.electronEnergy;
    assert Observed(Lookup(pool, key), EnergyGroup, EnergyTemplate, v, t).group == EnergyGroup;
  }
}
