/** The experimental conditions the half-life module reads from its
    `experiment.` configuration: isotope mass number and mass, the
    reference two-neutrino half-life, the exposure time and the activity of
    every listed background element. */
module Experiment {
  import opened Wrappers
  import opened OrderedMap

  /** A configuration property, as far as the conditions use it. */
  datatype Setting =
    | IntSetting(i: int)
    | RealSetting(r: real, explicitUnit: bool)
    | TextSetting(s: string)
    | ListSetting(items: seq<string>)

  type Config = map<string, Setting>

  /** The CLHEP units the conditions are expressed in, with the two
      constants the limit needs: CLHEP's Avogadro constant (per `mole`)
      and the value of `std::log(2)`. */
  datatype UnitSystem = UnitSystem(kg: real, gram: real, mole: real, becquerel: real, avogadro: real, ln2: real)

  type Units = u: UnitSystem | u.kg > 0.0 && u.gram > 0.0 && u.mole > 0.0 && u.becquerel > 0.0
    witness UnitSystem(1.0, 0.001, 1.0, 1.0, 1.0, 1.0)

  /** `experiment_entry_type`: activities are keyed by element name. */
  datatype Conditions = Conditions(
    massNumber: real,
    mass: real,
    bb2nuHalflife: real,
    exposure: real,
    activities: Dict<real>)

  const MassNumberKey := "isotope_mass_number"
  const MassKey := "isotope_mass"
  const HalflifeKey := "isotope_bb2nu_halflife"
  const ExposureKey := "exposure_time"
  const BackgroundListKey := "background_list"
  const ActivitySuffix := ".activity"

  /** `fetch_real` followed by the default-unit rule: a value written
      without an explicit unit is multiplied by `unit`. */
  function FetchScaled(config: Config, key: string, unit: real): Result<real> {
    if key !in config then Fail("missing property '" + key + "'")
    else if !config[key].RealSetting? then Fail("property '" + key + "' is not a real")
    else if config[key].explicitUnit then Ok(config[key].r)
    else Ok(config[key].r * unit)
  }

  /** The activity a listed element receives: `<name>.activity`, in
      becquerel per kilogram unless written with a unit. */
  function Activity(config: Config, name: string, u: Units): Result<real> {
    FetchScaled(config, name + ActivitySuffix, u.becquerel / u.kg)
  }

  /** The loop over the first elements of `background_list`, in order;
      the first element without a real activity raises. */
  function ActivitiesFrom(config: Config, names: seq<string>, acts: Dict<real>, u: Units): Result<Dict<real>>
    decreases |names|
  {
    if |names| == 0 then Ok(acts)
    else
      var before := ActivitiesFrom(config, names[..|names| - 1], acts, u);
      var a := Activity(config, names[|names| - 1], u);
      if before.Fail? then before
      else if a.Fail? then Fail(a.reason)
      else Ok(Insert(before.value, names[|names| - 1], a.value))
  }

  /** Every listed element has a real activity. */
  predicate AllActivities(config: Config, names: seq<string>, u: Units) {
    forall n :: n in names ==> Activity(config, n, u).Ok?
  }

  /** The activity loop fails exactly when some listed element lacks a
      real activity; otherwise each listed element maps to its activity
      and every other entry is kept. */
  lemma {:induction false} ActivitiesFromEffect(config: Config, names: seq<string>, acts: Dict<real>, u: Units)
    ensures ActivitiesFrom(config, names, acts, u).Ok? <==> AllActivities(config, names, u)
    ensures ActivitiesFrom(config, names, acts, u).Ok? ==>
      && (forall n :: n in names ==> Lookup(ActivitiesFrom(config, names, acts, u).value, n) == Some(Activity(config, n, u).value))
      && (forall k :: k !in names ==> Lookup(ActivitiesFrom(config, names, acts, u).value, k) == Lookup(acts, k))
    decreases |names|
  {
    if |names| > 0 {
      var front, last := names[..|names| - 1], names[|names| - 1];
      assert names == front + [last];
      ActivitiesFromEffect(config, front, acts, u);
      assert AllActivities(config, names, u) <==> AllActivities(config, front, u) && Activity(config, last, u).Ok?;
    }
  }

  /** `experiment_entry_type::initialize`: keys that are absent leave the
      corresponding condition as it was; a key of the wrong type raises. */
  function Initialize(config: Config, base: Conditions, u: Units): Result<Conditions> {
    var massNumber :=
      if MassNumberKey !in config then Ok(base.massNumber)
      else if config[MassNumberKey].IntSetting? then Ok(config[MassNumberKey].i as real * (u.gram / u.mole))
      else Fail("property '" + MassNumberKey + "' is not an integer");
    var mass := if MassKey !in config then Ok(base.mass) else FetchScaled(config, MassKey, u.kg);
    var halflife := if HalflifeKey !in config then Ok(base.bb2nuHalflife) else FetchScaled(config, HalflifeKey, 1.0);
    var exposure := if ExposureKey !in config then Ok(base.exposure) else FetchScaled(config, ExposureKey, 1.0);
    var acts :=
      if BackgroundListKey !in config then Ok(base.activities)
      else if config[BackgroundListKey].ListSetting? then ActivitiesFrom(config, config[BackgroundListKey].items, base.activities, u)
      else Fail("property '" + BackgroundListKey + "' is not a list of strings");
    if massNumber.Fail? then Fail(massNumber.reason)
    else if mass.Fail? then Fail(mass.reason)
    else if halflife.Fail? then Fail(halflife.reason)
    else if exposure.Fail? then Fail(exposure.reason)
    else if acts.Fail? then Fail(acts.reason)
    else Ok(Conditions(massNumber.value, mass.value, halflife.value, exposure.value, acts.value))
  }

  /** Every key of the `experiment.` section that is present has the type
      its reader expects, and every listed background element has an
      activity. */
  predicate WellTyped(config: Config, u: Units) {
    && (MassNumberKey in config ==> config[MassNumberKey].IntSetting?)
    && (MassKey in config ==> config[MassKey].RealSetting?)
    && (HalflifeKey in config ==> config[HalflifeKey].RealSetting?)
    && (ExposureKey in config ==> config[ExposureKey].RealSetting?)
    && (BackgroundListKey in config ==>
          config[BackgroundListKey].ListSetting? && AllActivities(config, config[BackgroundListKey].items, u))
  }

  /** Reading the `experiment.` section succeeds exactly when it is well
      typed. Then an absent key keeps the prior condition; the mass number
      is in grams per mole, the mass in kilograms unless written with a
      unit, the half-life and exposure as written; every listed element
      records its activity and every other element keeps its own. */
  lemma InitializeEffect(config: Config, base: Conditions, u: Units)
    ensures Initialize(config, base, u).Ok? <==> WellTyped(config, u)
    ensures Initialize(config, base, u).Ok? ==>
      var r := Initialize(config, base, u).value;
      && r.massNumber == (if MassNumberKey in config then config[MassNumberKey].i as real * (u.gram / u.mole) else base.massNumber)
      && r.mass == (if MassKey !in config then base.mass
                    else if config[MassKey].explicitUnit then config[MassKey].r else config[MassKey].r * u.kg)
      && r.bb2nuHalflife == (if HalflifeKey in config then config[HalflifeKey].r else base.bb2nuHalflife)
      && r.exposure == (if ExposureKey in config then config[ExposureKey].r else base.exposure)
      && (BackgroundListKey !in config ==> r.activities == base.activities)
      && (BackgroundListKey in config ==>
            && (forall n :: n in config[BackgroundListKey].items ==> ActivityRecorded(config, n, r.activities, u))
            && (forall k :: k !in config[BackgroundListKey].items ==> Lookup(r.activities, k) == Lookup(base.activities, k)))
  {
    if BackgroundListKey in config && config[BackgroundListKey].ListSetting? {
      var names := config[BackgroundListKey].items;
      ActivitiesFromEffect(config, names, base.activities, u);
      if Initialize(config, base, u).Ok? {
        var acts := ActivitiesFrom(config, names, base.activities, u).value;
        assert Initialize(config, base, u).value.activities == acts;
        forall n | n in names
          ensures ActivityRecorded(config, n, acts, u)
        {
          ActivityOf(config, n, u);
        }
      }
    }
  }

  lemma ActivityOf(config: Config, name: string, u: Units)
    requires Activity(config, name, u).Ok?
    ensures var key := name + ActivitySuffix;
      && key in config && config[key].RealSetting?
      && Activity(config, name, u).value
           == (if config[key].explicitUnit then config[key].r else config[key].r * (u.becquerel / u.kg))
  {
  }

  /** `name.activity` is a real, and `acts` records it for `name`, in
      becquerel per kilogram unless it was written with a unit. */
  predicate ActivityRecorded(config: Config, name: string, acts: Dict<real>, u: Units) {
    var key := name + ActivitySuffix;
    && key in config && config[key].RealSetting?
    && Lookup(acts, name) == Some(if config[key].explicitUnit then config[key].r else config[key].r * (u.becquerel / u.kg))
  }
}
