/** The histogram pool the analysis modules share: named one-dimensional
    histograms, each created on first use by mimicking a template, tagged
    with a group, flags and an optional `weight` auxiliary. */
module Histogram {
  import opened Wrappers
  import opened OrderedMap

  /** The pool template the energy histograms of both the half-life and
      the universal plot module mimic. */
  const EnergyTemplate := "energy_template"

  /** A histogram of the pool: its group, the template whose binning it
      mimics, its bin contents and the auxiliaries the modules use. */
  datatype Histo = Histo(
    group: string,
    binning: string,
    bins: seq<Value>,
    weight: Option<real>,
    flags: set<string>)

  /** The pool, keyed by histogram name, iterated in key order. */
  type Pool = Dict<Histo>

  /** The loaded templates: how many bins each has, and in which bin (if
      any, overflow and underflow excluded) a value falls. */
  datatype Templates = Templates(
    binCount: string -> nat,
    locate: (string, real) -> Option<nat>)

  function Zeros(n: nat): (r: seq<Value>)
    ensures |r| == n
    ensures forall i :: 0 <= i < n ==> r[i] == Some(0.0)
  {
    seq(n, i => Some(0.0))
  }

  /** A new, empty histogram in `group` with the binning of `template`. */
  function Mimic(group: string, template: string, t: Templates): Histo {
    Histo(group, template, Zeros(t.binCount(template)), None, {})
  }

  function Get(pool: Pool, name: string): Histo
    requires Has(pool, name)
  {
    Lookup(pool, name).value
  }

  /** `if (! pool.has(name)) pool.add_1d(name, "", group)` followed by the
      mimic initialisation: an existing histogram is left as it is. */
  function GetOrCreate(pool: Pool, name: string, group: string, template: string, t: Templates): (r: Pool)
    ensures Has(r, name)
    ensures Has(pool, name) ==> r == pool
    ensures !Has(pool, name) ==> Get(r, name) == Mimic(group, template, t)
    ensures forall k :: k != name ==> Lookup(r, k) == Lookup(pool, k)
  {
    if Has(pool, name) then pool else Insert(pool, name, Mimic(group, template, t))
  }

  /** Creating twice is creating once. */
  lemma GetOrCreateIdempotent(pool: Pool, name: string, group: string, template: string, t: Templates)
    ensures GetOrCreate(GetOrCreate(pool, name, group, template, t), name, group, template, t)
         == GetOrCreate(pool, name, group, template, t)
  {
  }

  /** Sum of the bin contents (`histogram::sum`); NaN if any bin is NaN. */
  function Total(bins: seq<Value>): Value
    decreases |bins|
  {
    if |bins| == 0 then Some(0.0) else Add(Total(bins[..|bins| - 1]), bins[|bins| - 1])
  }

  /** Adds one entry to bin `idx`; no bin changes when the value fell
      outside the binning. */
  function Increment(bins: seq<Value>, idx: Option<nat>): (r: seq<Value>)
    ensures |r| == |bins|
  {
    if idx.Some? && idx.value < |bins| then bins[idx.value := Add(bins[idx.value], Some(1.0))] else bins
  }

  /** `histogram_1d::fill(value)` */
  function Fill(h: Histo, value: real, t: Templates): Histo {
    h.(bins := Increment(h.bins, t.locate(h.binning, value)))
  }

  /** `histogram_1d::set(i, value)`; an index past the last bin is ignored. */
  function SetBin(bins: seq<Value>, i: nat, v: Value): (r: seq<Value>)
    ensures |r| == |bins|
  {
    if i < |bins| then bins[i := v] else bins
  }

  /** `histogram_1d::operator*=`: every bin multiplied by `factor`. */
  function ScaleBins(bins: seq<Value>, factor: real): (r: seq<Value>)
    ensures |r| == |bins|
  {
    seq(|bins|, i requires 0 <= i < |bins| => Mul(bins[i], Some(factor)))
  }

  /** Stores `weight` only when the histogram has none yet. */
  function KeepFirstWeight(h: Histo, weight: real): Histo {
    if h.weight.Some? then h else h.(weight := Some(weight))
  }

  /** `pool.names(names, "group=" + g)` */
  function InGroup(pool: Pool, g: string): (names: seq<string>)
    ensures forall k :: k in names <==> Has(pool, k) && Get(pool, k).group == g
    ensures Increasing(names)
  {
    KeysWhere(pool, (h: Histo) => h.group == g)
  }

  /** `pool.names(names, "flag=" + f)` */
  function WithFlag(pool: Pool, f: string): (names: seq<string>)
    ensures forall k :: k in names <==> Has(pool, k) && f in Get(pool, k).flags
    ensures Increasing(names)
  {
    KeysWhere(pool, (h: Histo) => f in h.flags)
  }

  lemma {:induction false} TotalOfUpdate(bins: seq<Value>, i: nat, v: Value)
    requires i < |bins|
    ensures bins[i].Some? && v.Some? && Total(bins).Some? ==>
              Total(bins[i := v]) == Some(Total(bins).value - bins[i].value + v.value)
    ensures v.None? ==> Total(bins[i := v]).None?
    decreases |bins|
  {
    var n := |bins| - 1;
    var b' := bins[i := v];
    assert b'[..n] == if i < n then bins[..n][i := v] else bins[..n];
    if i < n {
      TotalOfUpdate(bins[..n], i, v);
    }
  }

  /** A fill inside the binning adds exactly one entry to the histogram's
      total; a fill outside leaves every bin as it was. */
  lemma FillCountsOneEntry(h: Histo, value: real, t: Templates)
    ensures var idx := t.locate(h.binning, value);
      if idx.Some? && idx.value < |h.bins| then
        Total(h.bins).Some? && h.bins[idx.value].Some? ==>
          Total(Fill(h, value, t).bins) == Some(Total(h.bins).value + 1.0)
      else Fill(h, value, t) == h
  {
    var idx := t.locate(h.binning, value);
    if idx.Some? && idx.value < |h.bins| {
      TotalOfUpdate(h.bins, idx.value, Add(h.bins[idx.value], Some(1.0)));
    }
  }

  /** Fills the named histogram with `value` unless the value is invalid. */
  function FillNamed(pool: Pool, name: string, value: Value, t: Templates): (r: Pool)
    requires Has(pool, name)
    ensures Has(r, name)
    ensures forall k :: k != name ==> Lookup(r, k) == Lookup(pool, k)
  {
    if value.None? then pool else Insert(pool, name, Fill(Get(pool, name), value.value, t))
  }

  /** Stores `weight` on the named histogram unless it already has one. */
  function KeepFirstWeightNamed(pool: Pool, name: string, weight: real): (r: Pool)
    requires Has(pool, name)
    ensures Has(r, name)
    ensures forall k :: k != name ==> Lookup(r, k) == Lookup(pool, k)
  {
    Insert(pool, name, KeepFirstWeight(Get(pool, name), weight))
  }

  /** The histogram `name` holds after one observation: the existing one
      (or an empty mimic of `template` in `group`) with one fill of `v`
      when `v` is valid. */
  function Observed(prior: Option<Histo>, group: string, template: string, v: Value, t: Templates): Histo {
    var b := if prior.Some? then prior.value else Mimic(group, template, t);
    if v.None? then b else Fill(b, v.value, t)
  }

  /** Get-or-create followed by a fill guarded by `is_valid`. */
  function Accumulate(pool: Pool, name: string, group: string, template: string, v: Value, t: Templates): (r: Pool)
    ensures Lookup(r, name) == Some(Observed(Lookup(pool, name), group, template, v, t))
    ensures forall k :: k != name ==> Lookup(r, k) == Lookup(pool, k)
  {
    FillNamed(GetOrCreate(pool, name, group, template, t), name, v, t)
  }
}
