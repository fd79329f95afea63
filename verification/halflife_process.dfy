/** The half-life module's per-event step: events without a header or
    particle-track bank stop the chain, events with calorimeter hits left
    unassociated are passed over, and events with exactly two electrons
    fill the energy histogram named after their header fields and charge
    multiplicities. */
module HalflifeProcess {
  import opened Wrappers
  import opened OrderedMap
  import opened Histogram
  import opened Event
  import opened KeyBuilder
  import opened Classifier

  /** The group of the energy histograms the efficiency pass reads. */
  const EnergyGroup := "energy"

  /** The selection: both banks present, no unassociated calorimeter hit,
      and exactly two electrons among the counted particles. */
  predicate Accepted(rec: Record) {
    && rec.header.Some?
    && rec.tracks.Some?
    && |rec.tracks.value.nonAssociated| == 0
    && Classify(rec.tracks.value.particles).counts.electrons == 2
  }

  /** The histogram name an event is filed under. */
  function KeyOf(fields: seq<string>, rec: Record): string
    requires rec.header.Some? && rec.tracks.Some?
  {
    ChargeKey(fields, rec.header.value, Classify(rec.tracks.value.particles).counts)
  }

  /** The total energy of an event's counted calorimeter hits. */
  function EnergyOf(rec: Record): real
    requires rec.tracks.Some?
  {
    Classify(rec.tracks.value.particles).energy
  }

  /** What `key` names before the event: the pool's histogram or, when
      there is none, the empty mimic of the energy template. */
  function Before(pool: Pool, key: string, t: Templates): (h: Histo)
    ensures Has(pool, key) ==> Lookup(pool, key) == Some(h)
    ensures !Has(pool, key) ==> h == Mimic(EnergyGroup, EnergyTemplate, t)
  {
    if Has(pool, key) then Get(pool, key) else Mimic(EnergyGroup, EnergyTemplate, t)
  }

  /** `halflife_limit_module::process`. */
  function Process(fields: seq<string>, t: Templates, rec: Record, pool: Pool): (o: Outcome)
    ensures rec.header.None? || rec.tracks.None? ==> o == Outcome(Stop, pool)
    ensures rec.header.Some? && rec.tracks.Some? && !Accepted(rec) ==> o == Outcome(Continue, pool)
    ensures o.status == Success <==> Accepted(rec)
    ensures Accepted(rec) ==>
      var key := KeyOf(fields, rec);
      && Lookup(o.pool, key) == Some(KeepFirstWeight(Fill(Before(pool, key, t), EnergyOf(rec), t), 1.0))
      && forall k :: k != key ==> Lookup(o.pool, k) == Lookup(pool, k)
  {
    if rec.header.None? || rec.tracks.None? then Outcome(Stop, pool)
    else if |rec.tracks.value.nonAssociated| != 0 then Outcome(Continue, pool)
    else
      var tally := Classify(rec.tracks.value.particles);
      var key := ChargeKey(fields, rec.header.value, tally.counts);
      if tally.counts.electrons != 2 then Outcome(Continue, pool)
      else
        var created := GetOrCreate(pool, key, EnergyGroup, EnergyTemplate, t);
        var filled := FillNamed(created, key, Some(tally.energy), t);
        Outcome(Success, KeepFirstWeightNamed(filled, key, 1.0))
  }

  /** Filling a histogram and then keeping its first weight: one more
      entry when the value falls inside the binning, and weight 1 unless
      one was stored before; nothing else about it changes. */
  lemma FillAndWeigh(b: Histo, energy: real, t: Templates)
    ensures var h := KeepFirstWeight(Fill(b, energy, t), 1.0);
      && h.group == b.group && h.binning == b.binning && h.flags == b.flags
      && |h.bins| == |b.bins|
      && h.weight == (if b.weight.Some? then b.weight else Some(1.0))
      && (var idx := t.locate(b.binning, energy);
          if idx.Some? && idx.value < |b.bins| then
            Total(b.bins).Some? && b.bins[idx.value].Some? ==> Total(h.bins) == Some(Total(b.bins).value + 1.0)
          else h.bins == b.bins)
  {
    FillCountsOneEntry(b, energy, t);
  }

  /** An accepted event's histogram exists afterwards, was created in the
      energy group with the energy template's binning if it was missing,
      and carries a name that decodes back to two electrons. */
  lemma AcceptedEventEffect(fields: seq<string>, t: Templates, rec: Record, pool: Pool)
    requires Accepted(rec)
    ensures var key := KeyOf(fields, rec);
      var o := Process(fields, t, rec, pool);
      && Has(o.pool, key)
      && Get(o.pool, key) == KeepFirstWeight(Fill(Before(pool, key, t), EnergyOf(rec), t), 1.0)
      && (!Has(pool, key) ==>
            Get(o.pool, key).group == EnergyGroup && Get(o.pool, key).binning == EnergyTemplate
            && Get(o.pool, key).weight == Some(1.0))
      && DecodeChargeKey(key).Some? && DecodeChargeKey(key).value.1.electrons == 2
  {
    var key := KeyOf(fields, rec);
    FillAndWeigh(Before(pool, key, t), EnergyOf(rec), t);
    DecodeChargeKeyRoundTrip(fields, rec.header.value, Classify(rec.tracks.value.particles).counts);
  }

  /** A second accepted event under the same name reuses the histogram:
      group, binning, flags and the first weight are kept. */
  lemma RepeatedEventReusesHistogram(fields: seq<string>, t: Templates, r1: Record, r2: Record, pool: Pool)
    requires Accepted(r1) && Accepted(r2)
    requires KeyOf(fields, r1) == KeyOf(fields, r2)
    ensures var key := KeyOf(fields, r1);
      var o1 := Process(fields, t, r1, pool);
      var o2 := Process(fields, t, r2, o1.pool);
      && Has(o1.pool, key) && Has(o2.pool, key)
      && Get(o2.pool, key).weight == Get(o1.pool, key).weight
      && Get(o2.pool, key).weight.Some?
      && Get(o2.pool, key).group == Get(o1.pool, key).group
      && Get(o2.pool, key).binning == Get(o1.pool, key).binning
      && |Get(o2.pool, key).bins| == |Get(o1.pool, key).bins|
  {
    var key := KeyOf(fields, r1);
    var p1 := Process(fields, t, r1, pool).pool;
    AcceptedEventEffect(fields, t, r1, pool);
    FillAndWeigh(Before(pool, key, t), EnergyOf(r1), t);
    AcceptedEventEffect(fields, t, r2, p1);
    FillAndWeigh(Before(p1, key, t), EnergyOf(r2), t);
  }
}
