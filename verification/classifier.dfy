/** The half-life module's per-event particle loop: particles are counted by
    charge and the energies of their calorimeter hits summed, each
    calorimeter block (geometry id) contributing at most once per event. */
module Classifier {
  import opened Event

  /** What the particle loop accumulates. */
  datatype Tally = Tally(counts: Multiplicity, energy: real, seen: set<GeomId>)

  /** A particle enters the loop only with one or two associated
      calorimeter hits. */
  predicate Counted(p: Particle) {
    0 < |p.calos| <= 2
  }

  /** The charge counter a counted particle increments. */
  function Bump(m: Multiplicity, c: Charge): Multiplicity {
    match c
    case Negative => m.(electrons := m.electrons + 1)
    case Positive => m.(positrons := m.positrons + 1)
    case _ => m.(undefined := m.undefined + 1)
  }

  /** The energy summed so far and the geometry ids already used. */
  datatype Deposit = Deposit(energy: real, seen: set<GeomId>)

  /** One pass of the inner loop: a geometry id already seen is skipped. */
  function AddHit(d: Deposit, h: CaloHit): Deposit {
    if h.gid in d.seen then d else Deposit(d.energy + h.energy, d.seen + {h.gid})
  }

  /** The inner loop over a particle's calorimeter hits. */
  function AddHits(hits: seq<CaloHit>, d: Deposit): Deposit
    decreases |hits|
  {
    if |hits| == 0 then d else AddHit(AddHits(hits[..|hits| - 1], d), hits[|hits| - 1])
  }

  /** The particle loop over the first particles of the event, in order. */
  function Classify(ps: seq<Particle>): Tally
    decreases |ps|
  {
    if |ps| == 0 then Tally(Multiplicity(0, 0, 0), 0.0, {})
    else
      var t := Classify(ps[..|ps| - 1]);
      var p := ps[|ps| - 1];
      if !Counted(p) then t
      else
        var d := AddHits(p.calos, Deposit(t.energy, t.seen));
        Tally(Bump(t.counts, p.charge), d.energy, d.seen)
  }

  // Reference definitions: what the loop computes, stated without the
  // running set.

  /** The hits of the counted particles, in event order. */
  function EligibleHits(ps: seq<Particle>): seq<CaloHit>
    decreases |ps|
  {
    if |ps| == 0 then []
    else
      var p := ps[|ps| - 1];
      EligibleHits(ps[..|ps| - 1]) + (if Counted(p) then p.calos else [])
  }

  function Gids(hits: seq<CaloHit>): set<GeomId> {
    set i | 0 <= i < |hits| :: hits[i].gid
  }

  /** The hits whose geometry id has not occurred earlier. */
  function FirstOccurrences(hits: seq<CaloHit>): seq<CaloHit>
    decreases |hits|
  {
    if |hits| == 0 then []
    else
      var prefix := hits[..|hits| - 1];
      var h := hits[|hits| - 1];
      FirstOccurrences(prefix) + (if h.gid in Gids(prefix) then [] else [h])
  }

  function SumEnergy(hits: seq<CaloHit>): real
    decreases |hits|
  {
    if |hits| == 0 then 0.0 else SumEnergy(hits[..|hits| - 1]) + hits[|hits| - 1].energy
  }

  function CountCounted(ps: seq<Particle>): nat
    decreases |ps|
  {
    if |ps| == 0 then 0 else CountCounted(ps[..|ps| - 1]) + (if Counted(ps[|ps| - 1]) then 1 else 0)
  }

  lemma GidsSnoc(hits: seq<CaloHit>, h: CaloHit)
    ensures Gids(hits + [h]) == Gids(hits) + {h.gid}
  {
    var r := hits + [h];
    forall g | g in Gids(r) ensures g in Gids(hits) + {h.gid} {
      var i :| 0 <= i < |r| && r[i].gid == g;
      if i < |hits| { assert hits[i].gid == g; }
    }
    forall g | g in Gids(hits) ensures g in Gids(r) {
      var i :| 0 <= i < |hits| && hits[i].gid == g;
      assert r[i].gid == g;
    }
    assert r[|hits|].gid == h.gid;
  }

  lemma SumEnergySnoc(hits: seq<CaloHit>, h: CaloHit)
    ensures SumEnergy(hits + [h]) == SumEnergy(hits) + h.energy
  {
    assert (hits + [h])[..|hits|] == hits;
  }

  lemma FirstOccurrencesSnoc(hits: seq<CaloHit>, h: CaloHit)
    ensures FirstOccurrences(hits + [h])
         == FirstOccurrences(hits) + (if h.gid in Gids(hits) then [] else [h])
  {
    assert (hits + [h])[..|hits|] == hits;
  }

  lemma AddHitsSnoc(hits: seq<CaloHit>, h: CaloHit, d: Deposit)
    ensures AddHits(hits + [h], d) == AddHit(AddHits(hits, d), h)
  {
    assert (hits + [h])[..|hits|] == hits;
  }

  /** The reference state after a run of hits. */
  function Reference(hits: seq<CaloHit>): Deposit {
    Deposit(SumEnergy(FirstOccurrences(hits)), Gids(hits))
  }

  lemma ReferenceSnoc(hits: seq<CaloHit>, h: CaloHit)
    ensures Reference(hits + [h]) == AddHit(Reference(hits), h)
  {
    FirstOccurrencesSnoc(hits, h);
    GidsSnoc(hits, h);
    SumEnergySnoc(FirstOccurrences(hits), h);
    assert FirstOccurrences(hits) + [] == FirstOccurrences(hits);
  }

  /** Continuing the inner loop from the state reached after `prior` gives
      the state the reference assigns to `prior + hits`. */
  lemma {:induction false} AddHitsMatchesReference(prior: seq<CaloHit>, hits: seq<CaloHit>)
    ensures AddHits(hits, Reference(prior)) == Reference(prior + hits)
    decreases |hits|
  {
    if |hits| == 0 {
      assert prior + hits == prior;
    } else {
      var init := hits[..|hits| - 1];
      var h := hits[|hits| - 1];
      assert hits == init + [h];
      assert prior + hits == (prior + init) + [h];
      AddHitsMatchesReference(prior, init);
      AddHitsSnoc(init, h, Reference(prior));
      ReferenceSnoc(prior + init, h);
    }
  }

  /** The energy the particle loop sums is the energy of the first hit on
      each calorimeter block among the counted particles, and the blocks it
      remembers are exactly theirs. */
  lemma {:induction false} ClassifyEnergy(ps: seq<Particle>)
    ensures Classify(ps).energy == SumEnergy(FirstOccurrences(EligibleHits(ps)))
    ensures Classify(ps).seen == Gids(EligibleHits(ps))
    decreases |ps|
  {
    if |ps| > 0 {
      var init := ps[..|ps| - 1];
      var p := ps[|ps| - 1];
      ClassifyEnergy(init);
      if Counted(p) {
        AddHitsMatchesReference(EligibleHits(init), p.calos);
      } else {
        assert EligibleHits(ps) == EligibleHits(init) + [];
        assert EligibleHits(init) + [] == EligibleHits(init);
        assert Classify(ps) == Classify(init);
      }
    }
  }

  /** No calorimeter block occurs twice among the hits whose energy is
      summed, and every block hit by a counted particle is among them. */
  lemma {:induction false} FirstOccurrencesOnce(hits: seq<CaloHit>)
    ensures var f := FirstOccurrences(hits);
      && (forall i, j :: 0 <= i < j < |f| ==> f[i].gid != f[j].gid)
      && Gids(f) == Gids(hits)
    decreases |hits|
  {
    if |hits| > 0 {
      var prefix := hits[..|hits| - 1];
      var h := hits[|hits| - 1];
      FirstOccurrencesOnce(prefix);
      var f0 := FirstOccurrences(prefix);
      assert hits == prefix + [h];
      GidsSnoc(prefix, h);
      if h.gid !in Gids(prefix) {
        GidsSnoc(f0, h);
        var f := f0 + [h];
        forall i, j | 0 <= i < j < |f| ensures f[i].gid != f[j].gid {
          if j == |f0| {
            assert f[i].gid in Gids(f0) by { assert f0[i] == f[i]; }
          } else {
            assert f[i] == f0[i] && f[j] == f0[j];
          }
        }
      } else {
        assert FirstOccurrences(hits) == f0 + [];
        assert f0 + [] == f0;
      }
    }
  }

  /** Every counted particle increments exactly one of the three charge
      counters; a skipped particle changes nothing. */
  lemma ClassifyStep(ps: seq<Particle>, p: Particle)
    ensures var before := Classify(ps).counts;
      var after := Classify(ps + [p]).counts;
      if !Counted(p) then Classify(ps + [p]) == Classify(ps)
      else
        && after.electrons + after.positrons + after.undefined
           == before.electrons + before.positrons + before.undefined + 1
        && (after.electrons == before.electrons + 1 <==> p.charge == Negative)
        && (after.positrons == before.positrons + 1 <==> p.charge == Positive)
        && (after.undefined == before.undefined + 1 <==> p.charge !in {Negative, Positive})
  {
    assert (ps + [p])[..|ps|] == ps;
  }

  /** The three counters add up to the number of counted particles. */
  lemma {:induction false} ClassifyCountsCounted(ps: seq<Particle>)
    ensures var m := Classify(ps).counts; m.electrons + m.positrons + m.undefined == CountCounted(ps)
    decreases |ps|
  {
    if |ps| > 0 {
      ClassifyCountsCounted(ps[..|ps| - 1]);
    }
  }
}
