/** The vertices plot module's per-event step: for an event whose topology
    pattern is `2e`, the probability and the three distances of its
    `vertex_e1_e2` measurement each fill a histogram of the `vertices`
    group, invalid values being skipped. */
module VerticesPlot {
  import opened Wrappers
  import opened OrderedMap
  import opened Histogram
  import opened Event

  const VerticesGroup := "vertices"
  const ProbabilityName := "vertices_probability"
  const DistanceXName := "vertices_distance_x"
  const DistanceYName := "vertices_distance_y"
  const DistanceZName := "vertices_distance_z"
  const ProbabilityTemplate := "tof_probability_template"
  /** All three distance histograms mimic the `Y` template. */
  const DistanceTemplate := "delta_vertices_Y_template"

  /** The event carries a topology pattern with id `2e`. */
  predicate Selected(rec: Record) {
    rec.topology.Some? && rec.topology.value.pattern.Some? && rec.topology.value.pattern.value.id == "2e"
  }

  /** `vertices_plot_module::process`. */
  function Process(t: Templates, rec: Record, pool: Pool): (o: Outcome)
    ensures !Selected(rec) ==> o == Outcome(Error, pool)
    ensures Selected(rec) ==>
      var m := rec.topology.value.pattern.value.vertex;
      && o.status == Success
      && Lookup(o.pool, ProbabilityName) == Some(Observed(Lookup(pool, ProbabilityName), VerticesGroup, ProbabilityTemplate, m.probability, t))
      && Lookup(o.pool, DistanceXName) == Some(Observed(Lookup(pool, DistanceXName), VerticesGroup, DistanceTemplate, m.distanceX, t))
      && Lookup(o.pool, DistanceYName) == Some(Observed(Lookup(pool, DistanceYName), VerticesGroup, DistanceTemplate, m.distanceY, t))
      && Lookup(o.pool, DistanceZName) == Some(Observed(Lookup(pool, DistanceZName), VerticesGroup, DistanceTemplate, m.distanceZ, t))
      && forall k :: k != ProbabilityName && k != DistanceXName && k != DistanceYName && k != DistanceZName ==> Lookup(o.pool, k) == Lookup(pool, k)
  {
    if rec.topology.None? || rec.topology.value.pattern.None? then Outcome(Error, pool)
    else
      var pattern := rec.topology.value.pattern.value;
      if pattern.id != "2e" then Outcome(Error, pool)
      else
        NamesDistinct();
        AccumulateFour(pool, ProbabilityName, DistanceXName, DistanceYName, DistanceZName, VerticesGroup,
                       ProbabilityTemplate, DistanceTemplate, pattern.vertex.probability, pattern.vertex.distanceX,
                       pattern.vertex.distanceY, pattern.vertex.distanceZ, t);
        Outcome(Success, FillMeasurement(t, pattern.vertex, pool))
  }

  /** The four get-or-create-and-fill steps, in the order of the source. */
  function FillMeasurement(t: Templates, m: VertexMeasurement, pool: Pool): Pool {
    var p1 := Accumulate(pool, ProbabilityName, VerticesGroup, ProbabilityTemplate, m.probability, t);
    var p2 := Accumulate(p1, DistanceXName, VerticesGroup, DistanceTemplate, m.distanceX, t);
    var p3 := Accumulate(p2, DistanceYName, VerticesGroup, DistanceTemplate, m.distanceY, t);
    Accumulate(p3, DistanceZName, VerticesGroup, DistanceTemplate, m.distanceZ, t)
  }

  /** The histogram names are pairwise distinct. */
  lemma NamesDistinct()
    ensures ProbabilityName != DistanceXName && ProbabilityName != DistanceYName && ProbabilityName != DistanceZName
    ensures DistanceXName != DistanceYName && DistanceXName != DistanceZName && DistanceYName != DistanceZName
  {
    assert ProbabilityName[9] == 'p' && DistanceXName[9] == 'd' && DistanceYName[9] == 'd' && DistanceZName[9] == 'd';
    assert DistanceXName[18] == 'x' && DistanceYName[18] == 'y' && DistanceZName[18] == 'z';
  }

  /** Four accumulation steps under distinct names do not interfere: each
      name sees exactly its own observation, every other entry is kept. */
  lemma AccumulateFour(pool: Pool, n1: string, n2: string, n3: string, n4: string, g: string,
                       t1: string, t2: string, v1: Value, v2: Value, v3: Value, v4: Value, t: Templates)
    requires n1 != n2 && n1 != n3 && n1 != n4 && n2 != n3 && n2 != n4 && n3 != n4
    ensures var r := Accumulate(Accumulate(Accumulate(Accumulate(pool, n1, g, t1, v1, t), n2, g, t2, v2, t), n3, g, t2, v3, t), n4, g, t2, v4, t);
      && Lookup(r, n1) == Some(Observed(Lookup(pool, n1), g, t1, v1, t))
      && Lookup(r, n2) == Some(Observed(Lookup(pool, n2), g, t2, v2, t))
      && Lookup(r, n3) == Some(Observed(Lookup(pool, n3), g, t2, v3, t))
      && Lookup(r, n4) == Some(Observed(Lookup(pool, n4), g, t2, v4, t))
      && forall k :: k != n1 && k != n2 && k != n3 && k != n4 ==> Lookup(r, k) == Lookup(pool, k)
  {
    var p1 := Accumulate(pool, n1, g, t1, v1, t);
    var p2 := Accumulate(p1, n2, g, t2, v2, t);
    var p3 := Accumulate(p2, n3, g, t2, v3, t);
    var p4 := Accumulate(p3, n4, g, t2, v4, t);
    assert Lookup(p4, n1) == Lookup(p3, n1) == Lookup(p2, n1) == Lookup(p1, n1);
    assert Lookup(p4, n2) == Lookup(p3, n2) == Lookup(p2, n2);
    assert Lookup(p1, n2) == Lookup(pool, n2);
    assert Lookup(p4, n3) == Lookup(p3, n3);
    assert Lookup(p2, n3) == Lookup(p1, n3) == Lookup(pool, n3);
    assert Lookup(p3, n4) == Lookup(p2, n4) == Lookup(p1, n4) == Lookup(pool, n4);
    forall k | k != n1 && k != n2 && k != n3 && k != n4
      ensures Lookup(p4, k) == Lookup(pool, k)
    {
      assert Lookup(p4, k) == Lookup(p3, k) == Lookup(p2, k) == Lookup(p1, k) == Lookup(pool, k);
    }
  }

  /** Any observable of the measurement that is invalid leaves its
      histogram's bins as they were, and a histogram created by the event
      belongs to the vertices group. */
  lemma InvalidObservableIsSkipped(prior: Option<Histo>, template: string, v: Value, t: Templates)
    ensures v.None? && prior.Some? ==> Observed(prior, VerticesGroup, template, v, t) == prior.value
    ensures prior.None? ==> Observed(prior, VerticesGroup, template, v, t).group == VerticesGroup
    ensures prior.None? ==> Observed(prior, VerticesGroup, template, v, t).binning == template
    ensures prior.Some? ==> Observed(prior, VerticesGroup, template, v, t).group == prior.value.group
  {
  }

  /** Events of any other topology are rejected the same way, whatever
      their vertex measurement: the pool is the same before and after. */
  lemma OnlyTwoElectronPatterns(t: Templates, rec: Record, pool: Pool)
    requires rec.topology.Some? && rec.topology.value.pattern.Some?
    ensures Process(t, rec, pool).status == Success <==> rec.topology.value.pattern.value.id == "2e"
    ensures rec.topology.value.pattern.value.id != "2e" ==> Process(t, rec, pool).pool == pool
  {
  }
}
