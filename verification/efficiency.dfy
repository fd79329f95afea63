/** The half-life module's efficiency pass: each histogram of the `energy`
    group yields a histogram `<name>_efficiency` whose bin `i` holds the
    weighted number of entries at or above bin `i`, flagged as signal when
    the name mentions `0nubb` and as background otherwise. */
module Efficiency {
  import opened Wrappers
  import opened OrderedMap
  import opened Histogram
  import opened Text
  import HalflifeProcess

  const EfficiencyGroup := "efficiency"
  const EfficiencyTemplate := "halflife_limit_efficiency_template"
  const SignalFlag := "__signal"
  const BackgroundFlag := "__background"
  const EfficiencySuffix := "_efficiency"

  function EfficiencyName(name: string): string {
    name + EfficiencySuffix
  }

  /** The flag an efficiency histogram receives. */
  function FlagFor(name: string): string {
    if Contains(name, "0nubb") then SignalFlag else BackgroundFlag
  }

  // ---------------------------------------------------------------------
  // The inner loop over the bins of one energy histogram.

  /** The value the inner loop computes for each bin, `None` where nothing
      is written: an invalid bin is skipped without being consumed, and a
      valid one yields `(sum - consumed) * weight` before being added to
      `consumed`. */
  function Efficiencies(bins: seq<Value>, sum: Value, weight: real, consumed: real): (effs: seq<Value>)
    ensures |effs| == |bins|
    ensures forall i :: 0 <= i < |bins| && bins[i].None? ==> effs[i].None?
    decreases |bins|
  {
    if |bins| == 0 then []
    else if bins[0].None? then [None] + Efficiencies(bins[1..], sum, weight, consumed)
    else [Mul(Sub(sum, Some(consumed)), Some(weight))] + Efficiencies(bins[1..], sum, weight, consumed + bins[0].value)
  }

  /** Sum of the valid bins. */
  function ValidSum(bins: seq<Value>): real
    decreases |bins|
  {
    if |bins| == 0 then 0.0 else ValidSum(bins[..|bins| - 1]) + bins[|bins| - 1].GetOr(0.0)
  }

  lemma {:induction false} ValidSumAppend(a: seq<Value>, b: seq<Value>)
    ensures ValidSum(a + b) == ValidSum(a) + ValidSum(b)
    decreases |b|
  {
    if |b| == 0 {
      assert a + b == a;
    } else {
      assert (a + b)[..|a + b| - 1] == a + b[..|b| - 1];
      ValidSumAppend(a, b[..|b| - 1]);
    }
  }

  /** With every bin valid, the histogram sum is the valid sum. */
  lemma {:induction false} TotalOfValid(bins: seq<Value>)
    requires forall i :: 0 <= i < |bins| ==> bins[i].Some?
    ensures Total(bins) == Some(ValidSum(bins))
    decreases |bins|
  {
    if |bins| > 0 {
      TotalOfValid(bins[..|bins| - 1]);
    }
  }

  /** Bin `i` of the loop's output, stated without the running counter:
      the valid bins before `i` are what has been consumed. */
  lemma {:induction false} EfficiencyAt(bins: seq<Value>, sum: Value, weight: real, consumed: real, i: nat)
    requires i < |bins|
    ensures Efficiencies(bins, sum, weight, consumed)[i]
         == if bins[i].None? then None else Mul(Sub(sum, Some(consumed + ValidSum(bins[..i]))), Some(weight))
    decreases i
  {
    if i > 0 {
      var c' := consumed + bins[0].GetOr(0.0);
      EfficiencyAt(bins[1..], sum, weight, c', i - 1);
      assert bins[1..][i - 1] == bins[i];
      assert bins[..i] == [bins[0]] + bins[1..][..i - 1];
      ValidSumAppend([bins[0]], bins[1..][..i - 1]);
      assert ValidSum([bins[0]]) == bins[0].GetOr(0.0) by {
        assert [bins[0]][..0] == [];
      }
    }
  }

  /** With every bin valid, what remains after consuming the bins
      before `i` is the sum of bins `i` and above. */
  lemma Remaining(bins: seq<Value>, i: nat)
    requires forall j :: 0 <= j < |bins| ==> bins[j].Some?
    requires i < |bins|
    ensures Total(bins[i..]).Some?
    ensures Sub(Total(bins), Some(0.0 + ValidSum(bins[..i]))) == Total(bins[i..])
  {
    var pre, suf := bins[..i], bins[i..];
    TotalOfValid(bins);
    TotalOfValid(suf);
    assert bins == pre + suf;
    ValidSumAppend(pre, suf);
  }

  /** With every bin valid, bin `i` of the efficiency is the weighted
      number of entries in bins `i` and above. */
  lemma TailSum(bins: seq<Value>, weight: real, i: nat)
    requires forall j :: 0 <= j < |bins| ==> bins[j].Some?
    requires i < |bins|
    ensures Total(bins[i..]).Some?
    ensures Efficiencies(bins, Total(bins), weight, 0.0)[i] == Mul(Total(bins[i..]), Some(weight))
  {
    Remaining(bins, i);
    EfficiencyAt(bins, Total(bins), weight, 0.0, i);
  }

  /** Bin 0 holds the weighted total; the last bin its own weighted count. */
  lemma FirstAndLastBin(bins: seq<Value>, weight: real)
    requires forall j :: 0 <= j < |bins| ==> bins[j].Some?
    requires |bins| > 0
    ensures Total(bins).Some?
    ensures Efficiencies(bins, Total(bins), weight, 0.0)[0] == Mul(Total(bins), Some(weight))
    ensures Efficiencies(bins, Total(bins), weight, 0.0)[|bins| - 1] == Mul(bins[|bins| - 1], Some(weight))
  {
    TailSum(bins, weight, 0);
    assert bins[0..] == bins;
    TailSum(bins, weight, |bins| - 1);
    assert bins[|bins| - 1..] == [bins[|bins| - 1]];
    TotalOfSingle(bins[|bins| - 1]);
  }

  lemma TotalOfSingle(v: Value)
    requires v.Some?
    ensures Total([v]) == v
  {
    assert [v][..0] == [];
  }

  /** A single invalid bin makes the sum invalid, so nothing is written. */
  lemma InvalidBinSpoilsAll(bins: seq<Value>, weight: real, i: nat)
    requires i < |bins| && bins[i].None?
    ensures forall j :: 0 <= j < |bins| ==> Efficiencies(bins, Total(bins), weight, 0.0)[j].None?
  {
    TotalOfUpdate(bins, i, None);
    assert bins[i := None] == bins;
    forall j | 0 <= j < |bins| ensures Efficiencies(bins, Total(bins), weight, 0.0)[j].None? {
      EfficiencyAt(bins, Total(bins), weight, 0.0, j);
    }
  }

  /** Three bins holding 3, 2 and 5 entries, weight 1: 10, 7 and 5. */
  lemma ThreeBinExample()
    ensures var bins: seq<Value> := [Some(3.0), Some(2.0), Some(5.0)];
      Efficiencies(bins, Total(bins), 1.0, 0.0) == [Some(10.0), Some(7.0), Some(5.0)]
  {
    var bins: seq<Value> := [Some(3.0), Some(2.0), Some(5.0)];
    assert bins[..2] == [Some(3.0), Some(2.0)];
    assert bins[..2][..1] == [Some(3.0)];
    assert |bins[..2][..1][..0]| == 0;
    assert Total(bins[..2][..1]) == Some(3.0);
    assert Total(bins[..2]) == Some(5.0);
    assert Total(bins) == Some(10.0);
    assert bins[1..] == [Some(2.0), Some(5.0)];
    assert bins[1..][1..] == [Some(5.0)];
    assert |bins[1..][1..][1..]| == 0;
  }

  // ---------------------------------------------------------------------
  // Writing the efficiency histogram.

  /** The efficiency histogram before the pass: the pool's, or a fresh
      mimic of the efficiency template. */
  function TargetBefore(pool: Pool, target: string, t: Templates): (h: Histo)
    ensures Has(pool, target) ==> Lookup(pool, target) == Some(h)
  {
    if Has(pool, target) then Get(pool, target) else Mimic(EfficiencyGroup, EfficiencyTemplate, t)
  }

  /** One write: `set(i, efficiency)` and the flag. */
  function Written(h: Histo, i: nat, v: Value, flag: string): Histo {
    h.(bins := SetBin(h.bins, i, v), flags := h.flags + {flag})
  }

  /** One write into the efficiency histogram, creating it if needed. */
  function WriteOne(p: Pool, target: string, i: nat, v: Value, flag: string, t: Templates): (r: Pool)
    ensures Lookup(r, target) == Some(Written(TargetBefore(p, target, t), i, v, flag))
    ensures forall k :: k != target ==> Lookup(r, k) == Lookup(p, k)
  {
    var q := GetOrCreate(p, target, EfficiencyGroup, EfficiencyTemplate, t);
    Insert(q, target, Written(Get(q, target), i, v, flag))
  }

  /** The writes of the first `n` bins of the inner loop, in order; the
      efficiency histogram is created at the first write. */
  function WriteUpTo(pool: Pool, target: string, effs: seq<Value>, n: nat, flag: string, t: Templates): (r: Pool)
    requires n <= |effs|
    ensures forall k :: Has(pool, k) ==> Has(r, k)
    decreases n
  {
    if n == 0 then pool
    else
      var p := WriteUpTo(pool, target, effs, n - 1, flag, t);
      if effs[n - 1].None? then p else WriteOne(p, target, n - 1, effs[n - 1], flag, t)
  }

  /** Some bin before `n` is written. */
  predicate AnyWritten(effs: seq<Value>, n: nat) {
    exists j :: 0 <= j < n && j < |effs| && effs[j].Some?
  }

  /** The bins after the writes of the first `n` bins. */
  function Overlay(bins: seq<Value>, effs: seq<Value>, n: nat): (r: seq<Value>)
    requires n <= |effs|
    ensures |r| == |bins|
  {
    seq(|bins|, j requires 0 <= j < |bins| => if j < n && effs[j].Some? then effs[j] else bins[j])
  }

  /** The efficiency histogram after the first `n` writes. */
  function Rewritten(h: Histo, effs: seq<Value>, n: nat, flag: string): Histo
    requires n <= |effs|
  {
    h.(bins := Overlay(h.bins, effs, n), flags := h.flags + {flag})
  }

  lemma OverlayStep(bins: seq<Value>, effs: seq<Value>, n: nat)
    requires 0 < n <= |effs|
    ensures effs[n - 1].Some? ==> SetBin(Overlay(bins, effs, n - 1), n - 1, effs[n - 1]) == Overlay(bins, effs, n)
    ensures effs[n - 1].None? ==> Overlay(bins, effs, n - 1) == Overlay(bins, effs, n)
    ensures !AnyWritten(effs, n - 1) ==> Overlay(bins, effs, n - 1) == bins
  {
  }

  /** The inner loop, stated declaratively: the efficiency histogram
      exists after it exactly when some bin was written, then holds the
      written values over its previous bins and carries the flag; nothing
      else in the pool changes. */
  lemma {:induction false} WriteUpToEffect(pool: Pool, target: string, effs: seq<Value>, n: nat, flag: string, t: Templates)
    requires n <= |effs|
    ensures Lookup(WriteUpTo(pool, target, effs, n, flag, t), target)
         == if AnyWritten(effs, n) then Some(Rewritten(TargetBefore(pool, target, t), effs, n, flag)) else Lookup(pool, target)
    ensures forall k :: k != target ==> Lookup(WriteUpTo(pool, target, effs, n, flag, t), k) == Lookup(pool, k)
    decreases n
  {
    if n > 0 {
      WriteUpToEffect(pool, target, effs, n - 1, flag, t);
      var p := WriteUpTo(pool, target, effs, n - 1, flag, t);
      var b := TargetBefore(pool, target, t);
      OverlayStep(b.bins, effs, n);
      if effs[n - 1].Some? {
        assert AnyWritten(effs, n);
        if AnyWritten(effs, n - 1) {
          assert TargetBefore(p, target, t) == Rewritten(b, effs, n - 1, flag);
        } else {
          assert TargetBefore(p, target, t) == b;
        }
      } else {
        assert AnyWritten(effs, n) == AnyWritten(effs, n - 1);
      }
    }
  }

  /** The efficiencies of one energy histogram: its sum, its weight (1 if
      none was stored), nothing consumed yet. */
  function EfficienciesOf(h: Histo): (effs: seq<Value>)
    ensures |effs| == |h.bins|
  {
    Efficiencies(h.bins, Total(h.bins), h.weight.GetOr(1.0), 0.0)
  }

  /** One iteration of the outer loop, for the energy histogram `name`. */
  function Derive(pool: Pool, name: string, t: Templates): (r: Pool)
    requires Has(pool, name)
    ensures forall k :: Has(pool, k) ==> Has(r, k)
  {
    var effs := EfficienciesOf(Get(pool, name));
    WriteUpTo(pool, EfficiencyName(name), effs, |effs|, FlagFor(name), t)
  }

  /** The efficiency histogram one energy histogram `src` leaves behind,
      given what its name held before. */
  function TargetAfter(src: Histo, prior: Option<Histo>, name: string, t: Templates): Option<Histo> {
    var effs := EfficienciesOf(src);
    if !AnyWritten(effs, |effs|) then prior
    else
      var b := if prior.Some? then prior.value else Mimic(EfficiencyGroup, EfficiencyTemplate, t);
      Some(Rewritten(b, effs, |effs|, FlagFor(name)))
  }

  /** One outer iteration changes only `<name>_efficiency`, as described
      by `TargetAfter`. */
  lemma DeriveEffect(pool: Pool, name: string, t: Templates)
    requires Has(pool, name)
    ensures Lookup(Derive(pool, name, t), EfficiencyName(name))
         == TargetAfter(Get(pool, name), Lookup(pool, EfficiencyName(name)), name, t)
    ensures forall k :: k != EfficiencyName(name) ==> Lookup(Derive(pool, name, t), k) == Lookup(pool, k)
  {
    var effs := EfficienciesOf(Get(pool, name));
    WriteUpToEffect(pool, EfficiencyName(name), effs, |effs|, FlagFor(name), t);
  }

  /** An energy histogram with an invalid bin derives nothing. */
  lemma InvalidHistogramDerivesNothing(pool: Pool, name: string, t: Templates, i: nat)
    requires Has(pool, name)
    requires i < |Get(pool, name).bins| && Get(pool, name).bins[i].None?
    ensures Derive(pool, name, t) == pool
  {
    var h := Get(pool, name);
    InvalidBinSpoilsAll(h.bins, h.weight.GetOr(1.0), i);
    DeriveEffect(pool, name, t);
    Extensional(Derive(pool, name, t), pool);
  }

  /** An efficiency histogram the pass creates lies in the efficiency
      group with the efficiency template's binning, and carries exactly one
      flag: signal when the energy histogram's name mentions `0nubb`,
      background otherwise. */
  lemma NewEfficiencyHistogram(src: Histo, name: string, t: Templates)
    requires AnyWritten(EfficienciesOf(src), |src.bins|)
    ensures var h := TargetAfter(src, None, name, t);
      && h.Some? && h.value.group == EfficiencyGroup && h.value.binning == EfficiencyTemplate
      && h.value.flags == {FlagFor(name)}
      && (SignalFlag in h.value.flags <==> Contains(name, "0nubb"))
      && (BackgroundFlag in h.value.flags <==> !Contains(name, "0nubb"))
  {
    assert SignalFlag[2] != BackgroundFlag[2];
  }

  /** Writing the same efficiencies twice is writing them once. */
  lemma TargetAfterIdempotent(src: Histo, prior: Option<Histo>, name: string, t: Templates)
    ensures TargetAfter(src, TargetAfter(src, prior, name, t), name, t) == TargetAfter(src, prior, name, t)
  {
    var effs := EfficienciesOf(src);
    if AnyWritten(effs, |effs|) {
      var b := if prior.Some? then prior.value else Mimic(EfficiencyGroup, EfficiencyTemplate, t);
      var once := Rewritten(b, effs, |effs|, FlagFor(name));
      assert Overlay(once.bins, effs, |effs|) == once.bins;
    }
  }

  lemma EfficiencyNameInjective(a: string, b: string)
    ensures EfficiencyName(a) == EfficiencyName(b) ==> a == b
    ensures EfficiencyName(a) != a
  {
    if EfficiencyName(a) == EfficiencyName(b) {
      assert |a| == |b|;
      assert a == EfficiencyName(a)[..|a|];
      assert b == EfficiencyName(b)[..|b|];
    }
  }

  /** `k` is not the efficiency name of any of `names`. */
  predicate NotATarget(k: string, names: seq<string>) {
    forall n :: n in names ==> k != EfficiencyName(n)
  }

  /** The outer loop over the energy histograms, in pool order. */
  function DeriveAll(pool: Pool, names: seq<string>, t: Templates): (r: Pool)
    requires forall n :: n in names ==> Has(pool, n)
    ensures forall k :: Has(pool, k) ==> Has(r, k)
    decreases |names|
  {
    if |names| == 0 then pool
    else
      var p := DeriveAll(pool, names[..|names| - 1], t);
      Derive(p, names[|names| - 1], t)
  }

  /** `halflife_limit_module::_compute_efficiency`. */
  function ComputeEfficiency(pool: Pool, t: Templates): Pool {
    var names := InGroup(pool, HalflifeProcess.EnergyGroup);
    if |names| == 0 then pool else DeriveAll(pool, names, t)
  }

  /** When no efficiency name is itself one of the energy histograms, the
      outer loop acts name by name: each `<name>_efficiency` becomes what
      its own energy histogram derives, and nothing else changes. */
  lemma {:induction false} DeriveAllEffect(pool: Pool, names: seq<string>, t: Templates)
    requires forall n :: n in names ==> Has(pool, n)
    requires Increasing(names)
    requires forall n, m :: n in names && m in names ==> EfficiencyName(n) != m
    ensures forall n :: n in names ==>
      Lookup(DeriveAll(pool, names, t), EfficiencyName(n)) == TargetAfter(Get(pool, n), Lookup(pool, EfficiencyName(n)), n, t)
    ensures forall k :: NotATarget(k, names) ==> Lookup(DeriveAll(pool, names, t), k) == Lookup(pool, k)
    decreases |names|
  {
    if |names| > 0 {
      var front, m := names[..|names| - 1], names[|names| - 1];
      assert names == front + [m];
      assert Increasing(front);
      assert forall n :: n in front ==> n in names;
      DeriveAllEffect(pool, front, t);
      var p := DeriveAll(pool, front, t);
      LastIsFresh(names);
      assert DeriveAll(pool, names, t) == Derive(p, m, t);
      DeriveLast(pool, p, front, m, t);
    }
  }

  /** The last of increasing names that are not one another's efficiency
      names is new, and neither it nor its efficiency name is a target of
      the names before it. */
  lemma LastIsFresh(names: seq<string>)
    requires |names| > 0 && Increasing(names)
    requires forall n, m :: n in names && m in names ==> EfficiencyName(n) != m
    ensures var front, m := names[..|names| - 1], names[|names| - 1];
      m !in front && NotATarget(m, front) && NotATarget(EfficiencyName(m), front)
  {
    var l := |names| - 1;
    var front, m := names[..l], names[l];
    assert m !in front by {
      if m in front {
        var i :| 0 <= i < |front| && front[i] == m;
        assert Less(names[i], names[l]);
        LessIrreflexive(m);
      }
    }
    assert NotATarget(m, front) by {
      forall n | n in front ensures m != EfficiencyName(n) {
        assert n in names && m in names;
      }
    }
    assert NotATarget(EfficiencyName(m), front) by {
      forall n | n in front ensures EfficiencyName(m) != EfficiencyName(n) {
        EfficiencyNameInjective(m, n);
      }
    }
  }

  /** The last outer iteration of `DeriveAllEffect`: `p` is the pool the
      earlier names left behind, and `m` is new and not a target of theirs. */
  lemma DeriveLast(pool: Pool, p: Pool, front: seq<string>, m: string, t: Templates)
    requires Has(pool, m) && Has(p, m) && Lookup(p, m) == Lookup(pool, m)
    requires forall n :: n in front ==> Has(pool, n)
    requires m !in front && NotATarget(EfficiencyName(m), front)
    requires forall n :: n in front ==>
      Lookup(p, EfficiencyName(n)) == TargetAfter(Get(pool, n), Lookup(pool, EfficiencyName(n)), n, t)
    requires forall k :: NotATarget(k, front) ==> Lookup(p, k) == Lookup(pool, k)
    ensures forall n :: n in front + [m] ==>
      Lookup(Derive(p, m, t), EfficiencyName(n)) == TargetAfter(Get(pool, n), Lookup(pool, EfficiencyName(n)), n, t)
    ensures forall k :: NotATarget(k, front + [m]) ==> Lookup(Derive(p, m, t), k) == Lookup(pool, k)
  {
    assert Get(p, m) == Get(pool, m);
    DeriveEffect(p, m, t);
    forall n | n in front + [m]
      ensures Lookup(Derive(p, m, t), EfficiencyName(n)) == TargetAfter(Get(pool, n), Lookup(pool, EfficiencyName(n)), n, t)
    {
      if n != m {
        EfficiencyNameInjective(m, n);
        assert n in front;
      }
    }
    forall k | NotATarget(k, front + [m]) ensures Lookup(Derive(p, m, t), k) == Lookup(pool, k) {
      assert NotATarget(k, front);
    }
  }

  /** No energy histogram's efficiency name is taken by an energy
      histogram. */
  predicate NoCollision(pool: Pool) {
    forall n :: n in InGroup(pool, HalflifeProcess.EnergyGroup) ==> EfficiencyName(n) !in InGroup(pool, HalflifeProcess.EnergyGroup)
  }

  /** Without name collisions, computing the efficiencies a second time
      changes nothing. */
  lemma ComputeEfficiencyIdempotent(pool: Pool, t: Templates)
    requires NoCollision(pool)
    ensures ComputeEfficiency(ComputeEfficiency(pool, t), t) == ComputeEfficiency(pool, t)
  {
    var names := InGroup(pool, HalflifeProcess.EnergyGroup);
    if |names| > 0 {
      var pool1 := DeriveAll(pool, names, t);
      DeriveAllEffect(pool, names, t);
      var names1 := InGroup(pool1, HalflifeProcess.EnergyGroup);
      forall k ensures k in names1 <==> k in names {
        if !NotATarget(k, names) {
          var n :| n in names && k == EfficiencyName(n);
          var prior := Lookup(pool, k);
          assert k !in names;
          assert prior.Some? ==> prior.value.group != HalflifeProcess.EnergyGroup;
          assert Lookup(pool1, k) == TargetAfter(Get(pool, n), prior, n, t);
        }
      }
      IncreasingUnique(names1, names);
      DeriveAllEffect(pool1, names, t);
      var pool2 := DeriveAll(pool1, names, t);
      forall k ensures Lookup(pool2, k) == Lookup(pool1, k) {
        if !NotATarget(k, names) {
          var n :| n in names && k == EfficiencyName(n);
          assert Get(pool1, n) == Get(pool, n) by {
            assert NotATarget(n, names);
          }
          TargetAfterIdempotent(Get(pool, n), Lookup(pool, k), n, t);
        }
      }
      Extensional(pool2, pool1);
    }
  }
}
