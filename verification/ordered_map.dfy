/** A string-keyed ordered dictionary, as `std::map<std::string, V>`: an
    association list kept strictly increasing in lexicographic key order, so
    that iteration visits keys in the order the C++ container does. Both the
    histogram pool and the background-activity table are such maps. */
module OrderedMap {
  import opened Wrappers

  /** `std::string` comparison: character by character, a proper prefix first. */
  predicate Less(a: string, b: string)
    decreases |a|
  {
    if |b| == 0 then false
    else if |a| == 0 then true
    else if a[0] != b[0] then a[0] < b[0]
    else Less(a[1..], b[1..])
  }

  lemma {:induction false} LessIrreflexive(a: string)
    ensures !Less(a, a)
    decreases |a|
  {
    if |a| > 0 {
      LessIrreflexive(a[1..]);
    }
  }

  lemma {:induction false} LessAsymmetric(a: string, b: string)
    requires Less(a, b)
    ensures !Less(b, a)
    decreases |a|
  {
    if |a| > 0 && |b| > 0 && a[0] == b[0] {
      LessAsymmetric(a[1..], b[1..]);
    }
  }

  lemma {:induction false} LessTransitive(a: string, b: string, c: string)
    requires Less(a, b) && Less(b, c)
    ensures Less(a, c)
    decreases |a|
  {
    if |a| > 0 && a[0] == b[0] && b[0] == c[0] {
      LessTransitive(a[1..], b[1..], c[1..]);
    }
  }

  lemma {:induction false} LessTotal(a: string, b: string)
    ensures a == b || Less(a, b) || Less(b, a)
    decreases |a|
  {
    if |a| > 0 && |b| > 0 && a[0] == b[0] {
      LessTotal(a[1..], b[1..]);
      if a[1..] == b[1..] {
        assert a == [a[0]] + a[1..] && b == [b[0]] + b[1..];
      }
    }
  }

  /** Keys strictly increasing: sorted and without duplicates. */
  predicate Increasing(ks: seq<string>) {
    forall i, j :: 0 <= i < j < |ks| ==> Less(ks[i], ks[j])
  }

  function KeysOf<V>(d: seq<(string, V)>): (ks: seq<string>)
    ensures |ks| == |d|
    ensures forall i :: 0 <= i < |d| ==> ks[i] == d[i].0
  {
    seq(|d|, i requires 0 <= i < |d| => d[i].0)
  }

  predicate Sorted<V>(d: seq<(string, V)>) {
    forall i, j :: 0 <= i < j < |d| ==> Less(d[i].0, d[j].0)
  }

  type Dict<V> = d: seq<(string, V)> | Sorted(d) witness []

  function KeySet<V>(d: seq<(string, V)>): set<string> {
    set i | 0 <= i < |d| :: d[i].0
  }

  lemma KeySetCons<V>(h: (string, V), t: seq<(string, V)>)
    ensures KeySet([h] + t) == {h.0} + KeySet(t)
  {
    var r := [h] + t;
    assert r[0].0 == h.0;
    forall x | x in KeySet(r) ensures x in {h.0} + KeySet(t) {
      var i :| 0 <= i < |r| && r[i].0 == x;
      if i > 0 { assert t[i - 1].0 == x; }
    }
    forall x | x in KeySet(t) ensures x in KeySet(r) {
      var i :| 0 <= i < |t| && t[i].0 == x;
      assert r[i + 1].0 == x;
    }
  }

  /** The entry stored under `k`, if any. */
  function Lookup<V>(d: Dict<V>, k: string): (r: Option<V>)
    ensures r.Some? <==> k in KeySet(d)
    ensures r.Some? ==> exists i :: 0 <= i < |d| && d[i] == (k, r.value)
    decreases |d|
  {
    if |d| == 0 then None
    else if d[0].0 == k then Some(d[0].1)
    else
      var r := Lookup(d[1..], k);
      assert KeySet(d) == {d[0].0} + KeySet(d[1..]) by {
        assert forall i :: 0 < i < |d| ==> d[i] == d[1..][i - 1];
      }
      assert r.Some? ==> exists i :: 0 <= i < |d| && d[i] == (k, r.value) by {
        if r.Some? {
          var i :| 0 <= i < |d[1..]| && d[1..][i] == (k, r.value);
          assert d[i + 1] == (k, r.value);
        }
      }
      r
  }

  predicate Has<V>(d: Dict<V>, k: string) {
    Lookup(d, k).Some?
  }

  /** Every key of a sorted list lies above a key that precedes the list. */
  lemma AboveAll<V>(d: Dict<V>, k: string)
    requires forall i :: 0 <= i < |d| ==> Less(k, d[i].0)
    ensures Lookup(d, k).None?
  {
    if k in KeySet(d) {
      var i :| 0 <= i < |d| && d[i].0 == k;
      LessIrreflexive(k);
    }
  }

  /** A sorted list's head key lies below every key of its tail. */
  lemma HeadBelowTail<V>(d: Dict<V>)
    requires |d| > 0
    ensures forall k :: k in KeySet(d[1..]) ==> Less(d[0].0, k)
  {
    forall k | k in KeySet(d[1..]) ensures Less(d[0].0, k) {
      var i :| 0 <= i < |d[1..]| && d[1..][i].0 == k;
      assert d[i + 1].0 == k;
    }
  }

  lemma ConsSorted<V>(h: (string, V), t: Dict<V>)
    requires forall k :: k in KeySet(t) ==> Less(h.0, k)
    ensures Sorted([h] + t)
  {
    var r := [h] + t;
    forall i, j | 0 <= i < j < |r| ensures Less(r[i].0, r[j].0) {
      if i == 0 {
        assert r[j].0 == t[j - 1].0 && t[j - 1].0 in KeySet(t);
      } else {
        assert r[i] == t[i - 1] && r[j] == t[j - 1];
      }
    }
  }

  /** Lookup in a list with a known head. */
  lemma LookupCons<V>(d: Dict<V>, k: string)
    requires |d| > 0
    ensures k == d[0].0 ==> Lookup(d, k) == Some(d[0].1)
    ensures k != d[0].0 ==> Lookup(d, k) == Lookup(d[1..], k)
  {
  }

  /** `d[k] = v`: inserts the key or overwrites its value, keeping key order.
      Every other key keeps its entry. */
  function Insert<V>(d: Dict<V>, k: string, v: V): (r: Dict<V>)
    ensures Lookup(r, k) == Some(v)
    ensures forall k' :: k' != k ==> Lookup(r, k') == Lookup(d, k')
    ensures KeySet(r) == KeySet(d) + {k}
    decreases |d|
  {
    if |d| == 0 then [(k, v)]
    else if d[0].0 == k then
      HeadBelowTail(d);
      ConsSorted((k, v), d[1..]);
      KeySetCons((k, v), d[1..]);
      KeySetCons(d[0], d[1..]);
      assert d == [d[0]] + d[1..];
      [(k, v)] + d[1..]
    else if Less(k, d[0].0) then
      HeadBelowTail(d);
      forall k' | k' in KeySet(d) ensures Less(k, k') {
        if k' != d[0].0 {
          KeySetCons(d[0], d[1..]);
          assert d == [d[0]] + d[1..];
          LessTransitive(k, d[0].0, k');
        }
      }
      ConsSorted((k, v), d);
      KeySetCons((k, v), d);
      AboveAll(d, k);
      [(k, v)] + d
    else
      InsertBehind(d, k, v)
  }

  /** The case of `Insert` where the new key sorts after the head. */
  function InsertBehind<V>(d: Dict<V>, k: string, v: V): (r: Dict<V>)
    requires |d| > 0 && d[0].0 != k && !Less(k, d[0].0)
    ensures Lookup(r, k) == Some(v)
    ensures forall k' :: k' != k ==> Lookup(r, k') == Lookup(d, k')
    ensures KeySet(r) == KeySet(d) + {k}
    decreases |d|, 0
  {
    var tail := Insert(d[1..], k, v);
    HeadBelowTail(d);
    LessTotal(k, d[0].0);
    ConsSorted(d[0], tail);
    var r: Dict<V> := [d[0]] + tail;
    KeySetCons(d[0], tail);
    KeySetCons(d[0], d[1..]);
    assert d == [d[0]] + d[1..];
    assert r[1..] == tail;
    forall k' | k' != k ensures Lookup(r, k') == Lookup(d, k') {
      LookupCons(r, k');
      LookupCons(d, k');
    }
    LookupCons(r, k);
    r
  }

  lemma EmptyIffNoKeys<V>(d: seq<(string, V)>)
    ensures |d| == 0 <==> KeySet(d) == {}
  {
    if |d| > 0 {
      assert d[0].0 in KeySet(d);
    }
  }

  /** The head of a sorted list is its least key. */
  lemma HeadIsLeast<V>(d: Dict<V>, k: string)
    requires k in KeySet(d)
    ensures d[0].0 == k || Less(d[0].0, k)
  {
    var i :| 0 <= i < |d| && d[i].0 == k;
  }

  /** Two dictionaries that answer every lookup alike are the same list. */
  lemma {:induction false} Extensional<V>(a: Dict<V>, b: Dict<V>)
    requires forall k :: Lookup(a, k) == Lookup(b, k)
    ensures a == b
    decreases |a|
  {
    assert KeySet(a) == KeySet(b) by {
      forall k ensures k in KeySet(a) <==> k in KeySet(b) {
        assert Lookup(a, k) == Lookup(b, k);
      }
    }
    EmptyIffNoKeys(a);
    EmptyIffNoKeys(b);
    if |a| > 0 {
      var ka, kb := a[0].0, b[0].0;
      assert ka in KeySet(a) && kb in KeySet(b);
      HeadIsLeast(a, kb);
      HeadIsLeast(b, ka);
      assert ka == kb by {
        if ka != kb {
          LessAsymmetric(ka, kb);
          assert false;
        }
      }
      LookupCons(a, ka);
      LookupCons(b, ka);
      assert a[0] == b[0];
      HeadBelowTail(a);
      HeadBelowTail(b);
      forall k ensures Lookup(a[1..], k) == Lookup(b[1..], k) {
        LookupCons(a, k);
        LookupCons(b, k);
        if k == ka {
          LessIrreflexive(ka);
        }
      }
      Extensional(a[1..], b[1..]);
      assert a == [a[0]] + a[1..];
      assert b == [b[0]] + b[1..];
    }
  }

  /** Keys, in iteration order, whose entry satisfies `p`
      (`histogram_pool::names` with a selection). */
  function KeysWhere<V>(d: Dict<V>, p: V -> bool): (ks: seq<string>)
    ensures forall k :: k in ks <==> (Lookup(d, k).Some? && p(Lookup(d, k).value))
    ensures Increasing(ks)
    ensures forall i :: 0 <= i < |ks| ==> Lookup(d, ks[i]).Some?
    decreases |d|
  {
    if |d| == 0 then []
    else
      var rest := KeysWhere(d[1..], p);
      AboveAll(d[1..], d[0].0);
      forall k | k in rest ensures Less(d[0].0, k) {
        assert k in KeySet(d[1..]);
        var i :| 0 <= i < |d[1..]| && d[1..][i].0 == k;
        assert d[i + 1].0 == k;
      }
      if p(d[0].1) then [d[0].0] + rest else rest
  }

  lemma EmptyIffNoMembers(a: seq<string>)
    ensures |a| == 0 <==> forall k :: k !in a
  {
    if |a| > 0 {
      assert a[0] in a;
    }
  }

  /** Two increasing key lists with the same members are equal. */
  lemma {:induction false} IncreasingUnique(a: seq<string>, b: seq<string>)
    requires Increasing(a) && Increasing(b)
    requires forall k :: k in a <==> k in b
    ensures a == b
    decreases |a|
  {
    EmptyIffNoMembers(a);
    EmptyIffNoMembers(b);
    if |a| > 0 {
      assert a[0] in b && b[0] in a;
      var i :| 0 <= i < |b| && b[i] == a[0];
      var j :| 0 <= j < |a| && a[j] == b[0];
      assert a[0] == b[0] by {
        if a[0] != b[0] {
          assert i > 0 && j > 0;
          LessAsymmetric(b[0], a[0]);
          assert false;
        }
      }
      forall k ensures k in a[1..] <==> k in b[1..] {
        if k in a[1..] {
          var m :| 0 <= m < |a[1..]| && a[1..][m] == k;
          assert a[m + 1] == k;
          LessIrreflexive(k);
          assert k != a[0];
          assert k in a && k in b;
          var n :| 0 <= n < |b| && b[n] == k;
          assert n > 0 && b[1..][n - 1] == k;
        }
        if k in b[1..] {
          var m :| 0 <= m < |b[1..]| && b[1..][m] == k;
          assert b[m + 1] == k;
          LessIrreflexive(k);
          assert k != b[0];
          assert k in b && k in a;
          var n :| 0 <= n < |a| && a[n] == k;
          assert n > 0 && a[1..][n - 1] == k;
        }
      }
      IncreasingUnique(a[1..], b[1..]);
      assert a == [a[0]] + a[1..];
      assert b == [b[0]] + b[1..];
    }
  }
}
