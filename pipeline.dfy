/** What the three stages promise together: the vehicles the loader builds have distinct ids,
    so the year groups hold every vehicle exactly once, and the grand totals of the report are
    the exact sum of all prices and that sum times the tax rate, whichever order the years are
    visited in. */
module Pipeline {
  import opened Decimals
  import opened Vehicles
  import opened Aggregator
  import opened Formatter

  /** The vehicles of `vs` whose year is one of `ks`, in input order. */
  function Among(vs: seq<Vehicle>, ks: seq<int>): (r: seq<Vehicle>)
    ensures forall i :: 0 <= i < |r| ==> r[i].year in ks
  {
    if vs == [] then []
    else
      var v := vs[|vs| - 1];
      Among(vs[..|vs| - 1], ks) + (if v.year in ks then [v] else [])
  }

  /** Adding a year that was not yet selected adds exactly the vehicles of that year. */
  lemma {:induction false} AmongStep(vs: seq<Vehicle>, ks: seq<int>, k: int)
    requires k !in ks
    ensures multiset(Among(vs, ks + [k])) == multiset(Among(vs, ks)) + multiset(OfYear(vs, k))
  {
    if vs != [] {
      var init, v := vs[..|vs| - 1], vs[|vs| - 1];
      AmongStep(init, ks, k);
      assert (v.year in ks + [k]) == (v.year in ks || v.year == k);
    }
  }

  /** Selecting every year that occurs keeps the whole input. */
  lemma {:induction false} AmongAll(vs: seq<Vehicle>, ks: seq<int>)
    requires forall i :: 0 <= i < |vs| ==> vs[i].year in ks
    ensures Among(vs, ks) == vs
  {
    if vs != [] {
      AmongAll(vs[..|vs| - 1], ks);
      assert vs == vs[..|vs| - 1] + [vs[|vs| - 1]];
    }
  }

  /** Selecting no year keeps nothing. */
  lemma {:induction false} AmongNone(vs: seq<Vehicle>)
    ensures Among(vs, []) == []
  {
    if vs != [] {
      AmongNone(vs[..|vs| - 1]);
    }
  }

  /** The groups of the years in `order`, concatenated, are the input's vehicles of those
      years, for any map whose every group holds the input's vehicles of its year. */
  lemma {:induction false} FlattenGroups(vs: seq<Vehicle>, groups: map<int, seq<Vehicle>>, order: seq<int>)
    requires forall k :: k in groups ==> multiset(groups[k]) == multiset(OfYear(vs, k))
    requires forall i, j :: 0 <= i < j < |order| ==> order[i] != order[j]
    requires forall k :: k in order ==> k in groups
    ensures multiset(Flatten(groups, order)) == multiset(Among(vs, order))
  {
    if order == [] {
      AmongNone(vs);
    } else {
      var ks, k := order[..|order| - 1], order[|order| - 1];
      assert order == ks + [k];
      LastIsNew(order);
      FlattenGroups(vs, groups, ks);
      AmongStep(vs, ks, k);
    }
  }

  /** In a sequence without repetitions the last element does not occur before. */
  lemma LastIsNew(order: seq<int>)
    requires forall i, j :: 0 <= i < j < |order| ==> order[i] != order[j]
    requires order != []
    ensures order[|order| - 1] !in order[..|order| - 1]
  {
    var ks := order[..|order| - 1];
    forall i | 0 <= i < |ks| ensures ks[i] != order[|order| - 1] {
      assert ks[i] == order[i];
    }
  }

  /** With distinct ids, visiting every year once and every vehicle of its group visits each
      input vehicle exactly once: the vehicles the loops visit are a permutation of the input. */
  lemma FlattenIsPermutation(vs: seq<Vehicle>, order: seq<int>)
    requires DistinctIds(vs) && Enumerates(order, Aggregated(vs).Keys)
    ensures forall k :: k in order ==> k in Aggregated(vs)
    ensures multiset(Flatten(Aggregated(vs), order)) == multiset(vs)
  {
    var groups := Aggregated(vs);
    AggregatedPartition(vs);
    FlattenGroups(vs, groups, order);
    AggregatedKeys(vs);
    forall i | 0 <= i < |vs| ensures vs[i].year in order {
      assert vs[i].year in Years(vs);
    }
    AmongAll(vs, order);
  }

  /** The sum of the prices of a concatenation. */
  lemma {:induction false} MsrpSumAppend(a: seq<Vehicle>, b: seq<Vehicle>)
    ensures MsrpSum(a + b) == MsrpSum(a) + MsrpSum(b)
  {
    if b == [] {
      assert a + b == a;
    } else {
      var b' := b[..|b| - 1];
      MsrpSumAppend(a, b');
      assert (a + b)[..|a + b| - 1] == a + b';
    }
  }

  /** Taking one vehicle out of the middle takes its price out of the sum. */
  lemma MsrpSumSplice(left: seq<Vehicle>, v: Vehicle, right: seq<Vehicle>)
    ensures MsrpSum(left + [v] + right) == MsrpSum(left + right) + Value(v.msrp)
  {
    MsrpSumAppend(left + [v], right);
    MsrpSumAppend(left, [v]);
    MsrpSumAppend(left, right);
    assert MsrpSum([v]) == Value(v.msrp) by { assert [v][..0] == []; }
  }

  /** The sum does not depend on the order of the vehicles. */
  lemma {:induction false} MsrpSumPermutation(a: seq<Vehicle>, b: seq<Vehicle>)
    requires multiset(a) == multiset(b)
    ensures MsrpSum(a) == MsrpSum(b)
    decreases |a|
  {
    if a != [] {
      var init, v := a[..|a| - 1], a[|a| - 1];
      assert v in multiset(b) by { assert a == init + [v]; }
      var i :| 0 <= i < |b| && b[i] == v;
      var left, right := b[..i], b[i + 1..];
      RemoveMatching(a, b, i);
      MsrpSumPermutation(init, left + right);
      assert b == left + [v] + right;
      MsrpSumSplice(left, v, right);
    } else {
      assert |b| == |multiset(b)| == 0;
    }
  }

  /** Removing the last element of `a` and an equal element of `b` keeps the multisets equal. */
  lemma RemoveMatching<T>(a: seq<T>, b: seq<T>, i: nat)
    requires multiset(a) == multiset(b) && a != [] && i < |b| && b[i] == a[|a| - 1]
    ensures multiset(a[..|a| - 1]) == multiset(b[..i] + b[i + 1..])
  {
    var v := b[i];
    var init, left, right := a[..|a| - 1], b[..i], b[i + 1..];
    assert a == init + [v];
    assert b == left + ([v] + right);
    calc {
      multiset(init) + multiset{v};
      multiset(a);
      multiset(b);
      multiset(left) + (multiset{v} + multiset(right));
      multiset(left + right) + multiset{v};
    }
    Cancel(multiset(init), multiset(left + right), v);
  }

  /** Adding the same element to both sides of a multiset equation can be undone. */
  lemma Cancel<T>(x: multiset<T>, y: multiset<T>, v: T)
    requires x + multiset{v} == y + multiset{v}
    ensures x == y
  {
    forall w ensures x[w] == y[w] {
      assert (x + multiset{v})[w] == x[w] + multiset{v}[w];
      assert (y + multiset{v})[w] == y[w] + multiset{v}[w];
    }
  }

  /** The running totals of any rearrangement of `vs` are exact: the MSRP total is the sum of
      the prices of `vs` and the list-price total that sum times the rate. */
  lemma TotalsOfPermutation(all: seq<Vehicle>, vs: seq<Vehicle>, rate: Decimal)
    requires multiset(all) == multiset(vs)
    ensures Value(Total(all)) == MsrpSum(vs)
    ensures Value(ListTotal(all, rate)) == MsrpSum(vs) * Value(rate)
  {
    MsrpSumPermutation(all, vs);
    TotalOfEqualSum(all, vs);
    ListTotalOfEqualSum(all, vs, rate);
  }

  /** The MSRP total of `all` is exact in terms of a sequence with the same sum. */
  lemma TotalOfEqualSum(all: seq<Vehicle>, vs: seq<Vehicle>)
    requires MsrpSum(all) == MsrpSum(vs)
    ensures Value(Total(all)) == MsrpSum(vs)
  {
    TotalValue(all);
  }

  /** The list-price total of `all` is exact in terms of a sequence with the same sum. */
  lemma ListTotalOfEqualSum(all: seq<Vehicle>, vs: seq<Vehicle>, rate: Decimal)
    requires MsrpSum(all) == MsrpSum(vs)
    ensures Value(ListTotal(all, rate)) == MsrpSum(vs) * Value(rate)
  {
    ListTotalTimes(all, rate);
  }

  /** `ListTotalValue`, with the product behind `Times`. */
  lemma ListTotalTimes(vs: seq<Vehicle>, rate: Decimal)
    ensures Value(ListTotal(vs, rate)) == Times(MsrpSum(vs), Value(rate))
  {
    ListTotalValue(vs, rate);
  }

  /** The report's grand totals, for vehicles with distinct ids and any visiting order of the
      years: the MSRP total is exactly the sum of all prices and the list-price total exactly
      that sum times the tax rate, before either is rounded for display. */
  lemma GrandTotals(vs: seq<Vehicle>, order: seq<int>, rate: Decimal)
    requires DistinctIds(vs) && Enumerates(order, Aggregated(vs).Keys)
    ensures forall k :: k in order ==> k in Aggregated(vs)
    ensures Value(Total(Flatten(Aggregated(vs), order))) == MsrpSum(vs)
    ensures Value(ListTotal(Flatten(Aggregated(vs), order), rate)) == MsrpSum(vs) * Value(rate)
  {
    FlattenIsPermutation(vs, order);
    TotalsOfPermutation(Flatten(Aggregated(vs), order), vs, rate);
  }

  /** The vehicles one run of the loader builds have distinct ids, so none is lost to a tie
      in the year groups. */
  lemma LoadedIdsDistinct(vs: seq<Vehicle>, first: nat)
    requires forall i :: 0 <= i < |vs| ==> vs[i].id == first + i
    ensures DistinctIds(vs)
    ensures forall k :: k in Aggregated(vs) ==> multiset(Aggregated(vs)[k]) == multiset(OfYear(vs, k))
  {
    IncreasingIdsDistinct(vs, first);
    AggregatedPartition(vs);
  }
}
