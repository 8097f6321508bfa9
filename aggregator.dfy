/** `aggregateVehicles`: the vehicles grouped by year, each group a `TreeSet` ordered by
    `(make, id)`. A `TreeSet` is modelled by the strictly ascending sequence it iterates in. */
module Aggregator {
  import opened Vehicles

  /** Some element of `s` compares equal to `v`, so `TreeSet.add` leaves the set as it is. */
  ghost predicate Tied(s: seq<Vehicle>, v: Vehicle)
  {
    exists i :: 0 <= i < |s| && Compare(s[i], v) == 0
  }

  /** `TreeSet.add(v)` on the ascending sequence of the set's elements: `v` goes before the
      first element greater than it, unless an element compares equal. */
  function Insert(s: seq<Vehicle>, v: Vehicle): seq<Vehicle>
  {
    if s == [] then [v]
    else
      var c := Compare(v, s[0]);
      if c < 0 then [v] + s
      else if c == 0 then s
      else [s[0]] + Insert(s[1..], v)
  }

  lemma SortedCons(x: Vehicle, t: seq<Vehicle>)
    requires Sorted(t)
    requires forall j :: 0 <= j < |t| ==> Compare(x, t[j]) < 0
    ensures Sorted([x] + t)
  {
    var r := [x] + t;
    forall i, j | 0 <= i < j < |r| ensures Compare(r[i], r[j]) < 0 {
      assert r[j] == t[j - 1];
      if i > 0 { assert r[i] == t[i - 1]; }
    }
  }

  /** In an ascending set every element is above the first. */
  lemma AboveFirst(s: seq<Vehicle>, v: Vehicle)
    requires Sorted(s) && s != [] && Compare(v, s[0]) < 0
    ensures forall j :: 0 <= j < |s| ==> Compare(v, s[j]) < 0
  {
    forall j | 0 < j < |s| ensures Compare(v, s[j]) < 0 {
      CompareTransitive(v, s[0], s[j]);
    }
  }

  lemma NoTieBelow(s: seq<Vehicle>, v: Vehicle)
    requires forall j :: 0 <= j < |s| ==> Compare(v, s[j]) < 0
    ensures !Tied(s, v)
  {
    forall i | 0 <= i < |s| ensures Compare(s[i], v) != 0 {
      CompareZero(s[i], v);
      CompareZero(v, s[i]);
    }
  }

  lemma TiedTail(s: seq<Vehicle>, v: Vehicle)
    requires s != [] && Compare(s[0], v) != 0
    ensures Tied(s, v) <==> Tied(s[1..], v)
  {
    if Tied(s, v) {
      var i :| 0 <= i < |s| && Compare(s[i], v) == 0;
      assert s[1..][i - 1] == s[i];
    }
    if Tied(s[1..], v) {
      var i :| 0 <= i < |s| - 1 && Compare(s[1..][i], v) == 0;
      assert s[i + 1] == s[1..][i];
    }
  }

  /** `Insert` adds nothing but `v`. */
  lemma {:induction false} InsertAddsOnly(s: seq<Vehicle>, v: Vehicle)
    ensures multiset(Insert(s, v)) <= multiset(s) + multiset{v}
  {
    if s != [] && Compare(v, s[0]) > 0 {
      InsertAddsOnly(s[1..], v);
      assert s == [s[0]] + s[1..];
    }
  }

  lemma AboveAll(x: Vehicle, t: seq<Vehicle>, v: Vehicle, r: seq<Vehicle>)
    requires forall j :: 0 <= j < |t| ==> Compare(x, t[j]) < 0
    requires Compare(x, v) < 0
    requires multiset(r) <= multiset(t) + multiset{v}
    ensures forall j :: 0 <= j < |r| ==> Compare(x, r[j]) < 0
  {
    forall j | 0 <= j < |r| ensures Compare(x, r[j]) < 0 {
      assert r[j] in multiset(r);
      if r[j] != v {
        assert r[j] in multiset(t);
        var k :| 0 <= k < |t| && t[k] == r[j];
      }
    }
  }

  lemma InsertBefore(s: seq<Vehicle>, v: Vehicle)
    requires Sorted(s) && s != [] && Compare(v, s[0]) < 0
    ensures Sorted([v] + s) && !Tied(s, v)
  {
    AboveFirst(s, v);
    SortedCons(v, s);
    NoTieBelow(s, v);
  }

  lemma InsertBehind(s: seq<Vehicle>, v: Vehicle, r: seq<Vehicle>)
    requires Sorted(s) && s != [] && Compare(v, s[0]) > 0
    requires Sorted(r) && multiset(r) <= multiset(s[1..]) + multiset{v}
    ensures Sorted([s[0]] + r)
    ensures Tied(s, v) <==> Tied(s[1..], v)
  {
    var tail := s[1..];
    CompareAntisymmetric(v, s[0]);
    CompareZero(s[0], v);
    forall j | 0 <= j < |tail| ensures Compare(s[0], tail[j]) < 0 { assert tail[j] == s[j + 1]; }
    AboveAll(s[0], tail, v, r);
    SortedCons(s[0], r);
    TiedTail(s, v);
  }

  /** Adding keeps the set ascending, and adds `v` exactly when nothing in the set ties with it. */
  lemma {:induction false} InsertSpec(s: seq<Vehicle>, v: Vehicle)
    requires Sorted(s)
    ensures Sorted(Insert(s, v))
    ensures multiset(Insert(s, v)) == if Tied(s, v) then multiset(s) else multiset(s) + multiset{v}
  {
    if s == [] {
      return;
    }
    var c := Compare(v, s[0]);
    if c < 0 {
      InsertBefore(s, v);
      assert Insert(s, v) == [v] + s;
    } else if c == 0 {
      CompareZero(v, s[0]);
      CompareZero(s[0], v);
      assert Tied(s, v);
    } else {
      var tail := s[1..];
      assert Insert(s, v) == [s[0]] + Insert(tail, v);
      InsertSpec(tail, v);
      InsertAddsOnly(tail, v);
      InsertBehind(s, v, Insert(tail, v));
      assert s == [s[0]] + tail;
    }
  }

  /** The years that occur in `vs`. */
  ghost function Years(vs: seq<Vehicle>): set<int>
  {
    set i | 0 <= i < |vs| :: vs[i].year
  }

  /** The vehicles of year `k`, in input order. */
  function OfYear(vs: seq<Vehicle>, k: int): (r: seq<Vehicle>)
    ensures forall i :: 0 <= i < |r| ==> r[i].year == k
  {
    if vs == [] then []
    else OfYear(vs[..|vs| - 1], k) + (if vs[|vs| - 1].year == k then [vs[|vs| - 1]] else [])
  }

  /** The year → `TreeSet` map after the loop has seen every vehicle of `vs`, in order: a new
      year gets a new set holding just the vehicle, a known year adds it to its set. */
  function Aggregated(vs: seq<Vehicle>): map<int, seq<Vehicle>>
  {
    if vs == [] then map[]
    else
      var groups := Aggregated(vs[..|vs| - 1]);
      var v := vs[|vs| - 1];
      if v.year !in groups then groups[v.year := [v]]
      else groups[v.year := Insert(groups[v.year], v)]
  }

  /** The keys are exactly the years that occur in the input. */
  lemma {:induction false} AggregatedKeys(vs: seq<Vehicle>)
    ensures Aggregated(vs).Keys == Years(vs)
  {
    if vs != [] {
      var init := vs[..|vs| - 1];
      AggregatedKeys(init);
      assert Years(vs) == Years(init) + {vs[|vs| - 1].year} by {
        forall y | y in Years(vs) ensures y in Years(init) + {vs[|vs| - 1].year} {
          var i :| 0 <= i < |vs| && vs[i].year == y;
          if i < |vs| - 1 { assert init[i] == vs[i]; }
        }
        forall y | y in Years(init) ensures y in Years(vs) {
          var i :| 0 <= i < |init| && init[i].year == y;
          assert vs[i] == init[i];
        }
      }
    }
  }

  /** Every group is strictly ascending by `(make, id)`. */
  lemma {:induction false} AggregatedSorted(vs: seq<Vehicle>)
    ensures forall k :: k in Aggregated(vs) ==> Sorted(Aggregated(vs)[k])
  {
    if vs != [] {
      var init := vs[..|vs| - 1];
      var v := vs[|vs| - 1];
      AggregatedSorted(init);
      if v.year in Aggregated(init) {
        InsertSpec(Aggregated(init)[v.year], v);
      }
    }
  }

  /** `Insert` adds no element but `v`. */
  lemma InsertMembers(s: seq<Vehicle>, v: Vehicle)
    ensures forall w :: w in Insert(s, v) ==> w == v || w in s
  {
    InsertAddsOnly(s, v);
    forall w | w in Insert(s, v) ensures w == v || w in s {
      assert w in multiset(Insert(s, v));
    }
  }

  /** Every group holds only vehicles of the input whose year is the group's key. */
  lemma {:induction false} AggregatedMembers(vs: seq<Vehicle>)
    ensures forall k, w :: k in Aggregated(vs) && w in Aggregated(vs)[k] ==> w.year == k && w in vs
  {
    if vs != [] {
      var init := vs[..|vs| - 1];
      var v := vs[|vs| - 1];
      var groups := Aggregated(init);
      AggregatedMembers(init);
      if v.year in groups {
        InsertMembers(groups[v.year], v);
      }
      assert vs == init + [v];
    }
  }

  /** A vehicle whose id no earlier vehicle has ties with none of them. */
  lemma FreshIdNotTied(vs: seq<Vehicle>, g: seq<Vehicle>)
    requires vs != [] && DistinctIds(vs)
    requires forall w :: w in g ==> w in vs[..|vs| - 1]
    ensures !Tied(g, vs[|vs| - 1])
  {
    var v := vs[|vs| - 1];
    forall i | 0 <= i < |g| ensures Compare(g[i], v) != 0 {
      var w := g[i];
      assert w in g;
      var j :| 0 <= j < |vs| - 1 && vs[..|vs| - 1][j] == w;
      assert vs[j] == w;
      CompareZero(w, v);
    }
  }

  /** A year with no group has no vehicles. */
  lemma AbsentYear(vs: seq<Vehicle>, k: int)
    requires k !in Aggregated(vs)
    ensures OfYear(vs, k) == []
  {
    AggregatedKeys(vs);
    if OfYear(vs, k) != [] {
      var w := OfYear(vs, k)[0];
      OfYearMembers(vs, k, w);
      assert false;
    }
  }

  lemma PartitionStep(vs: seq<Vehicle>, k: int)
    requires vs != [] && DistinctIds(vs) && k in Aggregated(vs)
    requires var init := vs[..|vs| - 1];
      forall y :: y in Aggregated(init) ==> multiset(Aggregated(init)[y]) == multiset(OfYear(init, y))
    ensures multiset(Aggregated(vs)[k]) == multiset(OfYear(vs, k))
  {
    var init := vs[..|vs| - 1];
    var v := vs[|vs| - 1];
    var groups := Aggregated(init);
    if k != v.year {
      assert OfYear(vs, k) == OfYear(init, k) + [];
    } else if k in groups {
      AggregatedSorted(init);
      AggregatedMembers(init);
      InsertSpec(groups[k], v);
      FreshIdNotTied(vs, groups[k]);
    } else {
      AbsentYear(init, k);
    }
  }

  /** With distinct ids no two vehicles tie, so every vehicle lands in the group of its year
      and nothing is dropped: each group holds exactly the input's vehicles of that year. */
  lemma {:induction false} AggregatedPartition(vs: seq<Vehicle>)
    requires DistinctIds(vs)
    ensures forall k :: k in Aggregated(vs) ==> multiset(Aggregated(vs)[k]) == multiset(OfYear(vs, k))
  {
    if vs != [] {
      assert DistinctIds(vs[..|vs| - 1]);
      AggregatedPartition(vs[..|vs| - 1]);
      forall k | k in Aggregated(vs) ensures multiset(Aggregated(vs)[k]) == multiset(OfYear(vs, k)) {
        PartitionStep(vs, k);
      }
    }
  }

  /** The members of `OfYear(vs, k)` are the vehicles of `vs` of year `k`. */
  lemma {:induction false} OfYearMembers(vs: seq<Vehicle>, k: int, w: Vehicle)
    ensures w in OfYear(vs, k) <==> w in vs && w.year == k
  {
    if vs != [] {
      var init := vs[..|vs| - 1];
      OfYearMembers(init, k, w);
      assert vs == init + [vs[|vs| - 1]];
    }
  }

  /** `aggregateVehicles`: one pass over the vehicles, updating the map in place. */
  method AggregateVehicles(vs: seq<Vehicle>) returns (groups: map<int, seq<Vehicle>>)
    ensures groups == Aggregated(vs)
  {
    groups := map[];
    for i := 0 to |vs|
      invariant groups == Aggregated(vs[..i])
    {
      var v := vs[i];
      assert vs[..i + 1][..i] == vs[..i];
      if v.year !in groups {
        var yearVehicles := Insert([], v);
        groups := groups[v.year := yearVehicles];
      } else {
        groups := groups[v.year := Insert(groups[v.year], v)];
      }
    }
    assert vs[..|vs|] == vs;
  }
}
