/** `Vehicle`: a record whose fields are set once by the constructor, with an id drawn from a
    counter shared by every construction, and the `(make, id)` order the report sorts by. */
module Vehicles {
  import opened Decimals
  import opened Text

  /** The static `vehicleIdCounter`: the id the next vehicle will get. It starts at 0. */
  class IdCounter {
    var next: nat

    constructor ()
      ensures next == 0
    {
      next := 0;
    }
  }

  /** A vehicle. Every field is a `const`: only the constructor sets it, so the getters
      always return the constructor's arguments. */
  class Vehicle {
    const id: nat
    const year: int
    const make: string
    const model: string
    const msrp: Decimal

    /** `new Vehicle(year, make, model, msrp)`: takes the counter's value as the id and
        increments the counter by one; nothing else that already exists changes. */
    constructor (year: int, make: string, model: string, msrp: Decimal, counter: IdCounter)
      modifies counter
      ensures this.id == old(counter.next) && counter.next == old(counter.next) + 1
      ensures this.year == year && this.make == make && this.model == model && this.msrp == msrp
    {
      this.id := counter.next;
      this.year := year;
      this.make := make;
      this.model := model;
      this.msrp := msrp;
      counter.next := counter.next + 1;
    }
  }

  /** `Integer.compareTo` on the ids. */
  function CompareIds(a: nat, b: nat): int
  {
    if a < b then -1 else if a == b then 0 else 1
  }

  /** `Comparator.comparing(Vehicle::getMake).thenComparing(Vehicle::getId)`. */
  function Compare(a: Vehicle, b: Vehicle): int
  {
    var c := CompareTo(a.make, b.make);
    if c != 0 then c else CompareIds(a.id, b.id)
  }

  /** The comparator reports a tie exactly for the same make and the same id. */
  lemma CompareZero(a: Vehicle, b: Vehicle)
    ensures Compare(a, b) == 0 <==> a.make == b.make && a.id == b.id
  {
    CompareToZero(a.make, b.make);
  }

  /** Swapping the arguments flips the sign. */
  lemma CompareAntisymmetric(a: Vehicle, b: Vehicle)
    ensures Compare(a, b) < 0 <==> Compare(b, a) > 0
  {
    CompareToAntisymmetric(a.make, b.make);
  }

  lemma CompareTransitive(a: Vehicle, b: Vehicle, c: Vehicle)
    requires Compare(a, b) < 0 && Compare(b, c) < 0
    ensures Compare(a, c) < 0
  {
    CompareToZero(a.make, b.make);
    CompareToZero(b.make, c.make);
    if CompareTo(a.make, b.make) < 0 && CompareTo(b.make, c.make) < 0 {
      CompareToTransitive(a.make, b.make, c.make);
    } else if CompareTo(a.make, b.make) < 0 || CompareTo(b.make, c.make) < 0 {
      assert CompareTo(a.make, c.make) < 0;
    } else {
      assert a.make == c.make;
      CompareToZero(a.make, c.make);
    }
  }

  /** Strictly ascending under the comparator: the order a `TreeSet` iterates in. */
  ghost predicate Sorted(s: seq<Vehicle>)
  {
    forall i, j :: 0 <= i < j < |s| ==> Compare(s[i], s[j]) < 0
  }

  /** No two vehicles share an id. */
  ghost predicate DistinctIds(vs: seq<Vehicle>)
  {
    forall i, j :: 0 <= i < j < |vs| ==> vs[i].id != vs[j].id
  }

  /** Ids that increase along the sequence, as successive constructions give them, are distinct. */
  lemma IncreasingIdsDistinct(vs: seq<Vehicle>, first: nat)
    requires forall i :: 0 <= i < |vs| ==> vs[i].id == first + i
    ensures DistinctIds(vs)
  {
  }
}
