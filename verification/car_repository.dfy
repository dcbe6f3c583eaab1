/**
 * Repositories/CarRepository.cs: the car table (the tracked `Cars` set of
 * the database context) and the repository operations over it.
 *
 * The table is a sequence kept in insertion order. `DbSet.Find` is
 * `Lookup`, the first car with the key; writes to a tracked entity are
 * `ReplaceCar`, and `DbSet.Remove` is `RemoveCar`.
 */
module CarRepo {
  import opened Primitives
  import opened CarModel

  /** No two cars in the table share a key (the `[Key]` on Car.Id). */
  ghost predicate IdsDistinct(cars: seq<Car>) {
    forall i, j :: 0 <= i < j < |cars| ==> cars[i].Id != cars[j].Id
  }

  /** The car `Find(id)` returns, or None for null. */
  function Lookup(cars: seq<Car>, id: Guid): (r: Option<Car>)
    ensures r.Some? <==> exists c :: c in cars && c.Id == id
    ensures r.Some? ==> r.value in cars && r.value.Id == id
  {
    if cars == [] then None
    else if cars[0].Id == id then Some(cars[0])
    else Lookup(cars[1..], id)
  }

  /** The table after the tracked car keyed `id` is overwritten with `n` (same key). */
  function ReplaceCar(cars: seq<Car>, id: Guid, n: Car): (r: seq<Car>)
    requires n.Id == id
    ensures |r| == |cars|
    ensures forall i :: 0 <= i < |cars| ==> r[i].Id == cars[i].Id
    ensures forall i :: 0 <= i < |cars| ==> r[i] == cars[i] || r[i] == n
    ensures Lookup(cars, id).None? ==> r == cars
    ensures forall k :: k != id ==> Lookup(r, k) == Lookup(cars, k)
  {
    if cars == [] then []
    else if cars[0].Id == id then [n] + cars[1..]
    else [cars[0]] + ReplaceCar(cars[1..], id, n)
  }

  /** The table after the tracked car keyed `id` is removed from the set. */
  function RemoveCar(cars: seq<Car>, id: Guid): (r: seq<Car>)
    ensures |r| == if Lookup(cars, id).Some? then |cars| - 1 else |cars|
    ensures forall c :: c in r ==> c in cars
    ensures Lookup(cars, id).None? ==> r == cars
  {
    if cars == [] then []
    else if cars[0].Id == id then cars[1..]
    else [cars[0]] + RemoveCar(cars[1..], id)
  }

  /** `Where(car => car.IsAvailable)`: the available cars, in table order. */
  function AvailableCars(cars: seq<Car>): (r: seq<Car>)
    ensures forall c :: c in r <==> c in cars && c.IsAvailable
    ensures |r| <= |cars|
  {
    if cars == [] then []
    else (if cars[0].IsAvailable then [cars[0]] else []) + AvailableCars(cars[1..])
  }

  /**
   * The table after `UpdateCarAvailability(id, b)`: find the car and, if
   * found, set its flag. That car then has flag `b` and its other fields,
   * and every other key finds what it found before.
   */
  function WithAvailability(cars: seq<Car>, id: Guid, b: bool): (r: seq<Car>)
    ensures |r| == |cars|
    ensures Lookup(cars, id).None? ==> r == cars
    ensures Lookup(cars, id).Some? ==> Lookup(r, id) == Some(Lookup(cars, id).value.(IsAvailable := b))
    ensures forall k :: k != id ==> Lookup(r, k) == Lookup(cars, k)
  {
    match Lookup(cars, id)
    case None => cars
    case Some(c) =>
      LookupReplace(cars, id, c.(IsAvailable := b), id);
      ReplaceCar(cars, id, c.(IsAvailable := b))
  }

  // ---------------------------------------------------------------- lemmas

  /** In a table with distinct keys, the car looked up by a key is the one stored under it. */
  lemma {:induction false} LookupUnique(cars: seq<Car>, c: Car)
    requires IdsDistinct(cars) && c in cars
    ensures Lookup(cars, c.Id) == Some(c)
  {
    if cars[0] != c {
      assert c in cars[1..];
      assert cars[0].Id != c.Id by {
        var j :| 0 <= j < |cars| && cars[j] == c;
      }
      LookupUnique(cars[1..], c);
    }
  }

  /** In a table with distinct keys, every stored car is what its key looks up. */
  lemma LookupAll(cars: seq<Car>)
    requires IdsDistinct(cars)
    ensures forall c :: c in cars ==> Lookup(cars, c.Id) == Some(c)
  {
    forall c | c in cars ensures Lookup(cars, c.Id) == Some(c) {
      LookupUnique(cars, c);
    }
  }

  /** Appending a car: every lookup is unchanged, except a key that was absent now finds it. */
  lemma {:induction false} LookupAppend(cars: seq<Car>, c: Car, id: Guid)
    ensures Lookup(cars + [c], id) ==
      if Lookup(cars, id).Some? then Lookup(cars, id)
      else if c.Id == id then Some(c) else None
  {
    if cars != [] {
      assert (cars + [c])[1..] == cars[1..] + [c];
      LookupAppend(cars[1..], c, id);
    }
  }

  /** After overwriting the car keyed `id`, that key finds `n` and every other key is unchanged. */
  lemma {:induction false} LookupReplace(cars: seq<Car>, id: Guid, n: Car, k: Guid)
    requires n.Id == id
    ensures Lookup(ReplaceCar(cars, id, n), k) ==
      if k == id && Lookup(cars, id).Some? then Some(n) else Lookup(cars, k)
  {
    if cars != [] && cars[0].Id != id {
      LookupReplace(cars[1..], id, n, k);
    }
  }

  /** Overwriting the same car twice: the second write wins. */
  lemma {:induction false} ReplaceTwice(cars: seq<Car>, id: Guid, n: Car, m: Car)
    requires n.Id == id && m.Id == id
    ensures ReplaceCar(ReplaceCar(cars, id, n), id, m) == ReplaceCar(cars, id, m)
  {
    if cars != [] && cars[0].Id != id {
      ReplaceTwice(cars[1..], id, n, m);
    }
  }

  /** Writing back the car that is already stored changes nothing. */
  lemma {:induction false} ReplaceWithSame(cars: seq<Car>, id: Guid, c: Car)
    requires Lookup(cars, id) == Some(c)
    ensures ReplaceCar(cars, id, c) == cars
  {
    if cars[0].Id != id {
      ReplaceWithSame(cars[1..], id, c);
    }
  }

  /** Overwriting a car keeps the keys distinct. */
  lemma ReplaceKeepsIdsDistinct(cars: seq<Car>, id: Guid, n: Car)
    requires n.Id == id && IdsDistinct(cars)
    ensures IdsDistinct(ReplaceCar(cars, id, n))
  {
  }

  /** Removing a car keeps the keys distinct. */
  lemma {:induction false} RemoveKeepsIdsDistinct(cars: seq<Car>, id: Guid)
    requires IdsDistinct(cars)
    ensures IdsDistinct(RemoveCar(cars, id))
  {
    if cars != [] && cars[0].Id != id {
      RemoveKeepsIdsDistinct(cars[1..], id);
      var r := RemoveCar(cars[1..], id);
      forall c | c in r ensures c.Id != cars[0].Id {
        assert c in cars[1..];
      }
    }
  }

  /** With distinct keys, removing `id` makes it absent and leaves every other key's car in place. */
  lemma {:induction false} LookupRemove(cars: seq<Car>, id: Guid, k: Guid)
    requires IdsDistinct(cars)
    ensures Lookup(RemoveCar(cars, id), k) == if k == id then None else Lookup(cars, k)
  {
    if cars != [] {
      if cars[0].Id == id {
        if k == id {
          forall c | c in cars[1..] ensures c.Id != id {
            var j :| 0 <= j < |cars[1..]| && cars[1..][j] == c;
            assert cars[j + 1] == c;
          }
        }
      } else {
        LookupRemove(cars[1..], id, k);
      }
    }
  }

  /**
   * UpdateCarAvailability(id, b) sets the flag of the car keyed `id` to `b`
   * and changes no other field and no other car; on an absent key it
   * changes nothing.
   */
  lemma LookupWithAvailability(cars: seq<Car>, id: Guid, b: bool, k: Guid)
    ensures Lookup(WithAvailability(cars, id, b), k) ==
      if k == id && Lookup(cars, id).Some? then Some(Lookup(cars, id).value.(IsAvailable := b))
      else Lookup(cars, k)
    ensures Lookup(cars, id).None? ==> WithAvailability(cars, id, b) == cars
    ensures |WithAvailability(cars, id, b)| == |cars|
  {
    if Lookup(cars, id).Some? {
      LookupReplace(cars, id, Lookup(cars, id).value.(IsAvailable := b), k);
    }
  }

  /** Setting the flag twice: the second call wins. */
  lemma LastAvailabilityWins(cars: seq<Car>, id: Guid, a: bool, b: bool)
    ensures WithAvailability(WithAvailability(cars, id, a), id, b) == WithAvailability(cars, id, b)
  {
    match Lookup(cars, id)
    case None =>
    case Some(c) =>
      var once := ReplaceCar(cars, id, c.(IsAvailable := a));
      LookupReplace(cars, id, c.(IsAvailable := a), id);
      assert Lookup(once, id) == Some(c.(IsAvailable := a));
      ReplaceTwice(cars, id, c.(IsAvailable := a), c.(IsAvailable := b));
  }

  /** UpdateCarAvailability is idempotent. */
  lemma AvailabilityIdempotent(cars: seq<Car>, id: Guid, b: bool)
    ensures WithAvailability(WithAvailability(cars, id, b), id, b) == WithAvailability(cars, id, b)
  {
    LastAvailabilityWins(cars, id, b, b);
  }

  /** Setting a car's flag to the value it already has changes nothing. */
  lemma AvailabilityUnchanged(cars: seq<Car>, id: Guid, c: Car)
    requires Lookup(cars, id) == Some(c)
    ensures WithAvailability(cars, id, c.IsAvailable) == cars
  {
    assert c.(IsAvailable := c.IsAvailable) == c;
    ReplaceWithSame(cars, id, c);
  }

  /** Setting the flag keeps the keys distinct. */
  lemma AvailabilityKeepsIdsDistinct(cars: seq<Car>, id: Guid, b: bool)
    requires IdsDistinct(cars)
    ensures IdsDistinct(WithAvailability(cars, id, b))
  {
    if Lookup(cars, id).Some? {
      ReplaceKeepsIdsDistinct(cars, id, Lookup(cars, id).value.(IsAvailable := b));
    }
  }

  /** With distinct keys, once a car's flag is cleared it is no longer listed as available. */
  lemma ClearedCarNotListed(cars: seq<Car>, id: Guid)
    requires IdsDistinct(cars)
    ensures forall c :: c in AvailableCars(WithAvailability(cars, id, false)) ==> c.Id != id
  {
    var after := WithAvailability(cars, id, false);
    AvailabilityKeepsIdsDistinct(cars, id, false);
    forall c | c in AvailableCars(after) ensures c.Id != id {
      if c.Id == id {
        LookupUnique(after, c);
        LookupWithAvailability(cars, id, false, id);
      }
    }
  }

  // ------------------------------------------------------------ repository

  /** CarRepository: the operations of ICarRepository over the shared car table. */
  class CarRepository {
    var cars: seq<Car>

    ghost predicate Valid()
      reads this
    {
      IdsDistinct(cars)
    }

    constructor (initial: seq<Car>)
      requires IdsDistinct(initial)
      ensures Valid() && cars == initial
    {
      cars := initial;
    }

    /**
     * `Cars.Add(car)`. Adding a second entity with a key already tracked
     * throws; the model reports that as `added == false`, table unchanged.
     */
    method AddCar(car: Car) returns (added: bool)
      requires Valid()
      modifies this
      ensures Valid()
      ensures added <==> old(Lookup(cars, car.Id)).None?
      ensures cars == if added then old(cars) + [car] else old(cars)
      ensures added ==> Lookup(cars, car.Id) == Some(car)
    {
      added := Lookup(cars, car.Id).None?;
      if added {
        LookupAppend(cars, car, car.Id);
        cars := cars + [car];
      }
    }

    /** `Cars.Find(carId)`: the car with that key, or null. */
    function GetCarById(carId: Guid): (r: Option<Car>)
      reads this
      ensures r.Some? ==> r.value in cars && r.value.Id == carId
      ensures r.None? ==> forall c :: c in cars ==> c.Id != carId
    {
      Lookup(cars, carId)
    }

    /** The cars whose flag is set, in table order, and no others. */
    function GetAvailableCars(): (r: seq<Car>)
      reads this
      ensures forall c :: c in r <==> c in cars && c.IsAvailable
    {
      AvailableCars(cars)
    }

    /** Find the car; if it exists, set its flag and save. */
    method UpdateCarAvailability(carId: Guid, isAvailable: bool)
      requires Valid()
      modifies this
      ensures Valid()
      ensures cars == WithAvailability(old(cars), carId, isAvailable)
    {
      var car := Lookup(cars, carId);
      if car.Some? {
        ReplaceKeepsIdsDistinct(cars, carId, car.value.(IsAvailable := isAvailable));
        cars := ReplaceCar(cars, carId, car.value.(IsAvailable := isAvailable));
      }
    }

    /** Find the car; if it exists, remove it from the set. */
    method DeleteCar(carId: Guid)
      requires Valid()
      modifies this
      ensures Valid()
      ensures cars == RemoveCar(old(cars), carId)
      ensures Lookup(cars, carId).None?
    {
      var car := Lookup(cars, carId);
      if car.Some? {
        RemoveKeepsIdsDistinct(cars, carId);
        LookupRemove(cars, carId, carId);
        cars := RemoveCar(cars, carId);
      }
    }
  }
}
