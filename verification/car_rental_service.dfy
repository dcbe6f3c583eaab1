/**
 * Services/CarRentalService.cs: renting a car (check, flip the flag,
 * price) and the availability query.
 */
module RentalService {
  import opened Primitives
  import opened CarModel
  import opened CarRepo

  /**
   * What RentCar yields: a price, null for an absent or unavailable car, or
   * the OverflowException of a price beyond the range of `decimal`.
   */
  datatype Rental = Rented(price: decimal) | NotAvailable | PriceOverflow

  /** The car `Find(id)` returns exists and its flag is set. */
  predicate IsBookable(cars: seq<Car>, id: Guid)
    ensures IsBookable(cars, id) ==> exists c :: c in cars && c.Id == id && c.IsAvailable
    ensures (exists c :: c in cars && c.Id == id) && !IsBookable(cars, id) ==>
      exists c :: c in cars && c.Id == id && !c.IsAvailable
  {
    Lookup(cars, id).Some? && Lookup(cars, id).value.IsAvailable
  }

  /**
   * `pricePerDay * rentalDays` in `decimal` arithmetic: the product, or an
   * overflow when it is beyond the range of `decimal`. Neither factor is
   * checked: zero or negative days give a zero or negative price.
   */
  function Price(pricePerDay: decimal, rentalDays: int32): (r: Rental)
    ensures r != NotAvailable
    ensures r.Rented? ==> r.price == pricePerDay * rentalDays as real
    ensures r.PriceOverflow? <==> !(-DecimalMax <= pricePerDay * rentalDays as real <= DecimalMax)
  {
    var p := pricePerDay * rentalDays as real;
    if -DecimalMax <= p <= DecimalMax then Rented(p) else PriceOverflow
  }

  /** One RentCar call on the table: the table afterwards and the outcome. */
  function Rent(cars: seq<Car>, id: Guid, rentalDays: int32): (r: (seq<Car>, Rental))
    ensures r.1 == NotAvailable <==> !IsBookable(cars, id)
    ensures r.1 == NotAvailable ==> r.0 == cars
  {
    if !IsBookable(cars, id) then (cars, NotAvailable)
    else (WithAvailability(cars, id, false), Price(Lookup(cars, id).value.PricePerDay, rentalDays))
  }

  /** A successful rental marks that car unavailable and changes no other car. */
  lemma RentMarksUnavailable(cars: seq<Car>, id: Guid, rentalDays: int32, k: Guid)
    requires IsBookable(cars, id)
    ensures Lookup(Rent(cars, id, rentalDays).0, k) ==
      if k == id then Some(Lookup(cars, id).value.(IsAvailable := false)) else Lookup(cars, k)
  {
    LookupWithAvailability(cars, id, false, k);
  }

  /**
   * A successful rental is priced at PricePerDay * rentalDays of the car
   * rented, unless that product is beyond the range of `decimal`.
   */
  lemma RentPrice(cars: seq<Car>, id: Guid, rentalDays: int32)
    requires IsBookable(cars, id)
    ensures Rent(cars, id, rentalDays).1 == Price(Lookup(cars, id).value.PricePerDay, rentalDays)
  {
  }

  /** Renting the same car twice in a row: the second call gets null and changes nothing. */
  lemma RentTwiceFails(cars: seq<Car>, id: Guid, d1: int32, d2: int32)
    ensures var after := Rent(cars, id, d1).0;
      Rent(after, id, d2) == (after, NotAvailable)
  {
    if IsBookable(cars, id) {
      LookupWithAvailability(cars, id, false, id);
    }
  }

  /** The service over the shared car repository. */
  class CarRentalService {
    const carRepository: CarRepository

    constructor (carRepository: CarRepository)
      ensures this.carRepository == carRepository
    {
      this.carRepository := carRepository;
    }

    /**
     * Null for an absent or unavailable car (nothing changes); otherwise
     * the car is marked unavailable and the price is returned. The flag is
     * already cleared when the multiplication overflows.
     */
    method RentCar(carId: Guid, rentalDays: int32) returns (r: Rental)
      requires carRepository.Valid()
      modifies carRepository
      ensures carRepository.Valid()
      ensures (carRepository.cars, r) == Rent(old(carRepository.cars), carId, rentalDays)
    {
      var car := carRepository.GetCarById(carId);
      if car.None? || !car.value.IsAvailable {
        return NotAvailable;
      }
      // The tracked entity's flag is cleared and then saved through the
      // repository: both writes are this one update.
      carRepository.UpdateCarAvailability(car.value.Id, false);
      r := Price(car.value.PricePerDay, rentalDays);
    }

    /** True exactly when a car with that key is stored and available; reads only. */
    function CheckCarAvailability(carId: Guid): (ok: bool)
      reads carRepository
      requires carRepository.Valid()
      ensures ok <==> exists c :: c in carRepository.cars && c.Id == carId && c.IsAvailable
    {
      var cars := carRepository.cars;
      LookupAll(cars);
      IsBookable(cars, carId)
    }
  }
}
