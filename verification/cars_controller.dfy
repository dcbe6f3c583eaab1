/**
 * Controllers/CarsController.cs: the decision logic of the car endpoints.
 *
 * BookCar's background task, which waits one day and then sets the flag
 * back, is a pending release in `pending`; `Release` is that task firing.
 * The confirmation e-mail is not part of the model; only whether its
 * awaited send returned or threw is, as a parameter of BookCar.
 */
module CarsApi {
  import opened Primitives
  import opened CarModel
  import opened CarRepo
  import opened RentalService

  /** The HTTP results the actions produce; ServerError is an unhandled exception. */
  datatype Status = Ok | Created | NoContent | BadRequest | NotFound | ServerError

  datatype BookingRequest = BookingRequest(CarId: Guid, UserEmail: string, UserName: string)

  /** A scheduled flip back to available: the car and the time it is due. */
  datatype PendingRelease = PendingRelease(carId: Guid, due: int)

  /** `TimeSpan.FromDays(1)`, in seconds: a booking lasts one day. */
  const OneDay: int := 86400

  /** The fields UpdateCar copies onto the stored car: all but its key. */
  function CopyDetails(existing: Car, request: Car): (r: Car)
    ensures r.Id == existing.Id
    ensures r == request.(Id := existing.Id)
  {
    existing.(Make := request.Make, Model := request.Model, Year := request.Year,
              PricePerDay := request.PricePerDay, IsAvailable := request.IsAvailable)
  }

  /**
   * The per-car booking cycle: booking an available car makes it
   * unbookable, and the release that follows restores the table exactly,
   * so the car can be booked again.
   */
  lemma BookingCycle(cars: seq<Car>, id: Guid)
    requires IsBookable(cars, id)
    ensures !IsBookable(WithAvailability(cars, id, false), id)
    ensures WithAvailability(WithAvailability(cars, id, false), id, true) == cars
    ensures IsBookable(WithAvailability(WithAvailability(cars, id, false), id, true), id)
  {
    LookupWithAvailability(cars, id, false, id);
    LastAvailabilityWins(cars, id, false, true);
    AvailabilityUnchanged(cars, id, Lookup(cars, id).value);
  }

  /** A release makes the car bookable again whenever it is still in the table. */
  lemma ReleaseMakesBookable(cars: seq<Car>, id: Guid)
    ensures IsBookable(WithAvailability(cars, id, true), id) <==> Lookup(cars, id).Some?
  {
    LookupWithAvailability(cars, id, true, id);
  }

  class CarsController {
    const carRepository: CarRepository
    /** Releases scheduled by successful bookings and not yet run. */
    var pending: seq<PendingRelease>

    constructor (carRepository: CarRepository)
      ensures this.carRepository == carRepository && pending == []
    {
      this.carRepository := carRepository;
      pending := [];
    }

    /** GET /cars: every available car and only those. */
    method GetAvailableCars() returns (s: Status, cars: seq<Car>)
      ensures s == Ok
      ensures forall c :: c in cars <==> c in carRepository.cars && c.IsAvailable
    {
      cars := carRepository.GetAvailableCars();
      s := Ok;
    }

    /** POST /cars: an invalid model is refused; otherwise the car is added. */
    method AddCar(car: Car) returns (s: Status)
      requires carRepository.Valid()
      modifies carRepository
      ensures carRepository.Valid()
      ensures s == BadRequest <==> !Valid(car)
      ensures s == Created <==> Valid(car) && old(Lookup(carRepository.cars, car.Id)).None?
      ensures s in {BadRequest, Created, ServerError}
      ensures carRepository.cars == if s == Created then old(carRepository.cars) + [car] else old(carRepository.cars)
      ensures s == Created ==> Lookup(carRepository.cars, car.Id) == Some(car)
    {
      if Errors(car) != [] {
        return BadRequest;
      }
      var added := carRepository.AddCar(car);
      s := if added then Created else ServerError;
    }

    /**
     * PUT /cars/{id}: an invalid body is refused by `[ApiController]` before
     * the action runs; then NotFound for an absent key; otherwise the stored
     * car takes every field of the request but keeps its key, and the flag
     * is saved through the repository.
     */
    method UpdateCar(id: Guid, car: Car) returns (s: Status)
      requires carRepository.Valid()
      modifies carRepository
      ensures carRepository.Valid()
      ensures s == BadRequest <==> !Valid(car)
      ensures s == NotFound <==> Valid(car) && old(Lookup(carRepository.cars, id)).None?
      ensures s in {BadRequest, NotFound, NoContent}
      ensures s != NoContent ==> carRepository.cars == old(carRepository.cars)
      ensures s == NoContent ==>
        carRepository.cars == ReplaceCar(old(carRepository.cars), id, car.(Id := id))
      ensures s == NoContent ==> Lookup(carRepository.cars, id) == Some(car.(Id := id))
      ensures forall k :: k != id ==> Lookup(carRepository.cars, k) == old(Lookup(carRepository.cars, k))
    {
      if Errors(car) != [] {
        return BadRequest;
      }
      var existingCar := carRepository.GetCarById(id);
      if existingCar.None? {
        return NotFound;
      }
      var updated := CopyDetails(existingCar.value, car);
      // The controller writes the five fields of the tracked entity itself.
      ReplaceKeepsIdsDistinct(carRepository.cars, id, updated);
      forall k ensures Lookup(ReplaceCar(carRepository.cars, id, updated), k) ==
        if k == id then Some(updated) else Lookup(carRepository.cars, k)
      {
        LookupReplace(carRepository.cars, id, updated, k);
      }
      carRepository.cars := ReplaceCar(carRepository.cars, id, updated);
      AvailabilityUnchanged(carRepository.cars, id, updated);
      carRepository.UpdateCarAvailability(updated.Id, car.IsAvailable);
      s := NoContent;
    }

    /** DELETE /cars/{id}: NotFound for an absent key; otherwise the car is gone. */
    method DeleteCar(id: Guid) returns (s: Status)
      requires carRepository.Valid()
      modifies carRepository
      ensures carRepository.Valid()
      ensures s == NotFound <==> old(Lookup(carRepository.cars, id)).None?
      ensures s in {NotFound, NoContent}
      ensures carRepository.cars == RemoveCar(old(carRepository.cars), id)
      ensures Lookup(carRepository.cars, id).None?
      ensures forall k :: k != id ==> Lookup(carRepository.cars, k) == old(Lookup(carRepository.cars, k))
    {
      var car := carRepository.GetCarById(id);
      if car.None? {
        return NotFound;
      }
      forall k ensures Lookup(RemoveCar(carRepository.cars, id), k) ==
        if k == id then None else Lookup(carRepository.cars, k)
      {
        LookupRemove(carRepository.cars, id, k);
      }
      carRepository.DeleteCar(id);
      s := NoContent;
    }

    /**
     * POST /cars/book at time `now`: BadRequest for an absent or unavailable
     * car, changing nothing; otherwise that car, and only it, becomes
     * unavailable. Then the confirmation e-mail is awaited: `sent` says
     * whether the send returned. If it did, a release is scheduled one day
     * later; if it threw, the request fails with the flag already cleared
     * and no release scheduled.
     */
    method BookCar(request: BookingRequest, now: int, sent: bool) returns (s: Status)
      requires carRepository.Valid()
      modifies this, carRepository
      ensures carRepository.Valid()
      ensures s == BadRequest <==> !old(IsBookable(carRepository.cars, request.CarId))
      ensures s == Ok <==> old(IsBookable(carRepository.cars, request.CarId)) && sent
      ensures s in {Ok, BadRequest, ServerError}
      ensures s == BadRequest ==> carRepository.cars == old(carRepository.cars)
      ensures s != BadRequest ==>
        && carRepository.cars == WithAvailability(old(carRepository.cars), request.CarId, false)
        && !IsBookable(carRepository.cars, request.CarId)
      ensures pending == if s == Ok then old(pending) + [PendingRelease(request.CarId, now + OneDay)]
        else old(pending)
      ensures forall k :: k != request.CarId ==>
        Lookup(carRepository.cars, k) == old(Lookup(carRepository.cars, k))
    {
      var car := carRepository.GetCarById(request.CarId);
      if car.None? || !car.value.IsAvailable {
        return BadRequest;
      }
      forall k ensures Lookup(WithAvailability(carRepository.cars, car.value.Id, false), k) ==
        if k == car.value.Id then Some(car.value.(IsAvailable := false)) else Lookup(carRepository.cars, k)
      {
        LookupWithAvailability(carRepository.cars, car.value.Id, false, k);
      }
      carRepository.UpdateCarAvailability(car.value.Id, false);
      if !sent {
        return ServerError;
      }
      pending := pending + [PendingRelease(car.value.Id, now + OneDay)];
      s := Ok;
    }

    /**
     * The scheduled task at position `k` runs at time `now` if it is due:
     * it is dropped from `pending` and its car's flag is set again.
     * Otherwise nothing happens. Due tasks may run in any order.
     */
    method Release(k: nat, now: int) returns (fired: bool)
      requires carRepository.Valid()
      modifies this, carRepository
      ensures carRepository.Valid()
      ensures fired <==> k < |old(pending)| && old(pending)[k].due <= now
      ensures !fired ==> carRepository.cars == old(carRepository.cars) && pending == old(pending)
      ensures fired ==>
        && carRepository.cars == WithAvailability(old(carRepository.cars), old(pending)[k].carId, true)
        && pending == old(pending)[..k] + old(pending)[k + 1..]
    {
      if k >= |pending| || pending[k].due > now {
        return false;
      }
      var id := pending[k].carId;
      pending := pending[..k] + pending[k + 1..];
      carRepository.UpdateCarAvailability(id, true);
      fired := true;
    }
  }
}
