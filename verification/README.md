# Car rental core in Dafny

A model of the bookkeeping core of CarRentalSystem, an ASP.NET Core service. The service rents cars to registered users. The model covers:

- the car table with its availability flag, and the repository operations over it (add, find, list available, set availability, delete);
- the check-then-flip of a booking, which the source has twice: `CarRentalService.RentCar` returns a price, and `CarsController.BookCar` schedules the car's return one day later;
- the admin actions on cars (`AddCar`, `UpdateCar`, `DeleteCar`) and the list of available cars;
- the user table, registration with its duplicate-e-mail guard and hashed password, and authentication with its token;
- the data-annotation constraints on the `Car` and `User` records.

Each car moves between two states, available and unavailable. A booking succeeds only from the first state and moves the car to the second. The release that the booking schedules moves it back. The lemmas prove the parts of this cycle:

- a refused booking changes nothing;
- a successful booking changes only that car's flag;
- a second booking before the release is refused;
- the release restores the table exactly, so the car can be booked again.

Layout, one module per source file:

| file | module | source |
|---|---|---|
| primitives.dfy | Primitives | .NET value types: `Guid`, `int`, `decimal`, UTF-16 string length; `Option` for a nullable reference |
| annotations.dfy | Annotations | the DataAnnotations attributes used on the records |
| car.dfy | CarModel | Models/Car.cs |
| user.dfy | UserModel | Models/User.cs |
| car_repository.dfy | CarRepo | Repositories/CarRepository.cs |
| car_rental_service.dfy | RentalService | Services/CarRentalService.cs |
| cars_controller.dfy | CarsApi | Controllers/CarsController.cs |
| user_repository.dfy | UserRepo | Repositories/UserRepository.cs |
| user_service.dfy | Accounts | Services/UserService.cs |

Each table is a `seq` field of its repository class, kept in insertion order. The class invariant `Valid()` says that no two records share a key. `DbSet.Find` and `FirstOrDefault` are first-match lookups (`Lookup`, `FindById`, `FindByEmail`). A write to a tracked entity is `ReplaceCar`, and `DbSet.Remove` is `RemoveCar`. `UpdateCarAvailability` becomes `WithAvailability`, written exactly like the source: find the car and, if found, set its flag. Each state-changing method's `ensures` gives its new table as one of these functions of the old table. The lemmas beside them state what the functions mean.

The source's error exits become outcomes:

- a missing record is `None`;
- `RentCar`'s null is `NotAvailable`;
- the exception from adding a second entity with a key that is already stored is `added == false` in the repositories, `ServerError` in `CarsController.AddCar` and `KeyConflict` in `RegisterUser`;
- the `OverflowException` of `decimal` multiplication is `PriceOverflow`.

In the source, `RentCar` has already cleared the flag when the multiplication throws. The model keeps that order, so an overflowing rental leaves the car unavailable.

The code keeps no record of who booked a car or until when, and it takes no lock around the check-then-flip. `DeleteCar` removes a car whether or not it is booked. The model follows the code in these respects.

`Release` is the intended effect of BookCar's delayed task: one day later, the car's flag is set again. Each release is a separate pending entry that sets the flag without checking anything else. So in the model, a car that an admin makes available and that is then booked again can be released by the first booking's entry, before the second booking's day is over. As written, the task runs against a database context that no longer exists (see "## Left out"), so the program itself does not set the flag back.

## Model

| member | source | states |
|---|---|---|
| CarModel.Valid | Models/Car.cs:10-23 | a car that passes every attribute has a non-empty make and model, a year in 1900..2100 and a positive daily price |
| CarModel.Errors | Models/Car.cs:10-23 | none exactly when the car is valid. Each error names Make, Model, Year or PricePerDay. Each attribute's error, with the source's message, is present exactly when that attribute fails: Make or Model missing or longer than 50 UTF-16 units, Year outside 1900..2100, PricePerDay below 1 |
| UserModel.Valid | Models/User.cs:10-25 | a user that passes every attribute has a non-empty name and password, an e-mail containing '@', and a role of exactly "Admin" or "User" (Required refuses the empty role the pattern lets through) |
| UserModel.Errors | Models/User.cs:10-25 | the model-state errors for a user; none exactly when Name is required and at most 100 units, Email is required, well-formed and at most 100 units, Password is required and at least 6 units, and Role is "Admin" or "User" |
| CarRepo.Lookup | Repositories/CarRepository.cs:22-25 | finds a car exactly when one with that key is stored, and what it finds is a stored car with that key |
| CarRepo.LookupUnique | Repositories/CarRepository.cs:22-25 | with distinct keys, looking up a stored car's key gives that car |
| CarRepo.LookupAll | Repositories/CarRepository.cs:22-25 | with distinct keys, every stored car is what its key looks up |
| CarRepo.AvailableCars | Repositories/CarRepository.cs:27-30 | a car is listed if and only if it is stored and its flag is set |
| CarRepo.ReplaceCar | Repositories/CarRepository.cs:34-37 | writing the tracked car keeps the length and every key, changes no car but the one written, leaves every other key's lookup unchanged, and changes nothing for an absent key |
| CarRepo.RemoveCar | Repositories/CarRepository.cs:42-49 | removal shortens the table by one exactly when the key is stored, keeps only stored cars, and is a no-op for an absent key |
| CarRepo.LookupAppend | Repositories/CarRepository.cs:17-25 | after appending a car, a key that was absent finds that car and every other lookup is unchanged |
| CarRepo.LookupReplace | Repositories/CarRepository.cs:34-37 | after a write, the written key finds the new record and every other key finds what it found before |
| CarRepo.ReplaceTwice | Repositories/CarRepository.cs:34-37 | two writes to the same car equal the second alone |
| CarRepo.ReplaceWithSame | Repositories/CarRepository.cs:34-37 | writing back the stored record changes nothing |
| CarRepo.ReplaceKeepsIdsDistinct | Repositories/CarRepository.cs:34-37 | a write keeps keys distinct |
| CarRepo.RemoveKeepsIdsDistinct | Repositories/CarRepository.cs:42-49 | removal keeps keys distinct |
| CarRepo.LookupRemove | Repositories/CarRepository.cs:42-49 | with distinct keys, after DeleteCar(id) the key is absent and every other key finds what it found before |
| CarRepo.WithAvailability | Repositories/CarRepository.cs:32-40 | the table after UpdateCarAvailability(id, b): same length; for a stored key that car gets flag b and keeps its other fields; every other key finds what it found before; an absent key changes nothing |
| CarRepo.LookupWithAvailability | Repositories/CarRepository.cs:32-40 | UpdateCarAvailability(id, b) gives that car flag b and changes no other field and no other car; for an absent key it changes nothing |
| CarRepo.LastAvailabilityWins | Repositories/CarRepository.cs:32-40 | setting the flag twice equals setting it to the second value |
| CarRepo.AvailabilityIdempotent | Repositories/CarRepository.cs:32-40 | UpdateCarAvailability applied twice with the same arguments equals applying it once |
| CarRepo.AvailabilityUnchanged | Repositories/CarRepository.cs:32-40 | setting a car's flag to the value it has leaves the table unchanged |
| CarRepo.AvailabilityKeepsIdsDistinct | Repositories/CarRepository.cs:32-40 | setting a flag keeps keys distinct |
| CarRepo.ClearedCarNotListed | Repositories/CarRepository.cs:27-40 | with distinct keys, once a car's flag is cleared, GetAvailableCars no longer lists any car with that key |
| CarRepo.CarRepository.constructor | Repositories/CarRepository.cs:12-15 | the repository starts on the given table |
| CarRepo.CarRepository.AddCar | Repositories/CarRepository.cs:17-20 | appends the car when its key is new, after which GetCarById finds it; for a key already stored it fails and changes nothing |
| CarRepo.CarRepository.GetCarById | Repositories/CarRepository.cs:22-25 | returns a stored car with that key, or null only when no car has that key |
| CarRepo.CarRepository.GetAvailableCars | Repositories/CarRepository.cs:27-30 | returns every stored car whose flag is set, and no other car |
| CarRepo.CarRepository.UpdateCarAvailability | Repositories/CarRepository.cs:32-40 | the new table is the old one with that car's flag set, if the car exists; keys stay distinct |
| CarRepo.CarRepository.DeleteCar | Repositories/CarRepository.cs:42-49 | the new table is the old one without that car; the key is absent afterwards |
| RentalService.IsBookable | Services/CarRentalService.cs:20-21 | the car Find returns exists and is available: then a stored car with that key is available; a stored key that is not bookable has a stored car that is unavailable |
| RentalService.Price | Services/CarRentalService.cs:27 | the price is PricePerDay * rentalDays when that is within the range of decimal, otherwise an overflow; never null |
| RentalService.Rent | Services/CarRentalService.cs:18-28 | the result is null exactly when the car is absent or unavailable, and then the table is unchanged |
| RentalService.RentMarksUnavailable | Services/CarRentalService.cs:24-25 | a successful rental clears the flag of the rented car and changes no other car |
| RentalService.RentPrice | Services/CarRentalService.cs:27 | a successful rental is priced from the rented car's own PricePerDay and the given rentalDays |
| RentalService.RentTwiceFails | Services/CarRentalService.cs:20-25 | a second RentCar on the same car returns null and changes nothing |
| RentalService.CarRentalService.constructor | Services/CarRentalService.cs:13-16 | the service is bound to the given repository |
| RentalService.CarRentalService.RentCar | Services/CarRentalService.cs:18-28 | the new table and the result are those of Rent on the old table, and keys stay distinct |
| RentalService.CarRentalService.CheckCarAvailability | Services/CarRentalService.cs:30-34 | true exactly when a stored car has that key and its flag is set; it reads state only |
| CarsApi.CopyDetails | Controllers/CarsController.cs:51-55 | the updated record is the request with the stored key |
| CarsApi.BookingCycle | Controllers/CarsController.cs:79-97 | after booking an available car it is not bookable; the release restores the table exactly, and the car is bookable again |
| CarsApi.ReleaseMakesBookable | Controllers/CarsController.cs:93-97 | after the release the car is bookable exactly when it is still stored |
| CarsApi.CarsController.constructor | Controllers/CarsController.cs:16-20 | the controller is bound to the repository and has no pending release |
| CarsApi.CarsController.GetAvailableCars | Controllers/CarsController.cs:24-28 | Ok with every available car and only those |
| CarsApi.CarsController.AddCar | Controllers/CarsController.cs:33-40 | BadRequest with nothing added exactly when the model is invalid; otherwise Created with the car appended, or an error when its key is already stored |
| CarsApi.CarsController.UpdateCar | Controllers/CarsController.cs:9-59 | BadRequest exactly when the body is invalid (the `[ApiController]` check); NotFound exactly when it is valid and the key is absent; in both cases nothing changes. Otherwise the stored car becomes the request with the stored key, and no other car changes |
| CarsApi.CarsController.DeleteCar | Controllers/CarsController.cs:64-72 | NotFound exactly when the key is absent; afterwards the key is absent and no other car changes |
| CarsApi.CarsController.BookCar | Controllers/CarsController.cs:77-100 | BadRequest with nothing changed exactly when the car is absent or unavailable. Otherwise only that car changes, and it is left unavailable. If the awaited e-mail send returns, the result is Ok and a release is queued one day (86400 s) later. If the send throws, the result is ServerError and no release is queued |
| CarsApi.CarsController.Release | Controllers/CarsController.cs:93-97 | a pending release runs only when it is due; it sets that car's flag again and leaves the queue; otherwise nothing changes |
| UserRepo.FindByEmail | Repositories/UserRepository.cs:15-18 | finds a user exactly when a stored user has that e-mail, and what it finds has it |
| UserRepo.FindById | Repositories/UserRepository.cs:27-30 | finds a user exactly when a stored user has that key, and what it finds has it |
| UserRepo.FindByEmailIsFirst | Repositories/UserRepository.cs:15-18 | the user found is the earliest stored one with that e-mail |
| UserRepo.FindByEmailAppend | Repositories/UserRepository.cs:15-24 | after appending a user, an e-mail that found nobody finds that user, and every other e-mail lookup is unchanged |
| UserRepo.FindByIdAppend | Repositories/UserRepository.cs:20-30 | after appending a user, key lookups change only for the new key |
| UserRepo.UserRepository.constructor | Repositories/UserRepository.cs:10-13 | the repository starts on the given table |
| UserRepo.UserRepository.GetUserByEmail | Repositories/UserRepository.cs:15-18 | returns a stored user with that e-mail, or null only when there is none |
| UserRepo.UserRepository.AddUser | Repositories/UserRepository.cs:20-24 | appends exactly that user and leaves the others unchanged, after which GetUserByEmail finds someone; a key already stored makes it fail with no change |
| UserRepo.UserRepository.GetUserById | Repositories/UserRepository.cs:27-30 | returns a stored user with that key, or null only when there is none |
| Accounts.Hashed | Services/UserService.cs:31 | the stored record is the user with its password replaced by Hash(user, password) and every other field kept |
| Accounts.Authenticate | Services/UserService.cs:36-60 | no token when no user has the e-mail; a token only for a stored user with that e-mail whose password verifies with Success, carrying its claims and expiring an hour later; with distinct e-mails, a token exactly when that user's password verifies |
| Accounts.EmailsStayDistinct | Services/UserService.cs:27-32 | adding a user whose e-mail is not stored keeps e-mails pairwise distinct |
| Accounts.RegisteredUserCanSignIn | Services/UserService.cs:25-42 | once registered, the user signs in with the password given, when the verifier accepts the hasher's output |
| Accounts.SecondRegistrationRefused | Services/UserService.cs:27-31 | after a user is registered, a second registration with the same e-mail finds the stored hashed record, so the guard refuses it |
| Accounts.UserService.constructor | Services/UserService.cs:18-23 | the service is bound to its repository, key and crypto |
| Accounts.UserService.RegisterUser | Services/UserService.cs:25-34 | refused with no change exactly when the e-mail is stored; otherwise exactly one record, the hashed user, is appended. A key already stored fails with no change. E-mails stay pairwise distinct |
| Accounts.UserService.AuthenticateUser | Services/UserService.cs:36-61 | no token for an unknown e-mail; a token only for a stored user with that e-mail whose check returns Success; it reads state only |

## Left out

- E-mail confirmation (Controllers/CarsController.cs:85-90, Services/EmailService.cs): the SendGrid message and network I/O are not modelled. Whether the awaited send returns or throws is the `sent` parameter of `BookCar`.
- The background task of BookCar (Controllers/CarsController.cs:93-97): the delay and the thread pool are replaced by the `pending` queue and the explicit `Release(k, now)` step. The clock is the `now` parameter.
- Concurrency: the model is sequential. The source has no lock around the check-then-flip, and the model adds none.
- Persistence: the tracked set is the state, and it outlives each request. The per-request lifetime of the database context is not modelled. EF's generation of a fresh Guid for a key left at its default is not modelled: keys are taken as given. The `decimal(18,2)` column mapping (ApplicationDBContext.cs:17-19) is not modelled.
- Role checks (`[Authorize(Roles = ...)]`) and the HTTP plumbing: the model has no caller identity, and results are the `Status` values.
- CarsApi.CarsController.Release: models the intended effect of BookCar's delayed task. As written, that task calls the repository a day after the request has ended. The database context is request-scoped (Program.cs:23-28), so the `Find` at Repositories/CarRepository.cs:34 runs on a disposed context and throws in a task nobody observes. The flag is then never set back.
- CarRepo.CarRepository.AddCar: the source adds the car to the tracked set without calling `SaveChanges` (Repositories/CarRepository.cs:17-20). So the addition is lost when the request's context is disposed. The model keeps it.
- CarRepo.CarRepository.DeleteCar: the source removes the car without calling `SaveChanges` (Repositories/CarRepository.cs:42-49). So the deletion is lost when the request's context is disposed. The model keeps it.
- CarModel.Errors: `[Range(1, double.MaxValue)]` on PricePerDay (Models/Car.cs:22) compares the price converted to `double`. The model compares the exact decimal value with 1. So a price just below 1 that rounds to 1.0 as a double, such as 0.99999999999999999, passes in the source and fails in the model.
- CarModel.Valid: the same `double` conversion of PricePerDay is not modelled.
- UserRepo.FindByEmail: the model compares e-mails exactly, character by character, and returns the first match in table order. On SQL Server, `u.Email == email` follows the column's collation, which by default ignores case and trailing spaces, and without ORDER BY no row order is defined. So where the source refuses "Bob@x.io" as a duplicate of "bob@x.io" and signs that user in, the model does neither.
- CarsApi.CarsController.BookCar: `[ApiController]` validation of the BookingRequest body is not modelled. The class carries no attributes, and whether its non-nullable strings are implicitly required depends on the project's nullable setting, which is not part of this model.
- Validation/Validator.cs, Program.cs, JwtSettings.cs and Controllers/UsersController.cs are not part of this model. Repositories/Interfaces.cs only lists the repository methods.
- Password hashing and tokens: `PasswordHasher` and the JWT writer are the function values of `Crypto`. The hasher's salt, so its randomness, is not modelled. `DateTime.UtcNow` is the `now` parameter.
- Accounts.UserService.RegisterUser: states that the stored password is `Hash(user, password)`, not that it differs from the plaintext, which depends on the hasher.
- Accounts.UserService.RegisterUser: the source also overwrites the password of the caller's own `User` object; the model's caller keeps its value.
- RentalService.Price: `decimal` is modelled as an exact real within its range. Its 28-digit precision and the rounding of products are not modelled.
- CarRepo.AvailableCars: the contract states membership in both directions, not the order of the list, which is table order.
- Null strings: a missing string is modelled as the empty string. `[Required]` rejects both.
