# RoadReady car-rental back end: a Dafny model of its service logic

RoadReady is an ASP.NET back end for a car-rental business. This project models its service
layer: how `CarService` admits a reservation request for a car and lists the fleet's
available cars, and the list views it offers over cars. It also models the reservation
lifecycle in `ReservationService`, the profile updates in `AdminService` and `UserService`,
and the identity equality of the `RentalStore` model class.

Layout, one module per source file or shared concept:

- `wrappers.dfy` (`Wrappers`): `Option`, which stands for C#'s `null`.
- `domain.dfy` (`Domain`): the entity records, the service exceptions as an `Error`
  datatype, and `Result`.
- `repository.dfy` (`Repositories`): the generic `IRepository<int, T>` as a class. It holds
  an id-to-record map `records` and an `updateLog` of every record passed to `Update`.
  "Writes exactly once" is stated on that log.
- `linq.dfy` (`Linq`): the LINQ operators the services use (`Where`, `Any`,
  `FirstOrDefault`, `SelectMany`), as recursive functions with proved contracts.
- `car_rules.dfy` (`CarRules`): the admission decision `Admit`, the two overlap tests, the
  fleet views, and the lemmas relating them.
- `car_service.dfy`, `reservation_service.dfy`, `admin_service.dfy`, `user_service.dfy`:
  the service classes. Each holds its repositories as `const` fields. Each state-changing
  operation is a method whose postcondition gives the whole new repository state and log.
- `rental_store.dfy` (`RentalStores`): the `RentalStore` constructors and `Equals`.

Modelling choices:

- `DateTime` values are integer timestamps.
- `double` values are `real`. They are only ever copied.
- C# nullability is explicit: `bool? Availability`, navigation collections, strings and
  `byte[]` are `Option`s.
- A null value raises one of two runtime exceptions in C#. Applying a LINQ operator (`Any`,
  `FirstOrDefault`, `SelectMany`, `Where`) to a null collection raises `ArgumentNullException`.
  Calling a member such as `Equals` on a null string raises `NullReferenceException`. The
  model turns both into `Err(NullReference)`.
- The list views are the LINQ expressions the services apply to the list the repository's
  `GetAsync` returned. That list is a parameter of each view, and it is non-null in every view
  except `GetCarsList`, the only view whose null-list case is modelled. `ViewPastReservations` also
  takes the clock reading `now` as a parameter.

On the admission path the code behaves as follows:

- An unavailable car raises `NoSuchCarException`, not a separate "not available" error.
- `MakeReservation` never sets the new reservation's `Status` or `UserId`. `Reservation.cs` is
  not part of this model, so the model assumes those properties have no initialisers and keep
  the C# defaults: a null status, not "Pending", and user 0.
- `MakeReservation` writes only the car. The reservation repository is not touched.

## Model

| member | source | states |
|---|---|---|
| CarRules.Admit | RoadReady/Services/CarService.cs:211-251 | A missing car and a car whose flag is not `true` both give NoSuchCar, whatever the dates. Otherwise `start >= end` gives InvalidReservationDates. Otherwise any reservation, of any status, with an endpoint of the request in its closed range gives ReservationConflict. Success happens exactly when every check passes. On success only the reservation list changes: it keeps its old entries as a prefix and gains one reservation at the end, with this car id, `PickUp = start` and `DropOff = end`. |
| CarServices.CarService.MakeReservation | RoadReady/Services/CarService.cs:207-251 | Returns what `Admit` decides for the stored car. On success it returns the new reservation and writes the updated car to the repository exactly once. On every error the records and the update log are unchanged. Keeps every car stored under its own id. The returned reservation carries id 0: the model does not capture an id the store may assign when it saves the car. |
| CarRules.ReRequestIsRejected | RoadReady/Services/CarService.cs:228-246 | After a successful admission, requesting the same range on the resulting car gives ReservationConflict. |
| CarRules.ConflictIgnoresStatus | RoadReady/Services/CarService.cs:228-230 | Setting any reservation's status to any value, "Cancelled" included, never changes whether a request conflicts. |
| CarRules.AdmissionPreservesStaggered | RoadReady/Services/CarService.cs:228-246 | Admission keeps the invariant that no reservation has an endpoint inside an earlier reservation of the same car. |
| CarRules.PartialOverlapBlocksButStaysListed | RoadReady/Services/CarService.cs:228-230 | Take an available car whose single reservation overlaps the request only partly, on either side. Admission rejects the request with ReservationConflict, yet ViewAvailableCars still lists the car. |
| CarRules.EnclosedReservationHidesButAdmits | RoadReady/Services/CarService.cs:455-459 | Take a car whose single reservation lies strictly inside the requested window. ViewAvailableCars hides the car, yet admission accepts the enclosing request, which leaves two reservations with intersecting ranges. |
| CarRules.ViewAvailableCars | RoadReady/Services/CarService.cs:455-459 | Lists exactly the input cars whose flag is `true` and whose reservation list is null or holds no reservation with `DropOff <= end` and `PickUp >= start`. Each such car occurs as often as in the input. |
| CarRules.ViewAvailableCarsKeepsOrder | RoadReady/Services/CarService.cs:455-459 | The available list of `a + b` is the list of `a` followed by the list of `b`, so the original order is kept. |
| CarRules.GetCarsByAvailabilityStatus | RoadReady/Services/CarService.cs:689-694 | Lists exactly the cars whose flag is `true`, each as often as in the input, and is no longer than the input. |
| CarRules.GetCarsByAvailabilityStatusKeepsOrder | RoadReady/Services/CarService.cs:689-694 | The list for `a + b` is the list for `a` followed by the list for `b`, so the fleet's order is kept. |
| CarRules.AvailableCarsNarrowAvailabilityStatus | RoadReady/Services/CarService.cs:455-459 | Applying the available-cars filter to the flag filter's result gives the same list as applying it to the whole fleet. |
| CarRules.GetCarsList | RoadReady/Services/CarService.cs:174-183 | Returns the list unchanged when it is non-null and non-empty. Otherwise it gives CarListEmpty. |
| CarRules.ViewAllReservations | RoadReady/Services/CarService.cs:420-427 | Gives NullReference exactly when some car's reservation list is null, and no other error. Otherwise it returns exactly the reservations of all cars. |
| CarRules.ViewAllReservationsOneCar | RoadReady/Services/CarService.cs:425 | For a single car with a list, the result is that list unchanged. |
| CarRules.ViewAllReservationsAppend | RoadReady/Services/CarService.cs:425 | The result for `a + b` is the result for `a` followed by the result for `b`. With the one-car lemma this fixes the whole list: each reservation appears once per occurrence, in car order. |
| CarRules.ViewPastReservations | RoadReady/Services/CarService.cs:542-551 | Gives NullReference exactly when some car's reservation list is null, and no other error. Otherwise each reservation of the user with `DropOff < now` occurs as often as in the list of all reservations, and no other reservation occurs. |
| CarRules.ViewPastReservationsAppend | RoadReady/Services/CarService.cs:547-549 | The past reservations for `a + b` are those for `a` followed by those for `b`, so car order is kept. |
| CarRules.ViewPastReservationsOneCar | RoadReady/Services/CarService.cs:547-549 | For a single car with a reservation list, the result is exactly the `Where` filter of that list, in the car's order. |
| CarRules.ViewPayments | RoadReady/Services/CarService.cs:570-579 | Gives NullReference exactly when some car's payment list is null, and no other error. Otherwise it returns exactly the user's payments across all cars. |
| CarRules.ViewPaymentsOneCar | RoadReady/Services/CarService.cs:575-577 | For a single car with a payment list, the result is exactly the `Where` filter of the car's payments by user, in the car's order. Each of the user's payments occurs as often as on the car, and no other payment occurs. |
| CarRules.ViewPaymentsAppend | RoadReady/Services/CarService.cs:575-577 | The payments for `a + b` are those for `a` followed by those for `b`, so car order is kept. |
| CarRules.StopIndex | RoadReady/Services/CarService.cs:604-605 | The first car whose list is null or holds a reservation with the id, or the number of cars when there is none. Every car before it has a list without the id. |
| CarRules.ViewReservationDetails | RoadReady/Services/CarService.cs:599-615 | The search is lazy and goes car by car, and the car where it stops decides the outcome. No such car gives NoSuchReservation. A stopping car with a null list gives NullReference. Otherwise the result is the first reservation with the id in that car. |
| CarRules.ViewReservationDetailsOutcomes | RoadReady/Services/CarService.cs:599-615 | NoSuchReservation exactly when every car has a list without the id. NullReference exactly when a null list comes before any match. No other error occurs. On success the result carries the id and is the first match in the first car holding one. |
| CarRules.ViewReservationDetailsSearchesAllReservations | RoadReady/Services/CarService.cs:604-605 | When no list is null, the lazy search returns what `FirstOrDefault` finds on the flattened list of all reservations, or NoSuchReservation. |
| CarRules.LaterNullListIsNotReached | RoadReady/Services/CarService.cs:604-605 | A null list after the car holding the match is never reached. The match is returned, although listing all reservations of that fleet throws. |
| CarRules.RemoveFirstDiscount | RoadReady/Services/CarService.cs:281-285 | None exactly when no discount has the id. Otherwise the list without the first discount carrying that id, with every other entry kept in order. |
| CarServices.CarService.RemoveDiscountFromCar | RoadReady/Services/CarService.cs:274-296 | A missing car gives NoSuchCar, a null discount list NullReference and no match DiscountNotAssignedToCar, all without a write. A hit removes only the first matching discount, changes no other car field and writes the car once. |
| CarServices.CarService.AddDiscountToCar | RoadReady/Services/CarService.cs:63-88 | When the discount and the car exist and the car's discount list is non-null, appends the discount (duplicates allowed), writes once and returns the car. A missing discount, a missing car or a null discount list each make it return null without a write; the null list throws and the catch-all turns the throw into null. |
| CarServices.CarService.UpdateCarDailyRate | RoadReady/Services/CarService.cs:316-326 | For an existing car, changes only `DailyRate`, writes once and returns the car. For a missing car it returns null and does not write. |
| CarServices.CarService.UpdateCarAvailibility | RoadReady/Services/CarService.cs:352-362 | For an existing car, changes only `Availability`, writes once and returns the car. For a missing car it returns null and does not write. |
| CarServices.CarService.UpdateCarSpecification | RoadReady/Services/CarService.cs:386-396 | For an existing car, changes only `Specification`, writes once and returns the car. For a missing car it returns null and does not write. |
| CarServices.CarService.ViewCarDetails | RoadReady/Services/CarService.cs:515-529 | The stored car, or NoSuchCar exactly when it is absent. |
| CarServices.CarService.ViewReviews | RoadReady/Services/CarService.cs:673-687 | NoSuchCar exactly when the car is absent. NullReference exactly when its review list is null, since `ToList` throws on it. Otherwise the car's reviews. |
| CarServices.CarService.ViewCarAvailability | RoadReady/Services/CarService.cs:481-495 | NoSuchCar exactly when the car is absent. "Car is Available" exactly when its flag is `true`; "Car is Not Available" for `false` or null. |
| Linq.Where | RoadReady/Services/CarService.cs:160 | Every element satisfying the predicate occurs as often as in the input, and no other element occurs. |
| Linq.WhereKeepsAll | RoadReady/Services/ReservationService.cs:102 | A list whose every element satisfies the predicate passes the filter unchanged. |
| Linq.WhereOne | RoadReady/Services/CarService.cs:160 | On one element the filter keeps it exactly when it satisfies the predicate. With `WhereAppend` this fixes every result of `Where`, order included. |
| Linq.WhereAppend | RoadReady/Services/CarService.cs:160 | Filtering distributes over concatenation, so it keeps the original order. |
| Linq.WhereNarrow | RoadReady/Services/CarService.cs:455-459 | Filtering by `p` and then by a stronger `q` equals filtering by `q`. |
| Linq.Any | RoadReady/Services/CarService.cs:228-230 | True exactly when some element satisfies the predicate. |
| Linq.FirstIndex | RoadReady/Services/CarService.cs:281 | The position of the first element satisfying the predicate, or the length when none does. |
| Linq.FirstOrDefault | RoadReady/Services/CarService.cs:604-605 | Null exactly when no element satisfies the predicate. Otherwise the first element that does. |
| Linq.FirstIndexAppend | RoadReady/Services/CarService.cs:281 | The first match in `a + b` is the first match in `a` when there is one. Otherwise it is `|a|` plus the first match in `b`. |
| Linq.FirstOrDefaultAppend | RoadReady/Services/CarService.cs:604-605 | `FirstOrDefault` on `a + b` returns the match in `a` when there is one, and otherwise searches `b`. |
| Linq.SelectMany | RoadReady/Services/CarService.cs:425 | Null exactly when some selected collection is null. Otherwise exactly the elements of the selected collections. |
| Linq.SelectManyOne | RoadReady/Services/CarService.cs:425 | Flattening one element yields that element's collection itself. |
| Linq.SelectManyAppend | RoadReady/Services/CarService.cs:425 | Flattening distributes over concatenation, so it keeps car order. |
| ReservationServices.ReservationService.CancelReservation | RoadReady/Services/ReservationService.cs:22-43 | For an existing id: sets `Status` to "Cancelled", keeps every other field, writes once and returns true. For a missing id: NoSuchReservation and no write. |
| ReservationServices.Cancelled | RoadReady/Services/ReservationService.cs:32 | The status becomes "Cancelled" and every other field is kept. |
| ReservationServices.CancelledIsIdempotent | RoadReady/Services/ReservationService.cs:27-37 | Cancelling twice gives the same reservation as cancelling once. |
| ReservationServices.ReservationService.UpdateReservationStatus | RoadReady/Services/ReservationService.cs:264-284 | Stores any status, null included, with no transition check. It changes only `Status` and writes once. A missing id gives NoSuchReservation and no write. |
| ReservationServices.ReservationService.UpdateReservationPrice | RoadReady/Services/ReservationService.cs:223-243 | Changes only `TotalPrice` and writes once. A missing id gives NoSuchReservation and no write. |
| ReservationServices.GetPendingReservations | RoadReady/Services/ReservationService.cs:101-112 | NullReference when some status is null. NoPendingReservations exactly when all statuses are non-null and none is "Pending". Success exactly when all statuses are non-null and some status is "Pending". On success the list is non-empty, and each "Pending" reservation occurs as often as in the input while no other one occurs. |
| ReservationServices.PendingReservationsAreStable | RoadReady/Services/ReservationService.cs:101-107 | Applied to its own successful result, the query returns that same result. |
| ReservationServices.PendingListIsWhere | RoadReady/Services/ReservationService.cs:101-107 | With no null status, the pending list (empty for NoPendingReservations) is the `Where` filter of the input. |
| ReservationServices.PendingReservationsAppend | RoadReady/Services/ReservationService.cs:102 | With no null status, the pending list of `a + b` is that of `a` followed by that of `b`, so the repository's order is kept. |
| ReservationServices.PendingReservationsOne | RoadReady/Services/ReservationService.cs:102 | One reservation with a status yields itself exactly when it is "Pending", and nothing otherwise. |
| ReservationServices.GetUserReservations | RoadReady/Services/ReservationService.cs:193-204 | NoSuchReservation exactly when no reservation has the user id. Otherwise a non-empty list in which each reservation of the user occurs as often as in the input, and no other one occurs. |
| ReservationServices.UserReservationsAppend | RoadReady/Services/ReservationService.cs:194 | The user's list for `a + b` is the list for `a` followed by the list for `b` (empty for NoSuchReservation), so the repository's order is kept. |
| ReservationServices.UserReservationsOne | RoadReady/Services/ReservationService.cs:194 | One reservation yields itself exactly when it is the user's, and nothing otherwise. |
| ReservationServices.ReservationService.GetReservationDetails | RoadReady/Services/ReservationService.cs:130-134 | The stored reservation, or null with no exception. |
| ReservationServices.ReservationService.GetReservsationStatus | RoadReady/Services/ReservationService.cs:148-165 | The stored reservation with its status unchanged, or null. It cannot write: the method has no modifies clause. |
| ReservationServices.DetermineReservationStatus | RoadReady/Services/ReservationService.cs:174-183 | The result is the reservation's current status: assigning it back leaves the reservation unchanged. |
| ReservationServices.StatusRecheckNeverDiffers | RoadReady/Services/ReservationService.cs:156-162 | Once the status is re-assigned from DetermineReservationStatus, the comparison guarding the write is always false. |
| AdminServices.AdminService.GetAdminById | RoadReady/Services/AdminService.cs:72-76 | The stored admin, or NoSuchAdmin exactly when the id is absent. |
| AdminServices.AdminService.UpdateAdminEmail | RoadReady/Services/AdminService.cs:111-136 | A null or empty email gives an argument error before any lookup. Otherwise a missing admin gives NoSuchAdmin. Otherwise it sets only `Email`, keeps `AdminId`, writes once and returns the admin. Both errors leave the store and the log unchanged. |
| AdminServices.AdminService.UpdateAdminPassword | RoadReady/Services/AdminService.cs:152-177 | A null or zero-length password gives an argument error before any lookup. Otherwise a missing admin gives NoSuchAdmin. Otherwise it replaces only `Password` and writes once. |
| AdminServices.AdminService.UpdateAdminPhoneNumber | RoadReady/Services/AdminService.cs:194-219 | A null or empty number gives an argument error before any lookup. Otherwise a missing admin gives NoSuchAdmin. Otherwise it changes only `PhoneNumber` and writes once. |
| AdminServices.AdminService.UpdateAdminUserName | RoadReady/Services/AdminService.cs:235-260 | An invalid name gives an argument error even for a missing admin. A valid name for a missing admin gives NoSuchAdmin. Otherwise it changes only `Username` and writes once. |
| UserServices.UserService.GetUserById | RoadReady/Services/UserService.cs:74-78 | The stored user, or NoSuchUser exactly when the id is absent. |
| UserServices.UserService.GetUserPayments | RoadReady/Services/UserService.cs:89-94 | NoSuchUser for a missing user. Otherwise the empty list for a null collection, else the same elements in the same order. |
| UserServices.UserService.GetUserReservations | RoadReady/Services/UserService.cs:105-110 | NoSuchUser for a missing user. Otherwise the empty list for a null collection, else the same elements in the same order. |
| UserServices.UserService.GetUserReviews | RoadReady/Services/UserService.cs:121-126 | NoSuchUser for a missing user. Otherwise the empty list for a null collection, else the same elements in the same order. |
| UserServices.UserService.UpdateEmail | RoadReady/Services/UserService.cs:137-153 | Stores any email, null or empty included, changes no other field, writes once and returns the user. A missing user gives NoSuchUser and no write. |
| UserServices.UserService.UpdatePassword | RoadReady/Services/UserService.cs:169-184 | Stores any password and changes no other field, writing once. A missing user gives NoSuchUser and no write. |
| UserServices.UserService.UpdatePhoneNumber | RoadReady/Services/UserService.cs:202-217 | Stores any number and changes no other field, writing once. A missing user gives NoSuchUser and no write. |
| UserServices.UserService.UpdateUserName | RoadReady/Services/UserService.cs:233-248 | Stores any name and changes no other field, writing once. A missing user gives NoSuchUser and no write. |
| RentalStores.DefaultStore | RoadReady/Models/RentalStore.cs:17-20 | The default constructor gives `StoreId == 0`. |
| RentalStores.NewStore | RoadReady/Models/RentalStore.cs:23-28 | The three-argument constructor sets all three fields. |
| RentalStores.NewStoreAt | RoadReady/Models/RentalStore.cs:29-34 | The two-argument constructor sets both locations and leaves `StoreId` at 0. |
| RentalStores.Equals | RoadReady/Models/RentalStore.cs:35-39 | Two stores are equal exactly when their ids are equal. `Equals(null)` holds exactly when the store's id is 0, because null compares as a default store. |
| RentalStores.EqualsIgnoresLocations | RoadReady/Models/RentalStore.cs:35-39 | Changing the other store's locations never changes the answer. |
| RentalStores.EqualsIsEquivalence | RoadReady/Models/RentalStore.cs:38 | On non-null arguments, `Equals` is reflexive, symmetric and transitive. |
| RentalStores.LocationOnlyStoreEqualsNull | RoadReady/Models/RentalStore.cs:29-38 | A store built from locations alone equals null and equals the default store. |

## Left out

- Controllers: HTTP status mapping, role attributes and the date guard in front of `GetAvailableCars`. They are boundary plumbing.
- `Program.cs`: dependency injection, JWT, CORS and EF Core configuration.
- `CarRentalDbContext` and the repository implementations are not part of this model. The repository is only an id-to-record map with lookup and update.
- Logging, `async`/`Task` plumbing and the catch-log-rethrow blocks. They only propagate the exception.
- Exceptions raised by the repository itself (connectivity, constraints). This includes the ones `AddDiscountToCar`'s catch-all turns into null.
- Concurrency: every call is atomic. The race between two `MakeReservation` calls on one car cannot be expressed sequentially.
- The repository's `GetAsync` list is a parameter of the views and is not tied to `records`. The model does not relate its order to the map.
- A null `GetAsync` result is modelled only in `GetCarsList`. The other views take a non-null list, although `Where` or `SelectMany` on a null list would throw.
- Entities are values: a fetched object changed in place and then passed to `Update` is modelled as one write of the updated value. Aliasing of the fetched object with other holders is not modelled, for example the in-memory car keeping the appended reservation when `Update` fails.
- `Reservation.cs`, `Car.cs`, `User.cs` and `Admin.cs` are not part of this model. The records keep only the fields the services read or write. The fields `MakeReservation` does not set are assumed to take C# defaults: id 0, user 0, a null status, a zero price. This is an assumption: `using static RoadReady.Models.Reservation` in `ReservationService.cs` shows that the class has members this model cannot see.
- `GetReservsationStatus`: the `Update` call guarded by an always-false comparison is not written out. `StatusRecheckNeverDiffers` shows the guard never holds.
- `GetCarsByAvailabiltyStatus` (RoadReady/Services/CarService.cs:157-162) is textually identical to `GetCarsByAvailabilityStatus` and is modelled once. `ViewReservationDetailsForAdmin` (RoadReady/Services/CarService.cs:636-659) runs the same query as `ViewReservationDetails` and is covered by that one function, lazy search included.
- Pass-through operations that only forward to the repository: `AddCar`, `DeleteCar`, `GetCarById`, `CreateReservation`, `GetAllReservations`, `AddAdmin`, `DeleteAdmin`, `GetAllAdmins`, `AddUser`, `DeleteUser`, `GetAllUsers`.
- `ViewPastReservations` with a frozen clock: the source reads `DateTime.Now` inside the filter, once per reservation. The single `now` parameter stands for a clock that does not advance while the list is filtered.
- Floating-point arithmetic: `double` amounts are only copied, so they are `real`s.
