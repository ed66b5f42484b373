/** The decision logic of CarService: reservation admission, the fleet availability list and
    the list views over cars. Every view takes the list the car repository's `GetAsync` returned. */
module CarRules {
  import opened Wrappers
  import opened Domain
  import opened Linq

  /** `car.Availability == true` on the nullable flag. */
  predicate IsAvailable(car: Car)
  {
    car.availability == Some(true)
  }

  /** `t` lies in the reservation's closed range `[PickUp, DropOff]`. */
  predicate Within(t: Timestamp, r: Reservation)
  {
    r.pickUp <= t <= r.dropOff
  }

  /** Admission's overlap test: an endpoint of the request lies inside the reservation.
      The reservation's status plays no part. */
  predicate EndpointConflict(r: Reservation, startDate: Timestamp, endDate: Timestamp)
  {
    Within(startDate, r) || Within(endDate, r)
  }

  /** `car.Reservations.Any(...)` in MakeReservation. */
  predicate HasConflict(rs: seq<Reservation>, startDate: Timestamp, endDate: Timestamp)
  {
    Any(rs, r => EndpointConflict(r, startDate, endDate))
  }

  /** The availability list's test: the reservation lies entirely inside `[startDate, endDate]`. */
  predicate LiesInside(r: Reservation, startDate: Timestamp, endDate: Timestamp)
  {
    r.dropOff <= endDate && r.pickUp >= startDate
  }

  /** The filter of ViewAvailableCars. */
  predicate ShownAsAvailable(car: Car, startDate: Timestamp, endDate: Timestamp)
  {
    IsAvailable(car) &&
    (car.reservations.None? || !Any(car.reservations.value, r => LiesInside(r, startDate, endDate)))
  }

  /** The reservation MakeReservation creates. The fields it does not set keep their C# defaults:
      id 0, user 0, a null status and a zero price. */
  function NewReservation(carId: int, startDate: Timestamp, endDate: Timestamp): Reservation
  {
    Reservation(0, carId, 0, startDate, endDate, None, 0.0)
  }

  /** MakeReservation's decision for the car fetched under `carId` (None when the repository has
      none): the car with the new reservation appended, or the exception thrown. The checks run in
      the source's order: existence, the availability flag, the dates, then conflicts. */
  function Admit(car: Option<Car>, carId: int, startDate: Timestamp, endDate: Timestamp): (o: Result<Car>)
    // a missing car and an unavailable car raise the same exception, whatever the dates
    ensures car.None? || !IsAvailable(car.value) ==> o == Err(NoSuchCar)
    ensures car.Some? && IsAvailable(car.value) && startDate >= endDate ==> o == Err(InvalidReservationDates)
    ensures car.Some? && IsAvailable(car.value) && startDate < endDate && car.value.reservations.Some? &&
            (exists i :: 0 <= i < |car.value.reservations.value| &&
                         EndpointConflict(car.value.reservations.value[i], startDate, endDate))
            ==> o == Err(ReservationConflict)
    // a null reservation list makes the conflict test throw
    ensures car.Some? && IsAvailable(car.value) && startDate < endDate && car.value.reservations.None?
            ==> o == Err(NullReference)
    // admission succeeds exactly when every check passes
    ensures o.Ok? <==>
            car.Some? && IsAvailable(car.value) && startDate < endDate && car.value.reservations.Some? &&
            forall i :: 0 <= i < |car.value.reservations.value| ==>
              !EndpointConflict(car.value.reservations.value[i], startDate, endDate)
    // on success only the reservation list changes, and it grows by the new reservation at its end
    ensures o.Ok? ==> o.value == car.value.(reservations := o.value.reservations)
    ensures o.Ok? ==> (o.value.reservations.Some? &&
              var rs := o.value.reservations.value;
              |rs| == |car.value.reservations.value| + 1 &&
              rs[..|rs| - 1] == car.value.reservations.value &&
              rs[|rs| - 1].carId == carId && rs[|rs| - 1].pickUp == startDate && rs[|rs| - 1].dropOff == endDate)
  {
    if car.None? || !IsAvailable(car.value) then Err(NoSuchCar)
    else if startDate >= endDate then Err(InvalidReservationDates)
    else if car.value.reservations.None? then Err(NullReference)
    else if HasConflict(car.value.reservations.value, startDate, endDate) then Err(ReservationConflict)
    else
      var rs := car.value.reservations.value + [NewReservation(carId, startDate, endDate)];
      assert rs[..|rs| - 1] == car.value.reservations.value;
      Ok(car.value.(reservations := Some(rs)))
  }

  /** Once a range is admitted, asking for the same range again is a conflict. */
  lemma ReRequestIsRejected(car: Option<Car>, carId: int, startDate: Timestamp, endDate: Timestamp)
    requires Admit(car, carId, startDate, endDate).Ok?
    ensures Admit(Some(Admit(car, carId, startDate, endDate).value), carId, startDate, endDate)
            == Err(ReservationConflict)
  {
    var rs := Admit(car, carId, startDate, endDate).value.reservations.value;
    assert EndpointConflict(rs[|rs| - 1], startDate, endDate);
  }

  /** Changing the status of a reservation, to "Cancelled" or anything else, never changes
      whether a request conflicts: cancelled reservations still block their range. */
  lemma {:induction false} ConflictIgnoresStatus(rs: seq<Reservation>, k: nat, status: NString,
                                                 startDate: Timestamp, endDate: Timestamp)
    requires k < |rs|
    ensures HasConflict(rs[k := rs[k].(status := status)], startDate, endDate) == HasConflict(rs, startDate, endDate)
  {
    var rs' := rs[k := rs[k].(status := status)];
    assert forall i :: 0 <= i < |rs| ==>
      (EndpointConflict(rs'[i], startDate, endDate) <==> EndpointConflict(rs[i], startDate, endDate));
  }

  /** The invariant admission keeps on a car's list: no reservation has an endpoint inside
      an earlier one. */
  ghost predicate Staggered(rs: seq<Reservation>)
  {
    forall i, j :: 0 <= i < j < |rs| ==> !EndpointConflict(rs[i], rs[j].pickUp, rs[j].dropOff)
  }

  lemma AdmissionPreservesStaggered(car: Car, carId: int, startDate: Timestamp, endDate: Timestamp)
    requires car.reservations.Some? && Staggered(car.reservations.value)
    requires Admit(Some(car), carId, startDate, endDate).Ok?
    ensures Staggered(Admit(Some(car), carId, startDate, endDate).value.reservations.value)
  {
    var old_rs := car.reservations.value;
    var rs := Admit(Some(car), carId, startDate, endDate).value.reservations.value;
    forall i, j | 0 <= i < j < |rs|
      ensures !EndpointConflict(rs[i], rs[j].pickUp, rs[j].dropOff)
    {
      assert rs[i] == old_rs[i];
      if j < |old_rs| {
        assert rs[j] == old_rs[j];
      }
    }
  }

  /** A reservation that overlaps the request only partly blocks admission, yet it does not
      take the car off the availability list. */
  lemma PartialOverlapBlocksButStaysListed(car: Car, carId: int, r: Reservation,
                                           startDate: Timestamp, endDate: Timestamp)
    requires IsAvailable(car) && car.reservations == Some([r])
    requires (r.pickUp < startDate <= r.dropOff < endDate) || (startDate < r.pickUp <= endDate < r.dropOff)
    ensures Admit(Some(car), carId, startDate, endDate) == Err(ReservationConflict)
    ensures ViewAvailableCars([car], startDate, endDate) == [car]
  {
    assert EndpointConflict(car.reservations.value[0], startDate, endDate);
    assert ShownAsAvailable(car, startDate, endDate);
  }

  /** The converse gap: a reservation strictly inside the requested range hides the car from the
      availability list, but admission lets the enclosing request through, leaving the car with
      two reservations whose ranges intersect. */
  lemma EnclosedReservationHidesButAdmits(car: Car, carId: int, r: Reservation,
                                          startDate: Timestamp, endDate: Timestamp)
    requires IsAvailable(car) && car.reservations == Some([r])
    requires startDate < r.pickUp <= r.dropOff < endDate
    ensures ViewAvailableCars([car], startDate, endDate) == []
    ensures Admit(Some(car), carId, startDate, endDate).Ok?
    ensures var rs := Admit(Some(car), carId, startDate, endDate).value.reservations.value;
            |rs| == 2 && rs[0] == r && rs[1].pickUp <= r.pickUp <= r.dropOff <= rs[1].dropOff
  {
    assert LiesInside(car.reservations.value[0], startDate, endDate);
    assert !ShownAsAvailable(car, startDate, endDate);
    assert !EndpointConflict(car.reservations.value[0], startDate, endDate);
  }

  /** ViewAvailableCars: exactly the available cars none of whose reservations lies inside the
      window, in their original order. */
  function ViewAvailableCars(allCars: seq<Car>, startDate: Timestamp, endDate: Timestamp): (cars: seq<Car>)
    ensures forall c :: c in cars <==>
              c in allCars && c.availability == Some(true) &&
              (c.reservations.None? ||
               forall i :: 0 <= i < |c.reservations.value| ==>
                 !(c.reservations.value[i].dropOff <= endDate && c.reservations.value[i].pickUp >= startDate))
    // each listed car occurs as often as in the fleet
    ensures forall c :: (multiset(cars)[c] ==
              if ShownAsAvailable(c, startDate, endDate) then multiset(allCars)[c] else 0)
  {
    Where(allCars, c => ShownAsAvailable(c, startDate, endDate))
  }

  /** The availability list of a concatenation is the concatenation of the lists: order is kept. */
  lemma ViewAvailableCarsKeepsOrder(a: seq<Car>, b: seq<Car>, startDate: Timestamp, endDate: Timestamp)
    ensures ViewAvailableCars(a + b, startDate, endDate)
            == ViewAvailableCars(a, startDate, endDate) + ViewAvailableCars(b, startDate, endDate)
  {
    WhereAppend(a, b, c => ShownAsAvailable(c, startDate, endDate));
  }

  /** GetCarsByAvailabilityStatus: the cars whose flag is true, in their original order. */
  function GetCarsByAvailabilityStatus(allCars: seq<Car>): (cars: seq<Car>)
    ensures |cars| <= |allCars|
    ensures forall c :: c in cars <==> c in allCars && c.availability == Some(true)
    // each available car occurs as often as in the fleet
    ensures forall c :: (multiset(cars)[c] == if c.availability == Some(true) then multiset(allCars)[c] else 0)
  {
    Where(allCars, IsAvailable)
  }

  /** The available cars of a concatenation are those of the first part followed by those of
      the second: the fleet's order is kept. */
  lemma GetCarsByAvailabilityStatusKeepsOrder(a: seq<Car>, b: seq<Car>)
    ensures GetCarsByAvailabilityStatus(a + b) == GetCarsByAvailabilityStatus(a) + GetCarsByAvailabilityStatus(b)
  {
    WhereAppend(a, b, IsAvailable);
  }

  /** The availability list only narrows the flag filter: applying it to the flag filter's
      result gives the list for the whole fleet. */
  lemma AvailableCarsNarrowAvailabilityStatus(allCars: seq<Car>, startDate: Timestamp, endDate: Timestamp)
    ensures ViewAvailableCars(GetCarsByAvailabilityStatus(allCars), startDate, endDate)
            == ViewAvailableCars(allCars, startDate, endDate)
  {
    WhereNarrow(allCars, IsAvailable, c => ShownAsAvailable(c, startDate, endDate));
  }

  /** GetCarsList: the repository's list, or CarListEmpty when it is null or empty. */
  function GetCarsList(cars: Option<seq<Car>>): (r: Result<seq<Car>>)
    ensures r.Ok? <==> cars.Some? && |cars.value| > 0
    ensures r.Ok? ==> r.value == cars.value
    ensures r.Err? ==> r.error == CarListEmpty
  {
    if cars.None? || |cars.value| == 0 then Err(CarListEmpty) else Ok(cars.value)
  }

  /** ViewAllReservations, `allCars.SelectMany(car => car.Reservations)`: every reservation of
      every car; a car with a null list makes the enumeration throw. */
  function ViewAllReservations(allCars: seq<Car>): (r: Result<seq<Reservation>>)
    ensures r.Err? <==> exists i :: 0 <= i < |allCars| && allCars[i].reservations.None?
    ensures r.Err? ==> r.error == NullReference
    ensures r.Ok? ==> forall x :: x in r.value <==>
              exists i :: 0 <= i < |allCars| && allCars[i].reservations.Some? && x in allCars[i].reservations.value
  {
    var flat := SelectMany(allCars, (c: Car) => c.reservations);
    if flat.None? then Err(NullReference) else Ok(flat.value)
  }

  /** For a single car the list is that car's reservations, unchanged. */
  lemma ViewAllReservationsOneCar(c: Car)
    requires c.reservations.Some?
    ensures ViewAllReservations([c]) == Ok(c.reservations.value)
  {
    SelectManyOne(c, (c: Car) => c.reservations);
  }

  /** The list for a concatenation of fleets is the concatenation of their lists, so every
      reservation appears once per occurrence, in car order. */
  lemma ViewAllReservationsAppend(a: seq<Car>, b: seq<Car>)
    requires ViewAllReservations(a).Ok? && ViewAllReservations(b).Ok?
    ensures ViewAllReservations(a + b) == Ok(ViewAllReservations(a).value + ViewAllReservations(b).value)
  {
    SelectManyAppend(a, b, (c: Car) => c.reservations);
  }

  /** The filter of ViewPastReservations. */
  predicate EndedFor(x: Reservation, userId: int, now: Timestamp)
  {
    x.userId == userId && x.dropOff < now
  }

  /** ViewPastReservations, with the clock reading `now` as a parameter: the user's reservations
      that ended strictly before `now`. */
  function ViewPastReservations(allCars: seq<Car>, userId: int, now: Timestamp): (r: Result<seq<Reservation>>)
    ensures r.Err? <==> exists i :: 0 <= i < |allCars| && allCars[i].reservations.None?
    ensures r.Err? ==> r.error == NullReference
    ensures r.Ok? ==> forall x :: x in r.value <==>
              x in ViewAllReservations(allCars).value && x.userId == userId && x.dropOff < now
    // each such reservation occurs as often as in the list of all reservations
    ensures r.Ok? ==> forall x :: (multiset(r.value)[x] ==
              if x.userId == userId && x.dropOff < now then multiset(ViewAllReservations(allCars).value)[x] else 0)
  {
    var all := ViewAllReservations(allCars);
    if all.Err? then Err(all.error)
    else Ok(Where(all.value, (x: Reservation) => EndedFor(x, userId, now)))
  }

  /** The past reservations of a concatenation of fleets are those of the first fleet followed
      by those of the second. */
  lemma ViewPastReservationsAppend(a: seq<Car>, b: seq<Car>, userId: int, now: Timestamp)
    requires ViewAllReservations(a).Ok? && ViewAllReservations(b).Ok?
    ensures ViewPastReservations(a + b, userId, now)
            == Ok(ViewPastReservations(a, userId, now).value + ViewPastReservations(b, userId, now).value)
  {
    ViewAllReservationsAppend(a, b);
    WhereAppend(ViewAllReservations(a).value, ViewAllReservations(b).value,
                (x: Reservation) => EndedFor(x, userId, now));
  }

  /** For a single car: exactly the user's past reservations on it, in the car's order. */
  lemma ViewPastReservationsOneCar(c: Car, userId: int, now: Timestamp)
    requires c.reservations.Some?
    ensures ViewPastReservations([c], userId, now)
            == Ok(Where(c.reservations.value, (x: Reservation) => EndedFor(x, userId, now)))
  {
    ViewAllReservationsOneCar(c);
  }

  /** The filter of ViewPayments. */
  predicate PaidBy(x: Payment, userId: int)
  {
    x.userId == userId
  }

  /** ViewPayments: the user's payments over all cars. */
  function ViewPayments(allCars: seq<Car>, userId: int): (r: Result<seq<Payment>>)
    ensures r.Err? <==> exists i :: 0 <= i < |allCars| && allCars[i].payments.None?
    ensures r.Err? ==> r.error == NullReference
    ensures r.Ok? ==> forall x :: x in r.value <==>
              x.userId == userId &&
              exists i :: 0 <= i < |allCars| && allCars[i].payments.Some? && x in allCars[i].payments.value
  {
    var flat := SelectMany(allCars, (c: Car) => c.payments);
    if flat.None? then Err(NullReference)
    else Ok(Where(flat.value, (x: Payment) => PaidBy(x, userId)))
  }

  /** For a single car: exactly the user's payments on it, in the car's order (`Where` is fixed
      by `WhereOne` and `WhereAppend`); each occurs as often as on the car. */
  lemma ViewPaymentsOneCar(c: Car, userId: int)
    requires c.payments.Some?
    ensures ViewPayments([c], userId) == Ok(Where(c.payments.value, (x: Payment) => PaidBy(x, userId)))
    ensures var ps := ViewPayments([c], userId).value;
            forall x :: multiset(ps)[x] == if x.userId == userId then multiset(c.payments.value)[x] else 0
  {
    SelectManyOne(c, (c: Car) => c.payments);
  }

  /** The payments of a concatenation of fleets are those of the first fleet followed by those of
      the second. */
  lemma ViewPaymentsAppend(a: seq<Car>, b: seq<Car>, userId: int)
    requires ViewPayments(a, userId).Ok? && ViewPayments(b, userId).Ok?
    ensures ViewPayments(a + b, userId) == Ok(ViewPayments(a, userId).value + ViewPayments(b, userId).value)
  {
    SelectManyAppend(a, b, (c: Car) => c.payments);
    WhereAppend(SelectMany(a, (c: Car) => c.payments).value, SelectMany(b, (c: Car) => c.payments).value,
                (x: Payment) => PaidBy(x, userId));
  }

  /** `FirstOrDefault(res => res.ReservationId == reservationId)` over one list. */
  function FindReservation(rs: seq<Reservation>, reservationId: int): (r: Option<Reservation>)
    ensures r.None? <==> forall i :: 0 <= i < |rs| ==> rs[i].reservationId != reservationId
    ensures r.Some? ==> exists i :: 0 <= i < |rs| && rs[i] == r.value && r.value.reservationId == reservationId &&
                                    forall j :: 0 <= j < i ==> rs[j].reservationId != reservationId
  {
    FirstOrDefault(rs, (x: Reservation) => x.reservationId == reservationId)
  }

  /** The car has a reservation list and no reservation in it has the id. */
  predicate NoMatchIn(c: Car, reservationId: int)
  {
    c.reservations.Some? && FindReservation(c.reservations.value, reservationId).None?
  }

  /** Where the lazy search stops: the first car with a null list or with a reservation carrying
      the id, or `|allCars|` when there is none. */
  function StopIndex(allCars: seq<Car>, reservationId: int): (k: nat)
    ensures k <= |allCars|
    ensures k < |allCars| ==> !NoMatchIn(allCars[k], reservationId)
    ensures forall j :: 0 <= j < k ==> NoMatchIn(allCars[j], reservationId)
  {
    FirstIndex(allCars, (c: Car) => !NoMatchIn(c, reservationId))
  }

  /** ViewReservationDetails: `SelectMany` is lazy and `FirstOrDefault` stops at the first match,
      so the cars are searched in order and a null list throws only once the search reaches it.
      The outcome is decided by the car where the search stops: none gives NoSuchReservation, a
      null list NullReference, otherwise the first reservation with the id in that car. */
  function ViewReservationDetails(allCars: seq<Car>, reservationId: int): (r: Result<Reservation>)
    decreases |allCars|
    ensures var k := StopIndex(allCars, reservationId);
            r == if k == |allCars| then Err(NoSuchReservation)
                 else if allCars[k].reservations.None? then Err(NullReference)
                 else Ok(FindReservation(allCars[k].reservations.value, reservationId).value)
  {
    if allCars == [] then Err(NoSuchReservation)
    else if allCars[0].reservations.None? then Err(NullReference)
    else
      var found := FindReservation(allCars[0].reservations.value, reservationId);
      if found.Some? then Ok(found.value)
      else
        var rest := ViewReservationDetails(allCars[1..], reservationId);
        assert StopIndex(allCars, reservationId) == 1 + StopIndex(allCars[1..], reservationId);
        rest
  }

  /** The outcomes of ViewReservationDetails in terms of the cars: NoSuchReservation exactly when
      every car has a list without the id; NullReference exactly when a null list comes before any
      match; otherwise the first reservation with the id in the first car holding one. */
  lemma ViewReservationDetailsOutcomes(allCars: seq<Car>, reservationId: int)
    ensures var r := ViewReservationDetails(allCars, reservationId);
            r.Err? ==> r.error == NoSuchReservation || r.error == NullReference
    ensures var r := ViewReservationDetails(allCars, reservationId);
            r == Err(NoSuchReservation) <==> forall i :: 0 <= i < |allCars| ==> NoMatchIn(allCars[i], reservationId)
    ensures ViewReservationDetails(allCars, reservationId) == Err(NullReference) <==>
              exists i :: 0 <= i < |allCars| && allCars[i].reservations.None? &&
                          forall j :: 0 <= j < i ==> NoMatchIn(allCars[j], reservationId)
    ensures var r := ViewReservationDetails(allCars, reservationId);
            r.Ok? ==> r.value.reservationId == reservationId
    ensures var r := ViewReservationDetails(allCars, reservationId);
            r.Ok? ==> exists i :: 0 <= i < |allCars| && (forall j :: 0 <= j < i ==> NoMatchIn(allCars[j], reservationId)) &&
                                  allCars[i].reservations.Some? &&
                                  FindReservation(allCars[i].reservations.value, reservationId) == Some(r.value)
  {
    var k := StopIndex(allCars, reservationId);
    forall i | 0 <= i < |allCars| && allCars[i].reservations.None? &&
               forall j :: 0 <= j < i ==> NoMatchIn(allCars[j], reservationId)
      ensures i == k
    {
    }
  }

  /** When no list is null, the lazy search finds what `FirstOrDefault` finds on the list of
      all reservations. */
  lemma {:induction false} ViewReservationDetailsSearchesAllReservations(allCars: seq<Car>, reservationId: int)
    requires ViewAllReservations(allCars).Ok?
    ensures var found := FindReservation(ViewAllReservations(allCars).value, reservationId);
            ViewReservationDetails(allCars, reservationId) ==
              if found.Some? then Ok(found.value) else Err(NoSuchReservation)
  {
    if allCars != [] {
      var c := allCars[0];
      assert allCars == [c] + allCars[1..];
      ViewAllReservationsOneCar(c);
      ViewAllReservationsAppend([c], allCars[1..]);
      ViewReservationDetailsSearchesAllReservations(allCars[1..], reservationId);
      FirstOrDefaultAppend(c.reservations.value, ViewAllReservations(allCars[1..]).value,
                           (x: Reservation) => x.reservationId == reservationId);
    }
  }

  /** A null list after the matching car is never reached: the match is returned, although
      listing all reservations of the same fleet throws. */
  lemma LaterNullListIsNotReached(c1: Car, c2: Car, r: Reservation)
    requires c1.reservations == Some([r]) && c2.reservations.None?
    ensures ViewReservationDetails([c1, c2], r.reservationId) == Ok(r)
    ensures ViewAllReservations([c1, c2]) == Err(NullReference)
  {
    assert [c1, c2][0] == c1;
    assert [c1, c2][1] == c2;
  }

  /** `Discounts.FirstOrDefault(d => d.DiscountId == id)` followed by `Discounts.Remove` of it:
      the list without its first discount with that id, or None when no discount has it. */
  function RemoveFirstDiscount(ds: seq<Discount>, discountId: int): (r: Option<seq<Discount>>)
    ensures r.None? <==> forall i :: 0 <= i < |ds| ==> ds[i].discountId != discountId
    ensures r.Some? ==> exists i :: 0 <= i < |ds| && ds[i].discountId == discountId &&
                          (forall j :: 0 <= j < i ==> ds[j].discountId != discountId) &&
                          r.value == ds[..i] + ds[i + 1..]
  {
    var i := FirstIndex(ds, (d: Discount) => d.discountId == discountId);
    if i < |ds| then Some(ds[..i] + ds[i + 1..]) else None
  }
}
