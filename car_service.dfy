/** CarService's operations that fetch a car, change it and write it back. */
module CarServices {
  import opened Wrappers
  import opened Domain
  import opened Repositories
  import opened CarRules

  class CarService {
    const carRepository: Repository<Car>
    const discountRepository: Repository<Discount>

    constructor (carRepository: Repository<Car>, discountRepository: Repository<Discount>)
      requires forall id :: id in carRepository.records ==> carRepository.records[id].carId == id
      ensures this.carRepository == carRepository && this.discountRepository == discountRepository
      ensures Valid()
    {
      this.carRepository := carRepository;
      this.discountRepository := discountRepository;
    }

    /** Every car is stored under its own id. */
    ghost predicate Valid()
      reads carRepository
    {
      forall id :: id in carRepository.records ==> carRepository.records[id].carId == id
    }

    /** MakeReservation: admits the request as `Admit` decides; on success writes the car once,
        with the new reservation appended, and returns the new reservation; otherwise writes nothing. */
    method MakeReservation(carId: int, startDate: Timestamp, endDate: Timestamp) returns (result: Result<Reservation>)
      requires Valid()
      modifies carRepository
      ensures Valid()
      ensures var o := Admit(old(carRepository.GetAsyncById(carId)), carId, startDate, endDate);
              if o.Ok? then
                result == Ok(NewReservation(carId, startDate, endDate)) &&
                carRepository.records == old(carRepository.records)[carId := o.value] &&
                carRepository.updateLog == old(carRepository.updateLog) + [o.value]
              else
                result == Err(o.error) &&
                carRepository.records == old(carRepository.records) &&
                carRepository.updateLog == old(carRepository.updateLog)
    {
      var found := carRepository.GetAsyncById(carId);
      if found.None? {
        return Err(NoSuchCar);
      }
      var car := found.value;
      if car.availability != Some(true) {
        return Err(NoSuchCar);
      }
      if startDate >= endDate {
        return Err(InvalidReservationDates);
      }
      if car.reservations.None? {
        return Err(NullReference);
      }
      if HasConflict(car.reservations.value, startDate, endDate) {
        return Err(ReservationConflict);
      }
      var reservation := NewReservation(carId, startDate, endDate);
      car := car.(reservations := Some(car.reservations.value + [reservation]));
      var _ := carRepository.Update(carId, car);
      return Ok(reservation);
    }

    /** AddDiscountToCar: when both the discount and the car exist, appends the discount to the
        car's list (duplicates included), writes the car once and returns it; otherwise returns
        null. A null discount list makes the append throw, which the catch-all turns into null. */
    method AddDiscountToCar(carId: int, discountId: int) returns (result: Option<Car>)
      requires Valid()
      modifies carRepository
      ensures Valid()
      ensures var d := discountRepository.GetAsyncById(discountId);
              var c := old(carRepository.GetAsyncById(carId));
              if d.Some? && c.Some? && c.value.discounts.Some? then
                result == Some(c.value.(discounts := Some(c.value.discounts.value + [d.value]))) &&
                carRepository.records == old(carRepository.records)[carId := result.value] &&
                carRepository.updateLog == old(carRepository.updateLog) + [result.value]
              else
                result == None &&
                carRepository.records == old(carRepository.records) &&
                carRepository.updateLog == old(carRepository.updateLog)
    {
      var existingDiscount := discountRepository.GetAsyncById(discountId);
      var found := carRepository.GetAsyncById(carId);
      if existingDiscount.Some? && found.Some? {
        var car := found.value;
        if car.discounts.None? {
          return None;
        }
        car := car.(discounts := Some(car.discounts.value + [existingDiscount.value]));
        var updated := carRepository.Update(carId, car);
        return Some(updated);
      }
      return None;
    }

    /** RemoveDiscountFromCar: removes the first discount with the id, writes the car once and
        returns it; NoSuchCar or DiscountNotAssignedToCar (no write) otherwise. */
    method RemoveDiscountFromCar(carId: int, discountId: int) returns (result: Result<Car>)
      requires Valid()
      modifies carRepository
      ensures Valid()
      ensures carId !in old(carRepository.records) ==> result == Err(NoSuchCar)
      ensures carId in old(carRepository.records) && old(carRepository.records)[carId].discounts.Some? ==>
                var car := old(carRepository.records)[carId];
                var remaining := RemoveFirstDiscount(car.discounts.value, discountId);
                if remaining.None? then result == Err(DiscountNotAssignedToCar)
                else result == Ok(car.(discounts := remaining))
      ensures carId in old(carRepository.records) && old(carRepository.records)[carId].discounts.None? ==>
                result == Err(NullReference)
      ensures result.Ok? ==>
                carRepository.records == old(carRepository.records)[carId := result.value] &&
                carRepository.updateLog == old(carRepository.updateLog) + [result.value]
      ensures result.Err? ==>
                carRepository.records == old(carRepository.records) &&
                carRepository.updateLog == old(carRepository.updateLog)
    {
      var found := carRepository.GetAsyncById(carId);
      if found.None? {
        return Err(NoSuchCar);
      }
      var car := found.value;
      if car.discounts.None? {
        return Err(NullReference);
      }
      var remaining := RemoveFirstDiscount(car.discounts.value, discountId);
      if remaining.None? {
        return Err(DiscountNotAssignedToCar);
      }
      car := car.(discounts := remaining);
      var _ := carRepository.Update(carId, car);
      return Ok(car);
    }

    /** UpdateCarDailyRate: sets the rate of an existing car and writes it once; null when absent. */
    method UpdateCarDailyRate(carId: int, dailyRate: Amount) returns (result: Option<Car>)
      requires Valid()
      modifies carRepository
      ensures Valid()
      ensures carId in old(carRepository.records) ==>
                result == Some(old(carRepository.records)[carId].(dailyRate := dailyRate)) &&
                carRepository.records == old(carRepository.records)[carId := result.value] &&
                carRepository.updateLog == old(carRepository.updateLog) + [result.value]
      ensures carId !in old(carRepository.records) ==>
                result == None &&
                carRepository.records == old(carRepository.records) &&
                carRepository.updateLog == old(carRepository.updateLog)
    {
      var found := carRepository.GetAsyncById(carId);
      if found.Some? {
        var car := found.value.(dailyRate := dailyRate);
        var updated := carRepository.Update(carId, car);
        return Some(updated);
      }
      return None;
    }

    /** UpdateCarAvailibility: sets the availability flag of an existing car and writes it once;
        null when absent. */
    method UpdateCarAvailibility(carId: int, availability: bool) returns (result: Option<Car>)
      requires Valid()
      modifies carRepository
      ensures Valid()
      ensures carId in old(carRepository.records) ==>
                result == Some(old(carRepository.records)[carId].(availability := Some(availability))) &&
                carRepository.records == old(carRepository.records)[carId := result.value] &&
                carRepository.updateLog == old(carRepository.updateLog) + [result.value]
      ensures carId !in old(carRepository.records) ==>
                result == None &&
                carRepository.records == old(carRepository.records) &&
                carRepository.updateLog == old(carRepository.updateLog)
    {
      var found := carRepository.GetAsyncById(carId);
      if found.Some? {
        var car := found.value.(availability := Some(availability));
        var updated := carRepository.Update(carId, car);
        return Some(updated);
      }
      return None;
    }

    /** UpdateCarSpecification: sets the specification of an existing car and writes it once;
        null when absent. */
    method UpdateCarSpecification(carId: int, specification: NString) returns (result: Option<Car>)
      requires Valid()
      modifies carRepository
      ensures Valid()
      ensures carId in old(carRepository.records) ==>
                result == Some(old(carRepository.records)[carId].(specification := specification)) &&
                carRepository.records == old(carRepository.records)[carId := result.value] &&
                carRepository.updateLog == old(carRepository.updateLog) + [result.value]
      ensures carId !in old(carRepository.records) ==>
                result == None &&
                carRepository.records == old(carRepository.records) &&
                carRepository.updateLog == old(carRepository.updateLog)
    {
      var found := carRepository.GetAsyncById(carId);
      if found.Some? {
        var car := found.value.(specification := specification);
        var updated := carRepository.Update(carId, car);
        return Some(updated);
      }
      return None;
    }

    /** ViewCarDetails: the stored car, or NoSuchCar when it is absent. */
    method ViewCarDetails(carId: int) returns (result: Result<Car>)
      ensures result.Ok? <==> carId in carRepository.records
      ensures result.Ok? ==> result.value == carRepository.records[carId]
      ensures result.Err? ==> result.error == NoSuchCar
    {
      var found := carRepository.GetAsyncById(carId);
      if found.None? {
        return Err(NoSuchCar);
      }
      return Ok(found.value);
    }

    /** ViewReviews: a copy of the car's reviews; NoSuchCar when the car is absent, and
        `ToList` on a null review list throws. */
    method ViewReviews(carId: int) returns (result: Result<seq<Review>>)
      ensures result == Err(NoSuchCar) <==> carId !in carRepository.records
      ensures result == Err(NullReference) <==>
                carId in carRepository.records && carRepository.records[carId].reviews.None?
      ensures result.Ok? ==> carId in carRepository.records &&
                             carRepository.records[carId].reviews == Some(result.value)
    {
      var found := carRepository.GetAsyncById(carId);
      if found.None? {
        return Err(NoSuchCar);
      }
      if found.value.reviews.None? {
        return Err(NullReference);
      }
      return Ok(found.value.reviews.value);
    }

    /** ViewCarAvailability: one of two messages by the availability flag (null reads as false),
        NoSuchCar when the car is absent. */
    method ViewCarAvailability(carId: int) returns (message: Result<string>)
      ensures message == Err(NoSuchCar) <==> carId !in carRepository.records
      ensures message == Ok("Car is Available") <==>
                carId in carRepository.records && IsAvailable(carRepository.records[carId])
      ensures message == Ok("Car is Not Available") <==>
                carId in carRepository.records && !IsAvailable(carRepository.records[carId])
    {
      var found := carRepository.GetAsyncById(carId);
      if found.None? {
        return Err(NoSuchCar);
      }
      var isAvailable := match found.value.availability
                         case Some(b) => b
                         case None => false;
      if isAvailable {
        return Ok("Car is Available");
      } else {
        return Ok("Car is Not Available");
      }
    }
  }
}
