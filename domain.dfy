/** The entity records of the rental back end and the exceptions its services throw. */
module Domain {
  import opened Wrappers

  /** A C# `string`, which may be null. */
  type NString = Option<string>

  /** A C# `byte[]`. */
  type Bytes = seq<bv8>

  /** `DateTime` values are modelled as integer timestamps; only their order matters. */
  type Timestamp = int

  /** Floating-point amounts (`double`) are only copied, never computed on. */
  type Amount = real

  datatype Reservation = Reservation(
    reservationId: int,
    carId: int,
    userId: int,
    pickUp: Timestamp,
    dropOff: Timestamp,
    status: NString,
    totalPrice: Amount)

  datatype Discount = Discount(discountId: int, discountPercentage: Amount)

  datatype Payment = Payment(paymentId: int, userId: int, amount: Amount)

  datatype Review = Review(reviewId: int, userId: int, carId: int, rating: int)

  datatype Car = Car(
    carId: int,
    make: NString,
    model: NString,
    availability: Option<bool>,
    dailyRate: Amount,
    specification: NString,
    reservations: Option<seq<Reservation>>,
    payments: Option<seq<Payment>>,
    discounts: Option<seq<Discount>>,
    reviews: Option<seq<Review>>)

  datatype User = User(
    userId: int,
    username: NString,
    email: NString,
    phoneNumber: NString,
    password: Option<Bytes>,
    payments: Option<seq<Payment>>,
    reservations: Option<seq<Reservation>>,
    reviews: Option<seq<Review>>)

  datatype Admin = Admin(
    adminId: int,
    firstName: NString,
    lastName: NString,
    username: NString,
    email: NString,
    phoneNumber: NString,
    password: Option<Bytes>)

  /** One constructor per exception class the services throw. `NullReference` stands for both
      runtime exceptions a null value raises: `NullReferenceException` when a member of a null
      string is called, and `ArgumentNullException` when a LINQ operator such as `Any`,
      `FirstOrDefault` or `SelectMany` is applied to a null collection. */
  datatype Error =
    | NoSuchCar
    | InvalidReservationDates
    | ReservationConflict
    | DiscountNotAssignedToCar
    | CarListEmpty
    | NoSuchReservation
    | NoPendingReservations
    | NoSuchAdmin
    | NoSuchUser
    | InvalidArgument(paramName: string)
    | NullReference

  /** A returned value, or the exception thrown instead. */
  datatype Result<+T> = Ok(value: T) | Err(error: Error)

  /** The list a successful query returned, or the empty list when it threw. */
  function ValueOrEmpty<T>(r: Result<seq<T>>): seq<T>
  {
    if r.Ok? then r.value else []
  }

  /** `string.IsNullOrEmpty`. */
  predicate IsNullOrEmpty(s: NString)
  {
    s.None? || |s.value| == 0
  }
}
