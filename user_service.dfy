/** UserService: lookups and single-field profile updates, with no validation of the new value. */
module UserServices {
  import opened Wrappers
  import opened Domain
  import opened Repositories

  class UserService {
    const userRepository: Repository<User>

    constructor (userRepository: Repository<User>)
      requires forall id :: id in userRepository.records ==> userRepository.records[id].userId == id
      ensures this.userRepository == userRepository
      ensures Valid()
    {
      this.userRepository := userRepository;
    }

    /** Every user is stored under its own id. */
    ghost predicate Valid()
      reads userRepository
    {
      forall id :: id in userRepository.records ==> userRepository.records[id].userId == id
    }

    /** GetUserById: the stored user, or NoSuchUser. */
    method GetUserById(userId: int) returns (result: Result<User>)
      ensures result.Ok? <==> userId in userRepository.records
      ensures result.Ok? ==> result.value == userRepository.records[userId]
      ensures result.Err? ==> result.error == NoSuchUser
    {
      var found := userRepository.GetAsyncById(userId);
      if found.None? {
        return Err(NoSuchUser);
      }
      return Ok(found.value);
    }

    /** GetUserPayments: the user's payments, the empty list for a null collection. */
    method GetUserPayments(userId: int) returns (result: Result<seq<Payment>>)
      ensures result.Ok? <==> userId in userRepository.records
      ensures result.Err? ==> result.error == NoSuchUser
      ensures result.Ok? ==> var ps := userRepository.records[userId].payments;
                             (ps.None? ==> result.value == []) && (ps.Some? ==> result.value == ps.value)
    {
      var found := userRepository.GetAsyncById(userId);
      if found.None? {
        return Err(NoSuchUser);
      }
      return Ok(OrEmpty(found.value.payments));
    }

    /** GetUserReservations: the user's reservations, the empty list for a null collection. */
    method GetUserReservations(userId: int) returns (result: Result<seq<Reservation>>)
      ensures result.Ok? <==> userId in userRepository.records
      ensures result.Err? ==> result.error == NoSuchUser
      ensures result.Ok? ==> var rs := userRepository.records[userId].reservations;
                             (rs.None? ==> result.value == []) && (rs.Some? ==> result.value == rs.value)
    {
      var found := userRepository.GetAsyncById(userId);
      if found.None? {
        return Err(NoSuchUser);
      }
      return Ok(OrEmpty(found.value.reservations));
    }

    /** GetUserReviews: the user's reviews, the empty list for a null collection. */
    method GetUserReviews(userId: int) returns (result: Result<seq<Review>>)
      ensures result.Ok? <==> userId in userRepository.records
      ensures result.Err? ==> result.error == NoSuchUser
      ensures result.Ok? ==> var rs := userRepository.records[userId].reviews;
                             (rs.None? ==> result.value == []) && (rs.Some? ==> result.value == rs.value)
    {
      var found := userRepository.GetAsyncById(userId);
      if found.None? {
        return Err(NoSuchUser);
      }
      return Ok(OrEmpty(found.value.reviews));
    }

    /** UpdateEmail: stores any email, null and empty included, and writes the user once. */
    method UpdateEmail(userId: int, email: NString) returns (result: Result<User>)
      requires Valid()
      modifies userRepository
      ensures Valid()
      ensures userId in old(userRepository.records) ==>
                result == Ok(old(userRepository.records)[userId].(email := email)) &&
                userRepository.records == old(userRepository.records)[userId := result.value] &&
                userRepository.updateLog == old(userRepository.updateLog) + [result.value]
      ensures userId !in old(userRepository.records) ==>
                result == Err(NoSuchUser) &&
                userRepository.records == old(userRepository.records) &&
                userRepository.updateLog == old(userRepository.updateLog)
    {
      var user := userRepository.GetAsyncById(userId);
      if user.None? {
        return Err(NoSuchUser);
      }
      var updated := user.value.(email := email);
      var _ := userRepository.Update(userId, updated);
      return Ok(updated);
    }

    /** UpdatePassword: stores any password, null and empty included, and writes the user once. */
    method UpdatePassword(userId: int, password: Option<Bytes>) returns (result: Result<User>)
      requires Valid()
      modifies userRepository
      ensures Valid()
      ensures userId in old(userRepository.records) ==>
                result == Ok(old(userRepository.records)[userId].(password := password)) &&
                userRepository.records == old(userRepository.records)[userId := result.value] &&
                userRepository.updateLog == old(userRepository.updateLog) + [result.value]
      ensures userId !in old(userRepository.records) ==>
                result == Err(NoSuchUser) &&
                userRepository.records == old(userRepository.records) &&
                userRepository.updateLog == old(userRepository.updateLog)
    {
      var user := userRepository.GetAsyncById(userId);
      if user.None? {
        return Err(NoSuchUser);
      }
      var updated := user.value.(password := password);
      var _ := userRepository.Update(userId, updated);
      return Ok(updated);
    }

    /** UpdatePhoneNumber: stores any number, null and empty included, and writes the user once. */
    method UpdatePhoneNumber(userId: int, phoneNumber: NString) returns (result: Result<User>)
      requires Valid()
      modifies userRepository
      ensures Valid()
      ensures userId in old(userRepository.records) ==>
                result == Ok(old(userRepository.records)[userId].(phoneNumber := phoneNumber)) &&
                userRepository.records == old(userRepository.records)[userId := result.value] &&
                userRepository.updateLog == old(userRepository.updateLog) + [result.value]
      ensures userId !in old(userRepository.records) ==>
                result == Err(NoSuchUser) &&
                userRepository.records == old(userRepository.records) &&
                userRepository.updateLog == old(userRepository.updateLog)
    {
      var user := userRepository.GetAsyncById(userId);
      if user.None? {
        return Err(NoSuchUser);
      }
      var updated := user.value.(phoneNumber := phoneNumber);
      var _ := userRepository.Update(userId, updated);
      return Ok(updated);
    }

    /** UpdateUserName: stores any name, null and empty included, and writes the user once. */
    method UpdateUserName(userId: int, userName: NString) returns (result: Result<User>)
      requires Valid()
      modifies userRepository
      ensures Valid()
      ensures userId in old(userRepository.records) ==>
                result == Ok(old(userRepository.records)[userId].(username := userName)) &&
                userRepository.records == old(userRepository.records)[userId := result.value] &&
                userRepository.updateLog == old(userRepository.updateLog) + [result.value]
      ensures userId !in old(userRepository.records) ==>
                result == Err(NoSuchUser) &&
                userRepository.records == old(userRepository.records) &&
                userRepository.updateLog == old(userRepository.updateLog)
    {
      var user := userRepository.GetAsyncById(userId);
      if user.None? {
        return Err(NoSuchUser);
      }
      var updated := user.value.(username := userName);
      var _ := userRepository.Update(userId, updated);
      return Ok(updated);
    }
  }
}
