/** ReservationService: the reservation lifecycle over the reservation repository. */
module ReservationServices {
  import opened Wrappers
  import opened Domain
  import opened Repositories
  import opened Linq

  const CancelledStatus: string := "Cancelled"
  const PendingStatus: string := "Pending"

  /** The reservation with its status set to "Cancelled" and every other field kept. */
  function Cancelled(r: Reservation): (c: Reservation)
    ensures c.status == Some(CancelledStatus)
    ensures c.(status := r.status) == r
  {
    r.(status := Some(CancelledStatus))
  }

  /** Cancelling an already cancelled reservation leaves it as it is. */
  lemma CancelledIsIdempotent(r: Reservation)
    ensures Cancelled(Cancelled(r)) == Cancelled(r)
  {
  }

  /** DetermineReservationStatus: the status the reservation already has. */
  function DetermineReservationStatus(r: Reservation): (status: NString)
    // assigning the result back to the reservation leaves it unchanged
    ensures r.(status := status) == r
  {
    r.status
  }

  /** The guard in front of GetReservsationStatus's write compares the status just assigned from
      DetermineReservationStatus with that function again, so it never holds and the write is dead. */
  lemma StatusRecheckNeverDiffers(r: Reservation)
    ensures var r' := r.(status := DetermineReservationStatus(r));
            r'.status == DetermineReservationStatus(r')
  {
  }

  /** `r.Status.Equals("Pending")` on a non-null status. */
  predicate IsPending(x: Reservation)
  {
    x.status == Some(PendingStatus)
  }

  /** GetPendingReservations over the repository's list: the reservations whose status is
      "Pending", in order; NoPendingReservations when there are none. `Where` is enumerated in
      full by `ToList`, so any null status makes `Status.Equals` throw. */
  function GetPendingReservations(allReservations: seq<Reservation>): (r: Result<seq<Reservation>>)
    ensures (exists i :: 0 <= i < |allReservations| && allReservations[i].status.None?) ==> r == Err(NullReference)
    ensures r == Err(NoPendingReservations) <==>
              (forall i :: 0 <= i < |allReservations| ==> allReservations[i].status.Some?) &&
              (forall i :: 0 <= i < |allReservations| ==> allReservations[i].status != Some(PendingStatus))
    ensures r.Ok? <==>
              (forall i :: 0 <= i < |allReservations| ==> allReservations[i].status.Some?) &&
              (exists i :: 0 <= i < |allReservations| && allReservations[i].status == Some(PendingStatus))
    ensures r.Ok? ==> r.value != []
    ensures r.Ok? ==> forall x :: x in r.value <==> x in allReservations && x.status == Some(PendingStatus)
    // each pending reservation occurs as often as in the repository's list
    ensures r.Ok? ==> forall x :: (multiset(r.value)[x] ==
              if x.status == Some(PendingStatus) then multiset(allReservations)[x] else 0)
  {
    if Any(allReservations, (x: Reservation) => x.status.None?) then Err(NullReference)
    else
      var pending := Where(allReservations, IsPending);
      if |pending| > 0 then
        assert pending[0] in pending;
        Ok(pending)
      else
        assert forall i :: 0 <= i < |allReservations| ==> allReservations[i] !in pending;
        Err(NoPendingReservations)
  }

  /** Asking again over the pending list returns that same list: it holds nothing but pending
      reservations and drops none of them. */
  lemma PendingReservationsAreStable(allReservations: seq<Reservation>)
    requires GetPendingReservations(allReservations).Ok?
    ensures GetPendingReservations(GetPendingReservations(allReservations).value)
            == GetPendingReservations(allReservations)
  {
    var pending := GetPendingReservations(allReservations).value;
    forall i | 0 <= i < |pending|
      ensures IsPending(pending[i])
    {
      assert pending[i] in pending;
    }
    PendingListIsWhere(pending);
    WhereKeepsAll(pending, IsPending);
    assert pending[0].status == Some(PendingStatus);
  }

  /** With no null status, the pending list of a concatenation is the pending list of the first
      part followed by that of the second (an empty list standing for NoPendingReservations). */
  lemma PendingReservationsAppend(a: seq<Reservation>, b: seq<Reservation>)
    requires forall i :: 0 <= i < |a| ==> a[i].status.Some?
    requires forall i :: 0 <= i < |b| ==> b[i].status.Some?
    ensures ValueOrEmpty(GetPendingReservations(a + b))
            == ValueOrEmpty(GetPendingReservations(a)) + ValueOrEmpty(GetPendingReservations(b))
  {
    assert forall i :: 0 <= i < |a + b| ==> (a + b)[i] == if i < |a| then a[i] else b[i - |a|];
    PendingListIsWhere(a);
    PendingListIsWhere(b);
    PendingListIsWhere(a + b);
    WhereAppend(a, b, IsPending);
  }

  /** On one reservation with a status: that reservation when it is pending, else nothing.
      With PendingReservationsAppend this fixes the pending list, order included. */
  lemma PendingReservationsOne(x: Reservation)
    requires x.status.Some?
    ensures ValueOrEmpty(GetPendingReservations([x])) == if IsPending(x) then [x] else []
  {
    PendingListIsWhere([x]);
    WhereOne(x, IsPending);
  }

  /** With no null status, the pending list is the `Where` filter of the input. */
  lemma PendingListIsWhere(s: seq<Reservation>)
    requires forall i :: 0 <= i < |s| ==> s[i].status.Some?
    ensures ValueOrEmpty(GetPendingReservations(s)) == Where(s, IsPending)
  {
  }

  /** The filter of GetUserReservations. */
  predicate OwnedBy(x: Reservation, userId: int)
  {
    x.userId == userId
  }

  /** GetUserReservations over the repository's list: the user's reservations in order;
      NoSuchReservation when the user has none. */
  function GetUserReservations(allReservations: seq<Reservation>, userId: int): (r: Result<seq<Reservation>>)
    ensures r == Err(NoSuchReservation) <==>
              forall i :: 0 <= i < |allReservations| ==> allReservations[i].userId != userId
    ensures r.Err? ==> r.error == NoSuchReservation
    ensures r.Ok? ==> r.value != []
    ensures r.Ok? ==> forall x :: x in r.value <==> x in allReservations && x.userId == userId
    // each of the user's reservations occurs as often as in the repository's list
    ensures r.Ok? ==> forall x :: (multiset(r.value)[x] ==
              if x.userId == userId then multiset(allReservations)[x] else 0)
  {
    var mine := Where(allReservations, (x: Reservation) => OwnedBy(x, userId));
    if |mine| > 0 then
      assert mine[0] in mine;
      Ok(mine)
    else
      assert forall i :: 0 <= i < |allReservations| ==> allReservations[i] !in mine;
      Err(NoSuchReservation)
  }

  /** The user's reservations in a concatenation are those in the first part followed by those
      in the second (an empty list standing for NoSuchReservation). */
  lemma UserReservationsAppend(a: seq<Reservation>, b: seq<Reservation>, userId: int)
    ensures ValueOrEmpty(GetUserReservations(a + b, userId))
            == ValueOrEmpty(GetUserReservations(a, userId)) + ValueOrEmpty(GetUserReservations(b, userId))
  {
    WhereAppend(a, b, (x: Reservation) => OwnedBy(x, userId));
  }

  /** On one reservation: that reservation when it is the user's, else nothing. With
      UserReservationsAppend this fixes the user's list, order included. */
  lemma UserReservationsOne(x: Reservation, userId: int)
    ensures ValueOrEmpty(GetUserReservations([x], userId)) == if x.userId == userId then [x] else []
  {
    WhereOne(x, (x: Reservation) => OwnedBy(x, userId));
  }

  class ReservationService {
    const reservationRepository: Repository<Reservation>

    constructor (reservationRepository: Repository<Reservation>)
      requires forall id :: id in reservationRepository.records ==>
                 reservationRepository.records[id].reservationId == id
      ensures this.reservationRepository == reservationRepository
      ensures Valid()
    {
      this.reservationRepository := reservationRepository;
    }

    /** Every reservation is stored under its own id. */
    ghost predicate Valid()
      reads reservationRepository
    {
      forall id :: id in reservationRepository.records ==> reservationRepository.records[id].reservationId == id
    }

    /** CancelReservation: marks an existing reservation "Cancelled", writes it once and returns
        true; NoSuchReservation (no write) when it is absent. */
    method CancelReservation(reservationId: int) returns (result: Result<bool>)
      requires Valid()
      modifies reservationRepository
      ensures Valid()
      ensures reservationId in old(reservationRepository.records) ==>
                var c := Cancelled(old(reservationRepository.records)[reservationId]);
                result == Ok(true) &&
                reservationRepository.records == old(reservationRepository.records)[reservationId := c] &&
                reservationRepository.updateLog == old(reservationRepository.updateLog) + [c]
      ensures reservationId !in old(reservationRepository.records) ==>
                result == Err(NoSuchReservation) &&
                reservationRepository.records == old(reservationRepository.records) &&
                reservationRepository.updateLog == old(reservationRepository.updateLog)
    {
      var found := reservationRepository.GetAsyncById(reservationId);
      if found.Some? {
        var reservation := found.value.(status := Some(CancelledStatus));
        var _ := reservationRepository.Update(reservationId, reservation);
        return Ok(true);
      } else {
        return Err(NoSuchReservation);
      }
    }

    /** UpdateReservationStatus: stores any status, with no transition check. */
    method UpdateReservationStatus(reservationId: int, newStatus: NString) returns (result: Result<Reservation>)
      requires Valid()
      modifies reservationRepository
      ensures Valid()
      ensures reservationId in old(reservationRepository.records) ==>
                result == Ok(old(reservationRepository.records)[reservationId].(status := newStatus)) &&
                reservationRepository.records == old(reservationRepository.records)[reservationId := result.value] &&
                reservationRepository.updateLog == old(reservationRepository.updateLog) + [result.value]
      ensures reservationId !in old(reservationRepository.records) ==>
                result == Err(NoSuchReservation) &&
                reservationRepository.records == old(reservationRepository.records) &&
                reservationRepository.updateLog == old(reservationRepository.updateLog)
    {
      var found := reservationRepository.GetAsyncById(reservationId);
      if found.None? {
        return Err(NoSuchReservation);
      }
      var reservation := found.value.(status := newStatus);
      var _ := reservationRepository.Update(reservationId, reservation);
      return Ok(reservation);
    }

    /** UpdateReservationPrice: changes only the total price. */
    method UpdateReservationPrice(reservationId: int, newPrice: Amount) returns (result: Result<Reservation>)
      requires Valid()
      modifies reservationRepository
      ensures Valid()
      ensures reservationId in old(reservationRepository.records) ==>
                result == Ok(old(reservationRepository.records)[reservationId].(totalPrice := newPrice)) &&
                reservationRepository.records == old(reservationRepository.records)[reservationId := result.value] &&
                reservationRepository.updateLog == old(reservationRepository.updateLog) + [result.value]
      ensures reservationId !in old(reservationRepository.records) ==>
                result == Err(NoSuchReservation) &&
                reservationRepository.records == old(reservationRepository.records) &&
                reservationRepository.updateLog == old(reservationRepository.updateLog)
    {
      var found := reservationRepository.GetAsyncById(reservationId);
      if found.None? {
        return Err(NoSuchReservation);
      }
      var reservation := found.value.(totalPrice := newPrice);
      var _ := reservationRepository.Update(reservationId, reservation);
      return Ok(reservation);
    }

    /** GetReservationDetails: the stored reservation, or null; no exception when absent. */
    method GetReservationDetails(id: int) returns (result: Option<Reservation>)
      ensures result.Some? <==> id in reservationRepository.records
      ensures result.Some? ==> result.value == reservationRepository.records[id]
    {
      result := reservationRepository.GetAsyncById(id);
    }

    /** GetReservsationStatus: the stored reservation with its status unchanged, or null.
        It never writes: the guard of its Update call is always false. */
    method GetReservsationStatus(id: int) returns (result: Option<Reservation>)
      ensures result.Some? <==> id in reservationRepository.records
      ensures result.Some? ==> result.value == reservationRepository.records[id]
    {
      var reservation := reservationRepository.GetAsyncById(id);
      if reservation.Some? {
        reservation := Some(reservation.value.(status := DetermineReservationStatus(reservation.value)));
        StatusRecheckNeverDiffers(reservationRepository.records[id]);
      }
      return reservation;
    }
  }
}
