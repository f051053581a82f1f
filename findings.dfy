/** Two handlers modelled exactly as the original writes them, next to the
    corrected versions in module Reservation, with a state that shows where
    they part.

    Both defects rest on a third: the original table has no cancelled column,
    so the cancel handler's `is_cancelled` assignment is never stored and no
    code ever reads it. The model gives every booking an explicit
    `cancelled` field. */
module Findings {
  import opened Tables
  import opened Reservation

  /** As written, the "already booked" check matches ANY booking of the
      student, cancelled or not, although its message speaks of an active
      booking. */
  predicate HasAnyBooking(bs: seq<Booking>, studentId: int) {
    exists j :: 0 <= j < |bs| && bs[j].studentId == studentId
  }

  /** `book_computer` as written. Its login and computer checks are those of
      Reservation.Book; only the student check differs, and an active booking
      is in particular a booking. A student who has ever booked is refused
      for good. */
  function BookAsWritten(st: State, who: Option<int>, computerId: int): (out: Step<Booking>)
    requires KeysArePositions(st)
    ensures out.result.Ok? ==> who.Some? && !HasAnyBooking(st.bookings, who.value)
    ensures who.Some? && HasAnyBooking(st.bookings, who.value) ==> out == Step(st, Err(AlreadyBooked))
  {
    if who.Some? && HasAnyBooking(st.bookings, who.value) then Step(st, Err(AlreadyBooked))
    else Book(st, who, computerId)
  }

  /** Student 7 booked computer 1 and cancelled; both computers are free. */
  const RETURNING := State([Lab(1, "Lab 120")], [Computer(1, 1, false), Computer(2, 1, false)],
                           [Booking(1, 7, 1, 0, true)], 1)

  /** A student whose only booking was cancelled holds no active booking and
      asks for a free computer: the corrected check lets the booking through,
      the original refuses it with "You already have an active booking". */
  lemma BookAsWrittenRefusesAfterCancel()
    ensures Inv(RETURNING)
    ensures !HasActiveBooking(RETURNING.bookings, 7)
    ensures BookAsWritten(RETURNING, Some(7), 2).result == Err(AlreadyBooked)
    ensures Book(RETURNING, Some(7), 2).result.Ok?
  {
    assert RETURNING.bookings[0].studentId == 7;
    assert RETURNING.computers[1].id == 2 && !RETURNING.computers[1].isBooked;
  }

  /** `cancel_booking` as written: it checks only that the booking exists and
      belongs to the caller, so an already-cancelled booking is cancelled again
      and its computer is freed again. */
  function CancelAsWritten(st: State, who: Option<int>, bookingId: int): (out: Step<()>)
    requires KeysArePositions(st)
    ensures out.result.Err? ==> out.state == st
    ensures out.result.Ok? <==> who.Some? && Owns(st.bookings, bookingId, who.value)
  {
    match who
    case None => Step(st, Err(NotAuthenticated))
    case Some(studentId) =>
      match Find(st.bookings, BookingKey, bookingId)
      case Some(j) =>
        if st.bookings[j].studentId == studentId then Step(Release(st, j), Ok(()))
        else Step(st, Err(NotAuthorized))
      case None => Step(st, Err(NotAuthorized))
  }

  /** Student 7 cancelled booking 1 on computer 1, and student 8 now holds
      computer 1 with booking 2. */
  const REBOOKED := State([Lab(1, "Lab 120")], [Computer(1, 1, true)],
                          [Booking(1, 7, 1, 0, true), Booking(2, 8, 1, 1, false)], 2)

  lemma RebookedMeetsInv()
    ensures Inv(REBOOKED)
  {
    assert FlagsMatchBookings(REBOOKED) by { assert REBOOKED.bookings[1].computerId == 1; }
    assert KeysArePositions(REBOOKED) by { }
    assert LabNamesUnique(REBOOKED.labs) by { }
    assert OneActivePerComputer(REBOOKED.bookings) by { }
    assert OneActivePerStudent(REBOOKED.bookings) by { }
    assert ActiveBookingsResolve(REBOOKED) by { }
    assert StampsIncrease(REBOOKED) by { }
  }

  /** Cancelling booking 1 again is accepted as written and frees computer 1
      while booking 2 is still active, breaking the invariant; the corrected
      handler refuses it with AlreadyCancelled and changes nothing. */
  lemma CancelAsWrittenFreesHeldComputer()
    ensures Inv(REBOOKED)
    ensures CancelAsWritten(REBOOKED, Some(7), 1).result.Ok?
    ensures !CancelAsWritten(REBOOKED, Some(7), 1).state.computers[0].isBooked
    ensures Occupied(CancelAsWritten(REBOOKED, Some(7), 1).state.bookings, 1)
    ensures !Inv(CancelAsWritten(REBOOKED, Some(7), 1).state)
    ensures Cancel(REBOOKED, Some(7), 1) == Step(REBOOKED, Err(AlreadyCancelled))
  {
    RebookedMeetsInv();
    assert REBOOKED.bookings[0].id == 1 && REBOOKED.bookings[0].studentId == 7;
    var st' := CancelAsWritten(REBOOKED, Some(7), 1).state;
    assert st'.bookings[1] == REBOOKED.bookings[1];
    assert st'.computers[0].id == 1;
  }
}
