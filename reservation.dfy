/** The booking state machine: the rules that decide whether a student may
    reserve a computer or cancel a reservation, and how each outcome changes
    the three tables. Every operation is one atomic step from a `State` to a
    `State`, with a typed outcome instead of a flashed message. */
module Reservation {
  import opened Tables

  /** The outcomes a handler reports as a warning or danger message. */
  datatype Error =
    | NotAuthenticated      // no student in the session
    | AlreadyBooked         // the student already holds an active booking
    | ComputerUnavailable   // the computer id does not resolve, or it is booked
    | NotAuthorized         // the booking does not resolve, or is someone else's
    | AlreadyCancelled      // the booking is no longer active (added guard)

  datatype Result<T> = Ok(value: T) | Err(error: Error)

  /** The database: the three tables and the clock that stamps new bookings. */
  datatype State = State(labs: seq<Lab>, computers: seq<Computer>, bookings: seq<Booking>, clock: nat)

  /** The state after a request, and what the request reported. */
  datatype Step<T> = Step(state: State, result: Result<T>)

  const EMPTY := State([], [], [], 0)

  // ---------------------------------------------------------------------------
  // The invariant
  // ---------------------------------------------------------------------------

  /** Integer primary keys are handed out as one more than the largest key in
      the table. Neither computers nor bookings are ever deleted and labs are
      only ever deleted all together, so a row's key is its position plus one. */
  ghost predicate KeysArePositions(st: State) {
    && (forall i :: 0 <= i < |st.labs| ==> st.labs[i].id == i + 1)
    && (forall i :: 0 <= i < |st.computers| ==> st.computers[i].id == i + 1)
    && (forall j :: 0 <= j < |st.bookings| ==> st.bookings[j].id == j + 1)
  }

  /** Lab names are unique in the table. */
  ghost predicate LabNamesUnique(labs: seq<Lab>) {
    forall i, k :: 0 <= i < |labs| && 0 <= k < |labs| && labs[i].name == labs[k].name ==> i == k
  }

  /** Student `studentId` holds a booking that is not cancelled. */
  predicate HasActiveBooking(bs: seq<Booking>, studentId: int) {
    exists j :: 0 <= j < |bs| && bs[j].studentId == studentId && !bs[j].cancelled
  }

  /** Some booking that is not cancelled references computer `computerId`. */
  ghost predicate Occupied(bs: seq<Booking>, computerId: int) {
    exists j :: 0 <= j < |bs| && bs[j].computerId == computerId && !bs[j].cancelled
  }

  /** A computer's flag says exactly whether an active booking references it. */
  ghost predicate FlagsMatchBookings(st: State) {
    forall i :: 0 <= i < |st.computers| ==> (st.computers[i].isBooked <==> Occupied(st.bookings, st.computers[i].id))
  }

  /** No two active bookings reference the same computer. */
  ghost predicate OneActivePerComputer(bs: seq<Booking>) {
    forall j, k ::
      (0 <= j < |bs| && 0 <= k < |bs| && !bs[j].cancelled && !bs[k].cancelled &&
       bs[j].computerId == bs[k].computerId) ==> j == k
  }

  /** No student holds two active bookings. */
  ghost predicate OneActivePerStudent(bs: seq<Booking>) {
    forall j, k ::
      (0 <= j < |bs| && 0 <= k < |bs| && !bs[j].cancelled && !bs[k].cancelled &&
       bs[j].studentId == bs[k].studentId) ==> j == k
  }

  /** Every active booking references a computer row that exists. */
  ghost predicate ActiveBookingsResolve(st: State) {
    forall j :: 0 <= j < |st.bookings| && !st.bookings[j].cancelled ==> 1 <= st.bookings[j].computerId <= |st.computers|
  }

  /** Bookings are stamped in insertion order, all before the clock. */
  ghost predicate StampsIncrease(st: State) {
    && (forall j :: 0 <= j < |st.bookings| ==> st.bookings[j].time < st.clock)
    && (forall j, k :: 0 <= j < k < |st.bookings| ==> st.bookings[j].time < st.bookings[k].time)
  }

  ghost predicate Inv(st: State) {
    && KeysArePositions(st)
    && LabNamesUnique(st.labs)
    && FlagsMatchBookings(st)
    && OneActivePerComputer(st.bookings)
    && OneActivePerStudent(st.bookings)
    && ActiveBookingsResolve(st)
    && StampsIncrease(st)
  }

  /** Computer `computerId` exists and is free. */
  ghost predicate IsFree(cs: seq<Computer>, computerId: int) {
    exists i :: 0 <= i < |cs| && cs[i].id == computerId && !cs[i].isBooked
  }

  /** Booking `bookingId` exists and belongs to `studentId`. */
  ghost predicate Owns(bs: seq<Booking>, bookingId: int, studentId: int) {
    exists j :: 0 <= j < |bs| && bs[j].id == bookingId && bs[j].studentId == studentId
  }

  /** Booking `bookingId` exists, belongs to `studentId` and is active. */
  ghost predicate OwnsActive(bs: seq<Booking>, bookingId: int, studentId: int) {
    exists j :: 0 <= j < |bs| && bs[j].id == bookingId && bs[j].studentId == studentId && !bs[j].cancelled
  }

  // ---------------------------------------------------------------------------
  // Book
  // ---------------------------------------------------------------------------

  /** The two writes of a successful booking: the computer at position `i` is
      flagged and a new, active booking row is appended. */
  function Reserve(st: State, studentId: int, i: nat): Step<Booking>
    requires i < |st.computers|
  {
    var b := Booking(|st.bookings| + 1, studentId, st.computers[i].id, st.clock, false);
    Step(st.(computers := st.computers[i := st.computers[i].(isBooked := true)],
             bookings := st.bookings + [b],
             clock := st.clock + 1),
         Ok(b))
  }

  /** `book_computer`: who is the logged-in student, if any. Refusals leave the
      state as it was. The student check looks at ACTIVE bookings only; the
      original looks at every booking (see module Findings). */
  function Book(st: State, who: Option<int>, computerId: int): (out: Step<Booking>)
    requires KeysArePositions(st)
    ensures out.result.Err? ==> out.state == st
    ensures out.result == Err(NotAuthenticated) <==> who.None?
    ensures out.result == Err(AlreadyBooked) <==> who.Some? && HasActiveBooking(st.bookings, who.value)
    ensures out.result.Ok? <==> who.Some? && !HasActiveBooking(st.bookings, who.value) && IsFree(st.computers, computerId)
    ensures out.result.Err? ==> out.result.error in {NotAuthenticated, AlreadyBooked, ComputerUnavailable}
    // a success appends exactly one active booking of that student on that computer
    ensures out.result.Ok? ==>
      && out.result.value == Booking(|st.bookings| + 1, who.value, computerId, st.clock, false)
      && out.state.bookings == st.bookings + [out.result.value]
    // it flags exactly that computer, and nothing else changes
    ensures out.result.Ok? ==>
      && |out.state.computers| == |st.computers|
      && (forall i :: 0 <= i < |st.computers| ==>
            out.state.computers[i] == if st.computers[i].id == computerId then st.computers[i].(isBooked := true) else st.computers[i])
      && out.state.labs == st.labs
      && out.state.clock == st.clock + 1
  {
    match who
    case None => Step(st, Err(NotAuthenticated))
    case Some(studentId) =>
      if HasActiveBooking(st.bookings, studentId) then Step(st, Err(AlreadyBooked))
      else match Find(st.computers, ComputerKey, computerId)
        case Some(i) =>
          if !st.computers[i].isBooked then Reserve(st, studentId, i)
          else Step(st, Err(ComputerUnavailable))
        case None => Step(st, Err(ComputerUnavailable))
  }

  // ---------------------------------------------------------------------------
  // Cancel
  // ---------------------------------------------------------------------------

  /** The writes of a successful cancellation: booking `j` is marked cancelled
      (the row stays) and the computer it references, if that row resolves, is
      flagged free. */
  function Release(st: State, j: nat): State
    requires j < |st.bookings|
  {
    var bs := st.bookings[j := st.bookings[j].(cancelled := true)];
    match Find(st.computers, ComputerKey, st.bookings[j].computerId)
    case None => st.(bookings := bs)
    case Some(i) => st.(bookings := bs, computers := st.computers[i := st.computers[i].(isBooked := false)])
  }

  /** `cancel_booking`, with one guard the original lacks: a booking that is
      already cancelled is refused with AlreadyCancelled, instead of freeing
      its computer a second time (see module Findings). */
  function Cancel(st: State, who: Option<int>, bookingId: int): (out: Step<()>)
    requires KeysArePositions(st)
    ensures out.result.Err? ==> out.state == st
    ensures out.result == Err(NotAuthenticated) <==> who.None?
    ensures out.result == Err(NotAuthorized) <==> who.Some? && !Owns(st.bookings, bookingId, who.value)
    ensures out.result == Err(AlreadyCancelled) <==>
      who.Some? && Owns(st.bookings, bookingId, who.value) && !OwnsActive(st.bookings, bookingId, who.value)
    ensures out.result.Ok? <==> who.Some? && OwnsActive(st.bookings, bookingId, who.value)
    // the booking row is kept and marked cancelled; its student and computer do not change
    ensures out.result.Ok? ==>
      && |out.state.bookings| == |st.bookings|
      && (forall j :: 0 <= j < |st.bookings| ==>
            out.state.bookings[j] == if j == bookingId - 1 then st.bookings[j].(cancelled := true) else st.bookings[j])
    // its computer is flagged free, and nothing else changes
    ensures out.result.Ok? ==>
      && 1 <= bookingId <= |st.bookings|
      && |out.state.computers| == |st.computers|
      && (forall i :: 0 <= i < |st.computers| ==>
            out.state.computers[i] ==
              if st.computers[i].id == st.bookings[bookingId - 1].computerId then st.computers[i].(isBooked := false) else st.computers[i])
      && out.state.labs == st.labs
      && out.state.clock == st.clock
  {
    match who
    case None => Step(st, Err(NotAuthenticated))
    case Some(studentId) =>
      match Find(st.bookings, BookingKey, bookingId)
      case Some(j) =>
        if st.bookings[j].studentId != studentId then Step(st, Err(NotAuthorized))
        else if st.bookings[j].cancelled then Step(st, Err(AlreadyCancelled))
        else Step(Release(st, j), Ok(()))
      case None => Step(st, Err(NotAuthorized))
  }

  // ---------------------------------------------------------------------------
  // What the two operations preserve and how they interact
  // ---------------------------------------------------------------------------

  /** A booking keeps the invariant: the new row is the only active booking of
      its student and of its computer, and the flag set is its computer's. */
  lemma BookPreservesInv(st: State, who: Option<int>, computerId: int)
    requires Inv(st)
    ensures Inv(Book(st, who, computerId).state)
  {
    var out := Book(st, who, computerId);
    if out.result.Ok? {
      BookKeepsFlags(st, who.value, computerId);
      BookKeepsOneActive(st, who.value, computerId);
      var bs, bs' := st.bookings, out.state.bookings;
      assert forall j :: 0 <= j < |bs| ==> bs'[j] == bs[j];
    }
  }

  /** After a successful booking no computer and no student has two active
      bookings: the student had none and the computer had none. */
  lemma BookKeepsOneActive(st: State, studentId: int, computerId: int)
    requires Inv(st)
    requires Book(st, Some(studentId), computerId).result.Ok?
    ensures OneActivePerComputer(Book(st, Some(studentId), computerId).state.bookings)
    ensures OneActivePerStudent(Book(st, Some(studentId), computerId).state.bookings)
  {
    var bs, bs' := st.bookings, Book(st, Some(studentId), computerId).state.bookings;
    assert computerId == st.computers[computerId - 1].id;
    assert !Occupied(bs, computerId);
    assert !HasActiveBooking(bs, studentId);
    assert forall j :: 0 <= j < |bs| ==> bs'[j] == bs[j];
  }

  /** After a successful booking every flag still matches the bookings. */
  lemma BookKeepsFlags(st: State, studentId: int, computerId: int)
    requires Inv(st)
    requires Book(st, Some(studentId), computerId).result.Ok?
    ensures FlagsMatchBookings(Book(st, Some(studentId), computerId).state)
  {
    var st' := Book(st, Some(studentId), computerId).state;
    var bs, bs' := st.bookings, st'.bookings;
    assert computerId == st.computers[computerId - 1].id;
    forall i | 0 <= i < |st'.computers|
      ensures st'.computers[i].isBooked <==> Occupied(bs', st'.computers[i].id)
    {
      if st'.computers[i].id == computerId {
        assert bs'[|bs|].computerId == computerId && !bs'[|bs|].cancelled;
      } else {
        var id := st.computers[i].id;
        assert st'.computers[i] == st.computers[i];
        assert bs'[|bs|].computerId != id;
        assert forall j :: 0 <= j < |bs| ==> bs'[j] == bs[j];
        assert Occupied(bs', id) ==> Occupied(bs, id);
      }
    }
  }

  /** A cancellation keeps the invariant: the only active booking on the freed
      computer was the one cancelled. */
  lemma CancelPreservesInv(st: State, who: Option<int>, bookingId: int)
    requires Inv(st)
    ensures Inv(Cancel(st, who, bookingId).state)
  {
    var out := Cancel(st, who, bookingId);
    if out.result.Ok? {
      CancelKeepsFlags(st, who.value, bookingId);
      var bs, bs' := st.bookings, out.state.bookings;
      assert forall j :: 0 <= j < |bs| && !bs'[j].cancelled ==> bs'[j] == bs[j];
    }
  }

  /** After a successful cancellation every flag still matches the bookings. */
  lemma CancelKeepsFlags(st: State, studentId: int, bookingId: int)
    requires Inv(st)
    requires Cancel(st, Some(studentId), bookingId).result.Ok?
    ensures FlagsMatchBookings(Cancel(st, Some(studentId), bookingId).state)
  {
    var st' := Cancel(st, Some(studentId), bookingId).state;
    var bs, bs' := st.bookings, st'.bookings;
    var j0 := bookingId - 1;
    var c := bs[j0].computerId;
    assert !bs[j0].cancelled;
    assert 1 <= c <= |st.computers| && st.computers[c - 1].id == c;
    forall i | 0 <= i < |st'.computers|
      ensures st'.computers[i].isBooked <==> Occupied(bs', st'.computers[i].id)
    {
      if st'.computers[i].id == c {
        forall j | 0 <= j < |bs'| && bs'[j].computerId == c
          ensures bs'[j].cancelled
        {
          if j != j0 { assert bs'[j] == bs[j]; }
        }
      } else {
        assert st'.computers[i] == st.computers[i];
        if Occupied(bs, st.computers[i].id) {
          var j :| 0 <= j < |bs| && bs[j].computerId == st.computers[i].id && !bs[j].cancelled;
          assert j != j0 && bs'[j] == bs[j];
        }
      }
    }
  }

  /** Once a computer is booked, every further request for it is refused, so of
      any series of requests for one computer exactly one succeeds until it is
      released; and the student who booked it is refused any other computer. */
  lemma BookedComputerRefusesAll(st: State, who: Option<int>, computerId: int, other: Option<int>, otherComputer: int)
    requires Inv(st)
    requires Book(st, who, computerId).result.Ok?
    ensures Inv(Book(st, who, computerId).state)
    ensures var st' := Book(st, who, computerId).state;
      && Book(st', other, computerId).result.Err?
      && Book(st', who, otherComputer).result == Err(AlreadyBooked)
  {
    BookPreservesInv(st, who, computerId);
    var st' := Book(st, who, computerId).state;
    assert st'.bookings[|st.bookings|].studentId == who.value;
    assert st'.computers[computerId - 1].isBooked;
  }

  /** Cancelling twice: the second call is refused with AlreadyCancelled and
      changes nothing, so the computer is freed exactly once. */
  lemma CancelTwiceRefused(st: State, who: Option<int>, bookingId: int)
    requires Inv(st)
    requires Cancel(st, who, bookingId).result.Ok?
    ensures Inv(Cancel(st, who, bookingId).state)
    ensures var st' := Cancel(st, who, bookingId).state;
      Cancel(st', who, bookingId) == Step(st', Err(AlreadyCancelled))
  {
    CancelPreservesInv(st, who, bookingId);
    var st' := Cancel(st, who, bookingId).state;
    assert st'.bookings[bookingId - 1].cancelled;
    assert Owns(st'.bookings, bookingId, who.value);
  }

  /** After a cancellation the student holds no active booking and the
      computer is free, so the student may book again at once. */
  lemma CancelFreesStudentAndComputer(st: State, who: Option<int>, bookingId: int)
    requires Inv(st)
    requires Cancel(st, who, bookingId).result.Ok?
    ensures 1 <= bookingId <= |st.bookings|
    ensures var st' := Cancel(st, who, bookingId).state;
      && !HasActiveBooking(st'.bookings, who.value)
      && IsFree(st'.computers, st.bookings[bookingId - 1].computerId)
  {
    var st' := Cancel(st, who, bookingId).state;
    var j0 := bookingId - 1;
    var c := st.bookings[j0].computerId;
    assert 1 <= c <= |st.computers| && st.computers[c - 1].id == c;
    assert !st'.computers[c - 1].isBooked;
    forall j | 0 <= j < |st'.bookings| && st'.bookings[j].studentId == who.value
      ensures st'.bookings[j].cancelled
    {
      if j != j0 { assert st'.bookings[j] == st.bookings[j]; }
    }
  }

  // ---------------------------------------------------------------------------
  // Read-only queries
  // ---------------------------------------------------------------------------

  /** `dashboard`: every lab, and the bookings of the logged-in student, if any. */
  function Dashboard(st: State, who: Option<int>): (r: (seq<Lab>, Option<seq<Booking>>))
    ensures r.0 == st.labs
    ensures r.1.Some? <==> who.Some?
    ensures r.1.Some? ==> forall b :: b in r.1.value <==> b in st.bookings && b.studentId == who.value
  {
    match who
    case None => (st.labs, None)
    case Some(studentId) =>
      UserBookingsExact(st.bookings, studentId);
      (st.labs, Some(UserBookings(st.bookings, studentId)))
  }

  /** `lab_details`: the lab with that key and its free computers, or None
      (a 404) when no lab has that key. */
  function LabDetails(st: State, labId: int): (r: Option<(Lab, seq<Computer>)>)
    ensures r.None? <==> forall i :: 0 <= i < |st.labs| ==> st.labs[i].id != labId
    ensures r.Some? ==> r.value.0 in st.labs && r.value.0.id == labId
    ensures r.Some? ==> forall c :: c in r.value.1 <==> c in st.computers && c.labId == labId && !c.isBooked
  {
    match Find(st.labs, LabKey, labId)
    case None => None
    case Some(k) =>
      AvailableComputersExact(st.computers, labId);
      Some((st.labs[k], AvailableComputers(st.computers, labId)))
  }
}
