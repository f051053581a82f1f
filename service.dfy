/** The request handlers as they run against the database: one store object
    holds the three tables and the booking clock, and each handler updates
    them in place. Every handler is proved to take exactly the step the
    corresponding function of module Reservation or Seeding describes, and to
    keep the invariant. */
module Service {
  import opened Tables
  import opened Reservation
  import opened Seeding

  class BookingStore {
    var labs: seq<Lab>
    var computers: seq<Computer>
    var bookings: seq<Booking>
    var clock: nat

    /** The tables as one value. */
    function Snapshot(): State
      reads this
    {
      State(labs, computers, bookings, clock)
    }

    ghost predicate Valid()
      reads this
    {
      Inv(Snapshot())
    }

    /** A fresh, empty database. */
    constructor ()
      ensures Valid() && Snapshot() == EMPTY
    {
      labs, computers, bookings, clock := [], [], [], 0;
    }

    /** `book_computer`: on success the computer row is flagged and a booking
        row is added; a refusal writes nothing. */
    method Book(who: Option<int>, computerId: int) returns (r: Result<Booking>)
      requires Valid()
      modifies this
      ensures Valid()
      ensures Step(Snapshot(), r) == Reservation.Book(old(Snapshot()), who, computerId)
    {
      BookPreservesInv(Snapshot(), who, computerId);
      if who.None? {
        return Err(NotAuthenticated);
      }
      var studentId := who.value;
      if HasActiveBooking(bookings, studentId) {
        return Err(AlreadyBooked);
      }
      var found := Find(computers, ComputerKey, computerId);
      if found.None? || computers[found.value].isBooked {
        return Err(ComputerUnavailable);
      }
      var i := found.value;
      var b := Booking(|bookings| + 1, studentId, computers[i].id, clock, false);
      computers := computers[i := computers[i].(isBooked := true)];
      bookings := bookings + [b];
      clock := clock + 1;
      r := Ok(b);
    }

    /** `cancel_booking`: on success the booking row is marked cancelled and
        its computer, when that row resolves, is flagged free; a refusal
        writes nothing. */
    method Cancel(who: Option<int>, bookingId: int) returns (r: Result<()>)
      requires Valid()
      modifies this
      ensures Valid()
      ensures Step(Snapshot(), r) == Reservation.Cancel(old(Snapshot()), who, bookingId)
    {
      CancelPreservesInv(Snapshot(), who, bookingId);
      if who.None? {
        return Err(NotAuthenticated);
      }
      var found := Find(bookings, BookingKey, bookingId);
      if found.None? || bookings[found.value].studentId != who.value {
        return Err(NotAuthorized);
      }
      var j := found.value;
      if bookings[j].cancelled {
        return Err(AlreadyCancelled);
      }
      var computerId := bookings[j].computerId;
      bookings := bookings[j := bookings[j].(cancelled := true)];
      var held := Find(computers, ComputerKey, computerId);
      if held.Some? {
        computers := computers[held.value := computers[held.value].(isBooked := false)];
      }
      r := Ok(());
    }

    /** `populate_labs`: empty the lab table, then for each entry whose name is
        not among the labs present after that, add the lab and then its
        computers one at a time. The names must be distinct, as the unique
        constraint on the lab name demands. */
    method PopulateLabs(data: seq<LabSpec>)
      requires Valid()
      requires NamesDistinct(data)
      modifies this
      ensures Valid()
      ensures Snapshot() == Seed(old(Snapshot()), data)
    {
      SeedPreservesInv(Snapshot(), data);
      labs := [];
      var existing := Names(labs);
      var n := 0;
      while n < |data|
        invariant 0 <= n <= |data|
        invariant existing == []
        invariant Populate(data, existing, [], old(computers)) == Populate(data[n..], existing, labs, computers)
        invariant bookings == old(bookings) && clock == old(clock)
      {
        var entry := data[n];
        assert data[n..][0] == entry && data[n..][1..] == data[n + 1..];
        if entry.name !in existing {
          labs := labs + [Lab(|labs| + 1, entry.name)];
          var labId := |labs|;
          ghost var start, added := computers, labs;
          var k := 0;
          while k < entry.count
            invariant 0 <= k <= entry.count
            invariant computers == start + Block(labId, |start|, k)
            invariant labs == added && bookings == old(bookings) && clock == old(clock)
          {
            assert Block(labId, |start|, k + 1) == Block(labId, |start|, k) + [Computer(|start| + k + 1, labId, false)];
            computers := computers + [Computer(|computers| + 1, labId, false)];
            k := k + 1;
          }
        }
        n := n + 1;
      }
    }
  }
}
