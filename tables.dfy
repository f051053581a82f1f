/** The rows of the booking database (the `lab`, `computer` and `booking` tables),
    the primary-key lookup and the two filter queries the request handlers run. */
module Tables {

  datatype Option<T> = None | Some(value: T)

  /** A `lab` row. */
  datatype Lab = Lab(id: int, name: string)

  /** A `computer` row; `isBooked` is the occupancy flag the handlers keep in step
      with the bookings. */
  datatype Computer = Computer(id: int, labId: int, isBooked: bool)

  /** A `booking` row. `time` stands for the creation timestamp as an abstract,
      increasing counter. `cancelled` is NOT a column of the original table: the
      cancel handler assigns an attribute the schema never declares, so the flag
      is lost once the row is reloaded. Here it is an explicit, stored field. */
  datatype Booking = Booking(id: int, studentId: int, computerId: int, time: nat, cancelled: bool)

  function LabKey(l: Lab): int { l.id }
  function ComputerKey(c: Computer): int { c.id }
  function BookingKey(b: Booking): int { b.id }

  /** Primary-key lookup (`query.get`): the position of the first row whose key
      is `id`, or None when no row has it. */
  function Find<T>(rows: seq<T>, key: T -> int, id: int): (r: Option<nat>)
    ensures r.Some? ==> r.value < |rows| && key(rows[r.value]) == id
    ensures r.Some? ==> forall i :: 0 <= i < r.value ==> key(rows[i]) != id
    ensures r.None? <==> forall i :: 0 <= i < |rows| ==> key(rows[i]) != id
  {
    if |rows| == 0 then None
    else if key(rows[0]) == id then Some(0)
    else match Find(rows[1..], key, id)
      case None => None
      case Some(k) => Some(k + 1)
  }

  /** The free computers of one lab (`filter_by(lab_id=..., is_booked=False)`),
      in table order. */
  function AvailableComputers(cs: seq<Computer>, labId: int): seq<Computer> {
    if |cs| == 0 then []
    else (if cs[0].labId == labId && !cs[0].isBooked then [cs[0]] else []) + AvailableComputers(cs[1..], labId)
  }

  /** The availability query returns exactly the computers of that lab that are
      free, each as often as the table holds it, and no other. */
  lemma {:induction false} AvailableComputersExact(cs: seq<Computer>, labId: int)
    ensures |AvailableComputers(cs, labId)| <= |cs|
    ensures forall c :: c in AvailableComputers(cs, labId) <==> c in cs && c.labId == labId && !c.isBooked
    ensures forall c ::
      multiset(AvailableComputers(cs, labId))[c] == (if c.labId == labId && !c.isBooked then multiset(cs)[c] else 0)
  {
    if |cs| > 0 {
      assert cs == [cs[0]] + cs[1..];
      AvailableComputersExact(cs[1..], labId);
    }
  }

  /** Every booking of one student, cancelled ones included
      (`filter_by(student_id=...)`), in table order. */
  function UserBookings(bs: seq<Booking>, studentId: int): seq<Booking> {
    if |bs| == 0 then []
    else (if bs[0].studentId == studentId then [bs[0]] else []) + UserBookings(bs[1..], studentId)
  }

  /** The bookings query returns exactly that student's bookings, active and
      cancelled, each as often as the table holds it, and no other. */
  lemma {:induction false} UserBookingsExact(bs: seq<Booking>, studentId: int)
    ensures |UserBookings(bs, studentId)| <= |bs|
    ensures forall b :: b in UserBookings(bs, studentId) <==> b in bs && b.studentId == studentId
    ensures forall b ::
      multiset(UserBookings(bs, studentId))[b] == (if b.studentId == studentId then multiset(bs)[b] else 0)
  {
    if |bs| > 0 {
      assert bs == [bs[0]] + bs[1..];
      UserBookingsExact(bs[1..], studentId);
    }
  }

  /** The availability query distributes over a split of the table. */
  lemma {:induction false} AvailableConcat(a: seq<Computer>, b: seq<Computer>, labId: int)
    ensures AvailableComputers(a + b, labId) == AvailableComputers(a, labId) + AvailableComputers(b, labId)
  {
    if |a| > 0 {
      assert (a + b)[1..] == a[1..] + b;
      AvailableConcat(a[1..], b, labId);
    } else {
      assert a + b == b;
    }
  }
}
