/** Request sequences of two students on two computers, followed step by step
    through the reservation rules. */
module Scenarios {
  import opened Tables
  import opened Reservation
  import opened Seeding

  /** Student `a` books computer `c1`; then `a` is refused `c2`, `b` is
      refused `c1`, and `b` may not cancel `a`'s booking. */
  lemma BookThenRefuse(st: State, a: int, b: int, c1: int, c2: int)
    requires Inv(st)
    requires a != b
    requires !HasActiveBooking(st.bookings, a) && !HasActiveBooking(st.bookings, b)
    requires IsFree(st.computers, c1)
    ensures var s1 := Book(st, Some(a), c1);
      && s1.result.Ok? && Inv(s1.state)
      && s1.result.value.studentId == a && s1.result.value.computerId == c1
      && Book(s1.state, Some(a), c2) == Step(s1.state, Err(AlreadyBooked))
      && Book(s1.state, Some(b), c1) == Step(s1.state, Err(ComputerUnavailable))
      && Cancel(s1.state, Some(b), s1.result.value.id) == Step(s1.state, Err(NotAuthorized))
  {
    BookedComputerRefusesAll(st, Some(a), c1, Some(b), c2);
    var s1 := Book(st, Some(a), c1);
    var bs, bs' := st.bookings, s1.state.bookings;
    forall j | 0 <= j < |bs'| && bs'[j].studentId == b
      ensures bs'[j].cancelled
    {
      assert j < |bs| && bs'[j] == bs[j];
    }
    assert !Owns(bs', |bs| + 1, b);
  }

  /** Student `a` then cancels the booking: the computer is free again, a
      second cancellation is refused, and `a` may book `c2` at once. */
  lemma CancelThenRebook(st: State, a: int, c1: int, c2: int)
    requires Inv(st)
    requires !HasActiveBooking(st.bookings, a)
    requires IsFree(st.computers, c1) && IsFree(st.computers, c2) && c1 != c2
    ensures Book(st, Some(a), c1).result.Ok?
    ensures var s1 := Book(st, Some(a), c1);
      && Inv(s1.state)
      && var s2 := Cancel(s1.state, Some(a), s1.result.value.id);
      && s2.result.Ok? && Inv(s2.state)
      && IsFree(s2.state.computers, c1)
      && Cancel(s2.state, Some(a), s1.result.value.id) == Step(s2.state, Err(AlreadyCancelled))
      && Book(s2.state, Some(a), c2).result.Ok?
  {
    BookPreservesInv(st, Some(a), c1);
    var s1 := Book(st, Some(a), c1);
    var id := s1.result.value.id;
    assert s1.state.bookings[id - 1] == s1.result.value;
    assert OwnsActive(s1.state.bookings, id, a);
    CancelTwiceRefused(s1.state, Some(a), id);
    CancelFreesStudentAndComputer(s1.state, Some(a), id);
    var s2 := Cancel(s1.state, Some(a), id);
    assert c2 == st.computers[c2 - 1].id;
    assert s2.state.computers[c2 - 1] == st.computers[c2 - 1];
  }

  /** A computer id past the last row is refused and creates no row. */
  lemma BookMissingComputer(st: State, a: int)
    requires Inv(st)
    requires !HasActiveBooking(st.bookings, a)
    ensures Book(st, Some(a), |st.computers| + 1) == Step(st, Err(ComputerUnavailable))
  {
  }

  /** After the start-up seeding students 1 and 2 meet computers 1 and 2 of
      "Lab 120" in the situation the two scenarios above describe. */
  lemma DefaultSeedingScenario()
    ensures var st := Seed(EMPTY, DEFAULT_LABS);
      && Inv(st) && st.bookings == []
      && |st.labs| == 5 && st.labs[0] == Lab(1, "Lab 120")
      && |st.computers| == 65
      && st.computers[0] == Computer(1, 1, false) && st.computers[1] == Computer(2, 1, false)
      && IsFree(st.computers, 1) && IsFree(st.computers, 2)
  {
    DefaultSeedingValid();
    DefaultSeedingFirstLab();
    SeedFromEmpty(EMPTY, DEFAULT_LABS);
    var cs := Seed(EMPTY, DEFAULT_LABS).computers;
    assert cs[0] == cs[..20][0] && cs[1] == cs[..20][1];
  }
}
