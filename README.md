# Lab computer booking: a verified model

This project models the booking core of a small lab-reservation web
application (`app.py`). Students reserve one computer at a time in a
university lab and may cancel their reservation. The database has three
tables:

- `lab`: a key and a unique name;
- `computer`: a key, its lab and an `is_booked` flag;
- `booking`: a key, the student, the computer and a timestamp.

The model covers:

- the two state-changing request handlers, `book_computer` and `cancel_booking`;
- the two read-only queries behind the dashboard and the lab page;
- `populate_labs`, the start-up seeding of labs and computers.

The modules:

- `Tables` (tables.dfy) holds the rows, the primary-key lookup and the two filter queries.
- `Reservation` (reservation.dfy) is the booking state machine. `Book` and `Cancel` are pure steps from one `State` to the next, with a typed `Result`. It also holds the invariant `Inv` and the lemmas showing that every step keeps it.

  `Inv` says:
  - each computer's flag is set exactly when a non-cancelled booking references it;
  - no computer and no student has two active bookings;
  - keys are positions;
  - lab names are unique;
  - active bookings resolve to an existing computer;
  - timestamps increase.
- `Seeding` (seeding.dfy) describes `populate_labs` as a fold over the seeding list. Closed forms then say what the fold produces.
- `Service` (service.dfy) holds the class `BookingStore`. Its fields are the tables and its methods update them in place, as the handlers do. Each method is proved to take exactly the step that `Reservation` or `Seeding` specifies, and to keep the invariant.
- `Scenarios` (scenarios.dfy) follows two students through booking, refusal, cancellation and rebooking.
- `Findings` (findings.dfy) models the two handlers as the source writes them, next to the corrected versions. See "## Findings".

Modelling decisions:

- **The logged-in student** is an `Option<int>` parameter. It stands for the `id` key of the session.
- **Keys** follow the integer primary keys of the store: a new row gets one more than the largest key. Computers and bookings are never deleted. Labs are only ever deleted all at once, and their keys then start again at 1. So the model keeps a row's key equal to its position plus one, and proves that every operation keeps it so.
- **The cancelled flag.** The booking table has no cancelled column. The cancel handler assigns `booking.is_cancelled`, an attribute the schema never declares, so the flag is lost once the row is reloaded. The model gives every booking an explicit stored `cancelled` field.
- **Error outcomes follow the code:**
  - `book_computer` reports one message for a computer that does not exist and for one that is already booked, so both are `ComputerUnavailable`.
  - `cancel_booking` reports one message for a booking that does not exist and for someone else's booking, so both are `NotAuthorized`.
  - `cancel_booking` also refuses a caller who is not logged in (`NotAuthenticated`).
- **Two deliberate fixes** are used by `Reservation` and `Service` (see "## Findings"):
  - the "already booked" check looks at active bookings only;
  - cancelling a booking that is already cancelled is refused with `AlreadyCancelled`.
- **Seeding is modelled as written.** `populate_labs` deletes every lab row but no computer row. After the deletion the list of existing names is always empty, so every listed lab is created afresh. A second run therefore adds a second set of computers, and because lab keys restart at 1, lab 1 gains them. `Seeding.SeedingTwiceDoublesFirstLab` shows this: after two runs on an empty database, "Lab 120" offers 40 free computers.
- **A repeated lab name** in the seeding list would violate the unique constraint on the lab name. The seeding lemmas and `PopulateLabs` therefore require distinct names.

## Model

| member | source | states |
|---|---|---|
| Tables.Find | app.py:148 | primary-key lookup: the first row with that key, or None exactly when no row has it |
| Tables.AvailableComputersExact | app.py:170 | the availability query returns exactly the computers of that lab that are not booked, each as often as the table holds it |
| Tables.UserBookingsExact | app.py:130 | the bookings query returns exactly the student's bookings, active and cancelled, each as often as the table holds it |
| Tables.AvailableConcat | app.py:170 | the availability query over a split table is the concatenation of the queries over the parts |
| Reservation.Book | app.py:135-165 | NotAuthenticated iff no student is logged in; AlreadyBooked iff the student holds an active booking; success iff, in addition, the computer exists and is free; any refusal leaves the state unchanged; a success appends exactly one active booking of that student on that computer, flags exactly that computer and changes nothing else |
| Reservation.Cancel | app.py:221-241 | NotAuthenticated iff no student is logged in; NotAuthorized iff the booking does not exist or is someone else's; AlreadyCancelled iff it is the caller's but already cancelled; success iff it is the caller's and active; a refusal changes nothing; a success keeps the row, marks only it cancelled, frees only its computer and changes nothing else |
| Reservation.BookPreservesInv | app.py:141-159 | every Book keeps the invariant: flags match active bookings, one active booking per computer and per student |
| Reservation.BookKeepsOneActive | app.py:141-158 | after a successful Book no computer and no student has two active bookings |
| Reservation.BookKeepsFlags | app.py:149-158 | after a successful Book every computer's flag still says whether an active booking references it |
| Reservation.CancelPreservesInv | app.py:226-235 | every Cancel, with the already-cancelled guard, keeps the invariant |
| Reservation.CancelKeepsFlags | app.py:229-235 | after a successful Cancel the freed computer has no active booking left and every other flag is unchanged and still correct |
| Reservation.BookedComputerRefusesAll | app.py:148-162 | once a computer is booked, every further request for it is refused, and its student is refused every other computer |
| Reservation.CancelTwiceRefused | app.py:226-235 | a second cancellation of the same booking is refused with AlreadyCancelled and changes nothing, so the computer is freed once |
| Reservation.CancelFreesStudentAndComputer | app.py:228-235 | after a cancellation the student holds no active booking and the booking's computer is free |
| Reservation.Dashboard | app.py:122-132 | every lab row, and the bookings of the logged-in student (exactly those with that student id), or none when no one is logged in |
| Reservation.LabDetails | app.py:167-171 | None (the 404) exactly when no lab has that key; otherwise that lab and exactly the computers of it that are free |
| Seeding.Names | app.py:57-58 | the names of the lab rows, one per row, in order |
| Seeding.SeededLabs | app.py:69-73 | one lab row per entry, keyed consecutively, with the entry's name |
| Seeding.SeededComputers | app.py:74-77 | as many computer rows as the entries ask for in total |
| Seeding.SeededComputersShape | app.py:74-76 | each seeded computer has the next key, is not booked and belongs to one of the seeded labs |
| Seeding.PopulateAppends | app.py:69-77 | when no entry's name is already present, the loop appends exactly the closed-form lab and computer rows |
| Seeding.SeedTables | app.py:53-77 | seeding replaces the labs by one row per entry keyed from 1, appends the entries' computers after the existing ones, and leaves bookings untouched |
| Seeding.SeedNamesOnce | app.py:53-73 | with distinct names in the list (a repeated name violates the unique constraint on the lab name), each lab name appears exactly once, lab j being the j-th entry |
| Seeding.SeedPreservesInv | app.py:53-77 | seeding keeps the invariant: the new computers are free and no booking references them |
| Seeding.SeedFromEmpty | app.py:69-77 | on a database with no computers, the first lab's computers get keys 1, 2, ... and the total matches the list |
| Seeding.SeededFirstLabAvailable | app.py:69-77 | the first seeded lab is offered exactly its own block of computers |
| Seeding.SeededLabAvailable | app.py:69-77 | each seeded lab is offered exactly its own block of computers among the seeded ones |
| Seeding.SeedGivesEachLabItsComputers | app.py:69-77 | entry j becomes lab j+1 with its name and exactly its count of new, free computers |
| Seeding.DefaultNamesDistinct | app.py:60-66 | the start-up list names each lab once |
| Seeding.DefaultSeedingValid | app.py:53-80 | seeding an empty database at start-up gives five labs, no bookings and a state meeting the invariant |
| Seeding.DefaultSeedingFirstLab | app.py:60-77 | after start-up, lab 1 is "Lab 120" and offers 20 free computers |
| Seeding.SeedingTwiceDoublesFirstLab | app.py:55-77 | computer rows survive the deletion of the labs, so after two runs lab 1 offers 40 free computers |
| Scenarios.BookThenRefuse | app.py:135-165 | after student a books c1: a is refused any other computer, b is refused c1, and b may not cancel a's booking, each refusal changing nothing |
| Scenarios.CancelThenRebook | app.py:221-241 | a books c1 and cancels: c1 is free, a second cancel is refused, and a may book c2 at once |
| Scenarios.BookMissingComputer | app.py:148-162 | a computer key past the last row is refused as unavailable and no row is created |
| Scenarios.DefaultSeedingScenario | app.py:53-80 | after start-up the database meets the invariant, has 65 computers and no bookings, and computers 1 and 2 are free and belong to "Lab 120" |
| Findings.BookAsWritten | app.py:135-165 | as written, any booking of the student, cancelled or not, makes the handler refuse with AlreadyBooked and change nothing |
| Findings.BookAsWrittenRefusesAfterCancel | app.py:141-145 | a student whose only booking is cancelled holds no active booking, yet is refused as written; the corrected Book accepts |
| Findings.CancelAsWritten | app.py:221-241 | as written, the handler succeeds exactly when the booking exists and is the caller's, whether or not it was already cancelled |
| Findings.CancelAsWrittenFreesHeldComputer | app.py:226-235 | as written, cancelling a cancelled booking frees a computer another student holds and breaks the invariant; the corrected Cancel refuses with AlreadyCancelled |
| Service.BookingStore.constructor | app.py:12-13 | an empty database meets the invariant |
| Service.BookingStore.Book | app.py:135-165 | the in-place handler keeps the invariant and takes exactly the step Reservation.Book describes, returning its result |
| Service.BookingStore.Cancel | app.py:221-241 | the in-place handler keeps the invariant and takes exactly the step Reservation.Cancel describes, returning its result |
| Service.BookingStore.PopulateLabs | app.py:53-77 | the two nested loops keep the invariant and leave the tables as Seeding.Seed describes |

## Left out

- Web plumbing is not modelled: routing, templates, flashed messages, redirects and the session dictionary. Each outcome is a `Result` value, and the session's student is a parameter.
- Accounts and forms are outside the booking logic: registration, login, profile, logout, password hashing and form validation. These are library calls.
- The `student` table and its foreign key are not modelled. A student id is any integer, and the code never looks the student up when booking.
- The `search` handler is not modelled. It is a substring query with an integer-parse fallback, done by the store.
- Concurrency and transactions are not modelled. `book_computer` commits the flag and the booking row separately, and `cancel_booking` commits its two writes separately. Each handler is modelled as one atomic step, and interleavings of requests are not modelled.
- Timestamps are an increasing counter `clock` in place of the current UTC time.
- The bookings query has no ordering in the code, so the model returns bookings in table order. A descending order by booking time is not modelled, because the code does not sort.
- The browser script and the second, unused schema file (models.py) have no booking logic and are not part of this model.
- Reservation.Book: a nonexistent computer and a booked computer give the same outcome, `ComputerUnavailable`, because the handler reports one message for both.
- Reservation.Cancel: a nonexistent booking and another student's booking give the same outcome, `NotAuthorized`, because the handler reports one message for both.
- Service.BookingStore.PopulateLabs: the seeding list is a parameter. The start-up call uses `Seeding.DEFAULT_LABS`, the list written in the handler.
- Service.BookingStore.PopulateLabs requires distinct names. A repeated name makes the store reject the commit, and the model does not capture that failure.

## Findings

| source | as written | input that shows it | evidently intended | confidence | as-written member | corrected member |
|---|---|---|---|---|---|---|
| app.py:141-145 | the check refuses a student who has any booking row at all, cancelled ones included | student 7 whose only booking (booking 1, computer 1) is cancelled asks for free computer 2 | the message speaks of an active booking: refuse only when the student holds a non-cancelled booking | not executed | Findings.BookAsWrittenRefusesAfterCancel | Reservation.Book |
| app.py:226-235 | the handler checks only that the booking exists and is the caller's, then frees its computer | booking 1 of student 7 on computer 1 is cancelled, and student 8 holds computer 1 with booking 2; student 7 cancels booking 1 again | refuse a booking that is no longer active, so the computer held by booking 2 stays booked | not executed | Findings.CancelAsWrittenFreesHeldComputer | Reservation.CancelPreservesInv |
