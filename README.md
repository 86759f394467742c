# Train coach seat reservation, modelled in Dafny

The system is a small web application that books seats in one train coach.
The server keeps a `seats` table (a seat number and an `is_reserved` flag per
seat) and offers two operations: listing every seat, and reserving a number
of seats. A reservation is first-fit and all-or-nothing: inside one
transaction it takes the lowest-numbered free seats, and either reserves
exactly the requested number of them and commits, or changes nothing. The
browser client draws the coach (80 seats: eleven rows of seven and a last row
of three), checks that a requested count is between 1 and 7 before posting
it, and shows how many seats are available and reserved.

Modules:

- `Seats` (`seats.dfy`): the table as a `seq<bool>` (entry `i` is the flag of
  seat `i + 1`), the meaning of the listing and of a reservation as functions
  (`FreeSeats`, `FirstFree`, `WithReserved`, `ReserveResult`, `ReserveState`,
  `Listing`), and the lemmas that say what a reservation promises.
- `SeatServer` (`seat_server.dfy`): class `SeatTable` owning the flags as an
  `array<bool>`; its methods do the scan, the update and the rollback step by
  step and are proved equal to the functions of `Seats`.
- `CoachLayout` (`coach_layout.dfy`): the numbering and drawing coordinates of
  the 80 seats; the nested-loop construction is proved equal to a seat number
  to (row, column) function.
- `ReservationForm` (`reservation_form.dfy`): the client's count check and its
  available and reserved totals, tied to the server's state.

The server reads only `num_seats`; the `priority` the client posts is never
read, and seats are always chosen first-fit. The server does no range check on
the count: zero seats succeeds with an empty list, more than 7 seats is
accepted when enough are free, and a count that PostgreSQL refuses as a
`LIMIT` (negative, or beyond `bigint`) raises inside the transaction and is
answered with a server error. The only failures are "Not enough seats
available" (400) and a database error (500).

## Model

| member | source | states |
|---|---|---|
| Seats.ErrorMessage | main.py:63-78 | the error text is "Not enough seats available" for too few seats and the exception's own text for a database error |
| Seats.StatusCode | main.py:63-78 | not enough seats is answered with 400 and a database error with 500, and no other way round |
| Seats.FreeSeats | main.py:60 | the free seats listed in ascending order: every element is a free seat, every free seat is listed, strictly increasing |
| Seats.FirstFree | main.py:60 | the rows `LIMIT k` returns number min(k, free seats); `FirstFreeIsLowest` states that they are the lowest free seats in ascending order |
| Seats.WithReserved | main.py:69 | the table after the `UPDATE` keeps its length; `ReserveMarksExactly` and `FreeSeatsWithReserved` state which flags it sets |
| Seats.ReserveResult | main.py:55-78 | a reservation succeeds exactly when 0 <= k <= free seats, k fits a `bigint` and the database does not fail; it reports not enough seats exactly when the scan ran (no failure at `BEGIN`/`SELECT`, k a valid `LIMIT`) and fewer than k seats are free |
| Seats.ReserveState | main.py:47-82 | the table after the request keeps its length and is unchanged whenever the request fails; the success case is stated by `ReserveMarksExactly` and `ReserveLowersFreeCount` |
| Seats.Listing | main.py:41 | the listing has one row per seat, strictly ascending by seat number, each carrying that seat's own flag |
| Seats.FirstFreeIsLowest | main.py:60 | `LIMIT k` over the free seats yields min(k, free) seats, ascending, all free, and every free seat left out is higher than all of them |
| Seats.FreeSeatsOfPrefix | main.py:60 | scanning the table part way yields a prefix of the full free-seat list |
| Seats.FreeSeatsWithReserved | main.py:69 | reserving a set of seats removes exactly those seats from the free list and keeps the order of the rest |
| Seats.FreeSeatsAfterFirstFree | main.py:60-69 | after reserving the k lowest free seats the free list is the old one minus its first k entries |
| Seats.ReserveReturnsLowestFree | main.py:60-74 | on success the returned seats number exactly k, strictly ascending, were all free before, and are the k lowest-numbered free seats |
| Seats.ReserveMarksExactly | main.py:69-72 | on success each returned seat goes from free to reserved and every other seat keeps its flag |
| Seats.ReserveFailureChangesNothing | main.py:63-78 | any failure (not enough seats, a rejected LIMIT, a database failure at the scan, the update or the commit) leaves the table as it was, and happens only for one of those reasons |
| Seats.ReserveNeverReleases | main.py:69 | a reservation never clears a flag: reserved seats stay reserved |
| Seats.ReserveLowersFreeCount | main.py:60-69 | on success the free seats afterwards are the old ones after the first k, so the free count drops by exactly k |
| Seats.ReserveZeroSeats | main.py:50-74 | a request for zero seats succeeds with an empty list and changes nothing |
| Seats.ReservationsAreDisjoint | main.py:57-72 | two successive successful reservations never return a common seat |
| SeatServer.SeatTable.GetSeats | main.py:38-45 | returns the listing of the current table: every seat once, ascending by seat number, with its flag |
| SeatServer.SeatTable.LockFreeSeats | main.py:60-61 | the scan returns exactly the first `limit` free seats in ascending order (all of them when fewer are free) |
| SeatServer.SeatTable.MarkReserved | main.py:69 | the array afterwards sets each listed seat's flag and leaves every other entry as before |
| SeatServer.SeatTable.Rollback | main.py:76-78 | the array afterwards is exactly the state saved when the transaction began |
| SeatServer.SeatTable.Reserve | main.py:47-82 | the answer and the new table are those of `ReserveResult` and `ReserveState` on the table before the call, for each failure point of the database, whatever the request's priority |
| CoachLayout.RowOf | static/js/script.js:38-52 | seat n is in the row r with r*7 < n <= (r+1)*7, r >= 0 |
| CoachLayout.ColumnOf | static/js/script.js:38-52 | seat n is in column c, 0 <= c < 7, with row*7 + c + 1 == n |
| CoachLayout.XOf | static/js/script.js:40 | x = col*40+10, from which the column is read back exactly |
| CoachLayout.YOf | static/js/script.js:41 | y = row*50+20, from which the row is read back exactly |
| CoachLayout.PlacementOf | static/js/script.js:40-49 | seat n is drawn at a corner from which its number n is recovered; `PlacementsDoNotOverlap` and `PlacementsWithinCoach` state the rest |
| CoachLayout.CreateCoachLayout | static/js/script.js:36-53 | creates exactly 80 seats, the i-th numbered i + 1 and drawn at x = col*40+10, y = row*50+20 of row (n-1) div 7 and column (n-1) mod 7 |
| CoachLayout.SeatAtRoundTrip | static/js/script.js:38-45 | numbering row r, column c (c < 7) and reading the row and column back gives r and c |
| CoachLayout.SeatNumberRoundTrip | static/js/script.js:38-45 | every seat number is the number of its own row and column, with the column in 0..6 |
| CoachLayout.SeatPositions | static/js/script.js:38-52 | seats 1..80 lie in rows 0..11; seats 1..77 are exactly those in rows 0..10; the seats of row 11 are 78, 79, 80 at columns 0, 1, 2 |
| CoachLayout.PositionInjective | static/js/script.js:38-52 | distinct seat numbers have distinct (row, column) |
| CoachLayout.PlacementsDoNotOverlap | static/js/script.js:9-53 | distinct seats get distinct corners, and their 30 by 30 squares are at least a seat plus spacing apart on one axis |
| CoachLayout.PlacementsWithinCoach | static/js/script.js:36-53 | every seat's square lies within x in [10, 280] and y in [20, 600] |
| ReservationForm.SubmitReservation | static/js/script.js:76-90 | a count is posted, with the chosen priority, exactly when 1 <= count <= 7; otherwise the form only alerts "Please enter a number between 1 and 7" |
| ReservationForm.AvailableCount | static/js/script.js:60 | the available total is at most the number of rows and is 0 exactly when every seat is reserved |
| ReservationForm.ReservedCount | static/js/script.js:61 | the reserved total is at most the number of rows and is 0 exactly when every seat is free |
| ReservationForm.CountsCoverAllSeats | static/js/script.js:60-63 | available count plus reserved count equals the number of seats listed |
| ReservationForm.AvailableCountIsFreeCount | static/js/script.js:60 | the available total of a listing equals the number of free seats in the table |
| ReservationForm.ListingAfterReserve | static/js/script.js:93-97 | after a successful reservation of k seats the next listing shows k fewer available and k more reserved seats |
| ReservationForm.PostedRequestOutcome | static/js/script.js:79-89 | a posted request asks for 1..7 seats, so a success returns 1..7 seats and a failure is "not enough seats" unless the database failed at the scan, or at the update with enough seats free; the priority chosen changes nothing |

## Left out

- HTTP routing, JSON parsing and responses, and the database connection (main.py:1-17, 33-35, 84-85): plumbing around the operations. A request without `num_seats` or with a non-integer value is not modelled; the count is an integer.
- Table creation and seeding from `schema.sql`, and the reset endpoint the client calls on load: that code is not part of this model. The table is assumed to hold the dense seat numbers 1..N, as the client's layout draws them.
- Row locks (`FOR UPDATE`) and concurrent transactions: each `Reserve` call is one atomic step on the table. `Seats.ReservationsAreDisjoint` covers reservations that run one after the other, not interleaved ones.
- Where the database raises is a parameter of `Reserve`: at `BEGIN` or the `SELECT` (before the count test), or at the `UPDATE` or the commit (after it). Why it raises (connection loss, lock timeout) is not modelled, and the exception text is a parameter of `ErrorMessage`. A failure of the `rollback()` call itself on the not-enough-seats path is not modelled.
- Drawing: SVG elements, seat labels, CSS classes, alerts and `fetch` calls in the client are not modelled; the layout produces the list of (seat number, x, y) placements that `createSeat` would draw.
- `parseInt` and its NaN result: the requested count is an integer.
- `priority` is sent by the client but never read by the server, so it has no effect on which seats are chosen.
