/**
 The client's two computations over server data: the count check it makes
 before posting a reservation, and the available and reserved totals it
 shows after reading the seat listing.
 */
module ReservationForm {
  import opened Seats

  const MaxSeatsPerRequest := 7
  const CountAlert := "Please enter a number between 1 and 7"

  /** What pressing "reserve" does: alert the user, or post the request. */
  datatype SubmitAction = ShowAlert(message: string) | PostReserve(request: ReserveRequest)

  /**
   `reserveSeats`: a count below 1 or above 7 only raises an alert; any
   other count is posted together with the chosen priority.
   */
  function SubmitReservation(numSeats: int, priority: string): (a: SubmitAction)
    ensures a.PostReserve? <==> 1 <= numSeats <= MaxSeatsPerRequest
    ensures a.PostReserve? ==> a.request == ReserveRequest(numSeats, priority)
    ensures a.ShowAlert? ==> a.message == CountAlert
  {
    if numSeats < 1 || numSeats > MaxSeatsPerRequest then ShowAlert(CountAlert)
    else PostReserve(ReserveRequest(numSeats, priority))
  }

  /** `seats.filter(seat => !seat.is_reserved).length` */
  function AvailableCount(rows: seq<SeatRow>): (count: nat)
    ensures count <= |rows|
    ensures count == 0 <==> forall i :: 0 <= i < |rows| ==> rows[i].isReserved
  {
    if rows == [] then 0
    else AvailableCount(rows[..|rows| - 1]) + (if rows[|rows| - 1].isReserved then 0 else 1)
  }

  /** `seats.filter(seat => seat.is_reserved).length` */
  function ReservedCount(rows: seq<SeatRow>): (count: nat)
    ensures count <= |rows|
    ensures count == 0 <==> forall i :: 0 <= i < |rows| ==> !rows[i].isReserved
  {
    if rows == [] then 0
    else ReservedCount(rows[..|rows| - 1]) + (if rows[|rows| - 1].isReserved then 1 else 0)
  }

  /** The available and reserved totals always add up to the total shown. */
  lemma {:induction false} CountsCoverAllSeats(rows: seq<SeatRow>)
    ensures AvailableCount(rows) + ReservedCount(rows) == |rows|
  {
    if rows != [] {
      CountsCoverAllSeats(rows[..|rows| - 1]);
    }
  }

  /** The available total the client shows for a listing is the number of free seats in the table. */
  lemma {:induction false} AvailableCountIsFreeCount(s: seq<bool>)
    ensures AvailableCount(Listing(s)) == FreeCount(s)
  {
    if s != [] {
      var s' := s[..|s| - 1];
      var rows := Listing(s);
      assert rows[..|rows| - 1] == Listing(s');
      AvailableCountIsFreeCount(s');
      assert FreeSeats(s) == FreeSeats(s') + (if s[|s| - 1] then [] else [|s|]);
    }
  }

  /**
   After a successful reservation of `k` seats, the next listing shows `k`
   fewer available seats and `k` more reserved ones.
   */
  lemma ListingAfterReserve(s: seq<bool>, k: int, fault: DbFault)
    requires ReserveResult(s, k, fault).Success?
    ensures var after := Listing(ReserveState(s, k, fault));
      && AvailableCount(after) == AvailableCount(Listing(s)) - k
      && ReservedCount(after) == ReservedCount(Listing(s)) + k
  {
    var t := ReserveState(s, k, fault);
    ReserveLowersFreeCount(s, k, fault);
    AvailableCountIsFreeCount(s);
    AvailableCountIsFreeCount(t);
    CountsCoverAllSeats(Listing(s));
    CountsCoverAllSeats(Listing(t));
  }

  /**
   A request the form posts asks for 1..7 seats, so the server never sees a
   count its `LIMIT` rejects, nor zero: it reserves that many seats when
   enough are free and the database does not fail, and otherwise answers
   "not enough seats" unless the database failed at the scan, or at the
   update with enough seats free. The priority has no effect.
   */
  lemma PostedRequestOutcome(numSeats: int, priority: string, otherPriority: string, s: seq<bool>, fault: DbFault)
    requires SubmitReservation(numSeats, priority).PostReserve?
    ensures var k := SubmitReservation(numSeats, priority).request.numSeats;
      var r := ReserveResult(s, k, fault);
      && SubmitReservation(numSeats, otherPriority).request.numSeats == k
      && (r.Success? ==> 1 <= |r.value| <= MaxSeatsPerRequest)
      && (r.Failure? ==> r.error == (if fault == FailsAtScan || (fault == FailsAtUpdate && k <= FreeCount(s))
                         then StorageError else NotEnoughSeats))
  {
    var k := numSeats;
    if ReserveResult(s, k, fault).Success? {
      ReserveReturnsLowestFree(s, k, fault);
    }
  }
}
