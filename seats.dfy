/**
 The seats table and what the two server operations over it mean.

 A state of the table is a `seq<bool>`: entry `i` is the `is_reserved`
 column of the seat numbered `i + 1`, so the seat numbers form the dense
 range 1..|s|. The functions here are the specification that the
 imperative `SeatServer.SeatTable` is proved against; the lemmas state what
 a reservation promises about the seats it returns and the state it leaves.
 */
module Seats {

  /** Why `reserve_seats` fails. */
  datatype Error =
    | NotEnoughSeats  // fewer free seats than requested: answered with 400
    | StorageError    // the database raised inside the transaction: rolled back, answered with 500

  datatype Result<T> = Success(value: T) | Failure(error: Error)

  /**
   Where the database raises inside `reserve_seats`, if it does: at `BEGIN`
   or the locking `SELECT`, or at the `UPDATE` or the commit. Either way the
   handler rolls the transaction back.
   */
  datatype DbFault = NoFault | FailsAtScan | FailsAtUpdate

  /** The largest `LIMIT` the database accepts: a `bigint`. */
  const MaxLimit := 0x7FFF_FFFF_FFFF_FFFF

  const NotEnoughSeatsMessage := "Not enough seats available"

  /**
   The `error` text of a failure answer: the fixed message when too few seats
   are free, otherwise the text of the database's exception.
   */
  function ErrorMessage(e: Error, exceptionText: string): (m: string)
    ensures e == NotEnoughSeats ==> m == NotEnoughSeatsMessage
    ensures e == StorageError ==> m == exceptionText
  {
    match e
    case NotEnoughSeats => NotEnoughSeatsMessage
    case StorageError => exceptionText
  }

  /** The HTTP status the server answers a failure with. */
  function StatusCode(e: Error): (code: int)
    ensures code == 400 <==> e == NotEnoughSeats
    ensures code == 500 <==> e == StorageError
  {
    match e
    case NotEnoughSeats => 400
    case StorageError => 500
  }

  /** The JSON body of a reservation request. Only `numSeats` is ever read. */
  datatype ReserveRequest = ReserveRequest(numSeats: int, priority: string)

  /** One row of the listing: a seat number and its `is_reserved` flag. */
  datatype SeatRow = SeatRow(seatNumber: int, isReserved: bool)

  predicate StrictlyIncreasing(xs: seq<int>) {
    forall i, j :: 0 <= i < j < |xs| ==> xs[i] < xs[j]
  }

  /** Seat `n` exists in table state `s` and is not reserved. */
  predicate IsFree(s: seq<bool>, n: int) {
    1 <= n <= |s| && !s[n - 1]
  }

  /**
   The free seats in ascending seat-number order: what
   `WHERE is_reserved = FALSE ORDER BY seat_number` yields.
   */
  function FreeSeats(s: seq<bool>): (r: seq<int>)
    ensures forall j :: 0 <= j < |r| ==> IsFree(s, r[j])
    ensures forall n :: IsFree(s, n) ==> n in r
    ensures StrictlyIncreasing(r)
  {
    if s == [] then []
    else FreeSeats(s[..|s| - 1]) + (if s[|s| - 1] then [] else [|s|])
  }

  function FreeCount(s: seq<bool>): nat {
    |FreeSeats(s)|
  }

  /** The rows `... LIMIT k` returns: the first `k` free seats, or all of them if there are fewer. */
  function FirstFree(s: seq<bool>, k: nat): (r: seq<int>)
    ensures |r| == if k <= FreeCount(s) then k else FreeCount(s)
  {
    var free := FreeSeats(s);
    if k <= |free| then free[..k] else free
  }

  /** The table after `UPDATE seats SET is_reserved = TRUE WHERE seat_number = ANY(picked)`. */
  function WithReserved(s: seq<bool>, picked: seq<int>): (t: seq<bool>)
    ensures |t| == |s|
  {
    seq(|s|, i requires 0 <= i < |s| => s[i] || (i + 1) in picked)
  }

  /**
   What `reserve_seats` answers for a request of `k` seats on table state `s`.
   The database rejects a `LIMIT` that is negative or beyond `bigint`, and
   `fault` says where else, if anywhere, it raises.
   */
  function ReserveResult(s: seq<bool>, k: int, fault: DbFault): (r: Result<seq<int>>)
    ensures r.Success? <==> 0 <= k <= FreeCount(s) && k <= MaxLimit && fault == NoFault
    ensures r == Failure(NotEnoughSeats) <==> fault != FailsAtScan && 0 <= k <= MaxLimit && FreeCount(s) < k
  {
    if fault == FailsAtScan || k < 0 || k > MaxLimit then Failure(StorageError)
    else
      var picked := FirstFree(s, k);
      if |picked| < k then Failure(NotEnoughSeats)
      else if fault == NoFault then Success(picked)
      else Failure(StorageError)  // the UPDATE or the commit raised
  }

  /** The table once `reserve_seats` has committed or rolled back. */
  function ReserveState(s: seq<bool>, k: int, fault: DbFault): (t: seq<bool>)
    ensures |t| == |s|
    ensures ReserveResult(s, k, fault).Failure? ==> t == s
  {
    match ReserveResult(s, k, fault)
    case Success(picked) => WithReserved(s, picked)
    case Failure(_) => s
  }

  /** What `get_seats` lists: every seat, in ascending seat-number order. */
  function Listing(s: seq<bool>): (rows: seq<SeatRow>)
    ensures |rows| == |s|
    ensures forall i, j :: 0 <= i < j < |rows| ==> rows[i].seatNumber < rows[j].seatNumber
    ensures forall i :: 0 <= i < |rows| ==>
      1 <= rows[i].seatNumber <= |s| && rows[i].isReserved == s[rows[i].seatNumber - 1]
  {
    seq(|s|, i requires 0 <= i < |s| => SeatRow(i + 1, s[i]))
  }

  // ---------------------------------------------------------------------
  // The free-seat list

  /** The free seats of a prefix of the table are a prefix of its free seats. */
  lemma {:induction false} FreeSeatsOfPrefix(s: seq<bool>, i: nat)
    requires i <= |s|
    ensures var p := FreeSeats(s[..i]);
      |p| <= |FreeSeats(s)| && FreeSeats(s)[..|p|] == p
  {
    if i < |s| {
      var s' := s[..|s| - 1];
      assert s'[..i] == s[..i];
      FreeSeatsOfPrefix(s', i);
    } else {
      assert s[..i] == s;
    }
  }

  /**
   `FirstFree(s, k)` is the `k` lowest-numbered free seats: ascending, all
   free, and every free seat it leaves out is higher than each one it holds
   (and is left out only because `k` seats were already taken).
   */
  lemma FirstFreeIsLowest(s: seq<bool>, k: nat)
    ensures var r := FirstFree(s, k);
      && |r| == (if k <= FreeCount(s) then k else FreeCount(s))
      && StrictlyIncreasing(r)
      && (forall j :: 0 <= j < |r| ==> IsFree(s, r[j]))
      && (forall n :: IsFree(s, n) && n !in r ==> |r| == k && forall j :: 0 <= j < |r| ==> r[j] < n)
  {
    var free := FreeSeats(s);
    var r := FirstFree(s, k);
    forall n | IsFree(s, n) && n !in r
      ensures |r| == k && forall j :: 0 <= j < |r| ==> r[j] < n
    {
      var m :| 0 <= m < |free| && free[m] == n;
      assert k <= |free| && k <= m;
      forall j | 0 <= j < |r| ensures r[j] < n {
        assert r[j] == free[j];
      }
    }
  }

  // ---------------------------------------------------------------------
  // Counting what is left free after an update

  /** `xs` without the members of `p`, order kept. */
  function Without(xs: seq<int>, p: seq<int>): (r: seq<int>)
    ensures |r| <= |xs|
  {
    if xs == [] then []
    else Without(xs[..|xs| - 1], p) + (if xs[|xs| - 1] in p then [] else [xs[|xs| - 1]])
  }

  /** Removal distributes over appending one element. */
  lemma WithoutAppend(xs: seq<int>, x: int, p: seq<int>)
    ensures Without(xs + [x], p) == Without(xs, p) + (if x in p then [] else [x])
  {
    assert (xs + [x])[..|xs|] == xs;
  }

  /** Reserving seats leaves the earlier part of the table as reserving them in that part alone would. */
  lemma WithReservedPrefix(s: seq<bool>, picked: seq<int>)
    requires s != []
    ensures var t := WithReserved(s, picked);
      && t[..|t| - 1] == WithReserved(s[..|s| - 1], picked)
      && t[|t| - 1] == (s[|s| - 1] || |s| in picked)
  {
  }

  /** Reserving `picked` removes exactly the picked seats from the free list. */
  lemma {:induction false} FreeSeatsWithReserved(s: seq<bool>, picked: seq<int>)
    ensures FreeSeats(WithReserved(s, picked)) == Without(FreeSeats(s), picked)
  {
    if s != [] {
      var s' := s[..|s| - 1];
      WithReservedPrefix(s, picked);
      FreeSeatsWithReserved(s', picked);
      var t := WithReserved(s, picked);
      assert FreeSeats(t) == FreeSeats(t[..|t| - 1]) + (if t[|t| - 1] then [] else [|t|]);
      if !s[|s| - 1] {
        WithoutAppend(FreeSeats(s'), |s|, picked);
      } else {
        assert FreeSeats(s) == FreeSeats(s') + [];
        assert FreeSeats(s') + [] == FreeSeats(s');
      }
    }
  }

  /** Removing a sequence's first `k` elements, when none of the rest are among them, leaves its suffix. */
  lemma {:induction false} WithoutLeadingPart(xs: seq<int>, p: seq<int>, k: nat)
    requires k <= |xs|
    requires forall j :: 0 <= j < k ==> xs[j] in p
    requires forall j :: k <= j < |xs| ==> xs[j] !in p
    ensures Without(xs, p) == xs[k..]
  {
    if xs != [] {
      var xs' := xs[..|xs| - 1];
      if k == |xs| {
        WithoutLeadingPart(xs', p, k - 1);
        assert xs'[k - 1..] == [];
      } else {
        WithoutLeadingPart(xs', p, k);
        var last := xs[|xs| - 1];
        assert xs == xs' + [last];
        assert xs[k..] == xs'[k..] + [last];
      }
    }
  }

  /** After reserving the `k` lowest free seats, the free seats are the rest, in order. */
  lemma FreeSeatsAfterFirstFree(s: seq<bool>, k: nat)
    requires k <= FreeCount(s)
    ensures FreeSeats(WithReserved(s, FirstFree(s, k))) == FreeSeats(s)[k..]
  {
    var free := FreeSeats(s);
    var picked := FirstFree(s, k);
    FreeSeatsWithReserved(s, picked);
    WithoutLeadingPart(free, picked, k);
  }

  // ---------------------------------------------------------------------
  // What reserve_seats promises

  /**
   A successful reservation of `k` seats returns exactly `k` seats: the
   lowest-numbered free ones, in ascending order, each free beforehand.
   */
  lemma ReserveReturnsLowestFree(s: seq<bool>, k: int, fault: DbFault)
    requires ReserveResult(s, k, fault).Success?
    ensures var picked := ReserveResult(s, k, fault).value;
      && |picked| == k
      && StrictlyIncreasing(picked)
      && (forall j :: 0 <= j < |picked| ==> IsFree(s, picked[j]))
      && (forall n, j :: IsFree(s, n) && n !in picked && 0 <= j < |picked| ==> picked[j] < n)
  {
    FirstFreeIsLowest(s, k);
  }

  /**
   A successful reservation flips exactly the returned seats from free to
   reserved; every other seat keeps its state.
   */
  lemma ReserveMarksExactly(s: seq<bool>, k: int, fault: DbFault)
    requires ReserveResult(s, k, fault).Success?
    ensures var picked := ReserveResult(s, k, fault).value;
      var t := ReserveState(s, k, fault);
      && |t| == |s|
      && (forall n :: 1 <= n <= |s| && n in picked ==> !s[n - 1] && t[n - 1])
      && (forall n :: 1 <= n <= |s| && n !in picked ==> t[n - 1] == s[n - 1])
  {
    FirstFreeIsLowest(s, k);
  }

  /** A failed reservation, for whatever reason, leaves every seat as it was. */
  lemma ReserveFailureChangesNothing(s: seq<bool>, k: int, fault: DbFault)
    requires ReserveResult(s, k, fault).Failure?
    ensures ReserveState(s, k, fault) == s
    ensures fault != NoFault || k < 0 || k > MaxLimit || FreeCount(s) < k
  {
  }

  /** A reservation never frees a seat: `is_reserved` only goes from false to true. */
  lemma ReserveNeverReleases(s: seq<bool>, k: int, fault: DbFault)
    ensures var t := ReserveState(s, k, fault);
      |t| == |s| && forall i :: 0 <= i < |s| && s[i] ==> t[i]
  {
  }

  /**
   A successful reservation of `k` seats leaves the free seats that were not
   taken, so the free count drops by exactly `k`.
   */
  lemma ReserveLowersFreeCount(s: seq<bool>, k: int, fault: DbFault)
    requires ReserveResult(s, k, fault).Success?
    ensures FreeSeats(ReserveState(s, k, fault)) == FreeSeats(s)[k..]
    ensures FreeCount(ReserveState(s, k, fault)) == FreeCount(s) - k
  {
    FreeSeatsAfterFirstFree(s, k);
  }

  /** With no range check on the server, a request for zero seats succeeds with none and changes nothing. */
  lemma ReserveZeroSeats(s: seq<bool>)
    ensures ReserveResult(s, 0, NoFault) == Success([])
    ensures ReserveState(s, 0, NoFault) == s
  {
    assert WithReserved(s, []) == s;
  }

  /**
   Two reservations in a row never hand out the same seat: the seats the
   first one committed are reserved when the second one reads the table.
   */
  lemma ReservationsAreDisjoint(s: seq<bool>, k1: int, k2: int)
    requires ReserveResult(s, k1, NoFault).Success?
    requires ReserveResult(ReserveState(s, k1, NoFault), k2, NoFault).Success?
    ensures var first := ReserveResult(s, k1, NoFault).value;
      var second := ReserveResult(ReserveState(s, k1, NoFault), k2, NoFault).value;
      forall j, m :: 0 <= j < |first| && 0 <= m < |second| ==> first[j] != second[m]
  {
    var t := ReserveState(s, k1, NoFault);
    ReserveMarksExactly(s, k1, NoFault);
    ReserveReturnsLowestFree(t, k2, NoFault);
    ReserveReturnsLowestFree(s, k1, NoFault);
  }
}
