/**
 The server side of the seats table: `get_seats` and `reserve_seats`
 working on one shared table, modelled as a class that owns the
 `is_reserved` column as an array indexed by seat number minus one.

 A transaction is one call of `Reserve`: what the database would lock and
 roll back is the array itself, and rollback restores the state it had
 when the transaction began.
 */
module SeatServer {
  import opened Seats

  class SeatTable {
    /** `isReserved[i]` is the `is_reserved` column of seat `i + 1`. */
    var isReserved: array<bool>

    constructor (initial: seq<bool>)
      ensures fresh(isReserved)
      ensures isReserved[..] == initial
    {
      isReserved := new bool[|initial|](i requires 0 <= i < |initial| => initial[i]);
    }

    /** `SELECT * FROM seats ORDER BY seat_number`: every seat, ascending by seat number. */
    method GetSeats() returns (rows: seq<SeatRow>)
      ensures rows == Listing(isReserved[..])
      ensures |rows| == isReserved.Length
      ensures forall i, j :: 0 <= i < j < |rows| ==> rows[i].seatNumber < rows[j].seatNumber
      ensures forall i :: 0 <= i < |rows| ==>
        1 <= rows[i].seatNumber <= isReserved.Length && rows[i].isReserved == isReserved[rows[i].seatNumber - 1]
    {
      rows := [];
      for i := 0 to isReserved.Length
        invariant rows == Listing(isReserved[..i])
      {
        assert Listing(isReserved[..i + 1]) == rows + [SeatRow(i + 1, isReserved[i])];
        rows := rows + [SeatRow(i + 1, isReserved[i])];
      }
      assert isReserved[..isReserved.Length] == isReserved[..];
    }

    /**
     `SELECT seat_number FROM seats WHERE is_reserved = FALSE ORDER BY
     seat_number LIMIT limit`: the first `limit` free seats, scanning upwards.
     */
    method LockFreeSeats(limit: nat) returns (picked: seq<int>)
      ensures picked == FirstFree(isReserved[..], limit)
    {
      picked := [];
      var i := 0;
      while i < isReserved.Length && |picked| < limit
        invariant 0 <= i <= isReserved.Length
        invariant picked == FreeSeats(isReserved[..i])
        invariant |picked| <= limit
      {
        assert isReserved[..i + 1][..i] == isReserved[..i];
        if !isReserved[i] {
          picked := picked + [i + 1];
        }
        i := i + 1;
      }
      FreeSeatsOfPrefix(isReserved[..], i);
      if i == isReserved.Length {
        assert isReserved[..i] == isReserved[..];
      }
    }

    /** `UPDATE seats SET is_reserved = TRUE WHERE seat_number = ANY(picked)`. */
    method MarkReserved(picked: seq<int>)
      modifies isReserved
      ensures isReserved[..] == WithReserved(old(isReserved[..]), picked)
    {
      for i := 0 to isReserved.Length
        invariant forall j :: 0 <= j < i ==> isReserved[j] == (old(isReserved[j]) || (j + 1) in picked)
        invariant forall j :: i <= j < isReserved.Length ==> isReserved[j] == old(isReserved[j])
      {
        if (i + 1) in picked {
          isReserved[i] := true;
        }
      }
    }

    /** Rollback: the table returns to the state the transaction began with. */
    method Rollback(saved: seq<bool>)
      requires |saved| == isReserved.Length
      modifies isReserved
      ensures isReserved[..] == saved
    {
      for i := 0 to isReserved.Length
        invariant forall j :: 0 <= j < i ==> isReserved[j] == saved[j]
      {
        isReserved[i] := saved[i];
      }
    }

    /**
     `reserve_seats`: reads the lowest-numbered free seats, fails without
     writing when fewer than requested come back, otherwise reserves exactly
     those and commits. A database error (a `LIMIT` outside `bigint`, or the
     `fault` given) rolls the transaction back. The request's priority is
     never read.
     */
    method Reserve(request: ReserveRequest, fault: DbFault) returns (r: Result<seq<int>>)
      modifies isReserved
      ensures r == ReserveResult(old(isReserved[..]), request.numSeats, fault)
      ensures isReserved[..] == ReserveState(old(isReserved[..]), request.numSeats, fault)
    {
      var numSeats := request.numSeats;
      if fault == FailsAtScan || numSeats < 0 || numSeats > MaxLimit {
        // BEGIN or the SELECT raised (a LIMIT outside bigint does); nothing was written
        return Failure(StorageError);
      }
      var before := isReserved[..];
      var available := LockFreeSeats(numSeats);
      if |available| < numSeats {
        return Failure(NotEnoughSeats);
      }
      MarkReserved(available);
      if fault == FailsAtUpdate {
        Rollback(before);
        return Failure(StorageError);
      }
      return Success(available);
    }
  }
}
