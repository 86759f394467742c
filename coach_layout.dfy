/**
 The coach the client draws: 80 seats, eleven full rows of seven and a last
 row of three, numbered row by row from 1. Each seat is a 30 by 30 square
 whose top-left corner depends only on its row and column.
 */
module CoachLayout {

  const SeatWidth := 30
  const SeatHeight := 30
  const SeatSpacing := 10
  const RowSpacing := 20

  const RowWidth := 7
  const FullRows := 11
  const LastRowSeats := 3
  const SeatCount := FullRows * RowWidth + LastRowSeats

  /** One `createSeat` call: a seat number and the top-left corner of its square. */
  datatype Placement = Placement(seatNumber: int, x: int, y: int)

  /** The row seat `n` is drawn in: the one whose seven numbers include `n`. */
  function RowOf(n: int): (row: int)
    requires n >= 1
    ensures 0 <= row
    ensures row * RowWidth < n <= (row + 1) * RowWidth
  {
    (n - 1) / RowWidth
  }

  /** The column seat `n` is drawn in, counted from 0 within its row. */
  function ColumnOf(n: int): (col: int)
    requires n >= 1
    ensures 0 <= col < RowWidth
    ensures RowOf(n) * RowWidth + col + 1 == n
  {
    (n - 1) % RowWidth
  }

  /** The seat number at a row and column: the inverse of `RowOf` and `ColumnOf`. */
  function SeatAt(row: int, col: int): int {
    row * RowWidth + col + 1
  }

  /** The left edge of a seat in column `col`; the column can be read back from it. */
  function XOf(col: int): (x: int)
    ensures (x - SeatSpacing) / (SeatWidth + SeatSpacing) == col
    ensures (x - SeatSpacing) % (SeatWidth + SeatSpacing) == 0
  {
    col * (SeatWidth + SeatSpacing) + SeatSpacing
  }

  /** The top edge of a seat in row `row`; the row can be read back from it. */
  function YOf(row: int): (y: int)
    ensures (y - RowSpacing) / (SeatHeight + RowSpacing) == row
    ensures (y - RowSpacing) % (SeatHeight + RowSpacing) == 0
  {
    row * (SeatHeight + RowSpacing) + RowSpacing
  }

  /** Where seat `n` is drawn; the seat number can be recovered from the corner alone. */
  function PlacementOf(n: int): (p: Placement)
    requires n >= 1
    ensures p.seatNumber == n
    ensures SeatAt((p.y - RowSpacing) / (SeatHeight + RowSpacing), (p.x - SeatSpacing) / (SeatWidth + SeatSpacing)) == n
  {
    Placement(n, XOf(ColumnOf(n)), YOf(RowOf(n)))
  }

  /** Numbering a row and column, then reading the row and column back, gives them unchanged. */
  lemma SeatAtRoundTrip(row: nat, col: nat)
    requires col < RowWidth
    ensures RowOf(SeatAt(row, col)) == row
    ensures ColumnOf(SeatAt(row, col)) == col
  {
    var n := SeatAt(row, col);
    assert n - 1 == row * RowWidth + col;
  }

  /** Every seat number is the number of its own row and column. */
  lemma SeatNumberRoundTrip(n: int)
    requires n >= 1
    ensures RowOf(n) >= 0 && 0 <= ColumnOf(n) < RowWidth
    ensures SeatAt(RowOf(n), ColumnOf(n)) == n
  {
  }

  /**
   `createCoachLayout`: two nested loops for the full rows and one loop for
   the last row, a running seat number, and one placement per seat.
   */
  method CreateCoachLayout() returns (placed: seq<Placement>)
    ensures |placed| == SeatCount == 80
    ensures forall i :: 0 <= i < |placed| ==> placed[i] == PlacementOf(i + 1)
  {
    placed := [];
    var seatNumber := 1;
    for row := 0 to FullRows
      invariant seatNumber == row * RowWidth + 1
      invariant |placed| == seatNumber - 1
      invariant forall i :: 0 <= i < |placed| ==> placed[i] == PlacementOf(i + 1)
    {
      for col := 0 to RowWidth
        invariant seatNumber == row * RowWidth + col + 1
        invariant |placed| == seatNumber - 1
        invariant forall i :: 0 <= i < |placed| ==> placed[i] == PlacementOf(i + 1)
      {
        var x := col * (SeatWidth + SeatSpacing) + SeatSpacing;
        var y := row * (SeatHeight + RowSpacing) + RowSpacing;
        SeatAtRoundTrip(row, col);
        placed := placed + [Placement(seatNumber, x, y)];
        seatNumber := seatNumber + 1;
      }
    }
    // the last row holds three seats
    for col := 0 to LastRowSeats
      invariant seatNumber == FullRows * RowWidth + col + 1
      invariant |placed| == seatNumber - 1
      invariant forall i :: 0 <= i < |placed| ==> placed[i] == PlacementOf(i + 1)
    {
      var x := col * (SeatWidth + SeatSpacing) + SeatSpacing;
      var y := FullRows * (SeatHeight + RowSpacing) + RowSpacing;
      SeatAtRoundTrip(FullRows, col);
      placed := placed + [Placement(seatNumber, x, y)];
      seatNumber := seatNumber + 1;
    }
  }

  /**
   Seats 1..77 fill rows 0..10 seven at a time; seats 78, 79 and 80 are the
   only ones in row 11, at columns 0, 1 and 2.
   */
  lemma SeatPositions(n: int)
    requires 1 <= n <= SeatCount
    ensures 0 <= RowOf(n) <= FullRows && 0 <= ColumnOf(n) < RowWidth
    ensures n <= FullRows * RowWidth <==> RowOf(n) < FullRows
    ensures RowOf(n) == FullRows ==> ColumnOf(n) == n - 78 && ColumnOf(n) < LastRowSeats
  {
    SeatNumberRoundTrip(n);
  }

  /** Distinct seats sit at distinct rows or columns. */
  lemma PositionInjective(a: int, b: int)
    requires a >= 1 && b >= 1 && a != b
    ensures RowOf(a) != RowOf(b) || ColumnOf(a) != ColumnOf(b)
  {
    SeatNumberRoundTrip(a);
    SeatNumberRoundTrip(b);
  }

  /**
   Distinct seats are drawn at distinct corners, and their squares never
   overlap: they are apart by at least a seat plus its spacing along one axis.
   */
  lemma PlacementsDoNotOverlap(a: int, b: int)
    requires a >= 1 && b >= 1 && a != b
    ensures (PlacementOf(a).x, PlacementOf(a).y) != (PlacementOf(b).x, PlacementOf(b).y)
    ensures var pa, pb := PlacementOf(a), PlacementOf(b);
      || pa.x + SeatWidth + SeatSpacing <= pb.x
      || pb.x + SeatWidth + SeatSpacing <= pa.x
      || pa.y + SeatHeight + RowSpacing <= pb.y
      || pb.y + SeatHeight + RowSpacing <= pa.y
  {
    PositionInjective(a, b);
  }

  /** Every seat of the coach lies inside the 280 by 600 area from the origin. */
  lemma PlacementsWithinCoach(n: int)
    requires 1 <= n <= SeatCount
    ensures SeatSpacing <= PlacementOf(n).x && PlacementOf(n).x + SeatWidth <= 280
    ensures RowSpacing <= PlacementOf(n).y && PlacementOf(n).y + SeatHeight <= 600
  {
    SeatPositions(n);
  }
}
