/** The falling piece and its relation to the board: spawning, the collision
    rule, single-cell moves, the hard-drop landing row and what locking
    writes into the board. */
module Pieces {
  import opened Shapes
  import opened Boards

  /** The active piece: its kind (0..6 for I, O, T, S, Z, J, L), orientation
      index, the anchor (x, y) of its mask's top-left corner in board
      coordinates, and its current mask. */
  datatype Piece = Piece(kind: nat, rotation: nat, x: int, y: int, shape: Mask)

  /** What the session keeps true of its piece: a known kind, an orientation
      in 0..3, a 4x4 mask with at least one filled cell. */
  ghost predicate WellFormed(p: Piece) {
    p.kind < KindCount && p.rotation < 4 && IsMask(p.shape) && HasCell(p.shape)
  }

  /** The mask matches the orientation index: it is the kind's base shape
      turned clockwise `rotation` times. */
  ghost predicate Oriented(p: Piece) {
    p.kind < KindCount && p.rotation < 4 && p.shape == Turns(BaseShape(p.kind), p.rotation)
  }

  /** The spawn column: half the board width minus two. */
  const SpawnX: int := BoardWidth / 2 - 2

  /** A fresh piece of `kind` at the spawn point, in orientation 0. */
  function NewPiece(kind: nat): (p: Piece)
    requires kind < KindCount
    ensures WellFormed(p)
  {
    Piece(kind, 0, SpawnX, 0, BaseShape(kind))
  }

  /** A fresh piece is in orientation 0 with its base shape. */
  lemma NewPieceOriented(kind: nat)
    requires kind < KindCount
    ensures Oriented(NewPiece(kind))
  {
  }

  /** Whether board cell (col, row) can take a piece cell: inside the side
      walls and above the floor, and empty if it is on the board at all.
      Rows above the top (row < 0) never block. */
  ghost predicate Open(b: Grid, col: int, row: int)
    requires IsBoard(b)
  {
    0 <= col < BoardWidth && row < BoardHeight && (row >= 0 ==> b[row][col] == 0)
  }

  /** The game's single collision rule: every filled cell of the piece lands
      on an open board cell. It is the scan below taken over the whole mask;
      `FitsCells` states it cell by cell. */
  ghost predicate Fits(b: Grid, p: Piece)
    requires IsBoard(b) && IsMask(p.shape)
  {
    OpenUpTo(b, p, 4, 0)
  }

  /** Every filled mask cell before (x, y), in row-major order, lands on an
      open board cell: the part of the collision test a row-by-row scan has
      passed. */
  ghost predicate OpenUpTo(b: Grid, p: Piece, y: nat, x: nat)
    requires IsBoard(b) && IsMask(p.shape) && y <= 4 && x <= 4
    decreases y, x
  {
    if x > 0 then OpenUpTo(b, p, y, x - 1) && (y < 4 && p.shape[y][x - 1] ==> Open(b, p.x + x - 1, p.y + y))
    else if y > 0 then OpenUpTo(b, p, y - 1, 4)
    else true
  }

  /** The scanned part of the test, cell by cell. */
  lemma {:induction false} OpenUpToCells(b: Grid, p: Piece, y: nat, x: nat)
    requires IsBoard(b) && IsMask(p.shape) && y <= 4 && x <= 4
    ensures OpenUpTo(b, p, y, x) <==>
      forall yy, xx | 0 <= yy < 4 && 0 <= xx < 4 && (yy < y || (yy == y && xx < x)) && p.shape[yy][xx] ::
        Open(b, p.x + xx, p.y + yy)
    decreases y, x
  {
    if x > 0 {
      OpenUpToCells(b, p, y, x - 1);
    } else if y > 0 {
      OpenUpToCells(b, p, y - 1, 4);
    }
  }

  /** The collision rule cell by cell: a piece fits exactly when each of its
      filled cells is on an open board cell. */
  lemma FitsCells(b: Grid, p: Piece)
    requires IsBoard(b) && IsMask(p.shape)
    ensures Fits(b, p) <==> forall y, x | 0 <= y < 4 && 0 <= x < 4 && p.shape[y][x] :: Open(b, p.x + x, p.y + y)
  {
    OpenUpToCells(b, p, 4, 0);
  }

  /** The collision rule looks only at the anchor and the mask, never at the
      kind or the orientation index. */
  lemma FitsIgnoresRotation(b: Grid, p: Piece, r: nat)
    requires IsBoard(b) && IsMask(p.shape)
    ensures Fits(b, p.(rotation := r)) == Fits(b, p)
  {
    FitsCells(b, p);
    FitsCells(b, p.(rotation := r));
  }

  /** The collision rule read the other way: a piece fails to fit exactly
      when some filled cell lands left or right of the walls, below the floor,
      or on a locked cell of a row that is on the board. */
  lemma {:induction false} MisfitWitness(b: Grid, p: Piece)
    requires IsBoard(b) && IsMask(p.shape)
    ensures !Fits(b, p) <==>
      exists c :: c in Cells(p.shape) &&
        var col, row := p.x + c.0, p.y + c.1;
        col < 0 || col >= BoardWidth || row >= BoardHeight || (row >= 0 && b[row][col] != 0)
  {
    FitsCells(b, p);
    if !Fits(b, p) {
      var y, x :| 0 <= y < 4 && 0 <= x < 4 && p.shape[y][x] && !Open(b, p.x + x, p.y + y);
      assert (x, y) in Cells(p.shape);
    }
  }

  /** Any piece fits at the spawn anchor of an empty board. */
  lemma SpawnFitsEmptyBoard(kind: nat)
    requires kind < KindCount
    ensures Fits(EmptyBoard(), NewPiece(kind))
  {
    var p := NewPiece(kind);
    FitsCells(EmptyBoard(), p);
    forall y, x | 0 <= y < 4 && 0 <= x < 4 && p.shape[y][x]
      ensures Open(EmptyBoard(), p.x + x, p.y + y)
    {
      assert EmptyBoard()[y] == EmptyRow();
    }
  }

  /** The piece moved by (dx, dy); kind, orientation and mask are kept. */
  function Shifted(p: Piece, dx: int, dy: int): Piece {
    p.(x := p.x + dx, y := p.y + dy)
  }

  /** The outcome of a one-cell move: the moved piece when it fits, the
      piece unchanged otherwise. */
  ghost function TryShift(b: Grid, p: Piece, dx: int, dy: int): (r: Piece)
    requires IsBoard(b) && IsMask(p.shape)
  {
    if Fits(b, Shifted(p, dx, dy)) then Shifted(p, dx, dy) else p
  }

  /** A move keeps a well-formed piece well-formed, never changes its kind,
      orientation or mask, and keeps it fitting when it fitted before. */
  lemma TryShiftKeepsPiece(b: Grid, p: Piece, dx: int, dy: int)
    requires IsBoard(b) && WellFormed(p)
    ensures WellFormed(TryShift(b, p, dx, dy))
    ensures var r := TryShift(b, p, dx, dy);
      r.kind == p.kind && r.rotation == p.rotation && r.shape == p.shape
    ensures Fits(b, p) ==> Fits(b, TryShift(b, p, dx, dy))
    ensures TryShift(b, p, dx, dy) == p || TryShift(b, p, dx, dy) == Shifted(p, dx, dy)
  {
  }

  /** A move keeps the mask matched to the orientation index. */
  lemma TryShiftKeepsOrientation(b: Grid, p: Piece, dx: int, dy: int)
    requires IsBoard(b) && WellFormed(p) && Oriented(p)
    ensures Oriented(TryShift(b, p, dx, dy))
  {
  }

  /** A piece with a filled cell that fits is above the floor. */
  lemma FitsAboveFloor(b: Grid, p: Piece)
    requires IsBoard(b) && IsMask(p.shape) && HasCell(p.shape) && Fits(b, p)
    ensures p.y < BoardHeight
  {
    FitsCells(b, p);
    var y, x :| 0 <= y < 4 && 0 <= x < 4 && p.shape[y][x];
    assert Open(b, p.x + x, p.y + y);
  }

  /** The row where a hard drop of `p` comes to rest: the piece fits at every
      row from its own down to the result, and not one row further. */
  ghost function DropRow(b: Grid, p: Piece): (r: int)
    requires IsBoard(b) && IsMask(p.shape) && HasCell(p.shape) && Fits(b, p)
    ensures p.y <= r < BoardHeight
    ensures Fits(b, p.(y := r)) && !Fits(b, p.(y := r + 1))
    ensures forall row :: p.y <= row <= r ==> Fits(b, p.(y := row))
    decreases BoardHeight - p.y
  {
    FitsAboveFloor(b, p);
    var down := p.(y := p.y + 1);
    if Fits(b, down) then
      var r := DropRow(b, down);
      assert p.(y := p.y) == p;
      assert forall row :: p.y < row <= r ==> p.(y := row) == down.(y := row);
      r
    else
      assert p.(y := p.y) == p;
      p.y
  }

  /** Between the piece's own row and one past its resting row, the piece
      fits exactly up to the resting row. */
  lemma DropRowBoundary(b: Grid, p: Piece, row: int)
    requires IsBoard(b) && IsMask(p.shape) && HasCell(p.shape) && Fits(b, p)
    requires p.y <= row <= DropRow(b, p) + 1
    ensures Fits(b, p.(y := row)) <==> row <= DropRow(b, p)
  {
  }

  /** The piece at its hard-drop resting row. */
  ghost function Landed(b: Grid, p: Piece): Piece
    requires IsBoard(b) && IsMask(p.shape) && HasCell(p.shape) && Fits(b, p)
  {
    p.(y := DropRow(b, p))
  }

  /** The landed piece is the same piece moved straight down, above the
      floor; it fits there and not one row lower. */
  lemma LandedRests(b: Grid, p: Piece)
    requires IsBoard(b) && IsMask(p.shape) && HasCell(p.shape) && Fits(b, p)
    ensures var r := Landed(b, p);
      && r == p.(y := r.y) && p.y <= r.y < BoardHeight
      && Fits(b, r) && !Fits(b, r.(y := r.y + 1))
  {
  }

  /** The board after locking `p`: its covered cells take `kind + 1`. */
  function Lock(b: Grid, p: Piece): (r: Grid)
    requires IsBoard(b) && IsMask(p.shape)
    ensures IsBoard(r)
  {
    Stamp(b, p.shape, p.x, p.y, p.kind + 1)
  }

  /** Locking a piece that fits writes `kind + 1` into every board cell its
      filled mask cells land on (those on rows >= 0), all of which are inside
      the board. */
  lemma LockWritesPiece(b: Grid, p: Piece)
    requires IsBoard(b) && IsMask(p.shape) && Fits(b, p)
    ensures forall y, x | 0 <= y < 4 && 0 <= x < 4 && p.shape[y][x] && p.y + y >= 0 ::
      0 <= p.x + x < BoardWidth && p.y + y < BoardHeight &&
      Lock(b, p)[p.y + y][p.x + x] == p.kind + 1
  {
    StampCells(b, p.shape, p.x, p.y, p.kind + 1);
    FitsCells(b, p);
    forall y, x | 0 <= y < 4 && 0 <= x < 4 && p.shape[y][x] && p.y + y >= 0
      ensures 0 <= p.x + x < BoardWidth && p.y + y < BoardHeight
      ensures Lock(b, p)[p.y + y][p.x + x] == p.kind + 1
    {
      assert Open(b, p.x + x, p.y + y);
      assert Covers(p.shape, p.x, p.y, p.x + x, p.y + y);
    }
  }

  /** Locking a piece that fits changes no other cell, and only ever writes
      into cells that were empty. */
  lemma LockChangesOnlyPiece(b: Grid, p: Piece)
    requires IsBoard(b) && IsMask(p.shape) && Fits(b, p)
    ensures forall row, col | 0 <= row < BoardHeight && 0 <= col < BoardWidth ::
      Lock(b, p)[row][col] != b[row][col] ==>
        (col - p.x, row - p.y) in Cells(p.shape) && b[row][col] == 0 && Lock(b, p)[row][col] == p.kind + 1
  {
    StampCells(b, p.shape, p.x, p.y, p.kind + 1);
    FitsCells(b, p);
    forall row, col | 0 <= row < BoardHeight && 0 <= col < BoardWidth && Lock(b, p)[row][col] != b[row][col]
      ensures (col - p.x, row - p.y) in Cells(p.shape) && b[row][col] == 0
    {
      assert Covers(p.shape, p.x, p.y, col, row);
      assert Open(b, p.x + (col - p.x), p.y + (row - p.y));
    }
  }
}
