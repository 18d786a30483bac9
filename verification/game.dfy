/** The game session: a 20x10 board updated in place, the falling piece, the
    score and the game-over flag, with one method per thing the player or
    the gravity timer can make happen. The kind of each new piece, drawn at
    random by the game, is a parameter in 0..6. */
module Engine {
  import opened Shapes
  import opened Boards
  import opened Pieces
  import opened Rotation

  /** Points for one line-clearing pass that removed `lines` rows: 100, 300,
      500 and 800 for one to four rows, nothing for any other count. */
  function LineScore(lines: nat): (points: nat)
    ensures points == 0 <==> lines == 0 || lines > 4
    ensures 1 <= lines <= 4 ==> 100 * lines <= points <= 800
    ensures 1 < lines <= 4 ==> LineScore(lines - 1) < points
  {
    match lines
    case 1 => 100
    case 2 => 300
    case 3 => 500
    case 4 => 800
    case _ => 0
  }

  /** What one key press asks for. */
  datatype Action = MoveLeft | MoveRight | SoftDrop | RotateClockwise | RotateCounterClockwise | HardDrop | Restart

  class Game {
    var board: array<Row>
    var current: Piece
    var score: nat
    var gameOver: bool

    /** The session invariant. Its last conjunct is the game's safety
        property: while the game is running, the falling piece fits. */
    ghost predicate Valid()
      reads this, board
    {
      board.Length == BoardHeight && IsBoard(board[..]) && WellFormed(current)
      && (!gameOver ==> Fits(board[..], current))
    }

    /** A new session: an empty board, a fresh piece of `kind`, no score. */
    constructor (kind: nat)
      requires kind < KindCount
      ensures Valid() && fresh(board)
      ensures board[..] == EmptyBoard() && current == NewPiece(kind) && score == 0 && !gameOver
    {
      board := new Row[BoardHeight](_ => EmptyRow());
      current := NewPiece(kind);
      score := 0;
      gameOver := false;
      new;
      assert board[..] == EmptyBoard();
      SpawnFitsEmptyBoard(kind);
    }

    /** Discard everything and start a new session, as the constructor does. */
    method Reset(kind: nat)
      requires kind < KindCount
      modifies this
      ensures Valid() && fresh(board)
      ensures board[..] == EmptyBoard() && current == NewPiece(kind) && score == 0 && !gameOver
    {
      board := new Row[BoardHeight](_ => EmptyRow());
      current := NewPiece(kind);
      score := 0;
      gameOver := false;
      assert board[..] == EmptyBoard();
      SpawnFitsEmptyBoard(kind);
    }

    /** The collision test, scanning the mask row by row and stopping at the
        first filled cell that is outside the walls, below the floor, or on a
        locked cell. */
    method IsValidPosition(p: Piece) returns (valid: bool)
      requires board.Length == BoardHeight && IsBoard(board[..]) && IsMask(p.shape)
      ensures valid == Fits(board[..], p)
    {
      for y := 0 to 4
        invariant OpenUpTo(board[..], p, y, 0)
      {
        for x := 0 to 4
          invariant OpenUpTo(board[..], p, y, x)
        {
          if p.shape[y][x] {
            var boardX := p.x + x;
            var boardY := p.y + y;
            if boardX < 0 || boardX >= BoardWidth || boardY >= BoardHeight {
              Blocked(board[..], p, y, x);
              return false;
            }
            if boardY >= 0 && board[boardY][boardX] != 0 {
              Blocked(board[..], p, y, x);
              return false;
            }
          }
        }
        assert OpenUpTo(board[..], p, y + 1, 0);
      }
      return true;
    }

    /** Replace the falling piece with a fresh one of `kind`; the game is over
        if it does not fit. The flag is never cleared here. */
    method SpawnNewPiece(kind: nat)
      requires board.Length == BoardHeight && IsBoard(board[..]) && kind < KindCount
      modifies this`current, this`gameOver
      ensures current == NewPiece(kind)
      ensures gameOver == (old(gameOver) || !Fits(board[..], current))
    {
      current := NewPiece(kind);
      var valid := IsValidPosition(current);
      if !valid {
        gameOver := true;
      }
    }

    /** Remove full rows in place, scanning from the bottom row up to row 1.
        A full row is removed by moving every row above it down by one and
        emptying row 0; the same row index is then tested again. */
    method ClearLines()
      requires board.Length == BoardHeight && IsBoard(board[..])
      modifies board, this`score
      ensures board[..] == Cleared(old(board[..]))
      ensures score == old(score) + LineScore(ClearedCount(old(board[..])))
    {
      var linesCleared := RemoveFullRows();
      score := score + LineScore(linesCleared);
    }

    /** The scan of the clear pass: from the bottom row up to row 1, a full
        row is removed and the same row index is tested again; any other
        row moves the scan up. Returns the number of rows removed. */
    method RemoveFullRows() returns (linesCleared: nat)
      requires board.Length == BoardHeight && IsBoard(board[..])
      modifies board
      ensures board[..] == Cleared(old(board[..]))
      ensures linesCleared == ClearedCount(old(board[..]))
    {
      ghost var start := board[..];
      ghost var j := BoardHeight;
      linesCleared := 0;
      var y := BoardHeight - 1;
      assert start[..j] == start && start[j..] == [];
      while y > 0
        invariant board.Length == BoardHeight && 0 <= j <= BoardHeight
        invariant Scanned(start, board[..], linesCleared, j, y)
        decreases y + j
      {
        linesCleared, j, y := TestRow(start, linesCleared, j, y);
      }
      ScanDone(start, board[..], linesCleared, j);
    }

    /** One step of the scan at row y: a full row is removed and row y is
        tested again, any other row moves the scan up a row. */
    method TestRow(ghost start: Grid, lines: nat, ghost j: nat, y: int)
      returns (lines': nat, ghost j': nat, y': int)
      requires board.Length == BoardHeight && j <= BoardHeight && y > 0
      requires Scanned(start, board[..], lines, j, y)
      modifies board
      ensures j' <= BoardHeight && Scanned(start, board[..], lines', j', y')
      ensures y' + j' < y + j
    {
      if IsFull(board[y]) {
        ghost var before := board[..];
        ShiftRowsDown(y);
        ScanFull(start, before, board[..], lines, j, y);
        lines', j', y' := lines + 1, j - 1, y;
      } else {
        ScanKeep(start, board[..], lines, j, y);
        lines', j', y' := lines, if j == 0 then 0 else j - 1, y - 1;
      }
    }

    /** Remove row y: every row above it moves down by one, from row y up to
        row 1, and row 0 becomes empty. */
    method ShiftRowsDown(y: nat)
      requires board.Length == BoardHeight && y < BoardHeight
      modifies board
      ensures board[..] == [EmptyRow()] + old(board[..])[..y] + old(board[..])[y + 1..]
    {
      ghost var before := board[..];
      var row := y;
      while row > 0
        invariant 0 <= row <= y
        invariant forall i :: 0 <= i <= row ==> board[i] == before[i]
        invariant forall i :: row < i <= y ==> board[i] == before[i - 1]
        invariant forall i :: y < i < BoardHeight ==> board[i] == before[i]
      {
        board[row] := board[row - 1];
        row := row - 1;
      }
      board[0] := EmptyRow();
      RowsShifted(board[..], before, y);
    }

    /** Write the falling piece into the board, clear lines, and spawn the
        next piece, of kind `nextKind`. */
    method LockPiece(nextKind: nat)
      requires Valid() && !gameOver && nextKind < KindCount
      modifies this, board
      ensures Valid() && board == old(board)
      ensures board[..] == Cleared(Lock(old(board[..]), old(current)))
      ensures score == old(score) + LineScore(ClearedCount(Lock(old(board[..]), old(current))))
      ensures current == NewPiece(nextKind)
      ensures gameOver == !Fits(board[..], current)
    {
      WritePiece(current);
      ClearLines();
      SpawnNewPiece(nextKind);
    }

    /** The first half of locking: every filled mask cell of `p` that lands on
        a board row takes the value `kind + 1`, scanning the mask row by row. */
    method WritePiece(p: Piece)
      requires board.Length == BoardHeight && IsBoard(board[..]) && IsMask(p.shape) && Fits(board[..], p)
      modifies board
      ensures board[..] == Lock(old(board[..]), p)
    {
      ghost var start := board[..];
      FitsCells(start, p);
      for y := 0 to 4
        invariant board[..] == StampUpTo(start, p.shape, p.x, p.y, p.kind + 1, y, 0)
      {
        for x := 0 to 4
          invariant board[..] == StampUpTo(start, p.shape, p.x, p.y, p.kind + 1, y, x)
        {
          if p.shape[y][x] {
            assert Open(start, p.x + x, p.y + y);
            var boardX := p.x + x;
            var boardY := p.y + y;
            if boardY >= 0 {
              board[boardY] := board[boardY][boardX := p.kind + 1];
            }
          }
        }
      }
    }

    /** One-cell move by (dx, dy) (left, right or soft drop): taken when the
        moved piece fits, otherwise nothing happens. */
    method TryMove(dx: int, dy: int) returns (moved: bool)
      requires Valid()
      modifies this`current
      ensures Valid()
      ensures moved == Fits(board[..], Shifted(old(current), dx, dy))
      ensures current == TryShift(board[..], old(current), dx, dy)
    {
      var testPiece := Shifted(current, dx, dy);
      moved := IsValidPosition(testPiece);
      TryShiftKeepsPiece(board[..], current, dx, dy);
      if moved {
        current := testPiece;
      }
    }

    /** Turn the falling piece in direction `d`, trying the five kicks of its
        table row in order and keeping the first placement that fits. */
    method HandleRotation(d: Direction)
      requires Valid()
      modifies this`current
      ensures Valid()
      ensures current == Rotated(board[..], old(current), d)
    {
      RotatedKeepsPiece(board[..], current, d);
      current := KickedPlacement(current, d);
    }

    /** The kick search of a rotation: turn the mask of `p`, then move it by
        each kick of the table row in turn and return the first placement
        that fits, or `p` itself when none does. */
    method KickedPlacement(p: Piece, d: Direction) returns (r: Piece)
      requires board.Length == BoardHeight && IsBoard(board[..]) && p.rotation < 4 && IsMask(p.shape)
      ensures r == Rotated(board[..], p, d)
    {
      var newRotation := NewRotation(p.rotation, d);
      var newShape := RotateShape(p.shape, d);
      var testPiece := p.(shape := newShape);
      var kickIndex := if d == Clockwise then p.rotation else newRotation;
      var table := KickTable(p.kind);
      ghost var cands := Candidates(p, d);
      for i := 0 to KickTests
        invariant FirstFit(board[..], cands, i) == FirstFit(board[..], cands, 0)
      {
        var kick: (int, int) := table[kickIndex][i];
        var offsetX := if d == Clockwise then kick.0 else -kick.0;
        var offsetY := if d == Clockwise then kick.1 else -kick.1;
        var finalPiece := testPiece.(x := testPiece.x + offsetX, y := testPiece.y - offsetY);
        var valid := IsValidPosition(finalPiece);
        KickTest(board[..], p, d, i, kick, finalPiece);
        ScanStep(board[..], cands, i);
        if valid {
          return finalPiece.(rotation := newRotation);
        }
      }
      ScanStep(board[..], cands, KickTests);
      return p;
    }

    /** Drop the piece as far as it fits, then lock it. */
    method HardDropPiece(nextKind: nat)
      requires Valid() && !gameOver && nextKind < KindCount
      modifies this, board
      ensures Valid() && board == old(board)
      ensures board[..] == Cleared(Lock(old(board[..]), Landed(old(board[..]), old(current))))
      ensures score == old(score) + LineScore(ClearedCount(Lock(old(board[..]), Landed(old(board[..]), old(current)))))
      ensures current == NewPiece(nextKind)
      ensures gameOver == !Fits(board[..], current)
    {
      ghost var landed := Landed(board[..], current);
      DropToRest();
      assert current == landed;
      LockPiece(nextKind);
    }

    /** Move the piece down one row at a time while the next row fits. */
    method DropToRest()
      requires Valid() && !gameOver
      modifies this`current
      ensures Valid()
      ensures current == Landed(board[..], old(current))
    {
      ghost var p := current;
      ghost var rest := DropRow(board[..], p);
      var valid := IsValidPosition(current);
      while valid
        invariant current == p.(y := current.y) && p.y <= current.y <= rest + 1
        invariant valid == Fits(board[..], current)
        decreases rest + 1 - current.y
      {
        DropRowBoundary(board[..], p, current.y);
        current := current.(y := current.y + 1);
        valid := IsValidPosition(current);
      }
      DropRowBoundary(board[..], p, current.y);
      current := current.(y := current.y - 1);
    }

    /** One gravity step: move the piece down a row if it fits there,
        otherwise lock it. Nothing happens once the game is over. */
    method Tick(nextKind: nat)
      requires Valid() && nextKind < KindCount
      modifies this, board
      ensures Valid() && board == old(board) && score >= old(score)
      ensures old(gameOver) ==>
        gameOver && current == old(current) && board[..] == old(board[..]) && score == old(score)
      ensures !old(gameOver) && Fits(old(board[..]), Shifted(old(current), 0, 1)) ==>
        !gameOver && current == Shifted(old(current), 0, 1) && board[..] == old(board[..]) && score == old(score)
      ensures !old(gameOver) && !Fits(old(board[..]), Shifted(old(current), 0, 1)) ==>
        && board[..] == Cleared(Lock(old(board[..]), old(current)))
        && score == old(score) + LineScore(ClearedCount(Lock(old(board[..]), old(current))))
        && current == NewPiece(nextKind)
        && gameOver == !Fits(board[..], current)
    {
      if !gameOver {
        var moved := TryMove(0, 1);
        if !moved {
          LockPiece(nextKind);
        }
      }
    }

    /** One key press while the game runs: every action but Restart acts on
        the falling piece as its own operation does, and only a hard drop
        changes the board or the score. */
    method Play(a: Action, nextKind: nat)
      requires Valid() && !gameOver && nextKind < KindCount
      modifies this, board
      ensures Valid() && board == old(board) && score >= old(score)
      ensures a == Restart ==>
        board[..] == old(board[..]) && current == old(current) && score == old(score) && !gameOver
      ensures a in {MoveLeft, MoveRight, SoftDrop, RotateClockwise, RotateCounterClockwise} ==>
        board[..] == old(board[..]) && score == old(score) && !gameOver
      ensures a == MoveLeft ==> current == TryShift(old(board[..]), old(current), -1, 0)
      ensures a == MoveRight ==> current == TryShift(old(board[..]), old(current), 1, 0)
      ensures a == SoftDrop ==> current == TryShift(old(board[..]), old(current), 0, 1)
      ensures a == RotateClockwise ==> current == Rotated(old(board[..]), old(current), Clockwise)
      ensures a == RotateCounterClockwise ==> current == Rotated(old(board[..]), old(current), CounterClockwise)
      ensures a == HardDrop ==>
        && board[..] == Cleared(Lock(old(board[..]), Landed(old(board[..]), old(current))))
        && score == old(score) + LineScore(ClearedCount(Lock(old(board[..]), Landed(old(board[..]), old(current)))))
        && current == NewPiece(nextKind)
        && gameOver == !Fits(board[..], current)
    {
      match a
      case MoveLeft => var _ := TryMove(-1, 0);
      case MoveRight => var _ := TryMove(1, 0);
      case SoftDrop => var _ := TryMove(0, 1);
      case RotateClockwise => HandleRotation(Clockwise);
      case RotateCounterClockwise => HandleRotation(CounterClockwise);
      case HardDrop => HardDropPiece(nextKind);
      case Restart =>
    }

    /** One key press. While the game runs it is `Play`; once the game is
        over only Restart does anything, and it starts a new session. */
    method Apply(a: Action, nextKind: nat)
      requires Valid() && nextKind < KindCount
      modifies this, board
      ensures Valid()
      ensures old(gameOver) && a == Restart ==>
        board[..] == EmptyBoard() && current == NewPiece(nextKind) && score == 0 && !gameOver
      ensures (old(gameOver) && a != Restart) || (!old(gameOver) && a == Restart) ==>
        board == old(board) && board[..] == old(board[..]) && current == old(current)
        && score == old(score) && gameOver == old(gameOver)
      ensures !old(gameOver) ==> board == old(board) && score >= old(score)
      ensures !old(gameOver) && a in {MoveLeft, MoveRight, SoftDrop, RotateClockwise, RotateCounterClockwise} ==>
        board[..] == old(board[..]) && score == old(score) && !gameOver
      ensures !old(gameOver) && a == MoveLeft ==> current == TryShift(old(board[..]), old(current), -1, 0)
      ensures !old(gameOver) && a == MoveRight ==> current == TryShift(old(board[..]), old(current), 1, 0)
      ensures !old(gameOver) && a == SoftDrop ==> current == TryShift(old(board[..]), old(current), 0, 1)
      ensures !old(gameOver) && a == RotateClockwise ==> current == Rotated(old(board[..]), old(current), Clockwise)
      ensures !old(gameOver) && a == RotateCounterClockwise ==>
        current == Rotated(old(board[..]), old(current), CounterClockwise)
      ensures !old(gameOver) && a == HardDrop ==>
        && board[..] == Cleared(Lock(old(board[..]), Landed(old(board[..]), old(current))))
        && score == old(score) + LineScore(ClearedCount(Lock(old(board[..]), Landed(old(board[..]), old(current)))))
        && current == NewPiece(nextKind)
        && gameOver == !Fits(board[..], current)
      ensures old(gameOver) && !gameOver ==> a == Restart
      ensures a != Restart ==> score >= old(score)
    {
      if !gameOver {
        Play(a, nextKind);
      } else if a == Restart {
        Reset(nextKind);
      }
    }
  }

  /** The state of a clear pass that has reached row y of the board `cur`:
      the original rows start[..j] are still untested and sit just above
      row y + 1; below them are the kept rows of start[j..]; the removed
      rows, `lines` of them, came back as empty rows at the top. Once j is 0
      the old row 0 itself has been pulled into the scanned range. */
  ghost predicate Scanned(start: Grid, cur: Grid, lines: nat, j: nat, y: int) {
    IsBoard(start) && 0 <= y < BoardHeight && j <= BoardHeight
    && cur == EmptyRows(lines) + start[..j] + KeepUnfull(start[j..])
    && lines == CountFull(start[j..])
    && (j > 0 ==> y + 1 == lines + j)
    && (j == 0 ==> y < lines && CountFull(start[1..]) > 0)
  }

  /** A pass that tests a row that is not full moves on to the row above. */
  lemma ScanKeep(start: Grid, cur: Grid, lines: nat, j: nat, y: int)
    requires Scanned(start, cur, lines, j, y) && y > 0 && !IsFull(cur[y])
    ensures Scanned(start, cur, lines, if j == 0 then 0 else j - 1, y - 1)
  {
    if j > 0 {
      assert cur[y] == start[j - 1];
      SplitAt(start, j - 1);
      assert start[..j] == start[..j - 1] + [start[j - 1]];
    } else {
      ScanTopIsEmpty(start, cur, lines, j, y);
    }
  }

  /** Once the old row 0 has been pulled into the scanned range, the row
      under test is one of the empty rows brought in at the top. */
  lemma ScanTopIsEmpty(start: Grid, cur: Grid, lines: nat, j: nat, y: int)
    requires Scanned(start, cur, lines, j, y)
    ensures j == 0 ==> cur[y] == EmptyRow() && !IsFull(cur[y])
  {
    if j == 0 {
      assert cur[y] == EmptyRow();
      assert cur[y][0] == 0;
    }
  }

  /** A pass that removes a full row y (rows above drop by one, row 0 is
      emptied) tests the same row index again. */
  lemma ScanFull(start: Grid, cur: Grid, next: Grid, lines: nat, j: nat, y: int)
    requires Scanned(start, cur, lines, j, y) && y > 0 && IsFull(cur[y])
    requires next == [EmptyRow()] + cur[..y] + cur[y + 1..]
    ensures j > 0 && Scanned(start, next, lines + 1, j - 1, y)
  {
    ScanTopIsEmpty(start, cur, lines, j, y);
    assert start[..j] == start[..j - 1] + [start[j - 1]];
    RemoveRow(EmptyRows(lines), start[..j - 1], start[j - 1], KeepUnfull(start[j..]), cur, next, y);
    assert EmptyRows(lines + 1) == [EmptyRow()] + EmptyRows(lines);
    SplitAt(start, j - 1);
  }

  /** Removing row y = |e| + |a| from e + a + [r] + k and putting an empty
      row on top gives [empty] + e + a + k. */
  lemma RemoveRow(e: Grid, a: Grid, r: Row, k: Grid, cur: Grid, next: Grid, y: int)
    requires cur == e + (a + [r]) + k && y == |e| + |a|
    requires next == [EmptyRow()] + cur[..y] + cur[y + 1..]
    ensures cur[y] == r && next == ([EmptyRow()] + e) + a + k
  {
    assert cur == (e + a) + ([r] + k);
    assert cur[..y] == e + a;
    assert cur[y + 1..] == k;
  }

  /** When the scan stops at row 0 the board is the cleared board and the
      count is the cleared count. */
  lemma ScanDone(start: Grid, cur: Grid, lines: nat, j: nat)
    requires Scanned(start, cur, lines, j, 0)
    ensures cur == Cleared(start) && lines == ClearedCount(start)
  {
    if j > 0 {
      assert j == 1 && lines == 0;
      NothingRemoved(start, cur);
    } else {
      RowsRemoved(start, cur, lines);
    }
  }

  /** A scan that reached row 0 without removing a row leaves the board as
      it was. */
  lemma NothingRemoved(start: Grid, cur: Grid)
    requires IsBoard(start) && CountFull(start[1..]) == 0
    requires cur == EmptyRows(0) + start[..1] + KeepUnfull(start[1..])
    ensures cur == Cleared(start) && ClearedCount(start) == 0
  {
    NoFullKeepsAll(start[1..]);
    assert EmptyRows(0) == [];
    assert start[..1] + start[1..] == start;
  }

  /** A scan that pulled the old row 0 into the tested range has removed
      every full row. */
  lemma RowsRemoved(start: Grid, cur: Grid, lines: nat)
    requires IsBoard(start) && CountFull(start[1..]) > 0
    requires cur == EmptyRows(lines) + start[..0] + KeepUnfull(start[0..]) && lines == CountFull(start[0..])
    ensures cur == Cleared(start) && lines == ClearedCount(start)
  {
    assert start[0..] == start;
    assert start[..0] == [];
  }

  /** The rows after removing row y: row 0 empty, rows 1..y taken from the
      row above, the rest unchanged. */
  lemma RowsShifted(after: Grid, before: Grid, y: nat)
    requires |after| == |before| && y < |before|
    requires after[0] == EmptyRow()
    requires forall i :: 0 < i <= y ==> after[i] == before[i - 1]
    requires forall i :: y < i < |before| ==> after[i] == before[i]
    ensures after == [EmptyRow()] + before[..y] + before[y + 1..]
  {
    var shifted := [EmptyRow()] + before[..y] + before[y + 1..];
    assert |shifted| == |after|;
    forall i | 0 <= i < |after| ensures after[i] == shifted[i] {
      if 0 < i <= y {
        assert shifted[i] == before[..y][i - 1];
      } else if i > y {
        assert shifted[i] == before[y + 1..][i - y - 1];
      }
    }
  }

  /** A scan that stops at filled cell (x, y) because its board cell is not
      open has found that the piece does not fit. */
  lemma Blocked(b: Grid, p: Piece, y: nat, x: nat)
    requires IsBoard(b) && IsMask(p.shape) && y < 4 && x < 4
    requires p.shape[y][x] && !Open(b, p.x + x, p.y + y)
    ensures !Fits(b, p)
  {
    FitsCells(b, p);
  }
}
