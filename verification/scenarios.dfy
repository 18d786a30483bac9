/** A worked example of the rules: an O piece hard-dropped onto an empty
    board. */
module Scenarios {
  import opened Shapes
  import opened Boards
  import opened Pieces
  import opened Engine

  /** Kind 1 is the O piece. */
  const OKind: nat := 1

  /** The O piece fits on the empty board at every row down to 18 and at no
      row below: its mask fills rows 0 and 1 of columns 1 and 2. */
  lemma OFitsDownTo18(y: int)
    requires 0 <= y
    ensures Fits(EmptyBoard(), NewPiece(OKind).(y := y)) <==> y <= 18
  {
    var b, p := EmptyBoard(), NewPiece(OKind).(y := y);
    FitsCells(b, p);
    assert p.shape[1][1];
    if y <= 18 {
      forall yy, xx | 0 <= yy < 4 && 0 <= xx < 4 && p.shape[yy][xx]
        ensures Open(b, p.x + xx, p.y + yy)
      {
        assert yy < 2 && 1 <= xx <= 2;
        assert b[p.y + yy] == EmptyRow();
      }
    } else {
      assert !Open(b, p.x + 1, p.y + 1);
    }
  }

  /** A hard drop of a fresh O piece on the empty board comes to rest with
      its anchor on row 18, so that it fills rows 18 and 19. */
  lemma ODropsToRow18()
    ensures Fits(EmptyBoard(), NewPiece(OKind))
    ensures Landed(EmptyBoard(), NewPiece(OKind)).y == 18
  {
    var b, p := EmptyBoard(), NewPiece(OKind);
    SpawnFitsEmptyBoard(OKind);
    var r := DropRow(b, p);
    OFitsDownTo18(r);
    OFitsDownTo18(r + 1);
    assert p.(y := r + 1) == NewPiece(OKind).(y := r + 1);
  }

  /** Locking the O piece at row 18 of the empty board fills columns 4 and 5
      of rows 18 and 19 with its code 2 and leaves every other cell empty. */
  lemma OLockedAtFloor()
    ensures var after := Lock(EmptyBoard(), NewPiece(OKind).(y := 18));
      forall row, col | 0 <= row < BoardHeight && 0 <= col < BoardWidth ::
        after[row][col] == if row >= 18 && 4 <= col <= 5 then 2 else 0
  {
    var b, p := EmptyBoard(), NewPiece(OKind).(y := 18);
    StampCells(b, p.shape, p.x, p.y, p.kind + 1);
    forall row, col | 0 <= row < BoardHeight && 0 <= col < BoardWidth
      ensures Lock(b, p)[row][col] == if row >= 18 && 4 <= col <= 5 then 2 else 0
    {
      assert b[row] == EmptyRow();
    }
  }

  /** The end-to-end run: after the hard drop and lock, rows 18 and 19 each
      hold exactly the two O cells at columns 4 and 5, no line is cleared,
      the score does not change, and the next piece, of any kind, fits, so
      the game goes on. */
  lemma HardDropOOnEmptyBoard(nextKind: nat)
    requires nextKind < KindCount
    ensures Fits(EmptyBoard(), NewPiece(OKind))
    ensures var locked := Lock(EmptyBoard(), Landed(EmptyBoard(), NewPiece(OKind)));
      var after := Cleared(locked);
      && ClearedCount(locked) == 0
      && LineScore(ClearedCount(locked)) == 0
      && (forall col | 0 <= col < BoardWidth :: after[19][col] == if 4 <= col <= 5 then 2 else 0)
      && Fits(after, NewPiece(nextKind))
  {
    ODropsToRow18();
    OLockedAtFloor();
    var landed := Landed(EmptyBoard(), NewPiece(OKind));
    assert landed == NewPiece(OKind).(y := 18);
    var locked := Lock(EmptyBoard(), landed);
    forall y | 0 <= y < |locked[1..]|
      ensures !IsFull(locked[1..][y])
    {
      assert locked[1..][y][0] == 0;
    }
    NoFullCount(locked[1..]);
    assert Cleared(locked) == locked;
    var q := NewPiece(nextKind);
    FitsCells(locked, q);
    forall yy, xx | 0 <= yy < 4 && 0 <= xx < 4 && q.shape[yy][xx]
      ensures Open(locked, q.x + xx, q.y + yy)
    {
      assert locked[q.y + yy][q.x + xx] == 0;
    }
  }
}
