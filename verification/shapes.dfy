/** Static data of the Tetris engine: the board dimensions, the rotation-0
    masks of the seven tetrominoes, and the geometric rotation of a 4x4 mask.
    A mask is indexed `m[y][x]` (row, then column), as the game indexes its
    `shape` arrays; a cell is filled when it holds `true` (the game stores
    0/1 bytes and only ever tests `!= 0`). */
module Shapes {

  const BoardWidth: int := 10
  const BoardHeight: int := 20

  /** Number of tetromino kinds; kind k is stored on the board as k + 1. */
  const KindCount: nat := 7

  type Mask = seq<seq<bool>>

  predicate IsMask(m: Mask) {
    |m| == 4 && forall y :: 0 <= y < 4 ==> |m[y]| == 4
  }

  /** The rotation-0 shapes, in the order I, O, T, S, Z, J, L, written as the
      game writes them (0 empty, 1 filled). */
  const BaseShapeBits: seq<seq<seq<int>>> := [
    [[0, 0, 0, 0], [1, 1, 1, 1], [0, 0, 0, 0], [0, 0, 0, 0]], // I
    [[0, 1, 1, 0], [0, 1, 1, 0], [0, 0, 0, 0], [0, 0, 0, 0]], // O
    [[0, 1, 0, 0], [1, 1, 1, 0], [0, 0, 0, 0], [0, 0, 0, 0]], // T
    [[0, 1, 1, 0], [1, 1, 0, 0], [0, 0, 0, 0], [0, 0, 0, 0]], // S
    [[1, 1, 0, 0], [0, 1, 1, 0], [0, 0, 0, 0], [0, 0, 0, 0]], // Z
    [[1, 0, 0, 0], [1, 1, 1, 0], [0, 0, 0, 0], [0, 0, 0, 0]], // J
    [[0, 0, 1, 0], [1, 1, 1, 0], [0, 0, 0, 0], [0, 0, 0, 0]]  // L
  ]

  /** A table row read as mask cells: filled where nonzero. */
  function FilledRow(bits: seq<int>): (row: seq<bool>)
    requires |bits| == 4
    ensures |row| == 4 && forall x :: 0 <= x < 4 ==> (row[x] <==> bits[x] != 0)
  {
    [bits[0] != 0, bits[1] != 0, bits[2] != 0, bits[3] != 0]
  }

  /** The rotation-0 mask of `kind`. */
  function BaseShape(kind: nat): (m: Mask)
    requires kind < KindCount
    ensures IsMask(m)
    ensures HasCell(m)
  {
    var bits := BaseShapeBits[kind];
    var m := [FilledRow(bits[0]), FilledRow(bits[1]), FilledRow(bits[2]), FilledRow(bits[3])];
    assert BaseShapeBits[kind][1][1] == 1;
    assert m[1][1];
    m
  }

  /** The mask has at least one filled cell. */
  predicate HasCell(m: Mask)
    requires IsMask(m)
  {
    exists y, x :: 0 <= y < 4 && 0 <= x < 4 && m[y][x]
  }

  /** The filled cells of a mask, as (x, y) = (column, row) pairs. */
  function Cells(m: Mask): (cells: set<(int, int)>)
    requires IsMask(m)
    ensures forall x, y :: (x, y) in cells <==> 0 <= x < 4 && 0 <= y < 4 && m[y][x]
  {
    set x, y | 0 <= x < 4 && 0 <= y < 4 && m[y][x] :: (x, y)
  }

  datatype Direction = Clockwise | CounterClockwise

  /** Where a filled cell (x, y) of the mask goes under one turn: clockwise
      (x, y) goes to (3 - y, x), counter-clockwise to (y, 3 - x). */
  function Turn(c: (int, int), d: Direction): (int, int) {
    if d == Clockwise then (3 - c.1, c.0) else (c.1, 3 - c.0)
  }

  /** The cell of the original mask that a turn moves to (nx, ny). */
  function Origin(nx: int, ny: int, d: Direction): (c: (int, int))
    ensures Turn(c, d) == (nx, ny)
  {
    if d == Clockwise then (ny, 3 - nx) else (3 - ny, nx)
  }

  /** The mask turned a quarter in direction `d`. Cell (nx, ny) of the result
      is filled exactly when the cell it came from was. */
  function RotateMask(m: Mask, d: Direction): (r: Mask)
    requires IsMask(m)
    ensures IsMask(r)
  {
    seq(4, ny requires 0 <= ny < 4 => seq(4, nx requires 0 <= nx < 4 => m[Origin(nx, ny, d).1][Origin(nx, ny, d).0]))
  }

  /** `m` turned clockwise `n` times. */
  function Turns(m: Mask, n: nat): (r: Mask)
    requires IsMask(m)
    ensures IsMask(r)
  {
    if n == 0 then m else RotateMask(Turns(m, n - 1), Clockwise)
  }

  /** The game's rotation loop: start from an all-empty 4x4 mask and, for
      every filled cell (x, y) of `shape`, scanned row by row, set the cell
      the turn sends it to. */
  method RotateShape(shape: Mask, d: Direction) returns (r: Mask)
    requires IsMask(shape)
    ensures r == RotateMask(shape, d)
  {
    r := seq(4, _ => seq(4, _ => false));
    for y := 0 to 4
      invariant IsMask(r)
      invariant forall ny, nx | 0 <= ny < 4 && 0 <= nx < 4 ::
        r[ny][nx] == (Origin(nx, ny, d).1 < y && RotateMask(shape, d)[ny][nx])
    {
      for x := 0 to 4
        invariant IsMask(r)
        invariant forall ny, nx | 0 <= ny < 4 && 0 <= nx < 4 ::
          r[ny][nx] == ((Origin(nx, ny, d).1 < y || (Origin(nx, ny, d).1 == y && Origin(nx, ny, d).0 < x))
                        && RotateMask(shape, d)[ny][nx])
      {
        if shape[y][x] {
          var (nx, ny) := if d == Clockwise then (3 - y, x) else (y, 3 - x);
          r := r[ny := r[ny][nx := true]];
        }
      }
    }
    assert forall ny | 0 <= ny < 4 :: r[ny] == RotateMask(shape, d)[ny];
  }

  /** A turn sends the filled cells of a mask exactly to their images under
      `Turn`. */
  lemma {:induction false} RotateCells(m: Mask, d: Direction)
    requires IsMask(m)
    ensures Cells(RotateMask(m, d)) == set c | c in Cells(m) :: Turn(c, d)
  {
    TurnedCellCameFromCell(m, d);
    CellTurnsToTurnedCell(m, d);
  }

  lemma TurnedCellCameFromCell(m: Mask, d: Direction)
    requires IsMask(m)
    ensures forall p | p in Cells(RotateMask(m, d)) :: p in set c | c in Cells(m) :: Turn(c, d)
  {
    forall p | p in Cells(RotateMask(m, d)) ensures p in set c | c in Cells(m) :: Turn(c, d) {
      assert Origin(p.0, p.1, d) in Cells(m);
    }
  }

  lemma CellTurnsToTurnedCell(m: Mask, d: Direction)
    requires IsMask(m)
    ensures forall c | c in Cells(m) :: Turn(c, d) in Cells(RotateMask(m, d))
  {
    forall c | c in Cells(m) ensures Turn(c, d) in Cells(RotateMask(m, d)) {
      assert Origin(Turn(c, d).0, Turn(c, d).1, d) == c;
    }
  }

  lemma {:induction false} TurnImageSize(s: set<(int, int)>, d: Direction)
    ensures |set c | c in s :: Turn(c, d)| == |s|
    decreases |s|
  {
    if s != {} {
      var c :| c in s;
      var rest := s - {c};
      TurnImageSize(rest, d);
      var image := set e | e in s :: Turn(e, d);
      var restImage := set e | e in rest :: Turn(e, d);
      assert image == restImage + {Turn(c, d)};
      assert Turn(c, d) !in restImage;
    }
  }

  /** A turn keeps the number of filled cells. */
  lemma RotatePreservesCount(m: Mask, d: Direction)
    requires IsMask(m)
    ensures |Cells(RotateMask(m, d))| == |Cells(m)|
  {
    RotateCells(m, d);
    TurnImageSize(Cells(m), d);
  }

  /** A turn keeps a nonempty mask nonempty. */
  lemma RotateKeepsSomeCell(m: Mask, d: Direction)
    requires IsMask(m) && HasCell(m)
    ensures HasCell(RotateMask(m, d))
  {
    var y, x :| 0 <= y < 4 && 0 <= x < 4 && m[y][x];
    var c := Turn((x, y), d);
    assert Origin(c.0, c.1, d) == (x, y);
    assert RotateMask(m, d)[c.1][c.0];
  }

  /** A clockwise turn followed by a counter-clockwise one restores the mask,
      and so does the reverse order. */
  lemma UndoTurn(m: Mask)
    requires IsMask(m)
    ensures RotateMask(RotateMask(m, Clockwise), CounterClockwise) == m
    ensures RotateMask(RotateMask(m, CounterClockwise), Clockwise) == m
  {
    var a := RotateMask(RotateMask(m, Clockwise), CounterClockwise);
    var b := RotateMask(RotateMask(m, CounterClockwise), Clockwise);
    assert forall y | 0 <= y < 4 :: a[y] == m[y];
    assert forall y | 0 <= y < 4 :: b[y] == m[y];
  }

  /** Four clockwise turns restore the mask. */
  lemma FourTurns(m: Mask)
    requires IsMask(m)
    ensures Turns(m, 4) == m
  {
    var h := RotateMask(RotateMask(m, Clockwise), Clockwise);
    assert forall y, x | 0 <= y < 4 && 0 <= x < 4 :: h[y][x] == m[3 - y][3 - x];
    var f := RotateMask(RotateMask(h, Clockwise), Clockwise);
    assert forall y | 0 <= y < 4 :: f[y] == m[y];
    assert Turns(m, 2) == h by { assert Turns(m, 1) == RotateMask(m, Clockwise); }
    assert Turns(m, 4) == f by { assert Turns(m, 3) == RotateMask(h, Clockwise); }
  }

  /** Turning the mask that is `r` clockwise turns away from `m` gives the
      mask one orientation further on, in either direction, counting modulo 4. */
  lemma TurnsStep(m: Mask, r: nat, d: Direction)
    requires IsMask(m) && r < 4
    ensures RotateMask(Turns(m, r), d) == Turns(m, if d == Clockwise then (r + 1) % 4 else (r + 3) % 4)
  {
    if d == Clockwise {
      if r == 3 { FourTurns(m); }
    } else if r == 0 {
      FourTurns(m);
      UndoTurn(Turns(m, 3));
    } else {
      UndoTurn(Turns(m, r - 1));
    }
  }
}
