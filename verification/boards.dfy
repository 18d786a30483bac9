/** The playfield as a value: 20 rows of 10 cells, row 0 at the top. A cell
    holds 0 when empty and k + 1 when a piece of kind k was locked there.
    This module gives the reference definitions that the game's in-place
    board operations are proved against: line clearing and piece stamping. */
module Boards {
  import opened Shapes

  type Row = seq<nat>
  type Grid = seq<Row>

  predicate IsBoard(b: Grid) {
    |b| == BoardHeight && forall y :: 0 <= y < |b| ==> |b[y]| == BoardWidth
  }

  function EmptyRow(): (row: Row)
    ensures |row| == BoardWidth
  {
    seq(BoardWidth, _ => 0)
  }

  function EmptyRows(n: nat): (rows: Grid)
    ensures |rows| == n
    ensures forall y :: 0 <= y < n ==> rows[y] == EmptyRow()
  {
    seq(n, _ => EmptyRow())
  }

  function EmptyBoard(): (b: Grid)
    ensures IsBoard(b)
  {
    EmptyRows(BoardHeight)
  }

  /** A row is full when none of its cells is empty. */
  predicate IsFull(row: Row) {
    forall c :: 0 <= c < |row| ==> row[c] != 0
  }

  /** The number of full rows. */
  function CountFull(rows: Grid): nat {
    if rows == [] then 0 else (if IsFull(rows[0]) then 1 else 0) + CountFull(rows[1..])
  }

  /** The rows that are not full, in their original top-to-bottom order. */
  function KeepUnfull(rows: Grid): Grid {
    if rows == [] then [] else (if IsFull(rows[0]) then [] else [rows[0]]) + KeepUnfull(rows[1..])
  }

  /** Number of rows one line-clearing pass removes. The pass scans rows
      19 down to 1 and never tests row 0 itself; only when some row below it
      was removed does the old row 0 slide down into the scanned range, and
      then it is tested like any other. */
  function ClearedCount(b: Grid): nat
    requires |b| >= 1
  {
    if CountFull(b[1..]) == 0 then 0 else CountFull(b)
  }

  /** The board after one line-clearing pass: unchanged when no row among
      1..19 is full; otherwise every full row is removed, the others keep their
      order and drop to the bottom, and empty rows fill in at the top. */
  function Cleared(b: Grid): (r: Grid)
    requires IsBoard(b)
    ensures IsBoard(r)
  {
    if CountFull(b[1..]) == 0 then b
    else
      KeepUnfullSize(b);
      var r := EmptyRows(CountFull(b)) + KeepUnfull(b);
      assert forall y :: CountFull(b) <= y < |r| ==> r[y] in KeepUnfull(b);
      r
  }

  // ---- facts about KeepUnfull and CountFull ----

  lemma {:induction false} KeepUnfullSize(rows: Grid)
    ensures |KeepUnfull(rows)| + CountFull(rows) == |rows|
    ensures forall r :: r in KeepUnfull(rows) ==> r in rows && !IsFull(r)
  {
    if rows != [] {
      KeepUnfullSize(rows[1..]);
    }
  }

  lemma {:induction false} KeepUnfullAppend(s: Grid, t: Grid)
    ensures KeepUnfull(s + t) == KeepUnfull(s) + KeepUnfull(t)
    ensures CountFull(s + t) == CountFull(s) + CountFull(t)
  {
    if s != [] {
      assert (s + t)[1..] == s[1..] + t;
      KeepUnfullAppend(s[1..], t);
    } else {
      assert s + t == t;
    }
  }

  lemma {:induction false} NoFullKeepsAll(rows: Grid)
    requires CountFull(rows) == 0
    ensures KeepUnfull(rows) == rows
  {
    if rows != [] {
      NoFullKeepsAll(rows[1..]);
    }
  }

  lemma {:induction false} NoFullRows(rows: Grid)
    requires CountFull(rows) == 0
    ensures forall y :: 0 <= y < |rows| ==> !IsFull(rows[y])
  {
    if rows != [] {
      NoFullRows(rows[1..]);
      assert forall y :: 1 <= y < |rows| ==> rows[y] == rows[1..][y - 1];
    }
  }

  /** The first row of a suffix and the rest of it. */
  lemma SplitAt(rows: Grid, j: nat)
    requires j < |rows|
    ensures KeepUnfull(rows[j..]) == (if IsFull(rows[j]) then [] else [rows[j]]) + KeepUnfull(rows[j + 1..])
    ensures CountFull(rows[j..]) == (if IsFull(rows[j]) then 1 else 0) + CountFull(rows[j + 1..])
  {
    assert rows[j..][1..] == rows[j + 1..];
  }

  // ---- properties of a line-clearing pass ----

  /** After a pass, none of rows 1..19 is full. */
  lemma ClearedLeavesNoFullRow(b: Grid)
    requires IsBoard(b)
    ensures forall y :: 1 <= y < BoardHeight ==> !IsFull(Cleared(b)[y])
  {
    if CountFull(b[1..]) == 0 {
      NoFullRows(b[1..]);
      assert forall y :: 1 <= y < BoardHeight ==> b[y] == b[1..][y - 1];
    } else {
      KeepUnfullSize(b);
      var c := Cleared(b);
      forall y | 1 <= y < BoardHeight ensures !IsFull(c[y]) {
        if y >= CountFull(b) {
          assert c[y] in KeepUnfull(b);
        } else {
          assert c[y][0] == 0;
        }
      }
    }
  }

  /** The number of rows a pass removes is the number of rows it drops from
      the original board: all full rows once a row below the top was full,
      none otherwise. */
  lemma ClearedCountMatches(b: Grid)
    requires IsBoard(b)
    ensures ClearedCount(b) <= BoardHeight
    ensures ClearedCount(b) == 0 <==> forall y :: 1 <= y < BoardHeight ==> !IsFull(b[y])
    ensures Cleared(b)[..ClearedCount(b)] == EmptyRows(ClearedCount(b))
  {
    KeepUnfullSize(b);
    if CountFull(b[1..]) == 0 {
      NoFullRows(b[1..]);
      assert forall y :: 1 <= y < BoardHeight ==> b[y] == b[1..][y - 1];
    } else {
      KeepUnfullAppend(b[..1], b[1..]);
      assert b[..1] + b[1..] == b;
      if forall y :: 1 <= y < BoardHeight ==> !IsFull(b[y]) {
        NoFullCount(b[1..]);
        assert false;
      }
    }
  }

  lemma {:induction false} NoFullCount(rows: Grid)
    requires forall y :: 0 <= y < |rows| ==> !IsFull(rows[y])
    ensures CountFull(rows) == 0
  {
    if rows != [] {
      NoFullCount(rows[1..]);
    }
  }

  /** A row that survives a pass lands as many rows further down as there were
      full rows below it that the pass removed. */
  lemma ClearedRowLands(b: Grid, i: nat)
    requires IsBoard(b) && i < BoardHeight && !IsFull(b[i])
    ensures i + CountFull(b[i + 1..]) < BoardHeight
    ensures Cleared(b)[i + CountFull(b[i + 1..])] == b[i]
  {
    if CountFull(b[1..]) == 0 {
      if i > 0 {
        KeepUnfullAppend(b[1..i + 1], b[i + 1..]);
        assert b[1..i + 1] + b[i + 1..] == b[1..];
      }
    } else {
      KeptRowPosition(b, i);
      KeepUnfullSize(b);
      var k, j := CountFull(b), i - CountFull(b[..i]);
      assert Cleared(b) == EmptyRows(k) + KeepUnfull(b);
      assert (EmptyRows(k) + KeepUnfull(b))[k + j] == KeepUnfull(b)[j];
    }
  }

  /** Where row i of `rows` sits among the rows that are kept. */
  lemma KeptRowPosition(rows: Grid, i: nat)
    requires i < |rows| && !IsFull(rows[i])
    ensures CountFull(rows[..i]) <= i
    ensures i + CountFull(rows[i + 1..]) == CountFull(rows) + (i - CountFull(rows[..i]))
    ensures i - CountFull(rows[..i]) < |KeepUnfull(rows)|
    ensures KeepUnfull(rows)[i - CountFull(rows[..i])] == rows[i]
  {
    var above, below := rows[..i], rows[i + 1..];
    assert rows == above + ([rows[i]] + below);
    KeepUnfullAppend(above, [rows[i]] + below);
    KeepUnfullAppend([rows[i]], below);
    var one: Grid := [rows[i]];
    assert one[1..] == [];
    assert KeepUnfull(one) == one && CountFull(one) == 0;
    KeepUnfullSize(above);
    assert KeepUnfull(rows) == KeepUnfull(above) + ([rows[i]] + KeepUnfull(below));
  }

  /** Row 0 is never tested by itself: when no row below it is full, a full
      row 0 stays where it is and nothing is scored. */
  lemma FullTopRowSurvives(b: Grid)
    requires IsBoard(b) && IsFull(b[0])
    requires forall y :: 1 <= y < BoardHeight ==> !IsFull(b[y])
    ensures Cleared(b) == b && IsFull(Cleared(b)[0]) && ClearedCount(b) == 0
  {
    NoFullCount(b[1..]);
  }

  // ---- locking a piece into the board ----

  /** Whether the piece with mask `shape` anchored at (px, py) covers board
      cell (col, row). */
  predicate Covers(shape: Mask, px: int, py: int, col: int, row: int)
    requires IsMask(shape)
  {
    0 <= col - px < 4 && 0 <= row - py < 4 && shape[row - py][col - px]
  }

  /** The board with every cell the piece covers set to `value`; cells of the
      piece off the board are dropped. Above the top row that is the game's
      own rule; outside the walls or below the floor only a piece that does
      not fit has cells, and every caller locks only pieces that fit. */
  function Stamp(b: Grid, shape: Mask, px: int, py: int, value: nat): (r: Grid)
    requires IsBoard(b) && IsMask(shape)
    ensures IsBoard(r)
  {
    StampUpTo(b, shape, px, py, value, 4, 0)
  }

  /** The board with cell (col, row) set to `value`. */
  function SetCell(b: Grid, row: int, col: int, value: nat): (r: Grid)
    requires IsBoard(b) && 0 <= row < BoardHeight && 0 <= col < BoardWidth
    ensures IsBoard(r)
  {
    var newRow: Row := b[row][col := value];
    b[row := newRow]
  }

  /** The board after stamping the mask cells that come before cell (x, y) in
      row-major order: all of mask rows 0..y-1 and columns 0..x-1 of row y.
      This is the state a row-by-row stamping loop has reached. */
  function StampUpTo(b: Grid, shape: Mask, px: int, py: int, value: nat, y: nat, x: nat): (r: Grid)
    requires IsBoard(b) && IsMask(shape) && y <= 4 && x <= 4
    ensures IsBoard(r)
    decreases y, x
  {
    if x > 0 then
      var prev := StampUpTo(b, shape, px, py, value, y, x - 1);
      if y < 4 && shape[y][x - 1] && 0 <= py + y < BoardHeight && 0 <= px + x - 1 < BoardWidth
      then SetCell(prev, py + y, px + x - 1, value) else prev
    else if y > 0 then StampUpTo(b, shape, px, py, value, y - 1, 4)
    else b
  }

  /** Cell by cell, the mask cells before (x, y) hold `value` and every other
      board cell is as before. */
  lemma {:induction false} StampUpToCells(b: Grid, shape: Mask, px: int, py: int, value: nat, y: nat, x: nat)
    requires IsBoard(b) && IsMask(shape) && y <= 4 && x <= 4
    ensures forall row, col | 0 <= row < BoardHeight && 0 <= col < BoardWidth ::
      StampUpTo(b, shape, px, py, value, y, x)[row][col]
        == if Covers(shape, px, py, col, row) && (row - py < y || (row - py == y && col - px < x))
           then value else b[row][col]
    decreases y, x
  {
    if x > 0 {
      StampUpToCells(b, shape, px, py, value, y, x - 1);
    } else if y > 0 {
      StampUpToCells(b, shape, px, py, value, y - 1, 4);
    }
  }

  /** Every cell of the stamped board: covered cells hold `value`, the others
      are unchanged. */
  lemma StampCells(b: Grid, shape: Mask, px: int, py: int, value: nat)
    requires IsBoard(b) && IsMask(shape)
    ensures forall row, col | 0 <= row < BoardHeight && 0 <= col < BoardWidth ::
      Stamp(b, shape, px, py, value)[row][col] == if Covers(shape, px, py, col, row) then value else b[row][col]
  {
    StampUpToCells(b, shape, px, py, value, 4, 0);
  }
}
