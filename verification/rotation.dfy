/** Rotation with wall kicks, after the Super Rotation System of the Tetris
    Guideline: the mask is turned a quarter, then up to five candidate
    offsets from a kick table are tried in order and the first placement
    that fits wins. */
module Rotation {
  import opened Shapes
  import opened Boards
  import opened Pieces

  /** Kick offsets (x, y) for the J, L, S, T and Z pieces, one row per
      starting orientation; y points up, as the rotation system states it. */
  const KicksJlstz: seq<seq<(int, int)>> := [
    [(0, 0), (-1, 0), (-1, -1), (0, 2), (-1, 2)],   // 0 -> 1
    [(0, 0), (1, 0), (1, 1), (0, -2), (1, -2)],     // 1 -> 2
    [(0, 0), (1, 0), (1, -1), (0, 2), (1, 2)],      // 2 -> 3
    [(0, 0), (-1, 0), (-1, 1), (0, -2), (-1, -2)]   // 3 -> 0
  ]

  /** Kick offsets for the I piece. */
  const KicksI: seq<seq<(int, int)>> := [
    [(0, 0), (-2, 0), (1, 0), (-2, 1), (1, -2)],    // 0 -> 1
    [(0, 0), (-1, 0), (2, 0), (-1, -2), (2, 1)],    // 1 -> 2
    [(0, 0), (2, 0), (-1, 0), (2, -1), (-1, 2)],    // 2 -> 3
    [(0, 0), (1, 0), (-2, 0), (1, 2), (-2, -1)]     // 3 -> 0
  ]

  /** Number of kick candidates tried per rotation. */
  const KickTests: nat := 5

  /** The table for a kind: its own for I (kind 0), the shared one otherwise. */
  function KickTable(kind: nat): (t: seq<seq<(int, int)>>)
    ensures |t| == 4 && forall row :: 0 <= row < 4 ==> |t[row]| == KickTests
  {
    if kind == 0 then KicksI else KicksJlstz
  }

  /** Both tables start every row with the offset (0, 0): the first candidate
      is always the turn in place. */
  lemma KicksStartInPlace(kind: nat, row: nat)
    requires row < 4
    ensures KickTable(kind)[row][0] == (0, 0)
  {
  }

  /** The orientation after one turn, `(r + delta + 4) % 4` with delta = +1
      clockwise and -1 counter-clockwise. */
  function NewRotation(r: nat, d: Direction): (n: nat)
    requires r < 4
    ensures n < 4
    ensures d == Clockwise ==> n == (r + 1) % 4
    ensures d == CounterClockwise ==> n == (r + 3) % 4
    ensures NewRotationBack(n, d) == r
  {
    var delta := if d == Clockwise then 1 else -1;
    (r + delta + 4) % 4
  }

  /** The orientation before a turn in direction `d` that ended at `n`. */
  function NewRotationBack(n: nat, d: Direction): nat
    requires n < 4
  {
    if d == Clockwise then (n + 3) % 4 else (n + 1) % 4
  }

  /** Turning one way then the other restores the orientation, and four
      clockwise turns do too. */
  lemma {:induction false} RotationCycles(r: nat)
    requires r < 4
    ensures NewRotation(NewRotation(r, Clockwise), CounterClockwise) == r
    ensures NewRotation(NewRotation(r, CounterClockwise), Clockwise) == r
    ensures NewRotation(NewRotation(NewRotation(NewRotation(r, Clockwise), Clockwise), Clockwise), Clockwise) == r
  {
  }

  /** The kick-table row used: the orientation before the turn when turning
      clockwise, the orientation after it when turning counter-clockwise. */
  function KickRow(p: Piece, d: Direction): (row: nat)
    requires p.rotation < 4
    ensures row < 4
  {
    if d == Clockwise then p.rotation else NewRotation(p.rotation, d)
  }

  /** The turned piece moved by one kick: the turned mask and the new
      orientation, at the anchor moved by the kick. The kick's x is added
      (negated when turning counter-clockwise) and its y is subtracted
      (likewise negated), since board rows grow downwards. */
  function Kicked(p: Piece, d: Direction, kick: (int, int)): (c: Piece)
    requires p.rotation < 4 && IsMask(p.shape)
    ensures c.kind == p.kind && c.rotation == NewRotation(p.rotation, d)
    ensures c.shape == RotateMask(p.shape, d)
  {
    var dx := if d == Clockwise then kick.0 else -kick.0;
    var dy := if d == Clockwise then kick.1 else -kick.1;
    Piece(p.kind, NewRotation(p.rotation, d), p.x + dx, p.y - dy, RotateMask(p.shape, d))
  }

  /** Candidates `i` to 4 of a turn, in the order they are tried: the turned
      piece moved by each remaining kick of the table row `kicks`. */
  function CandidatesFrom(p: Piece, d: Direction, kicks: seq<(int, int)>, i: nat): (cs: seq<Piece>)
    requires p.rotation < 4 && IsMask(p.shape) && |kicks| == KickTests && i <= KickTests
    ensures |cs| == KickTests - i
    ensures forall k :: 0 <= k < |cs| ==>
      cs[k].kind == p.kind && cs[k].rotation == NewRotation(p.rotation, d) && cs[k].shape == RotateMask(p.shape, d)
    decreases KickTests - i
  {
    if i == KickTests then []
    else [Kicked(p, d, kicks[i])] + CandidatesFrom(p, d, kicks, i + 1)
  }

  /** All five candidates of a turn, from the kick row the turn selects. */
  function Candidates(p: Piece, d: Direction): (cs: seq<Piece>)
    requires p.rotation < 4 && IsMask(p.shape)
    ensures |cs| == KickTests && AllMasks(cs)
  {
    CandidatesFrom(p, d, KickTable(p.kind)[KickRow(p, d)], 0)
  }

  /** Candidate `i` of a turn. */
  function KickCandidate(p: Piece, d: Direction, i: nat): (c: Piece)
    requires p.rotation < 4 && IsMask(p.shape) && i < KickTests
    ensures c.kind == p.kind && c.rotation == NewRotation(p.rotation, d)
    ensures c.shape == RotateMask(p.shape, d)
  {
    Candidates(p, d)[i]
  }

  /** Candidate `i` is the turned piece moved by kick `i` of the table row. */
  lemma CandidateFromKick(p: Piece, d: Direction, i: nat, kick: (int, int))
    requires p.rotation < 4 && IsMask(p.shape) && i < KickTests
    requires kick == KickTable(p.kind)[KickRow(p, d)][i]
    ensures KickCandidate(p, d, i) == Kicked(p, d, kick)
  {
    CandidatesFromAt(p, d, KickTable(p.kind)[KickRow(p, d)], 0, i);
  }

  lemma {:induction false} CandidatesFromAt(p: Piece, d: Direction, kicks: seq<(int, int)>, j: nat, k: nat)
    requires p.rotation < 4 && IsMask(p.shape) && |kicks| == KickTests && j + k < KickTests
    ensures CandidatesFrom(p, d, kicks, j)[k] == Kicked(p, d, kicks[j + k])
    decreases k
  {
    if k > 0 {
      CandidatesFromAt(p, d, kicks, j + 1, k - 1);
    }
  }

  /** A candidate of a well-formed piece is well-formed. */
  lemma CandidateWellFormed(p: Piece, d: Direction, i: nat)
    requires WellFormed(p) && i < KickTests
    ensures WellFormed(KickCandidate(p, d, i))
  {
    RotateKeepsSomeCell(p.shape, d);
  }

  /** A candidate of an oriented piece is oriented: the turned mask is the
      base shape turned to the new orientation index. */
  lemma CandidateOriented(p: Piece, d: Direction, i: nat)
    requires IsMask(p.shape) && Oriented(p) && i < KickTests
    ensures Oriented(KickCandidate(p, d, i))
  {
    TurnToNewRotation(BaseShape(p.kind), p.rotation, d);
  }

  /** The game's candidate test, field by field: the turned mask at the
      anchor moved by the kick, still carrying the old orientation index,
      fits exactly when candidate `i` does, and relabelled with the new
      orientation it is candidate `i`. */
  lemma KickTest(b: Grid, p: Piece, d: Direction, i: nat, kick: (int, int), t: Piece)
    requires IsBoard(b) && p.rotation < 4 && IsMask(p.shape) && i < KickTests
    requires kick == KickTable(p.kind)[KickRow(p, d)][i]
    requires t.kind == p.kind && t.rotation == p.rotation && t.shape == RotateMask(p.shape, d)
    requires t.x == p.x + (if d == Clockwise then kick.0 else -kick.0)
    requires t.y == p.y - (if d == Clockwise then kick.1 else -kick.1)
    ensures Fits(b, t) == Fits(b, KickCandidate(p, d, i))
    ensures t.(rotation := NewRotation(p.rotation, d)) == KickCandidate(p, d, i)
  {
    CandidateFromKick(p, d, i, kick);
    var c := t.(rotation := NewRotation(p.rotation, d));
    assert c == KickCandidate(p, d, i);
    FitsIgnoresRotation(b, t, NewRotation(p.rotation, d));
  }

  /** The mask and the orientation index turn together. */
  lemma TurnToNewRotation(m: Mask, r: nat, d: Direction)
    requires IsMask(m) && r < 4
    ensures RotateMask(Turns(m, r), d) == Turns(m, NewRotation(r, d))
  {
    TurnsStep(m, r, d);
  }

  /** Every piece of the list has a 4x4 mask. */
  ghost predicate AllMasks(cands: seq<Piece>) {
    forall k :: 0 <= k < |cands| ==> IsMask(cands[k].shape)
  }

  /** The index of the first of `cands`, from `i` on, that fits. */
  ghost function FirstFit(b: Grid, cands: seq<Piece>, i: nat): (r: Option)
    requires IsBoard(b) && AllMasks(cands) && i <= |cands|
    ensures r.Some? ==> i <= r.index < |cands| && Fits(b, cands[r.index])
    decreases |cands| - i
  {
    if i == |cands| then None
    else if Fits(b, cands[i]) then Some(i)
    else FirstFit(b, cands, i + 1)
  }

  /** Every candidate the scan passes over before its answer, or all of them
      when it has none, fails to fit. */
  lemma {:induction false} FirstFitSkipsMisfits(b: Grid, cands: seq<Piece>, i: nat)
    requires IsBoard(b) && AllMasks(cands) && i <= |cands|
    ensures var r := FirstFit(b, cands, i);
      forall j :: i <= j < (if r.Some? then r.index else |cands|) ==> !Fits(b, cands[j])
    decreases |cands| - i
  {
    if i < |cands| && !Fits(b, cands[i]) {
      FirstFitSkipsMisfits(b, cands, i + 1);
    }
  }

  /** Scanning from `j`, the answer is `i` when candidate `i` fits and none
      of j..i-1 does. */
  lemma {:induction false} FirstFitFrom(b: Grid, cands: seq<Piece>, j: nat, i: nat)
    requires IsBoard(b) && AllMasks(cands) && j <= i < |cands|
    requires forall k :: j <= k < i ==> !Fits(b, cands[k])
    requires Fits(b, cands[i])
    ensures FirstFit(b, cands, j) == Some(i)
    decreases i - j
  {
    if j < i {
      FirstFitFrom(b, cands, j + 1, i);
    }
  }

  /** One step of a scan that has rejected candidates 0..i-1: if candidate
      `i` fits it is the answer, otherwise the scan goes on from `i + 1`;
      a scan that has rejected them all has no answer. */
  lemma ScanStep(b: Grid, cands: seq<Piece>, i: nat)
    requires IsBoard(b) && AllMasks(cands) && i <= |cands|
    requires FirstFit(b, cands, i) == FirstFit(b, cands, 0)
    ensures i < |cands| && Fits(b, cands[i]) ==> FirstFit(b, cands, 0) == Some(i)
    ensures i < |cands| && !Fits(b, cands[i]) ==> FirstFit(b, cands, i + 1) == FirstFit(b, cands, 0)
    ensures i == |cands| ==> FirstFit(b, cands, 0) == None
  {
  }

  datatype Option = None | Some(index: nat)

  /** The piece after a rotation attempt: the first fitting candidate, or the
      piece itself, unchanged, when none of the five fits. */
  ghost function Rotated(b: Grid, p: Piece, d: Direction): Piece
    requires IsBoard(b) && p.rotation < 4 && IsMask(p.shape)
  {
    match FirstFit(b, Candidates(p, d), 0)
    case Some(i) => KickCandidate(p, d, i)
    case None => p
  }

  /** The attempt takes candidate `i` when it fits and no earlier one does. */
  lemma RotatedTakesFirstFit(b: Grid, p: Piece, d: Direction, i: nat)
    requires IsBoard(b) && p.rotation < 4 && IsMask(p.shape) && i < KickTests
    requires forall k :: 0 <= k < i ==> !Fits(b, KickCandidate(p, d, k))
    requires Fits(b, KickCandidate(p, d, i))
    ensures Rotated(b, p, d) == KickCandidate(p, d, i)
  {
    var cands := Candidates(p, d);
    forall k | 0 <= k < i
      ensures !Fits(b, cands[k])
    {
      assert cands[k] == KickCandidate(p, d, k);
    }
    FirstFitFrom(b, cands, 0, i);
  }

  /** The attempt leaves the piece as it is when no candidate fits. */
  lemma RotatedWhenBlocked(b: Grid, p: Piece, d: Direction)
    requires IsBoard(b) && p.rotation < 4 && IsMask(p.shape)
    requires forall k :: 0 <= k < KickTests ==> !Fits(b, KickCandidate(p, d, k))
    ensures Rotated(b, p, d) == p
  {
    match FirstFit(b, Candidates(p, d), 0)
    case Some(j) =>
    case None =>
  }

  /** A committed attempt is the first fitting candidate: every candidate
      before it fails to fit. */
  lemma RotatedSkipsMisfits(b: Grid, p: Piece, d: Direction)
    requires IsBoard(b) && p.rotation < 4 && IsMask(p.shape)
    ensures Rotated(b, p, d) == p ||
      exists i :: 0 <= i < KickTests && Rotated(b, p, d) == KickCandidate(p, d, i) &&
        forall k :: 0 <= k < i ==> !Fits(b, KickCandidate(p, d, k))
  {
    FirstFitSkipsMisfits(b, Candidates(p, d), 0);
  }

  /** A rotation attempt either commits a fitting candidate or changes
      nothing; it keeps the piece well-formed, and keeps it fitting. */
  lemma RotatedKeepsPiece(b: Grid, p: Piece, d: Direction)
    requires IsBoard(b) && WellFormed(p)
    ensures WellFormed(Rotated(b, p, d))
    ensures Rotated(b, p, d) == p || Fits(b, Rotated(b, p, d))
    ensures Fits(b, p) ==> Fits(b, Rotated(b, p, d))
    ensures Rotated(b, p, d) != p ==> Rotated(b, p, d).rotation == NewRotation(p.rotation, d)
  {
    match FirstFit(b, Candidates(p, d), 0)
    case Some(i) => CandidateWellFormed(p, d, i);
    case None =>
  }

  /** A rotation attempt keeps the mask matched to the orientation index. */
  lemma RotatedKeepsOrientation(b: Grid, p: Piece, d: Direction)
    requires IsBoard(b) && WellFormed(p) && Oriented(p)
    ensures Oriented(Rotated(b, p, d))
  {
    match FirstFit(b, Candidates(p, d), 0)
    case Some(i) => CandidateOriented(p, d, i);
    case None =>
  }

  /** The first candidate is the turn in place: the anchor does not move. */
  lemma FirstCandidateInPlace(p: Piece, d: Direction)
    requires p.rotation < 4 && IsMask(p.shape)
    ensures KickCandidate(p, d, 0) == p.(rotation := NewRotation(p.rotation, d), shape := RotateMask(p.shape, d))
  {
    KicksStartInPlace(p.kind, KickRow(p, d));
    CandidateFromKick(p, d, 0, (0, 0));
  }

  /** When the turn in place fits, it is taken: the anchor does not move. */
  lemma UnobstructedTurnStaysPut(b: Grid, p: Piece, d: Direction)
    requires IsBoard(b) && p.rotation < 4 && IsMask(p.shape)
    requires Fits(b, p.(shape := RotateMask(p.shape, d)))
    ensures Rotated(b, p, d) == p.(rotation := NewRotation(p.rotation, d), shape := RotateMask(p.shape, d))
  {
    var q := p.(shape := RotateMask(p.shape, d));
    FirstCandidateInPlace(p, d);
    FitsIgnoresRotation(b, q, NewRotation(p.rotation, d));
    assert Fits(b, Candidates(p, d)[0]);
    assert FirstFit(b, Candidates(p, d), 0) == Some(0);
  }
}
