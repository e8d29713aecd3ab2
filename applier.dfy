/** Specification of the move applier: the target cell takes the mover's piece, then
    each direction in turn turns over the opponent run a mover's piece closes. */
module Applier {
  import opened Board
  import opened Rays
  import opened Counting

  /** The grid with the listed cells overwritten by x, one after another: the loop over
      `potential_flips`. */
  function SetAll(g: Grid, cells: seq<Pos>, x: Cell): Grid {
    if cells == [] then g
    else
      var last := cells[|cells| - 1];
      Put(SetAll(g, cells[..|cells| - 1], x), last.row, last.col, x)
  }

  lemma {:induction false} SetAllCell(g: Grid, cells: seq<Pos>, x: Piece)
    requires ValidGrid(g)
    requires forall k :: 0 <= k < |cells| ==> Interior(cells[k].row, cells[k].col)
    ensures ValidGrid(SetAll(g, cells, x))
    ensures forall i, j :: Get(SetAll(g, cells, x), i, j) == if Pos(i, j) in cells then x else Get(g, i, j)
  {
    if cells != [] {
      var pre, last := cells[..|cells| - 1], cells[|cells| - 1];
      SetAllCell(g, pre, x);
      PutValid(SetAll(g, pre, x), last.row, last.col, x);
      assert cells == pre + [last];
    }
  }

  /** What `unidirectional_flipper` does along d when `mover` has played at (r, c). */
  function FlipRay(g: Grid, r: int, c: int, d: Direction, mover: Piece): Grid
    requires ValidGrid(g) && Interior(r, c) && IsDirection(d)
  {
    SetAll(g, RunCells(r, c, d, ClosedRun(g, r, c, d, mover)), mover)
  }

  /** A run not closed by a mover's piece flips nothing. */
  lemma {:induction false} OpenRunFlipsNothing(g: Grid, r: int, c: int, d: Direction, mover: Piece)
    requires ValidGrid(g) && Interior(r, c) && IsDirection(d)
    requires Ray(g, r, c, d, RunLength(g, r, c, d, Opponent(mover)) + 1) != mover
    ensures FlipRay(g, r, c, d, mover) == g
  {
    assert RunCells(r, c, d, 0) == [];
  }

  lemma {:induction false} FlipRayValid(g: Grid, r: int, c: int, d: Direction, mover: Piece)
    requires ValidGrid(g) && Interior(r, c) && IsDirection(d)
    ensures ValidGrid(FlipRay(g, r, c, d, mover))
  {
    FlipRayCell(g, r, c, d, mover, 0, 0);
  }

  /** Along one direction exactly the captured run turns to the mover's piece. */
  lemma {:induction false} FlipRayCell(g: Grid, r: int, c: int, d: Direction, mover: Piece, i: int, j: int)
    requires ValidGrid(g) && Interior(r, c) && IsDirection(d)
    ensures ValidGrid(FlipRay(g, r, c, d, mover))
    ensures Get(FlipRay(g, r, c, d, mover), i, j) == if OnClosedRun(g, r, c, d, mover, i, j) then mover else Get(g, i, j)
  {
    var cells := RunCells(r, c, d, ClosedRun(g, r, c, d, mover));
    forall k | 0 <= k < |cells| ensures Interior(cells[k].row, cells[k].col) {
      ClosedRunCells(g, r, c, d, mover, cells[k].row, cells[k].col);
    }
    SetAllCell(g, cells, mover);
  }

  /** Distinct ray directions. */
  predicate DistinctDirections(dirs: seq<Direction>) {
    && (forall m :: 0 <= m < |dirs| ==> IsDirection(dirs[m]))
    && (forall m, n :: 0 <= m < n < |dirs| ==> dirs[m] != dirs[n])
  }

  lemma {:induction false} TableDistinct()
    ensures DistinctDirections(BoardDirections)
  {
    BoardDirectionsComplete();
  }

  /** `flip_pieces`: the directions of `dirs`, applied one after another. */
  function FlipAll(g: Grid, r: int, c: int, mover: Piece, dirs: seq<Direction>): (h: Grid)
    requires ValidGrid(g) && Interior(r, c) && DistinctDirections(dirs)
    ensures ValidGrid(h)
  {
    if dirs == [] then g
    else
      var h := FlipAll(g, r, c, mover, dirs[..|dirs| - 1]);
      FlipRayValid(h, r, c, dirs[|dirs| - 1], mover);
      FlipRay(h, r, c, dirs[|dirs| - 1], mover)
  }

  /** One more direction of the table: the fold over a longer prefix flips once more. */
  lemma {:induction false} FlipAllPrefix(g: Grid, r: int, c: int, mover: Piece, dirs: seq<Direction>, k: int)
    requires ValidGrid(g) && Interior(r, c) && DistinctDirections(dirs) && 0 <= k < |dirs|
    ensures DistinctDirections(dirs[..k]) && DistinctDirections(dirs[..k + 1])
    ensures FlipAll(g, r, c, mover, dirs[..k + 1]) == FlipRay(FlipAll(g, r, c, mover, dirs[..k]), r, c, dirs[k], mover)
  {
    assert dirs[..k + 1][..k] == dirs[..k];
  }

  /** `make_move`: the target takes the mover's piece, then every direction flips. */
  function AfterMove(g: Grid, t: Pos, mover: Piece): Grid
    requires ValidGrid(g) && Interior(t.row, t.col)
  {
    PutValid(g, t.row, t.col, mover);
    TableDistinct();
    FlipAll(Put(g, t.row, t.col, mover), t.row, t.col, mover, BoardDirections)
  }

  /** (i, j) lies on a run captured along one of `dirs`. */
  ghost predicate CapturedBy(g: Grid, r: int, c: int, mover: Piece, dirs: seq<Direction>, i: int, j: int)
    requires ValidGrid(g) && Interior(r, c) && DistinctDirections(dirs)
  {
    exists m :: 0 <= m < |dirs| && OnClosedRun(g, r, c, dirs[m], mover, i, j)
  }

  /** (i, j) lies on an opponent run that a mover's piece closes, seen from the target. */
  ghost predicate Captured(g: Grid, t: Pos, mover: Piece, i: int, j: int)
    requires ValidGrid(g) && Interior(t.row, t.col)
  {
    exists d :: IsDirection(d) && OnClosedRun(g, t.row, t.col, d, mover, i, j)
  }

  /** A cell on the ray along d is on no run captured along another direction. */
  lemma {:induction false} OffOtherRays(g: Grid, r: int, c: int, d: Direction, e: Direction, mover: Piece, i: int)
    requires ValidGrid(g) && Interior(r, c) && IsDirection(d) && IsDirection(e) && d != e && i >= 1
    ensures !OnClosedRun(g, r, c, e, mover, r + Offset(i, d.0), c + Offset(i, d.1))
  {
    var cells := RunCells(r, c, e, ClosedRun(g, r, c, e, mover));
    if Pos(r + Offset(i, d.0), c + Offset(i, d.1)) in cells {
      var k :| 0 <= k < |cells| && cells[k] == Pos(r + Offset(i, d.0), c + Offset(i, d.1));
      RaysDisjoint(r, c, d, e, i, k + 1);
    }
  }

  /** The ray along a direction not in `dirs` crosses no run they capture. */
  lemma {:induction false} LaterRayUntouched(g: Grid, r: int, c: int, mover: Piece, dirs: seq<Direction>, d: Direction, i: int)
    requires ValidGrid(g) && Interior(r, c) && DistinctDirections(dirs) && IsDirection(d) && d !in dirs && i >= 1
    ensures !CapturedBy(g, r, c, mover, dirs, r + Offset(i, d.0), c + Offset(i, d.1))
  {
    forall m | 0 <= m < |dirs| ensures !OnClosedRun(g, r, c, dirs[m], mover, r + Offset(i, d.0), c + Offset(i, d.1)) {
      OffOtherRays(g, r, c, d, dirs[m], mover, i);
    }
  }

  lemma {:induction false} DistinctPrefix(dirs: seq<Direction>)
    requires DistinctDirections(dirs) && dirs != []
    ensures DistinctDirections(dirs[..|dirs| - 1]) && dirs[|dirs| - 1] !in dirs[..|dirs| - 1]
  {
  }

  /** The directions flip independently: after `dirs`, a cell has turned to the mover's
      piece exactly when one of them captures it on the grid they started from. */
  lemma {:induction false} FlipAllCell(g: Grid, r: int, c: int, mover: Piece, dirs: seq<Direction>, i: int, j: int)
    requires ValidGrid(g) && Interior(r, c) && DistinctDirections(dirs)
    ensures Get(FlipAll(g, r, c, mover, dirs), i, j) == if CapturedBy(g, r, c, mover, dirs, i, j) then mover else Get(g, i, j)
    decreases |dirs|, 0
  {
    if dirs != [] {
      var pre, d := dirs[..|dirs| - 1], dirs[|dirs| - 1];
      DistinctPrefix(dirs);
      FlipAllKeepsRun(g, r, c, mover, pre, d);
      FlipRayCell(FlipAll(g, r, c, mover, pre), r, c, d, mover, i, j);
      FlipAllCell(g, r, c, mover, pre, i, j);
      CapturedBySplit(g, r, c, mover, dirs, i, j);
    }
  }

  lemma {:induction false} CapturedBySplit(g: Grid, r: int, c: int, mover: Piece, dirs: seq<Direction>, i: int, j: int)
    requires ValidGrid(g) && Interior(r, c) && DistinctDirections(dirs) && dirs != []
    ensures DistinctDirections(dirs[..|dirs| - 1])
    ensures CapturedBy(g, r, c, mover, dirs, i, j)
        <==> CapturedBy(g, r, c, mover, dirs[..|dirs| - 1], i, j) || OnClosedRun(g, r, c, dirs[|dirs| - 1], mover, i, j)
  {
    var pre := dirs[..|dirs| - 1];
    if CapturedBy(g, r, c, mover, dirs, i, j) {
      var m :| 0 <= m < |dirs| && OnClosedRun(g, r, c, dirs[m], mover, i, j);
      if m < |pre| {
        assert pre[m] == dirs[m];
      }
    }
    if CapturedBy(g, r, c, mover, pre, i, j) {
      var m :| 0 <= m < |pre| && OnClosedRun(g, r, c, pre[m], mover, i, j);
      assert dirs[m] == pre[m];
    }
  }

  /** A direction not yet applied captures the same run as on the starting grid: the
      earlier directions leave its ray untouched. */
  lemma {:induction false} FlipAllKeepsRun(g: Grid, r: int, c: int, mover: Piece, dirs: seq<Direction>, d: Direction)
    requires ValidGrid(g) && Interior(r, c) && DistinctDirections(dirs) && IsDirection(d) && d !in dirs
    ensures ClosedRun(FlipAll(g, r, c, mover, dirs), r, c, d, mover) == ClosedRun(g, r, c, d, mover)
    decreases |dirs|, 2
  {
    var h := FlipAll(g, r, c, mover, dirs);
    forall n | 1 <= n <= 8 ensures Ray(g, r, c, d, n) == Ray(h, r, c, d, n) {
      FlipAllKeepsRay(g, r, c, mover, dirs, d, n);
    }
    RayFrame(g, h, r, c, d, mover);
  }

  /** The cell n steps along a direction not yet applied is as it was on the starting grid. */
  lemma {:induction false} FlipAllKeepsRay(g: Grid, r: int, c: int, mover: Piece, dirs: seq<Direction>, d: Direction, n: int)
    requires ValidGrid(g) && Interior(r, c) && DistinctDirections(dirs) && IsDirection(d) && d !in dirs && n >= 1
    ensures Ray(FlipAll(g, r, c, mover, dirs), r, c, d, n) == Ray(g, r, c, d, n)
    decreases |dirs|, 1
  {
    FlipAllCell(g, r, c, mover, dirs, r + Offset(n, d.0), c + Offset(n, d.1));
    LaterRayUntouched(g, r, c, mover, dirs, d, n);
  }

  /** Rays from the target never include the target, so writing it first changes no run. */
  lemma {:induction false} PutTargetKeepsRuns(g: Grid, t: Pos, mover: Piece, d: Direction)
    requires ValidGrid(g) && Interior(t.row, t.col) && IsDirection(d)
    ensures ValidGrid(Put(g, t.row, t.col, mover))
    ensures ClosedRun(Put(g, t.row, t.col, mover), t.row, t.col, d, mover) == ClosedRun(g, t.row, t.col, d, mover)
  {
    PutValid(g, t.row, t.col, mover);
    forall i | 1 <= i <= 8 ensures Ray(g, t.row, t.col, d, i) == Ray(Put(g, t.row, t.col, mover), t.row, t.col, d, i) {
    }
    RayFrame(g, Put(g, t.row, t.col, mover), t.row, t.col, d, mover);
  }

  /** Every listed direction captures alike before and after the target is written, and
      the table lists every direction. */
  lemma {:induction false} CapturedAfterPut(g: Grid, t: Pos, mover: Piece, i: int, j: int)
    requires ValidGrid(g) && Interior(t.row, t.col)
    ensures ValidGrid(Put(g, t.row, t.col, mover)) && DistinctDirections(BoardDirections)
    ensures CapturedBy(Put(g, t.row, t.col, mover), t.row, t.col, mover, BoardDirections, i, j) <==> Captured(g, t, mover, i, j)
  {
    var g1 := Put(g, t.row, t.col, mover);
    PutValid(g, t.row, t.col, mover);
    BoardDirectionsComplete();
    TableDistinct();
    if CapturedBy(g1, t.row, t.col, mover, BoardDirections, i, j) {
      var m :| 0 <= m < |BoardDirections| && OnClosedRun(g1, t.row, t.col, BoardDirections[m], mover, i, j);
      PutTargetKeepsRuns(g, t, mover, BoardDirections[m]);
    }
    if Captured(g, t, mover, i, j) {
      var d :| IsDirection(d) && OnClosedRun(g, t.row, t.col, d, mover, i, j);
      var m :| 0 <= m < |BoardDirections| && BoardDirections[m] == d;
      PutTargetKeepsRuns(g, t, mover, d);
    }
  }

  /** `make_move`, one cell at a time: the target becomes the mover's piece, so does
      every captured cell, and every other cell keeps its content. */
  lemma {:induction false} MoveEffectAt(g: Grid, t: Pos, mover: Piece, i: int, j: int)
    requires ValidGrid(g) && Interior(t.row, t.col)
    ensures Get(AfterMove(g, t, mover), i, j)
         == if (i == t.row && j == t.col) || Captured(g, t, mover, i, j) then mover else Get(g, i, j)
  {
    PutValid(g, t.row, t.col, mover);
    TableDistinct();
    FlipAllCell(Put(g, t.row, t.col, mover), t.row, t.col, mover, BoardDirections, i, j);
    CapturedAfterPut(g, t, mover, i, j);
  }

  /** `make_move`: the target becomes the mover's piece, so does every captured cell,
      and every other cell (the EDGE ring included) keeps its content. */
  lemma {:induction false} MoveEffect(g: Grid, t: Pos, mover: Piece)
    requires ValidGrid(g) && Interior(t.row, t.col)
    ensures ValidGrid(AfterMove(g, t, mover))
    ensures forall i, j ::
              Get(AfterMove(g, t, mover), i, j) == if (i == t.row && j == t.col) || Captured(g, t, mover, i, j) then mover else Get(g, i, j)
  {
    forall i, j ensures Get(AfterMove(g, t, mover), i, j)
      == if (i == t.row && j == t.col) || Captured(g, t, mover, i, j) then mover else Get(g, i, j)
    {
      MoveEffectAt(g, t, mover, i, j);
    }
  }

  /** The cell i steps along d is captured exactly when it lies within d's closed run. */
  lemma {:induction false} CapturedOnRay(g: Grid, t: Pos, mover: Piece, d: Direction, i: int)
    requires ValidGrid(g) && Interior(t.row, t.col) && IsDirection(d) && i >= 1
    ensures Captured(g, t, mover, t.row + Offset(i, d.0), t.col + Offset(i, d.1))
        <==> i <= ClosedRun(g, t.row, t.col, d, mover)
  {
    var x, y := t.row + Offset(i, d.0), t.col + Offset(i, d.1);
    var n := ClosedRun(g, t.row, t.col, d, mover);
    OnOwnRay(t.row, t.col, d, n, i);
    if i > n {
      OnlyOwnRay(g, t, mover, d, i);
    }
  }

  /** Past d's closed run, the ray along d crosses no captured run. */
  lemma {:induction false} OnlyOwnRay(g: Grid, t: Pos, mover: Piece, d: Direction, i: int)
    requires ValidGrid(g) && Interior(t.row, t.col) && IsDirection(d) && i > ClosedRun(g, t.row, t.col, d, mover)
    ensures !Captured(g, t, mover, t.row + Offset(i, d.0), t.col + Offset(i, d.1))
  {
    var x, y := t.row + Offset(i, d.0), t.col + Offset(i, d.1);
    OnOwnRay(t.row, t.col, d, ClosedRun(g, t.row, t.col, d, mover), i);
    assert !OnClosedRun(g, t.row, t.col, d, mover, x, y);
    if Captured(g, t, mover, x, y) {
      var e :| IsDirection(e) && OnClosedRun(g, t.row, t.col, e, mover, x, y);
      OffOtherRays(g, t.row, t.col, d, e, mover, i);
    }
  }

  /** The cell i steps along d is among the first n cells of that ray exactly when i <= n. */
  lemma {:induction false} OnOwnRay(r: int, c: int, d: Direction, n: nat, i: int)
    requires IsDirection(d) && i >= 1
    ensures Pos(r + Offset(i, d.0), c + Offset(i, d.1)) in RunCells(r, c, d, n) <==> i <= n
  {
    var cells := RunCells(r, c, d, n);
    if i <= n {
      assert cells[i - 1] == Pos(r + Offset(i, d.0), c + Offset(i, d.1));
    } else if Pos(r + Offset(i, d.0), c + Offset(i, d.1)) in cells {
      var k :| 0 <= k < |cells| && cells[k] == Pos(r + Offset(i, d.0), c + Offset(i, d.1));
      RaysDisjoint(r, c, d, d, i, k + 1);
    }
  }

  /** Along each direction, exactly the captured run (cells 1..ClosedRun) turns to the
      mover's piece; a run ended by EMPTY or EDGE has ClosedRun 0 and stays as it was. */
  lemma {:induction false} RayAfterMove(g: Grid, t: Pos, mover: Piece, d: Direction, i: int)
    requires ValidGrid(g) && Interior(t.row, t.col) && IsDirection(d) && i >= 1
    ensures Ray(AfterMove(g, t, mover), t.row, t.col, d, i)
         == if i <= ClosedRun(g, t.row, t.col, d, mover) then mover else Ray(g, t.row, t.col, d, i)
  {
    var x, y := t.row + Offset(i, d.0), t.col + Offset(i, d.1);
    MoveEffectAt(g, t, mover, x, y);
    CapturedOnRay(g, t, mover, d, i);
    assert x != t.row || y != t.col;
  }

  /** The number of opponent pieces a move turns over. */
  ghost function Flips(g: Grid, t: Pos, mover: Piece): nat
    requires ValidGrid(g) && Interior(t.row, t.col)
  {
    CountCells((i, j) => Captured(g, t, mover, i, j))
  }

  lemma {:induction false} CapturedIsOpponent(g: Grid, t: Pos, mover: Piece, i: int, j: int)
    requires ValidGrid(g) && Interior(t.row, t.col) && Captured(g, t, mover, i, j)
    ensures Get(g, i, j) == Opponent(mover) && (i != t.row || j != t.col)
  {
    var d :| IsDirection(d) && OnClosedRun(g, t.row, t.col, d, mover, i, j);
    ClosedRunCells(g, t.row, t.col, d, mover, i, j);
  }

  /** Cells a move changes: the target and the captured runs. */
  ghost predicate Changed(g: Grid, t: Pos, mover: Piece, i: int, j: int)
    requires ValidGrid(g) && Interior(t.row, t.col)
  {
    (i == t.row && j == t.col) || Captured(g, t, mover, i, j)
  }

  lemma {:induction false} ChangedCount(g: Grid, t: Pos, mover: Piece)
    requires ValidGrid(g) && Interior(t.row, t.col)
    ensures CountCells((i, j) => Changed(g, t, mover, i, j)) == 1 + Flips(g, t, mover)
  {
    var Target := (i: int, j: int) => i == t.row && j == t.col;
    forall i, j | InGrid(i, j)
      ensures Ind(Changed(g, t, mover, i, j)) == Ind(Target(i, j)) + Ind(Captured(g, t, mover, i, j))
    {
      if Captured(g, t, mover, i, j) {
        CapturedIsOpponent(g, t, mover, i, j);
      }
    }
    CountSingle(Target, t);
    CountUnion(Target, (i, j) => Captured(g, t, mover, i, j), (i, j) => Changed(g, t, mover, i, j));
  }

  lemma {:induction false} CellAfterMove(g: Grid, t: Pos, mover: Piece, i: int, j: int)
    requires ValidGrid(g) && Interior(t.row, t.col) && Get(g, t.row, t.col) == Empty
    ensures Get(AfterMove(g, t, mover), i, j) == if Changed(g, t, mover, i, j) then mover else Get(g, i, j)
    ensures Changed(g, t, mover, i, j) ==> Get(g, i, j) != mover
    ensures Get(g, i, j) == Opponent(mover) ==> (Changed(g, t, mover, i, j) <==> Captured(g, t, mover, i, j))
  {
    MoveEffectAt(g, t, mover, i, j);
    if Captured(g, t, mover, i, j) {
      CapturedIsOpponent(g, t, mover, i, j);
    }
  }

  /** `piece_counter` after a move to an empty cell: the mover gains the target and every
      flipped piece, the opponent loses the flipped pieces. */
  lemma {:induction false} PieceCounts(g: Grid, t: Pos, mover: Piece)
    requires ValidGrid(g) && Interior(t.row, t.col) && Get(g, t.row, t.col) == Empty
    ensures Count(AfterMove(g, t, mover), mover) == Count(g, mover) + 1 + Flips(g, t, mover)
    ensures Count(AfterMove(g, t, mover), Opponent(mover)) + Flips(g, t, mover) == Count(g, Opponent(mover))
  {
    MoverGains(g, t, mover);
    OpponentLoses(g, t, mover);
  }

  lemma {:induction false} MoverGains(g: Grid, t: Pos, mover: Piece)
    requires ValidGrid(g) && Interior(t.row, t.col) && Get(g, t.row, t.col) == Empty
    ensures Count(AfterMove(g, t, mover), mover) == Count(g, mover) + 1 + Flips(g, t, mover)
  {
    var h := AfterMove(g, t, mover);
    forall i, j | InGrid(i, j)
      ensures Ind(Get(h, i, j) == mover) == Ind(Get(g, i, j) == mover) + Ind(Changed(g, t, mover, i, j))
    {
      CellAfterMove(g, t, mover, i, j);
    }
    CountGain(g, h, mover, (i, j) => Changed(g, t, mover, i, j));
    ChangedCount(g, t, mover);
  }

  lemma {:induction false} OpponentLoses(g: Grid, t: Pos, mover: Piece)
    requires ValidGrid(g) && Interior(t.row, t.col) && Get(g, t.row, t.col) == Empty
    ensures Count(AfterMove(g, t, mover), Opponent(mover)) + Flips(g, t, mover) == Count(g, Opponent(mover))
  {
    var h := AfterMove(g, t, mover);
    var opp := Opponent(mover);
    forall i, j | InGrid(i, j)
      ensures Ind(Get(h, i, j) == opp) + Ind(Captured(g, t, mover, i, j)) == Ind(Get(g, i, j) == opp)
    {
      CellAfterMove(g, t, mover, i, j);
      if Captured(g, t, mover, i, j) {
        CapturedIsOpponent(g, t, mover, i, j);
      }
    }
    CountLoss(g, h, opp, (i, j) => Captured(g, t, mover, i, j));
  }
}
