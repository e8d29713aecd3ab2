/** The ray walk shared by the move finder and the move applier: from an origin cell,
    step along one direction over a run of opponent pieces and look at the cell that
    ends the run. */
module Rays {
  import opened Board

  /** The cell i steps from (r, c) along d. */
  function Ray(g: Grid, r: int, c: int, d: Direction, i: int): Cell {
    Get(g, r + Offset(i, d.0), c + Offset(i, d.1))
  }

  /** Steps left before a component leaves the grid; strictly decreases along a ray. */
  function Room(x: int, ch: Change): int {
    match ch
    case Minus => x
    case Plus => Side - 1 - x
    case NoChange => 0
  }

  /** The number of contiguous `opp` pieces met stepping from (r, c) along d. */
  function RunLength(g: Grid, r: int, c: int, d: Direction, opp: Piece): nat
    requires ValidGrid(g) && Interior(r, c) && IsDirection(d)
    decreases Room(r, d.0) + Room(c, d.1)
  {
    var r', c' := r + Offset(1, d.0), c + Offset(1, d.1);
    if Get(g, r', c') == opp then
      NonEdgeIsInterior(g, r', c');
      1 + RunLength(g, r', c', d, opp)
    else
      0
  }

  /** Cells 1..n of the ray hold `opp` and cell n+1 does not. */
  lemma {:induction false} RunLengthSpec(g: Grid, r: int, c: int, d: Direction, opp: Piece)
    requires ValidGrid(g) && Interior(r, c) && IsDirection(d)
    ensures var n := RunLength(g, r, c, d, opp);
      && (forall i :: 1 <= i <= n ==> Ray(g, r, c, d, i) == opp)
      && Ray(g, r, c, d, n + 1) != opp
    decreases Room(r, d.0) + Room(c, d.1)
  {
    var r', c' := r + Offset(1, d.0), c + Offset(1, d.1);
    if Get(g, r', c') == opp {
      NonEdgeIsInterior(g, r', c');
      RunLengthSpec(g, r', c', d, opp);
      RayStep(g, r, c, d, r', c');
    }
  }

  /** The last cell of the run (or the origin) is in the playable area and the cell that
      ends the run is still inside the 10x10 grid: a walk takes at most 8 steps and never
      leaves the grid. */
  lemma {:induction false} RunLengthBounds(g: Grid, r: int, c: int, d: Direction, opp: Piece)
    requires ValidGrid(g) && Interior(r, c) && IsDirection(d)
    ensures var n := RunLength(g, r, c, d, opp);
      && Interior(r + Offset(n, d.0), c + Offset(n, d.1))
      && InGrid(r + Offset(n + 1, d.0), c + Offset(n + 1, d.1))
      && n <= 7
    decreases Room(r, d.0) + Room(c, d.1)
  {
    var r', c' := r + Offset(1, d.0), c + Offset(1, d.1);
    if Get(g, r', c') == opp {
      NonEdgeIsInterior(g, r', c');
      RunLengthBounds(g, r', c', d, opp);
      var m := RunLength(g, r', c', d, opp);
      assert r' + Offset(m, d.0) == r + Offset(m + 1, d.0) && c' + Offset(m, d.1) == c + Offset(m + 1, d.1) by {
        match d.0 { case Minus => case Plus => case NoChange => }
        match d.1 { case Minus => case Plus => case NoChange => }
      }
      assert r' + Offset(m + 1, d.0) == r + Offset(m + 2, d.0) && c' + Offset(m + 1, d.1) == c + Offset(m + 2, d.1) by {
        match d.0 { case Minus => case Plus => case NoChange => }
        match d.1 { case Minus => case Plus => case NoChange => }
      }
    }
  }

  /** The cells a walk reads, up to the one that ends the run, lie in the 10x10 grid;
      the first n hold `opp` and the next does not. */
  lemma {:induction false} RunCell(g: Grid, r: int, c: int, d: Direction, opp: Piece, i: int)
    requires ValidGrid(g) && Interior(r, c) && IsDirection(d)
    requires 1 <= i <= RunLength(g, r, c, d, opp) + 1
    ensures InGrid(r + Offset(i, d.0), c + Offset(i, d.1))
    ensures Ray(g, r, c, d, i) == g[r + Offset(i, d.0)][c + Offset(i, d.1)]
    ensures Ray(g, r, c, d, i) == opp <==> i <= RunLength(g, r, c, d, opp)
  {
    RunLengthSpec(g, r, c, d, opp);
    RunLengthBounds(g, r, c, d, opp);
  }

  /** Stepping the origin once along d to (r', c') shifts every ray index by one. */
  lemma {:induction false} RayStep(g: Grid, r: int, c: int, d: Direction, r': int, c': int)
    requires r' == r + Offset(1, d.0) && c' == c + Offset(1, d.1)
    ensures forall i :: Ray(g, r, c, d, i) == Ray(g, r', c', d, i - 1)
  {
    forall i ensures Ray(g, r, c, d, i) == Ray(g, r', c', d, i - 1) {
      match d.0 { case Minus => case Plus => case NoChange => }
      match d.1 { case Minus => case Plus => case NoChange => }
    }
  }

  /** A run length is determined by its cells: k opponent cells followed by a non-opponent
      cell is the run. */
  lemma {:induction false} RunLengthIs(g: Grid, r: int, c: int, d: Direction, opp: Piece, k: nat)
    requires ValidGrid(g) && Interior(r, c) && IsDirection(d)
    requires forall i :: 1 <= i <= k ==> Ray(g, r, c, d, i) == opp
    requires Ray(g, r, c, d, k + 1) != opp
    ensures RunLength(g, r, c, d, opp) == k
  {
    RunLengthSpec(g, r, c, d, opp);
  }

  /** What `unidirectional_scanner` returns from a piece of side `own` at (r, c): the empty
      cell that ends a run of one or more opponent pieces, or nothing. */
  function ScanRay(g: Grid, r: int, c: int, d: Direction, own: Piece): (res: Option<Pos>)
    requires ValidGrid(g) && Interior(r, c) && IsDirection(d)
  {
    var n := RunLength(g, r, c, d, Opponent(own));
    if n >= 1 && Ray(g, r, c, d, n + 1) == Empty then
      Some(Pos(r + Offset(n + 1, d.0), c + Offset(n + 1, d.1)))
    else
      None
  }

  datatype Option<T> = None | Some(value: T)

  /** A walk that stops on an edge, on an empty first cell or on a piece of its own side
      finds nothing. */
  lemma {:induction false} ScanStops(g: Grid, r: int, c: int, d: Direction, own: Piece, i: int)
    requires ValidGrid(g) && Interior(r, c) && IsDirection(d)
    requires 1 <= i <= RunLength(g, r, c, d, Opponent(own)) + 1
    requires Ray(g, r, c, d, 1) in {Edge, Empty} || Ray(g, r, c, d, i) in {own, Edge}
    ensures ScanRay(g, r, c, d, own) == None
  {
    RunCell(g, r, c, d, Opponent(own), 1);
    RunCell(g, r, c, d, Opponent(own), i);
  }

  /** A walk that meets an empty cell after at least one opponent piece finds that cell. */
  lemma {:induction false} ScanFinds(g: Grid, r: int, c: int, d: Direction, own: Piece, i: int)
    requires ValidGrid(g) && Interior(r, c) && IsDirection(d)
    requires 2 <= i <= RunLength(g, r, c, d, Opponent(own)) + 1
    requires Ray(g, r, c, d, i) == Empty
    ensures ScanRay(g, r, c, d, own) == Some(Pos(r + Offset(i, d.0), c + Offset(i, d.1)))
  {
    var n := RunLength(g, r, c, d, Opponent(own));
    RunCell(g, r, c, d, Opponent(own), i);
    assert i == n + 1 && n >= 1;
    assert Ray(g, r, c, d, n + 1) == Empty;
  }

  /** The length of the run `unidirectional_flipper` turns over when `mover` plays at
      (r, c): the opponent run when a `mover` piece closes it, zero when EMPTY or EDGE
      does. */
  function ClosedRun(g: Grid, r: int, c: int, d: Direction, mover: Piece): nat
    requires ValidGrid(g) && Interior(r, c) && IsDirection(d)
  {
    var n := RunLength(g, r, c, d, Opponent(mover));
    if Ray(g, r, c, d, n + 1) == mover then n else 0
  }

  /** Where the walk stops at a cell that is neither the mover's nor the opponent's,
      or where its first cell is such a cell, the run is not closed. */
  lemma {:induction false} OpenRunIsEmpty(g: Grid, r: int, c: int, d: Direction, mover: Piece, i: int)
    requires ValidGrid(g) && Interior(r, c) && IsDirection(d)
    requires 1 <= i <= RunLength(g, r, c, d, Opponent(mover)) + 1
    requires Ray(g, r, c, d, i) !in {Opponent(mover), mover} || Ray(g, r, c, d, 1) !in {Opponent(mover), mover}
    ensures ClosedRun(g, r, c, d, mover) == 0
    ensures Ray(g, r, c, d, RunLength(g, r, c, d, Opponent(mover)) + 1) != mover
  {
    RunCell(g, r, c, d, Opponent(mover), i);
    RunCell(g, r, c, d, Opponent(mover), 1);
  }

  /** Where the walk meets a piece of the mover, that piece closes the run. */
  lemma {:induction false} ClosedRunAt(g: Grid, r: int, c: int, d: Direction, mover: Piece, i: int)
    requires ValidGrid(g) && Interior(r, c) && IsDirection(d)
    requires 1 <= i <= RunLength(g, r, c, d, Opponent(mover)) + 1
    requires Ray(g, r, c, d, i) == mover
    ensures ClosedRun(g, r, c, d, mover) == i - 1
    ensures Ray(g, r, c, d, RunLength(g, r, c, d, Opponent(mover)) + 1) == mover
  {
    RunCell(g, r, c, d, Opponent(mover), i);
  }

  /** The first m cells of the ray, in walking order: what `unidirectional_flipper` collects
      as `potential_flips`. */
  function RunCells(r: int, c: int, d: Direction, m: nat): seq<Pos> {
    seq(m, k => Pos(r + Offset(k + 1, d.0), c + Offset(k + 1, d.1)))
  }

  /** One more step of the walk appends the next cell of the ray. */
  lemma {:induction false} RunCellsExtend(r: int, c: int, d: Direction, m: nat)
    requires m >= 1
    ensures RunCells(r, c, d, m) == RunCells(r, c, d, m - 1) + [Pos(r + Offset(m, d.0), c + Offset(m, d.1))]
  {
    var longer, shorter := RunCells(r, c, d, m), RunCells(r, c, d, m - 1) + [Pos(r + Offset(m, d.0), c + Offset(m, d.1))];
    assert forall k :: 0 <= k < m ==> longer[k] == shorter[k];
  }

  /** The step at which a listed cell lies on the ray. */
  lemma {:induction false} RunCellStep(r: int, c: int, d: Direction, m: nat, p: Pos) returns (k: int)
    requires IsDirection(d) && p in RunCells(r, c, d, m)
    ensures 1 <= k <= m && p == Pos(r + Offset(k, d.0), c + Offset(k, d.1))
    ensures p != Pos(r, c)
  {
    var cells := RunCells(r, c, d, m);
    var i :| 0 <= i < |cells| && cells[i] == p;
    k := i + 1;
  }

  /** Whether (i, j) lies on the run `mover` captures along d by playing at (r, c). */
  ghost predicate OnClosedRun(g: Grid, r: int, c: int, d: Direction, mover: Piece, i: int, j: int)
    requires ValidGrid(g) && Interior(r, c) && IsDirection(d)
  {
    Pos(i, j) in RunCells(r, c, d, ClosedRun(g, r, c, d, mover))
  }

  /** Every cell of a captured run is an opponent piece in the playable area. */
  lemma {:induction false} ClosedRunCells(g: Grid, r: int, c: int, d: Direction, mover: Piece, i: int, j: int)
    requires ValidGrid(g) && Interior(r, c) && IsDirection(d)
    requires OnClosedRun(g, r, c, d, mover, i, j)
    ensures Interior(i, j) && Get(g, i, j) == Opponent(mover)
    ensures i != r || j != c
  {
    var n := ClosedRun(g, r, c, d, mover);
    var k := RunCellStep(r, c, d, n, Pos(i, j));
    RunCell(g, r, c, d, Opponent(mover), k);
    NonEdgeIsInterior(g, i, j);
  }

  /** Two grids that agree along a ray from (r, c) have the same run and closing cell
      there: the walk reads nothing else. */
  lemma {:induction false} RayFrame(g: Grid, h: Grid, r: int, c: int, d: Direction, mover: Piece)
    requires ValidGrid(g) && ValidGrid(h) && Interior(r, c) && IsDirection(d)
    requires forall i :: 1 <= i <= 8 ==> Ray(g, r, c, d, i) == Ray(h, r, c, d, i)
    ensures RunLength(g, r, c, d, Opponent(mover)) == RunLength(h, r, c, d, Opponent(mover))
    ensures ClosedRun(g, r, c, d, mover) == ClosedRun(h, r, c, d, mover)
    ensures ScanRay(g, r, c, d, mover) == ScanRay(h, r, c, d, mover)
  {
    var opp := Opponent(mover);
    var n := RunLength(g, r, c, d, opp);
    RunLengthSpec(g, r, c, d, opp);
    RunLengthBounds(g, r, c, d, opp);
    assert forall i :: 1 <= i <= n ==> Ray(h, r, c, d, i) == opp;
    assert Ray(h, r, c, d, n + 1) == Ray(g, r, c, d, n + 1);
    RunLengthIs(h, r, c, d, opp, n);
    SameRunSameClosedRun(g, h, r, c, d, mover, n);
    SameRunSameScan(g, h, r, c, d, mover, n);
  }

  lemma {:induction false} SameRunSameClosedRun(g: Grid, h: Grid, r: int, c: int, d: Direction, mover: Piece, n: nat)
    requires ValidGrid(g) && ValidGrid(h) && Interior(r, c) && IsDirection(d)
    requires n == RunLength(g, r, c, d, Opponent(mover)) == RunLength(h, r, c, d, Opponent(mover))
    requires Ray(g, r, c, d, n + 1) == Ray(h, r, c, d, n + 1)
    ensures ClosedRun(g, r, c, d, mover) == ClosedRun(h, r, c, d, mover)
  {
  }

  lemma {:induction false} SameRunSameScan(g: Grid, h: Grid, r: int, c: int, d: Direction, own: Piece, n: nat)
    requires ValidGrid(g) && ValidGrid(h) && Interior(r, c) && IsDirection(d)
    requires n == RunLength(g, r, c, d, Opponent(own)) == RunLength(h, r, c, d, Opponent(own))
    requires Ray(g, r, c, d, n + 1) == Ray(h, r, c, d, n + 1)
    ensures ScanRay(g, r, c, d, own) == ScanRay(h, r, c, d, own)
  {
  }

  /** Rays in two different directions from one origin share no cell. */
  lemma {:induction false} RaysDisjoint(r: int, c: int, d: Direction, e: Direction, i: int, k: int)
    requires IsDirection(d) && IsDirection(e) && i >= 1 && k >= 1
    requires r + Offset(i, d.0) == r + Offset(k, e.0) && c + Offset(i, d.1) == c + Offset(k, e.1)
    ensures d == e && i == k
  {
  }

  /** Walking back from the end of a ray retraces it: the cell i steps along the reverse
      of d from the (n+1)-th cell is the (n+1-i)-th cell from the origin. */
  lemma {:induction false} RayReversed(g: Grid, r: int, c: int, d: Direction, n: int, i: int)
    ensures Ray(g, r + Offset(n + 1, d.0), c + Offset(n + 1, d.1), Reverse(d), i)
         == Ray(g, r, c, d, n + 1 - i)
  {
  }

  /** A run read backwards from the cell that ends it is the same run, ended by the
      cell the forward walk started from. */
  lemma {:induction false} RunReversed(g: Grid, r: int, c: int, d: Direction, opp: Piece, n: nat, r2: int, c2: int)
    requires ValidGrid(g) && Interior(r, c) && IsDirection(d) && Get(g, r, c) != opp
    requires forall i :: 1 <= i <= n ==> Ray(g, r, c, d, i) == opp
    requires r2 == r + Offset(n + 1, d.0) && c2 == c + Offset(n + 1, d.1) && Interior(r2, c2)
    ensures RunLength(g, r2, c2, Reverse(d), opp) == n
    ensures Ray(g, r2, c2, Reverse(d), n + 1) == Get(g, r, c)
  {
    forall i | 1 <= i <= n + 1
      ensures Ray(g, r2, c2, Reverse(d), i) == Ray(g, r, c, d, n + 1 - i)
    {
      RayReversed(g, r, c, d, n, i);
    }
    assert Ray(g, r, c, d, 0) == Get(g, r, c);
    RunLengthIs(g, r2, c2, Reverse(d), opp, n);
  }

  /** The move finder and the move applier agree: a ray from a piece of `own` at q finds
      the empty cell p only when playing `own` at p captures the same run walking back
      toward q. */
  lemma {:induction false} ScanMatchesCapture(g: Grid, q: Pos, d: Direction, own: Piece)
    requires ValidGrid(g) && Interior(q.row, q.col) && IsDirection(d)
    requires Get(g, q.row, q.col) == own
    requires ScanRay(g, q.row, q.col, d, own).Some?
    ensures var p := ScanRay(g, q.row, q.col, d, own).value;
      && Interior(p.row, p.col) && Get(g, p.row, p.col) == Empty
      && ClosedRun(g, p.row, p.col, Reverse(d), own) >= 1
  {
    var opp := Opponent(own);
    var n := RunLength(g, q.row, q.col, d, opp);
    RunLengthSpec(g, q.row, q.col, d, opp);
    var p := ScanRay(g, q.row, q.col, d, own).value;
    assert Ray(g, q.row, q.col, d, n + 1) == Get(g, p.row, p.col) == Empty;
    NonEdgeIsInterior(g, p.row, p.col);
    RunReversed(g, q.row, q.col, d, opp, n, p.row, p.col);
  }

  /** ... and conversely: a capture by `own` at the empty cell p is found by the ray cast
      back from the `own` piece that closes it. */
  lemma {:induction false} CaptureMatchesScan(g: Grid, p: Pos, d: Direction, own: Piece)
    requires ValidGrid(g) && Interior(p.row, p.col) && IsDirection(d)
    requires Get(g, p.row, p.col) == Empty
    requires ClosedRun(g, p.row, p.col, d, own) >= 1
    ensures var n := ClosedRun(g, p.row, p.col, d, own);
      var q := Pos(p.row + Offset(n + 1, d.0), p.col + Offset(n + 1, d.1));
      && Interior(q.row, q.col) && Get(g, q.row, q.col) == own
      && ScanRay(g, q.row, q.col, Reverse(d), own) == Some(p)
  {
    var n := RunLength(g, p.row, p.col, d, Opponent(own));
    var q := Pos(p.row + Offset(n + 1, d.0), p.col + Offset(n + 1, d.1));
    assert Ray(g, p.row, p.col, d, n + 1) == own && ClosedRun(g, p.row, p.col, d, own) == n;
    ClosingPiece(g, p, d, own, n, q);
    ScanFinds(g, q.row, q.col, Reverse(d), own, n + 1);
    ReverseTwice(d, p, q, n);
    assert ScanRay(g, q.row, q.col, Reverse(d), own) == Some(p);
  }

  /** The piece that closes a captured run stands in the playable area, and the run read
      back from it is the same run, ended by the empty cell the move is made on. */
  lemma {:induction false} ClosingPiece(g: Grid, p: Pos, d: Direction, own: Piece, n: nat, q: Pos)
    requires ValidGrid(g) && Interior(p.row, p.col) && IsDirection(d)
    requires Get(g, p.row, p.col) == Empty
    requires n == RunLength(g, p.row, p.col, d, Opponent(own)) && Ray(g, p.row, p.col, d, n + 1) == own
    requires q == Pos(p.row + Offset(n + 1, d.0), p.col + Offset(n + 1, d.1))
    ensures Interior(q.row, q.col) && Get(g, q.row, q.col) == own
    ensures RunLength(g, q.row, q.col, Reverse(d), Opponent(own)) == n
    ensures Ray(g, q.row, q.col, Reverse(d), n + 1) == Empty
  {
    RunLengthSpec(g, p.row, p.col, d, Opponent(own));
    NonEdgeIsInterior(g, q.row, q.col);
    RunReversed(g, p.row, p.col, d, Opponent(own), n, q.row, q.col);
  }

  lemma {:induction false} ReverseTwice(d: Direction, p: Pos, q: Pos, n: int)
    requires q == Pos(p.row + Offset(n + 1, d.0), p.col + Offset(n + 1, d.1))
    ensures p == Pos(q.row + Offset(n + 1, Reverse(d).0), q.col + Offset(n + 1, Reverse(d).1))
  {
    match d.0 { case Minus => case Plus => case NoChange => }
    match d.1 { case Minus => case Plus => case NoChange => }
  }
}
