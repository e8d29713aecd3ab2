/** The opening position: on the starting board black has exactly four legal moves, and
    the finder lists them in coordinate order. */
module Opening {
  import opened Board
  import opened Rays
  import opened Finder

  /** Black's opening moves, in the order `return_available_positions` sorts them. */
  const BlackOpenings: seq<Pos> := [Pos(3, 4), Pos(4, 3), Pos(5, 6), Pos(6, 5)]

  /** A grid laid out as the starting board. */
  ghost predicate Starting(g: Grid) {
    ValidGrid(g) && forall i, j :: InGrid(i, j) ==> Get(g, i, j) == InitialCell(i, j)
  }

  /** On the starting board a black move closes a white run only from the four cells
      next to a white piece and in line with a black one. */
  lemma {:induction false} OnlyOpeningsCapture(g: Grid, p: Pos, d: Direction)
    requires Starting(g) && Interior(p.row, p.col) && IsDirection(d)
    ensures ClosedRun(g, p.row, p.col, d, Black) >= 1 ==> p in BlackOpenings
  {
    RunLengthSpec(g, p.row, p.col, d, White);
    RunLengthBounds(g, p.row, p.col, d, White);
    WhiteThenBlack(g, p, d);
    TwoWhites(g, p, d);
  }

  /** A white piece next to p and a black piece behind it: p is an opening cell. */
  lemma {:induction false} WhiteThenBlack(g: Grid, p: Pos, d: Direction)
    requires Starting(g) && Interior(p.row, p.col) && IsDirection(d)
    ensures Ray(g, p.row, p.col, d, 1) == White && Ray(g, p.row, p.col, d, 2) == Black ==> p in BlackOpenings
  {
    match d.0 { case Minus => case Plus => case NoChange => }
    match d.1 { case Minus => case Plus => case NoChange => }
  }

  /** Two white pieces in a row from p are the diagonal pair, and an empty cell follows. */
  lemma {:induction false} TwoWhites(g: Grid, p: Pos, d: Direction)
    requires Starting(g) && Interior(p.row, p.col) && IsDirection(d)
    ensures Ray(g, p.row, p.col, d, 1) == White && Ray(g, p.row, p.col, d, 2) == White ==> Ray(g, p.row, p.col, d, 3) == Empty
  {
    match d.0 { case Minus => case Plus => case NoChange => }
    match d.1 { case Minus => case Plus => case NoChange => }
  }

  /** One opponent piece followed by a mover's piece is a closed run of one. */
  lemma {:induction false} ClosesOne(g: Grid, p: Pos, d: Direction, mover: Piece)
    requires ValidGrid(g) && Interior(p.row, p.col) && IsDirection(d)
    requires Ray(g, p.row, p.col, d, 1) == Opponent(mover) && Ray(g, p.row, p.col, d, 2) == mover
    ensures ClosedRun(g, p.row, p.col, d, mover) == 1
  {
    RunLengthIs(g, p.row, p.col, d, Opponent(mover), 1);
  }

  /** Each of the four opening cells is empty and closes one white piece with a black one. */
  lemma {:induction false} OpeningsCapture(g: Grid, p: Pos)
    requires Starting(g) && p in BlackOpenings
    ensures Interior(p.row, p.col) && Get(g, p.row, p.col) == Empty
    ensures exists d :: IsDirection(d) && ClosedRun(g, p.row, p.col, d, Black) >= 1
  {
    if p == Pos(3, 4) {
      assert Get(g, 4, 4) == White && Get(g, 5, 4) == Black;
      ClosesOne(g, p, (Plus, NoChange), Black);
    } else if p == Pos(4, 3) {
      assert Get(g, 4, 4) == White && Get(g, 4, 5) == Black;
      ClosesOne(g, p, (NoChange, Plus), Black);
    } else if p == Pos(5, 6) {
      assert Get(g, 5, 5) == White && Get(g, 5, 4) == Black;
      ClosesOne(g, p, (NoChange, Minus), Black);
    } else {
      assert Get(g, 5, 5) == White && Get(g, 4, 5) == Black;
      ClosesOne(g, p, (Minus, NoChange), Black);
    }
  }

  /** The legal moves of black on the starting board are exactly the four opening cells. */
  lemma {:induction false} BlackOpeningMoves(p: Pos)
    ensures IsLegalMove(InitialGrid(), Black, p) <==> p in BlackOpenings
  {
    if IsLegalMove(InitialGrid(), Black, p) {
      var d :| IsDirection(d) && ClosedRun(InitialGrid(), p.row, p.col, d, Black) >= 1;
      OnlyOpeningsCapture(InitialGrid(), p, d);
    }
    if p in BlackOpenings {
      OpeningsCapture(InitialGrid(), p);
    }
  }

  /** Any strictly increasing list of black's legal moves on the starting board (what the
      finder returns) is the list of the four opening cells in coordinate order. */
  lemma {:induction false} OpeningMovesForBlack(s: seq<Pos>)
    requires StrictlyIncreasing(s) && forall p :: p in s <==> IsLegalMove(InitialGrid(), Black, p)
    ensures s == BlackOpenings
  {
    forall p ensures p in s <==> p in BlackOpenings {
      BlackOpeningMoves(p);
    }
    StrictlyIncreasingUnique(s, BlackOpenings);
  }
}
