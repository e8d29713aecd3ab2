/** The Othello board: cell states, the padded 10x10 grid with its EDGE
    sentinel ring, the eight ray directions and the colour names callers use. */
module Board {

  /** One cell of the grid: '.', 'X' (black), 'O' (white) or the '*' sentinel. */
  datatype Cell = Empty | Black | White | Edge

  /** A player's piece. */
  type Piece = c: Cell | c == Black || c == White witness Black

  function Opponent(p: Piece): (q: Piece)
    ensures q != p
  {
    if p == Black then White else Black
  }

  /** A coordinate in the padded grid, as the (row, column) tuples callers exchange. */
  datatype Pos = Pos(row: int, col: int)

  /** The grid is a list of ten rows of ten cells. */
  type Grid = seq<seq<Cell>>

  const Side: int := 10

  predicate InGrid(r: int, c: int) {
    0 <= r < Side && 0 <= c < Side
  }

  /** The playable 8x8 area: rows and columns 1..8. */
  predicate Interior(r: int, c: int) {
    1 <= r <= 8 && 1 <= c <= 8
  }

  /** Well-formed grid: 10x10, the border ring all EDGE and the interior free of EDGE. */
  ghost predicate ValidGrid(g: Grid) {
    && |g| == Side
    && (forall i :: 0 <= i < Side ==> |g[i]| == Side)
    && (forall i, j {:trigger g[i][j]} :: 0 <= i < Side && 0 <= j < Side ==> (g[i][j] == Edge <==> !Interior(i, j)))
  }

  /** The cell at (r, c); off the grid reads as EDGE, which never happens on a ray
      (see Rays), but keeps the specification functions total. */
  function Get(g: Grid, r: int, c: int): Cell {
    if 0 <= r < |g| && 0 <= c < |g[r]| then g[r][c] else Edge
  }

  /** The grid with cell (r, c) overwritten by x. */
  function Put(g: Grid, r: int, c: int, x: Cell): (h: Grid)
    ensures |h| == |g|
  {
    if 0 <= r < |g| && 0 <= c < |g[r]| then g[r := g[r][c := x]] else g
  }

  lemma {:induction false} PutValid(g: Grid, r: int, c: int, x: Piece)
    requires ValidGrid(g) && Interior(r, c)
    ensures ValidGrid(Put(g, r, c, x))
    ensures forall i, j :: Get(Put(g, r, c, x), i, j) == if i == r && j == c then x else Get(g, i, j)
  {
  }

  /** A non-EDGE cell of a valid grid lies in the playable area. */
  lemma {:induction false} NonEdgeIsInterior(g: Grid, r: int, c: int)
    requires ValidGrid(g) && Get(g, r, c) != Edge
    ensures Interior(r, c)
  {
  }

  /** The starting layout: EDGE on the ring, O X / X O in the four centre cells. */
  function InitialCell(i: int, j: int): Cell {
    if !Interior(i, j) then Edge
    else if (i == 4 && j == 4) || (i == 5 && j == 5) then White
    else if (i == 4 && j == 5) || (i == 5 && j == 4) then Black
    else Empty
  }

  /** The grid `__init__` builds: well formed, each cell as InitialCell lays it out. */
  function InitialGrid(): (g: Grid)
    ensures ValidGrid(g)
    ensures forall i, j :: InGrid(i, j) ==> Get(g, i, j) == InitialCell(i, j)
  {
    seq(Side, i => seq(Side, j => InitialCell(i, j)))
  }

  /** The source writes a direction component as '-', '+' or 0. */
  datatype Change = Minus | Plus | NoChange

  type Direction = (Change, Change)

  /** The eight ray directions, in the order both the scan and the flip visit them. */
  const BoardDirections: seq<Direction> := [
    (NoChange, Minus), (NoChange, Plus), (Minus, NoChange), (Plus, NoChange),
    (Plus, Minus), (Minus, Plus), (Minus, Minus), (Plus, Plus)
  ]

  predicate IsDirection(d: Direction) {
    d.0 != NoChange || d.1 != NoChange
  }

  /** The conversion of '-', '+' and 0 to a row or column step. */
  function SingleStep(ch: Change): (s: int)
    ensures -1 <= s <= 1 && (s == 0 <==> ch == NoChange)
  {
    match ch
    case NoChange => 0
    case Minus => -1
    case Plus => 1
  }

  /** i steps along one component: the same value as i * SingleStep(ch), without the
      multiplication. */
  function Offset(i: int, ch: Change): int {
    match ch
    case Minus => -i
    case Plus => i
    case NoChange => 0
  }

  lemma {:induction false} StepTimes(i: int, ch: Change)
    ensures i * SingleStep(ch) == Offset(i, ch)
  {
  }

  function ReverseChange(ch: Change): Change {
    match ch
    case Minus => Plus
    case Plus => Minus
    case NoChange => NoChange
  }

  function Reverse(d: Direction): Direction {
    (ReverseChange(d.0), ReverseChange(d.1))
  }

  /** The table lists each of the eight nonzero steps exactly once. */
  lemma {:induction false} BoardDirectionsComplete()
    ensures |BoardDirections| == 8
    ensures forall d: Direction :: d in BoardDirections <==> IsDirection(d)
    ensures forall i, j :: 0 <= i < j < |BoardDirections| ==> BoardDirections[i] != BoardDirections[j]
  {
    forall d: Direction | IsDirection(d) ensures d in BoardDirections {
      match d
      case (NoChange, Minus) => assert d == BoardDirections[0];
      case (NoChange, Plus) => assert d == BoardDirections[1];
      case (Minus, NoChange) => assert d == BoardDirections[2];
      case (Plus, NoChange) => assert d == BoardDirections[3];
      case (Plus, Minus) => assert d == BoardDirections[4];
      case (Minus, Plus) => assert d == BoardDirections[5];
      case (Minus, Minus) => assert d == BoardDirections[6];
      case (Plus, Plus) => assert d == BoardDirections[7];
    }
  }

  /** ASCII upper-casing, standing for the source's `color.upper()`. */
  function UpperChar(ch: char): char {
    if 'a' <= ch <= 'z' then (ch as int - 32) as char else ch
  }

  function Upper(s: string): (u: string)
    ensures |u| == |s|
    ensures forall i :: 0 <= i < |s| ==> u[i] == UpperChar(s[i])
  {
    if s == [] then [] else [UpperChar(s[0])] + Upper(s[1..])
  }

  /** Only "white" and "black", in any letter case, name a side. */
  predicate IsValidColor(color: string) {
    Upper(color) == "WHITE" || Upper(color) == "BLACK"
  }

  /** The piece of a colour: white for "white", black for anything else. */
  function PieceOf(color: string): Piece {
    if Upper(color) == "WHITE" then White else Black
  }

  lemma {:induction false} ColorNames()
    ensures IsValidColor("white") && PieceOf("white") == White
    ensures IsValidColor("bLaCk") && PieceOf("bLaCk") == Black
    ensures !IsValidColor("green") && PieceOf("green") == Black
  {
  }

  datatype Error = InvalidColor

  datatype Result<T> = Ok(value: T) | Err(error: Error)

  /** The recorded winner: "" until the board fills, then "WHITE", "BLACK" or "TIE". */
  datatype Winner = Undecided | WhiteWins | BlackWins | Tie
}
