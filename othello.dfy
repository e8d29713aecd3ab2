/** The `Othello` game object: the 10x10 board it updates in place, the legal-move
    query, the move applier and the turn logic that records the winner. */
module Game {
  import opened Board
  import opened Rays
  import opened Finder
  import opened Counting
  import opened Applier

  /** What `play_game` reports for a well-named colour: the move was made, or it was
      not among the available positions. */
  datatype Outcome = Moved | InvalidMove

  /** The winner recorded once the board is full. */
  function DecideWinner(white: nat, black: nat): (w: Winner)
    ensures w == WhiteWins <==> white > black
    ensures w == BlackWins <==> black > white
    ensures w == Tie <==> white == black
  {
    if white > black then WhiteWins else if black > white then BlackWins else Tie
  }

  /** The de-duplicating loop of `return_available_positions`: keeps the first occurrence
      of every position. */
  method RemoveDuplicates(items: seq<Pos>) returns (noDuplicates: seq<Pos>)
    ensures NoDuplicates(noDuplicates)
    ensures forall p :: p in noDuplicates <==> p in items
  {
    noDuplicates := [];
    for k := 0 to |items|
      invariant NoDuplicates(noDuplicates)
      invariant forall p :: p in noDuplicates <==> p in items[..k]
    {
      assert items[..k + 1] == items[..k] + [items[k]];
      if items[k] !in noDuplicates {
        noDuplicates := noDuplicates + [items[k]];
      }
    }
    assert items[..|items|] == items;
  }

  class Othello {
    var board: array2<Cell>
    var winner: Winner
    /** The board's contents as a value, kept equal to `board`. */
    ghost var grid: Grid

    ghost predicate Valid()
      reads this`board, this`grid, board
    {
      && board.Length0 == Side && board.Length1 == Side
      && ValidGrid(grid)
      && forall i, j :: 0 <= i < Side && 0 <= j < Side ==> board[i, j] == grid[i][j]
    }

    /** The starting layout, no winner yet. */
    constructor ()
      ensures Valid() && fresh(board)
      ensures grid == InitialGrid() && winner == Undecided
    {
      board := new Cell[Side, Side]((i, j) => InitialCell(i, j));
      grid := InitialGrid();
      winner := Undecided;
    }

    /** Writes one playable cell. */
    method SetCell(row: int, column: int, piece: Piece)
      requires Valid() && Interior(row, column)
      modifies this`grid, board
      ensures Valid() && grid == Put(old(grid), row, column, piece)
    {
      board[row, column] := piece;
      PutValid(grid, row, column, piece);
      grid := Put(grid, row, column, piece);
    }

    /** `piece_counter`: the number of cells holding `piece`. */
    method PieceCounter(piece: Cell) returns (counter: nat)
      requires Valid()
      ensures counter == Count(grid, piece)
    {
      counter := 0;
      var side := board.Length1;
      for y := 0 to side
        invariant counter == PiecesInRows(grid[..y], piece)
      {
        var inRow := CountRow(piece, y);
        assert grid[..y + 1][..y] == grid[..y];
        counter := counter + inRow;
      }
      assert grid[..side] == grid;
    }

    /** The inner loop of `piece_counter`: the cells of row y holding `piece`. */
    method CountRow(piece: Cell, y: int) returns (counter: nat)
      requires Valid() && 0 <= y < Side
      ensures counter == PiecesInRow(grid[y], piece)
    {
      counter := 0;
      var side := board.Length1;
      for x := 0 to side
        invariant counter == PiecesInRow(grid[y][..x], piece)
      {
        assert grid[y][..x + 1][..x] == grid[y][..x];
        if board[y, x] == piece {
          counter := counter + 1;
        }
      }
      assert grid[y][..side] == grid[y];
    }

    /** `piece_positions`: the cells holding the colour's piece, row by row. */
    method PiecePositions(color: string) returns (positions: seq<Pos>)
      requires Valid()
      ensures positions == Positions(grid, PieceOf(color))
    {
      positions := [];
      var piece := PieceOf(color);
      var side := board.Length1;
      for x := 0 to side
        invariant positions == PositionsUpTo(grid, piece, x)
      {
        for y := 0 to side
          invariant positions == PositionsUpTo(grid, piece, x) + RowPositions(grid, piece, x, y)
        {
          if board[x, y] == piece {
            positions := positions + [Pos(x, y)];
          }
        }
      }
    }

    /** `unidirectional_scanner`: walks from a piece of `own` along d and returns the empty
        cell that ends a run of one or more opponent pieces, if any. */
    method ScanDirection(row: int, column: int, d: Direction, own: Piece) returns (res: Option<Pos>)
      requires Valid() && Interior(row, column) && IsDirection(d)
      ensures res == ScanRay(grid, row, column, d, own)
    {
      var opponent := Opponent(own);
      var passed := false;
      ghost var n := RunLength(grid, row, column, d, opponent);
      RunLengthBounds(grid, row, column, d, opponent);
      res := None;
      var index := 1;
      while index < Side
        invariant 1 <= index <= n + 1 < Side
        invariant passed <==> index > 1
      {
        var first := CellAlong(row, column, d, 1, opponent);
        if first == Edge || first == Empty {
          ScanStops(grid, row, column, d, own, index);
          break;
        }
        var cell := CellAlong(row, column, d, index, opponent);
        if cell == own || cell == Edge {
          ScanStops(grid, row, column, d, own, index);
          break;
        } else if cell == opponent {
          passed := true;
        } else if cell == Empty && passed {
          ScanFinds(grid, row, column, d, own, index);
          return Some(Pos(row + Offset(index, d.0), column + Offset(index, d.1)));
        }
        index := index + 1;
      }
    }

    /** `scan_for_moves`: the moves found from one piece, one per direction of the table
        that yields one, in table order. */
    method ScanForMoves(coordinates: Pos) returns (possibleMoves: seq<Pos>)
      requires Valid() && Interior(coordinates.row, coordinates.col)
      ensures possibleMoves == ScanMoves(grid, coordinates.row, coordinates.col,
                                         OwnAt(grid, coordinates.row, coordinates.col), BoardDirections)
    {
      var row, column := coordinates.row, coordinates.col;
      var own := if board[row, column] == White then White else Black;
      BoardDirectionsComplete();
      possibleMoves := [];
      for k := 0 to |BoardDirections|
        invariant possibleMoves == ScanMoves(grid, row, column, own, BoardDirections[..k])
      {
        var result := ScanDirection(row, column, BoardDirections[k], own);
        assert BoardDirections[..k + 1][..k] == BoardDirections[..k];
        if result.Some? {
          possibleMoves := possibleMoves + [result.value];
        }
      }
      assert BoardDirections[..|BoardDirections|] == BoardDirections;
    }

    /** `return_available_positions`: InvalidColor for a colour other than white or black;
        otherwise the legal moves of that colour, in increasing order, each once. The query
        reads the board and changes nothing. */
    method ReturnAvailablePositions(color: string) returns (res: Result<seq<Pos>>)
      requires Valid()
      ensures !IsValidColor(color) ==> res == Err(InvalidColor)
      ensures IsValidColor(color) ==> res.Ok? && StrictlyIncreasing(res.value)
      ensures IsValidColor(color) ==> forall p :: p in res.value <==> IsLegalMove(grid, PieceOf(color), p)
    {
      if Upper(color) != "WHITE" && Upper(color) != "BLACK" {
        return Err(InvalidColor);
      }
      var own := PieceOf(color);
      var colorPositions := PiecePositions(color);
      PositionsInterior(grid, own);
      var result := [];
      for k := 0 to |colorPositions|
        invariant result == Candidates(grid, colorPositions[..k])
      {
        var answer := ScanForMoves(colorPositions[k]);
        assert colorPositions[..k + 1][..k] == colorPositions[..k];
        result := result + answer;
      }
      assert colorPositions[..|colorPositions|] == colorPositions;
      var noDuplicates := RemoveDuplicates(result);
      var sorted := Sort(noDuplicates);
      SortSorted(noDuplicates);
      SortDistinct(noDuplicates);
      forall p ensures p in sorted <==> IsLegalMove(grid, own, p) {
        assert p in sorted <==> p in multiset(noDuplicates);
        CandidatesAreLegalMoves(grid, own, p);
      }
      return Ok(sorted);
    }

    /** `unidirectional_flipper`: collects the opponent pieces met along d and turns them
        over when a piece of the player closes the run. */
    method FlipDirection(row: int, column: int, d: Direction, player: Piece, opponent: Piece)
      requires Valid() && Interior(row, column) && IsDirection(d) && opponent == Opponent(player)
      modifies this`grid, board
      ensures Valid() && grid == FlipRay(old(grid), row, column, d, player)
    {
      var potentialFlips, closed := CollectFlips(row, column, d, player, opponent);
      if closed {
        FlipCells(potentialFlips, player, grid, row, column, d);
      } else {
        assert RunCells(row, column, d, 0) == [];
      }
    }

    /** The scanning loop of `unidirectional_flipper`: walks away from (row, column)
        collecting opponent pieces until an edge, an empty cell or a piece of `player`;
        `closed` tells whether a piece of `player` ended the walk. */
    method CollectFlips(row: int, column: int, d: Direction, player: Piece, opponent: Piece)
      returns (potentialFlips: seq<Pos>, closed: bool)
      requires Valid() && Interior(row, column) && IsDirection(d) && opponent == Opponent(player)
      ensures potentialFlips == RunCells(row, column, d, ClosedRun(grid, row, column, d, player))
      ensures !closed ==> ClosedRun(grid, row, column, d, player) == 0
    {
      potentialFlips := [];
      ghost var n := RunLength(grid, row, column, d, opponent);
      RunLengthBounds(grid, row, column, d, opponent);
      var index := 1;
      while index < Side
        invariant 1 <= index <= n + 1 < Side
        invariant potentialFlips == RunCells(row, column, d, index - 1)
      {
        var first := CellAlong(row, column, d, 1, opponent);
        if first == Edge || first == Empty {
          OpenRunIsEmpty(grid, row, column, d, player, index);
          return [], false;
        }
        var cell := CellAlong(row, column, d, index, opponent);
        if cell == Edge || cell == Empty {
          OpenRunIsEmpty(grid, row, column, d, player, index);
          return [], false;
        } else if cell == opponent {
          RunCellsExtend(row, column, d, index);
          potentialFlips := potentialFlips + [Pos(row + Offset(index, d.0), column + Offset(index, d.1))];
        } else if cell == player {
          ClosedRunAt(grid, row, column, d, player, index);
          return potentialFlips, true;
        }
        index := index + 1;
      }
      // Every walk ends on an edge at the latest, so the loop never runs out.
      assert false;
    }

    /** The cell `index` steps from (row, column) along d, read from the board the way the
        walks of `unidirectional_scanner` and `unidirectional_flipper` read it. */
    method CellAlong(row: int, column: int, d: Direction, index: int, opp: Piece) returns (cell: Cell)
      requires Valid() && Interior(row, column) && IsDirection(d)
      requires 1 <= index <= RunLength(grid, row, column, d, opp) + 1
      ensures cell == Ray(grid, row, column, d, index)
      ensures cell == opp <==> index <= RunLength(grid, row, column, d, opp)
    {
      StepTimes(index, d.0);
      StepTimes(index, d.1);
      RunCell(grid, row, column, d, opp, index);
      cell := board[row + index * SingleStep(d.0), column + index * SingleStep(d.1)];
    }

    /** The inner loop of `unidirectional_flipper`: turns every collected cell over. */
    method FlipCells(flips: seq<Pos>, player: Piece, ghost start: Grid, ghost row: int, ghost column: int,
                     ghost d: Direction)
      requires Valid() && grid == start && Interior(row, column) && IsDirection(d)
      requires flips == RunCells(row, column, d, ClosedRun(start, row, column, d, player))
      modifies this`grid, board
      ensures Valid() && grid == FlipRay(start, row, column, d, player)
    {
      forall k | 0 <= k < |flips| ensures Interior(flips[k].row, flips[k].col) {
        ClosedRunCells(start, row, column, d, player, flips[k].row, flips[k].col);
      }
      for k := 0 to |flips|
        invariant Valid() && grid == SetAll(start, flips[..k], player)
      {
        assert flips[..k + 1][..k] == flips[..k];
        SetCell(flips[k].row, flips[k].col, player);
      }
      assert flips[..|flips|] == flips;
    }

    /** `flip_pieces`: every direction of the table in turn. */
    method FlipPieces(player: Piece, coordinates: Pos, opponent: Piece)
      requires Valid() && Interior(coordinates.row, coordinates.col) && opponent == Opponent(player)
      modifies this`grid, board
      ensures Valid() && DistinctDirections(BoardDirections)
      ensures grid == FlipAll(old(grid), coordinates.row, coordinates.col, player, BoardDirections)
    {
      TableDistinct();
      ghost var start := grid;
      for k := 0 to |BoardDirections|
        invariant Valid()
        invariant DistinctDirections(BoardDirections[..k])
        invariant grid == FlipAll(start, coordinates.row, coordinates.col, player, BoardDirections[..k])
      {
        FlipAllPrefix(start, coordinates.row, coordinates.col, player, BoardDirections, k);
        FlipDirection(coordinates.row, coordinates.col, BoardDirections[k], player, opponent);
      }
      assert BoardDirections[..|BoardDirections|] == BoardDirections;
    }

    /** `make_move`: the target takes the mover's piece (white for "white", black for any
        other colour), then the closed runs flip. */
    method MakeMove(color: string, piecePosition: Pos)
      requires Valid() && Interior(piecePosition.row, piecePosition.col)
      modifies this`grid, board
      ensures Valid() && grid == AfterMove(old(grid), piecePosition, PieceOf(color))
    {
      var playerPiece := PieceOf(color);
      var opponentPiece := Opponent(playerPiece);
      SetCell(piecePosition.row, piecePosition.col, playerPiece);
      FlipPieces(playerPiece, piecePosition, opponentPiece);
    }

    /** The end-of-game branch of `play_game`: the side with more pieces wins, equal counts tie. */
    method RecordWinner(whiteCount: nat, blackCount: nat)
      modifies this`winner
      ensures winner == DecideWinner(whiteCount, blackCount)
    {
      if whiteCount > blackCount {
        winner := WhiteWins;
      } else if blackCount > whiteCount {
        winner := BlackWins;
      } else {
        winner := Tie;
      }
    }

    /** `play_game`: InvalidColor for a bad colour; InvalidMove, with nothing changed, for a
        position that is not a legal move; otherwise the move is made and, once the board
        holds 64 pieces, the winner is recorded. */
    method PlayGame(playerColor: string, piecePosition: Pos) returns (res: Result<Outcome>)
      requires Valid()
      modifies this`grid, this`winner, board
      ensures Valid()
      ensures !IsValidColor(playerColor) ==>
                res == Err(InvalidColor) && grid == old(grid) && winner == old(winner)
      ensures IsValidColor(playerColor) && !IsLegalMove(old(grid), PieceOf(playerColor), piecePosition) ==>
                res == Ok(InvalidMove) && grid == old(grid) && winner == old(winner)
      ensures IsValidColor(playerColor) && IsLegalMove(old(grid), PieceOf(playerColor), piecePosition) ==>
                && res == Ok(Moved)
                && grid == AfterMove(old(grid), piecePosition, PieceOf(playerColor))
                && winner == if Count(grid, White) + Count(grid, Black) == 64
                             then DecideWinner(Count(grid, White), Count(grid, Black))
                             else old(winner)
    {
      var possibleMoves := ReturnAvailablePositions(playerColor);
      if possibleMoves.Err? {
        return Err(possibleMoves.error);
      }
      if piecePosition in possibleMoves.value {
        MakeMove(playerColor, piecePosition);
        var whiteCount := PieceCounter(White);
        var blackCount := PieceCounter(Black);
        if whiteCount + blackCount == 64 {
          RecordWinner(whiteCount, blackCount);
        }
        return Ok(Moved);
      }
      return Ok(InvalidMove);
    }
  }
}
