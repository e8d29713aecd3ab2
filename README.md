# Othello engine — a verified Dafny model

This project models the board engine of `Othello.py`, the `Othello` class of a small
two-player Othello (Reversi) game, and proves what it promises.

The engine keeps a 10x10 grid of characters. The 8x8 playable area is rows and columns
1..8, and a ring of `'*'` EDGE sentinels surrounds it. Black pieces are `'X'`, white pieces
`'O'` and empty cells `'.'`. Callers exchange coordinates in these padded indices.

- The **finder** (`piece_positions`, `scan_for_moves`, `return_available_positions`)
  casts a ray in each of the eight directions of `BOARD_DIRECTIONS` from every piece of a
  side. The first empty cell after one or more contiguous opponent pieces is a move. The
  result is de-duplicated and sorted.
- The **applier** (`make_move`, `flip_pieces`) writes the mover's piece on the target.
  It then walks each direction, collecting opponent pieces, and turns them over when a
  piece of the mover closes the run.
- The **turn** (`play_game`) rejects a position that the finder does not list. Otherwise
  it makes the move, counts the pieces with `piece_counter` and, on a full board of 64
  pieces, records the winner.

Files, one Dafny module each:

- `board.dfy` (`Board`): cells, the grid and its well-formedness (an EDGE ring and no
  EDGE inside), the starting layout, the direction table, and colour names.
- `rays.dfy` (`Rays`): the one ray walk shared by the finder and the applier. It defines
  the run of opponent pieces, what the scan finds, and the run a move captures. It also
  proves that the scan and the capture are the same walk read in opposite directions.
- `finder.dfy` (`Finder`): the specification of the finder: positions, candidates, legal
  moves, and the sort and its ordering.
- `applier.dfy` (`Applier`): the specification of a move, cell by cell, and the piece
  counts after it.
- `counting.dfy` (`Counting`): counting cells row by row, as `piece_counter` does.
- `othello.dfy` (`Game`): class `Othello` over an `array2<Cell>`. A ghost `grid` is kept
  equal to the array. Each method of the source is a method here, with the source's loops
  and their invariants, and is proved against the specification functions above.
- `opening.dfy` (`Opening`): black's legal moves on the starting board.

The source's `'-'`, `'+'` and `0` direction components are the datatype `Change`. The
colour strings are `string`. The error the source raises, `InvalidColor`, is the `Err`
case of a `Result`.

## Model

| member | source | states |
|---|---|---|
| Board.Opponent | Othello.py:159 | the opponent of a piece is the other piece |
| Board.InitialGrid | Othello.py:49-62 | the starting board is well formed: an EDGE ring, no EDGE inside, 'O' at (4,4) and (5,5), 'X' at (4,5) and (5,4), everything else empty |
| Board.PutValid | Othello.py:268 | writing a piece on a playable cell keeps the board well formed and changes that cell only |
| Board.NonEdgeIsInterior | Othello.py:51-62 | on a well-formed board every non-EDGE cell lies in rows and columns 1..8 |
| Board.SingleStep | Othello.py:168-174 | a step is -1, 0 or +1, and it is zero exactly for the component 0 |
| Board.StepTimes | Othello.py:186-188 | `index * single_step(change)` is the i-th step along a direction component |
| Board.BoardDirectionsComplete | Othello.py:12 | the table has eight entries, pairwise distinct, which are exactly the nonzero directions |
| Board.Upper | Othello.py:134 | ASCII upper-casing: the result has the input's length and each character is the upper-case form of the input's character at that place (`a`..`z` to `A`..`Z`, all others kept) |
| Board.ColorNames | Othello.py:106 | "white" names white; "bLaCk" names black; "green" is not a colour, yet `make_move` reads it as black |
| Counting.CountAgrees | Othello.py:92-100 | counting the pieces row by row gives the number of cells holding the piece |
| Rays.RunLengthSpec | Othello.py:179-194 | a ray from a piece passes exactly n opponent pieces, and cell n+1 is not an opponent piece |
| Rays.RunLengthBounds | Othello.py:179-189 | the EDGE ring stops every walk: the run is at most 7 long and the cell that ends it is inside the 10x10 grid |
| Rays.RunCell | Othello.py:186-192 | every cell a walk reads is inside the grid, and it is an opponent piece exactly while the run lasts |
| Rays.RunLengthIs | Othello.py:179-194 | k opponent pieces followed by a non-opponent cell make a run of length k |
| Rays.ScanStops | Othello.py:180-189 | a scan whose first cell is EDGE or empty, or that meets its own piece or EDGE, finds nothing |
| Rays.ScanFinds | Othello.py:196-198 | a scan that meets an empty cell after one or more opponent pieces returns that cell |
| Rays.OpenRunIsEmpty | Othello.py:232-241 | a flip walk that meets EDGE or an empty cell, first or later, captures nothing |
| Rays.ClosedRunAt | Othello.py:249-255 | a flip walk that meets the mover's piece at step i captures the i-1 cells before it |
| Rays.RunCellsExtend | Othello.py:246 | appending the cell m steps along the ray to the first m-1 cells gives the first m cells |
| Rays.ClosedRunCells | Othello.py:243-254 | every captured cell is an opponent piece in the playable area and is not the target |
| Rays.RayFrame | Othello.py:179-198 | two boards that agree along a ray give the same run, the same capture and the same scan result there |
| Rays.SameRunSameClosedRun | Othello.py:249-255 | equal runs ended by the same cell capture alike |
| Rays.SameRunSameScan | Othello.py:196-198 | equal runs ended by the same cell scan alike |
| Rays.RaysDisjoint | Othello.py:12 | rays from one origin in two different directions share no cell |
| Rays.RayReversed | Othello.py:186-188 | walking back from the end of a ray retraces it |
| Rays.RunReversed | Othello.py:179-198 | a run read back from the cell that ends it is the same run, ended by the starting cell |
| Rays.ScanMatchesCapture | Othello.py:179-198 | the cell a scan finds is empty and playable, and playing there captures back toward the scanning piece |
| Rays.CaptureMatchesScan | Othello.py:232-255 | a capture at an empty cell is found by the scan cast back from the piece that closes it |
| Rays.ClosingPiece | Othello.py:249-250 | the piece that closes a captured run is playable, and the run read back from it ends on the target |
| Rays.ReverseTwice | Othello.py:12 | stepping n+1 cells along d and then back along its reverse returns to the start |
| Finder.RowPositionsMembership | Othello.py:109-111 | one row of the scan lists exactly the cells of that row holding the piece |
| Finder.PositionsUpToMembership | Othello.py:108-111 | the first x rows list exactly the cells of those rows holding the piece |
| Finder.PositionsMembership | Othello.py:102-112 | `piece_positions` lists exactly the cells holding the piece |
| Finder.PositionsInterior | Othello.py:102-112 | every listed piece is in the playable area |
| Finder.ScanMovesMembership | Othello.py:200-205 | `scan_for_moves` from a piece holds p exactly when some direction's scan finds p |
| Finder.CandidatesMembership | Othello.py:139-141 | the concatenated scans hold p exactly when p is reached by a ray from a listed piece |
| Finder.CandidateIsLegalMove | Othello.py:139-141 | every candidate is an empty playable cell from which some direction captures (soundness) |
| Finder.LegalMoveIsCandidate | Othello.py:139-141 | every such capturing cell is among the candidates (completeness) |
| Finder.CaptureReached | Othello.py:150-205 | a capture at p is reached by a scan from the piece that closes it |
| Finder.ReachedBy | Othello.py:200-203 | a scan from a listed piece that finds p makes p reached |
| Finder.CandidatesAreLegalMoves | Othello.py:130-205 | the candidates are exactly the legal moves of the side |
| Finder.Insert | Othello.py:148 | inserting adds exactly that element |
| Finder.Sort | Othello.py:148 | `sorted` returns a permutation of its input |
| Finder.InsertSorted | Othello.py:148 | inserting into an ordered list keeps it ordered |
| Finder.SortSorted | Othello.py:148 | the sorted list is in ascending (row, column) order |
| Finder.InsertDistinct | Othello.py:143-148 | inserting a new element into a duplicate-free list keeps it duplicate-free |
| Finder.SortDistinct | Othello.py:143-148 | sorting a duplicate-free list keeps it duplicate-free |
| Finder.SortedWithoutDuplicates | Othello.py:143-148 | an ordered list without duplicates is strictly increasing |
| Finder.StrictlyIncreasingUnique | Othello.py:148 | two strictly increasing lists with the same elements are equal, so the query's answer depends only on the set of legal moves |
| Applier.SetAllCell | Othello.py:252-254 | writing the collected cells one by one changes exactly those cells |
| Applier.OpenRunFlipsNothing | Othello.py:232-241 | a run not closed by the mover's piece leaves the board as it was |
| Applier.FlipRayValid | Othello.py:214-255 | one direction's flip keeps the board well formed |
| Applier.FlipRayCell | Othello.py:214-255 | along one direction exactly the captured run turns to the mover's piece |
| Applier.TableDistinct | Othello.py:12 | the direction table lists distinct nonzero directions |
| Applier.FlipAllPrefix | Othello.py:257-258 | one more direction of the table flips its run on the board left by the earlier ones |
| Applier.FlipAllCell | Othello.py:257-258 | after the directions, a cell holds the mover's piece exactly when one of them captures it on the starting board; the directions do not interfere |
| Applier.CapturedBySplit | Othello.py:257-258 | a cell captured by a list of directions is captured by its prefix or by its last direction |
| Applier.DistinctPrefix | Othello.py:12 | the prefix of a distinct direction list is distinct and lacks the last one |
| Applier.FlipAllKeepsRun | Othello.py:257-258 | a direction not yet applied captures the same run as on the starting board |
| Applier.FlipAllKeepsRay | Othello.py:257-258 | a ray not yet applied is untouched by the earlier directions |
| Applier.OffOtherRays | Othello.py:257-258 | a cell on one ray is on no run captured along another direction |
| Applier.LaterRayUntouched | Othello.py:257-258 | a ray along a direction not in the list crosses no run the list captures |
| Applier.PutTargetKeepsRuns | Othello.py:268-269 | writing the target first changes no run seen from it |
| Applier.CapturedAfterPut | Othello.py:268-269 | the table's directions capture, after the target is written, exactly the cells captured before |
| Applier.MoveEffectAt | Othello.py:260-271 | after `make_move`, a cell holds the mover's piece if it is the target or captured, and otherwise is unchanged |
| Applier.MoveEffect | Othello.py:260-271 | the same for every cell: only the target and the captured runs change, and the EDGE ring stays |
| Applier.CapturedOnRay | Othello.py:232-255 | the cell i steps along d is captured exactly when i is within d's closed run |
| Applier.OnlyOwnRay | Othello.py:232-255 | past d's closed run the ray along d crosses no captured run |
| Applier.OnOwnRay | Othello.py:246 | the cell i steps along d is among the first n collected cells exactly when i <= n |
| Applier.RayAfterMove | Othello.py:232-255 | along each direction the closed run turns to the mover's piece, and a run ended by EMPTY or EDGE is left as it was |
| Applier.CapturedIsOpponent | Othello.py:243-246 | a captured cell holds an opponent piece and is not the target |
| Applier.ChangedCount | Othello.py:268-269 | a move changes one cell more than it flips |
| Applier.CellAfterMove | Othello.py:260-271 | on an empty target, a changed cell did not hold the mover's piece, and an opponent cell changes exactly when captured |
| Applier.PieceCounts | Othello.py:92-100 | on an empty target the mover's count grows by 1 plus the flips and the opponent's shrinks by the flips |
| Applier.MoverGains | Othello.py:92-100 | the mover's count grows by 1 plus the number of flips |
| Applier.OpponentLoses | Othello.py:92-100 | the opponent's count shrinks by the number of flips |
| Counting.CountGain | Othello.py:92-100 | when exactly the cells of C turn into x, the count of x grows by the count of C |
| Counting.CountLoss | Othello.py:92-100 | when exactly the cells of C stop holding x, the count of x shrinks by the count of C |
| Game.DecideWinner | Othello.py:287-292 | white wins exactly when it has more pieces, black exactly when it has more, a tie exactly when the counts are equal |
| Game.RemoveDuplicates | Othello.py:143-146 | the result has no duplicates and holds exactly the input's elements |
| Game.Othello.constructor | Othello.py:49-62 | a fresh board equal to the starting layout, no winner yet |
| Game.Othello.SetCell | Othello.py:268 | one playable cell is written and the board stays well formed |
| Game.Othello.PieceCounter | Othello.py:92-100 | the loop returns the number of cells holding the piece |
| Game.Othello.CountRow | Othello.py:97-99 | the inner loop counts the cells of one row holding the piece |
| Game.Othello.PiecePositions | Othello.py:102-112 | the loop returns the cells holding the colour's piece, row by row |
| Game.Othello.ScanDirection | Othello.py:162-198 | the loop with its flag and early exits returns what the ray walk finds |
| Game.Othello.ScanForMoves | Othello.py:150-205 | one found move per direction that yields one, in table order, from a piece of the side the cell holds |
| Game.Othello.ReturnAvailablePositions | Othello.py:130-148 | InvalidColor for a colour other than white or black; otherwise exactly the legal moves, ascending and each once; the board is not modified |
| Game.Othello.CollectFlips | Othello.py:230-250 | the walk collects exactly the run the mover's piece closes, and an open walk reports no capture |
| Game.Othello.CellAlong | Othello.py:186-192 | the array read at index steps is the ray cell, inside the array |
| Game.Othello.FlipDirection | Othello.py:214-255 | one direction's flip turns over exactly the closed run |
| Game.Othello.FlipCells | Othello.py:252-254 | every collected cell is turned over |
| Game.Othello.FlipPieces | Othello.py:207-258 | the eight directions are flipped in table order |
| Game.Othello.MakeMove | Othello.py:260-271 | the board becomes the target written and every closed run flipped |
| Game.Othello.RecordWinner | Othello.py:287-292 | the recorded winner is the side with more pieces, or a tie |
| Game.Othello.PlayGame | Othello.py:273-298 | InvalidColor and no change for a bad colour; "Invalid move" and no change for a position that is not a legal move; otherwise the move is made and, on 64 pieces, the winner is recorded |
| Opening.OnlyOpeningsCapture | Othello.py:51-62 | on the starting board black captures only from (3,4), (4,3), (5,6) and (6,5) |
| Opening.WhiteThenBlack | Othello.py:51-62 | on the starting board a white piece next to p with a black one behind it puts p among the four opening cells |
| Opening.TwoWhites | Othello.py:51-62 | on the starting board two white pieces in a row from p are followed by an empty cell |
| Opening.ClosesOne | Othello.py:249-255 | an opponent piece followed by a mover's piece is a captured run of one |
| Opening.OpeningsCapture | Othello.py:51-62 | each of those four cells is empty and captures for black |
| Opening.BlackOpeningMoves | Othello.py:130-205 | black's legal moves on the starting board are exactly (3,4), (4,3), (5,6) and (6,5) |
| Opening.OpeningMovesForBlack | Othello.py:130-148 | the finder's answer for black on the starting board is the list [(3,4), (4,3), (5,6), (6,5)] |

## Left out

- Printing: `print_board`, `print_players` and the `print` calls in `play_game` are console output only.
- `return_winner`, `Player` and `create_player` are player-name bookkeeping and string formatting. The winner is the `Winner` enum set by `play_game`. When the board fills and no players were created, the source's `return_winner` fails on an empty player list after the winner is recorded; the model does not include that failure.
- `random_game` and the driver script at the end of the file are test glue. Only the first driver move, black at (3, 4), is used: it is one of the opening moves proved above.
- `sort_list_of_tuples` is unused, and it discards its result.
- Board.Upper: ASCII upper-casing stands for Python's full Unicode `str.upper()`, and the two differ outside ASCII. Python maps the dotless `ı` to `I`, so `"whıte".upper()` is `"WHITE"` and line 134 accepts `"whıte"` as white, while `IsValidColor` rejects it. Python's `upper()` can also change the length (`"ß"` becomes `"SS"`), which ASCII upper-casing never does.
- Positions are a `Pos` datatype. The source mixes lists (`piece_positions`) and tuples (scan results). Its `piece_position in possible_moves` therefore fails for a caller who passes a list rather than a tuple. The model compares positions by value.
- `_winner` is a class-level attribute in the source, shared by all games until the first assignment. Here it is a field of each game, starting `Undecided`.
- `make_move` returns the board list itself, an alias of the game's state. The model's `MakeMove` returns nothing, and callers read `board`.
- `play_game` returns `None` after a valid move; here that result is `Ok(Moved)`. The exception `InvalidColor` is `Err(InvalidColor)`.
- Game.Othello.MakeMove: requires a playable target (rows and columns 1..8). The source trusts its caller here. With a negative index Python would wrap around, and with an EDGE target the EDGE would be overwritten. `play_game` only passes legal moves, which are always playable.
- Game.Othello.CollectFlips: when the walk ends without a capture, the contract states only that the closed run is empty. It does not state which cell ended the walk.
- The loops of `unidirectional_scanner` and `unidirectional_flipper` run `index` up to 9. The model proves the EDGE ring always stops them earlier. In `CollectFlips` the fall-through end is marked unreachable with `assert false`. In `ScanDirection` the loop invariant `index <= n + 1 < Side` shows the loop cannot end by its own condition: it always leaves by `break` or `return`.
- Pass and stalemate handling do not exist in the source and are not modelled.
