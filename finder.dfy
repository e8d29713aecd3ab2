/** Specification of the legal-move finder: the positions of a side's pieces, the moves
    each of them reaches by a ray, the sorted result and what it means. */
module Finder {
  import opened Board
  import opened Rays

  /** Positions of `piece` in row x, columns 0..y-1, in column order. */
  function RowPositions(g: Grid, piece: Cell, x: int, y: nat): seq<Pos>
  {
    if y == 0 then []
    else RowPositions(g, piece, x, y - 1) + (if Get(g, x, y - 1) == piece then [Pos(x, y - 1)] else [])
  }

  /** Positions of `piece` in rows 0..x-1, row by row: the order `piece_positions` appends. */
  function PositionsUpTo(g: Grid, piece: Cell, x: nat): seq<Pos>
  {
    if x == 0 then [] else PositionsUpTo(g, piece, x - 1) + RowPositions(g, piece, x - 1, Side)
  }

  function Positions(g: Grid, piece: Cell): seq<Pos> {
    PositionsUpTo(g, piece, Side)
  }

  lemma {:induction false} RowPositionsMembership(g: Grid, piece: Cell, x: int, y: nat, q: Pos)
    ensures q in RowPositions(g, piece, x, y) <==> q.row == x && 0 <= q.col < y && Get(g, q.row, q.col) == piece
  {
    if y > 0 {
      RowPositionsMembership(g, piece, x, y - 1, q);
    }
  }

  lemma {:induction false} PositionsUpToMembership(g: Grid, piece: Cell, x: nat, q: Pos)
    ensures q in PositionsUpTo(g, piece, x) <==> 0 <= q.row < x && 0 <= q.col < Side && Get(g, q.row, q.col) == piece
  {
    if x > 0 {
      PositionsUpToMembership(g, piece, x - 1, q);
      RowPositionsMembership(g, piece, x - 1, Side, q);
    }
  }

  /** `piece_positions` lists exactly the cells holding the piece. */
  lemma {:induction false} PositionsMembership(g: Grid, piece: Cell, q: Pos)
    ensures q in Positions(g, piece) <==> InGrid(q.row, q.col) && Get(g, q.row, q.col) == piece
  {
    PositionsUpToMembership(g, piece, Side, q);
  }

  /** The side `scan_for_moves` plays for: white on a white piece, black otherwise. */
  function OwnAt(g: Grid, r: int, c: int): Piece {
    if Get(g, r, c) == White then White else Black
  }

  predicate AllDirections(dirs: seq<Direction>) {
    forall d :: d in dirs ==> IsDirection(d)
  }

  /** The moves `scan_for_moves` collects from (r, c), one per direction that yields one,
      in the order of `dirs`. */
  function ScanMoves(g: Grid, r: int, c: int, own: Piece, dirs: seq<Direction>): seq<Pos>
    requires ValidGrid(g) && Interior(r, c) && AllDirections(dirs)
  {
    if dirs == [] then []
    else
      var rest := ScanMoves(g, r, c, own, dirs[..|dirs| - 1]);
      match ScanRay(g, r, c, dirs[|dirs| - 1], own)
      case Some(p) => rest + [p]
      case None => rest
  }

  lemma {:induction false} ScanMovesMembership(g: Grid, r: int, c: int, own: Piece, dirs: seq<Direction>, p: Pos)
    requires ValidGrid(g) && Interior(r, c) && AllDirections(dirs)
    ensures p in ScanMoves(g, r, c, own, dirs) <==> exists d :: d in dirs && ScanRay(g, r, c, d, own) == Some(p)
  {
    if dirs != [] {
      var pre := dirs[..|dirs| - 1];
      ScanMovesMembership(g, r, c, own, pre, p);
      assert dirs == pre + [dirs[|dirs| - 1]];
    }
  }

  predicate AllInterior(ps: seq<Pos>) {
    forall q :: q in ps ==> Interior(q.row, q.col)
  }

  /** The concatenated scans of every position in `ps`: the list `return_available_positions`
      extends before removing duplicates. */
  function Candidates(g: Grid, ps: seq<Pos>): seq<Pos>
    requires ValidGrid(g) && AllInterior(ps)
  {
    BoardDirectionsComplete();
    if ps == [] then []
    else
      var q := ps[|ps| - 1];
      Candidates(g, ps[..|ps| - 1]) + ScanMoves(g, q.row, q.col, OwnAt(g, q.row, q.col), BoardDirections)
  }

  /** p is reached by a ray from one of the listed positions. */
  ghost predicate ReachedFrom(g: Grid, ps: seq<Pos>, p: Pos)
    requires ValidGrid(g) && AllInterior(ps)
  {
    exists q, d :: q in ps && IsDirection(d)
      && ScanRay(g, q.row, q.col, d, OwnAt(g, q.row, q.col)) == Some(p)
  }

  lemma {:induction false} CandidatesMembership(g: Grid, ps: seq<Pos>, p: Pos)
    requires ValidGrid(g) && AllInterior(ps)
    ensures p in Candidates(g, ps) <==> ReachedFrom(g, ps, p)
  {
    BoardDirectionsComplete();
    if ps != [] {
      var pre, q := ps[..|ps| - 1], ps[|ps| - 1];
      assert ps == pre + [q];
      CandidatesMembership(g, pre, p);
      ScanMovesMembership(g, q.row, q.col, OwnAt(g, q.row, q.col), BoardDirections, p);
      if p in Candidates(g, ps) && p !in Candidates(g, pre) {
        var d :| d in BoardDirections && ScanRay(g, q.row, q.col, d, OwnAt(g, q.row, q.col)) == Some(p);
        assert q in ps;
      }
      if ReachedFrom(g, ps, p) && !ReachedFrom(g, pre, p) {
        var q', d :| q' in ps && IsDirection(d)
          && ScanRay(g, q'.row, q'.col, d, OwnAt(g, q'.row, q'.col)) == Some(p);
        assert q' !in pre;
        assert q' == q;
      }
    }
  }

  /** A legal move for `own`: an empty playable cell from which, in some direction, one or
      more opponent pieces are closed by an `own` piece. */
  ghost predicate IsLegalMove(g: Grid, own: Piece, p: Pos)
    requires ValidGrid(g)
  {
    && Interior(p.row, p.col)
    && Get(g, p.row, p.col) == Empty
    && exists d :: IsDirection(d) && ClosedRun(g, p.row, p.col, d, own) >= 1
  }

  /** Every listed piece of a side lies in the playable area. */
  lemma {:induction false} PositionsInterior(g: Grid, own: Piece)
    requires ValidGrid(g)
    ensures AllInterior(Positions(g, own))
    ensures forall q :: q in Positions(g, own) ==> Get(g, q.row, q.col) == own
  {
    forall q | q in Positions(g, own) ensures Interior(q.row, q.col) && Get(g, q.row, q.col) == own {
      PositionsMembership(g, own, q);
      NonEdgeIsInterior(g, q.row, q.col);
    }
  }

  /** Soundness of the finder: every cell a scan from an `own` piece reaches is a legal move. */
  lemma {:induction false} CandidateIsLegalMove(g: Grid, own: Piece, p: Pos)
    requires ValidGrid(g)
    ensures AllInterior(Positions(g, own))
    ensures p in Candidates(g, Positions(g, own)) ==> IsLegalMove(g, own, p)
  {
    PositionsInterior(g, own);
    var ps := Positions(g, own);
    CandidatesMembership(g, ps, p);
    if ReachedFrom(g, ps, p) {
      var q, d :| q in ps && IsDirection(d)
        && ScanRay(g, q.row, q.col, d, OwnAt(g, q.row, q.col)) == Some(p);
      ScanMatchesCapture(g, q, d, own);
    }
  }

  /** Completeness of the finder: every legal move is reached by a scan from an `own` piece. */
  lemma {:induction false} LegalMoveIsCandidate(g: Grid, own: Piece, p: Pos)
    requires ValidGrid(g)
    ensures AllInterior(Positions(g, own))
    ensures IsLegalMove(g, own, p) ==> p in Candidates(g, Positions(g, own))
  {
    PositionsInterior(g, own);
    if IsLegalMove(g, own, p) {
      var d :| IsDirection(d) && ClosedRun(g, p.row, p.col, d, own) >= 1;
      CaptureReached(g, own, p, d);
      CandidatesMembership(g, Positions(g, own), p);
    }
  }

  /** A capture in direction d puts p among the cells reached from the `own` pieces. */
  lemma {:induction false} CaptureReached(g: Grid, own: Piece, p: Pos, d: Direction)
    requires ValidGrid(g) && Interior(p.row, p.col) && IsDirection(d)
    requires Get(g, p.row, p.col) == Empty && ClosedRun(g, p.row, p.col, d, own) >= 1
    ensures AllInterior(Positions(g, own))
    ensures ReachedFrom(g, Positions(g, own), p)
  {
    PositionsInterior(g, own);
    var n := ClosedRun(g, p.row, p.col, d, own);
    var q := Pos(p.row + Offset(n + 1, d.0), p.col + Offset(n + 1, d.1));
    CaptureMatchesScan(g, p, d, own);
    PositionsMembership(g, own, q);
    ReachedBy(g, Positions(g, own), p, q, Reverse(d));
  }

  lemma {:induction false} ReachedBy(g: Grid, ps: seq<Pos>, p: Pos, q: Pos, d: Direction)
    requires ValidGrid(g) && AllInterior(ps) && q in ps && IsDirection(d)
    requires ScanRay(g, q.row, q.col, d, OwnAt(g, q.row, q.col)) == Some(p)
    ensures ReachedFrom(g, ps, p)
  {
  }

  /** The scan from every `own` piece finds exactly the legal moves of `own`. */
  lemma {:induction false} CandidatesAreLegalMoves(g: Grid, own: Piece, p: Pos)
    requires ValidGrid(g)
    ensures AllInterior(Positions(g, own))
    ensures p in Candidates(g, Positions(g, own)) <==> IsLegalMove(g, own, p)
  {
    CandidateIsLegalMove(g, own, p);
    LegalMoveIsCandidate(g, own, p);
  }

  // Ordering of coordinates, as Python compares (row, column) tuples.

  predicate Less(a: Pos, b: Pos) {
    a.row < b.row || (a.row == b.row && a.col < b.col)
  }

  predicate LessEq(a: Pos, b: Pos) {
    Less(a, b) || a == b
  }

  predicate Sorted(s: seq<Pos>) {
    forall i, j :: 0 <= i < j < |s| ==> LessEq(s[i], s[j])
  }

  predicate StrictlyIncreasing(s: seq<Pos>) {
    forall i, j :: 0 <= i < j < |s| ==> Less(s[i], s[j])
  }

  predicate NoDuplicates(s: seq<Pos>) {
    forall i, j :: 0 <= i < j < |s| ==> s[i] != s[j]
  }

  /** Insertion into an ordered list: the element is added and nothing else changes. */
  function Insert(x: Pos, s: seq<Pos>): (r: seq<Pos>)
    ensures multiset(r) == multiset(s) + multiset{x}
  {
    if s == [] then [x]
    else if LessEq(x, s[0]) then [x] + s
    else
      assert s == [s[0]] + s[1..];
      [s[0]] + Insert(x, s[1..])
  }

  /** Python's `sorted` on coordinate tuples, as an insertion sort: a permutation of its
      input (ordered, by SortSorted). */
  function Sort(s: seq<Pos>): (r: seq<Pos>)
    ensures multiset(r) == multiset(s)
  {
    if s == [] then []
    else
      assert s == [s[0]] + s[1..];
      Insert(s[0], Sort(s[1..]))
  }

  lemma {:induction false} InsertSorted(x: Pos, s: seq<Pos>)
    requires Sorted(s)
    ensures Sorted(Insert(x, s))
  {
    if s != [] && !LessEq(x, s[0]) {
      InsertSorted(x, s[1..]);
      var rest := Insert(x, s[1..]);
      var r := Insert(x, s);
      assert r == [s[0]] + rest;
      forall i, j | 0 <= i < j < |r| ensures LessEq(r[i], r[j]) {
        if i == 0 {
          var y := rest[j - 1];
          assert y in multiset(rest);
          if y != x {
            assert y in multiset(s[1..]);
          }
        } else {
          assert r[i] == rest[i - 1] && r[j] == rest[j - 1];
        }
      }
    }
  }

  lemma {:induction false} SortSorted(s: seq<Pos>)
    ensures Sorted(Sort(s))
  {
    if s != [] {
      SortSorted(s[1..]);
      InsertSorted(s[0], Sort(s[1..]));
    }
  }

  /** Distinct elements stay distinct: a duplicate in the output would be one in the input. */
  lemma {:induction false} InsertDistinct(x: Pos, s: seq<Pos>)
    requires x !in s && NoDuplicates(s)
    ensures NoDuplicates(Insert(x, s))
  {
    if s != [] && !LessEq(x, s[0]) {
      InsertDistinct(x, s[1..]);
      var rest := Insert(x, s[1..]);
      assert s[0] !in multiset(rest) by {
        assert s[0] != x;
        assert s[0] !in s[1..];
      }
    }
  }

  lemma {:induction false} SortDistinct(s: seq<Pos>)
    requires NoDuplicates(s)
    ensures NoDuplicates(Sort(s))
  {
    if s != [] {
      SortDistinct(s[1..]);
      var rest := Sort(s[1..]);
      assert s[0] !in multiset(rest) by {
        assert s[0] !in s[1..];
      }
      InsertDistinct(s[0], rest);
    }
  }

  lemma {:induction false} SortedWithoutDuplicates(s: seq<Pos>)
    requires Sorted(s) && NoDuplicates(s)
    ensures StrictlyIncreasing(s)
  {
  }

  /** A strictly increasing list is determined by its elements: the finder's answer depends
      only on the set of legal moves, so repeating the query on the same board repeats the
      answer. */
  lemma {:induction false} StrictlyIncreasingUnique(a: seq<Pos>, b: seq<Pos>)
    requires StrictlyIncreasing(a) && StrictlyIncreasing(b)
    requires forall p :: p in a <==> p in b
    ensures a == b
  {
    if a != [] {
      assert a[0] in b;
    }
    if b != [] {
      assert b[0] in a;
    }
    if a != [] {
      assert a[0] in b && b[0] in a;
      assert a[0] == b[0] by {
        var k :| 0 <= k < |b| && b[k] == a[0];
        var m :| 0 <= m < |a| && a[m] == b[0];
        assert k == 0;
      }
      forall p ensures p in a[1..] <==> p in b[1..] {
        if p in a[1..] {
          var i :| 1 <= i < |a| && a[i] == p;
          assert Less(a[0], p) && p in b;
          var k :| 0 <= k < |b| && b[k] == p;
          assert k != 0;
        }
        if p in b[1..] {
          var i :| 1 <= i < |b| && b[i] == p;
          assert Less(b[0], p) && p in a;
          var k :| 0 <= k < |a| && a[k] == p;
          assert k != 0;
        }
      }
      StrictlyIncreasingUnique(a[1..], b[1..]);
      assert a == [a[0]] + a[1..] && b == [b[0]] + b[1..];
    }
  }
}
