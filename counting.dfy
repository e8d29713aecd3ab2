/** Counting cells of the 10x10 grid that satisfy a condition, in the order
    `piece_counter` visits them: row by row, each row column by column. */
module Counting {
  import opened Board

  function Ind(b: bool): nat {
    if b then 1 else 0
  }

  /** Cells (i, 0..n-1) satisfying P. */
  function CountInRow(P: (int, int) -> bool, i: int, n: nat): nat {
    if n == 0 then 0 else CountInRow(P, i, n - 1) + Ind(P(i, n - 1))
  }

  /** Cells of rows 0..m-1 satisfying P. */
  function CountInRows(P: (int, int) -> bool, m: nat): nat {
    if m == 0 then 0 else CountInRows(P, m - 1) + CountInRow(P, m - 1, Side)
  }

  /** Cells of the grid satisfying P. */
  function CountCells(P: (int, int) -> bool): nat {
    CountInRows(P, Side)
  }

  /** Whether a cell of g holds x. */
  function HoldsAt(g: Grid, x: Cell): (int, int) -> bool {
    (i, j) => Get(g, i, j) == x
  }

  lemma {:induction false} HoldsAtCell(g: Grid, x: Cell, i: int, j: int)
    requires ValidGrid(g) && InGrid(i, j)
    ensures HoldsAt(g, x)(i, j) <==> g[i][j] == x
  {
  }

  /** The cells of a row holding x. */
  function PiecesInRow(row: seq<Cell>, x: Cell): nat {
    if |row| == 0 then 0 else PiecesInRow(row[..|row| - 1], x) + Ind(row[|row| - 1] == x)
  }

  /** The cells of some rows holding x, counted row by row. */
  function PiecesInRows(rows: seq<seq<Cell>>, x: Cell): nat {
    if |rows| == 0 then 0 else PiecesInRows(rows[..|rows| - 1], x) + PiecesInRow(rows[|rows| - 1], x)
  }

  /** The number of cells holding x: the value `piece_counter` returns. */
  function Count(g: Grid, x: Cell): nat {
    PiecesInRows(g, x)
  }

  lemma {:induction false} RowAgrees(g: Grid, x: Cell, i: int, n: nat)
    requires ValidGrid(g) && 0 <= i < Side && n <= Side
    ensures PiecesInRow(g[i][..n], x) == CountInRow(HoldsAt(g, x), i, n)
  {
    if n > 0 {
      assert g[i][..n][..n - 1] == g[i][..n - 1];
      RowAgrees(g, x, i, n - 1);
      HoldsAtCell(g, x, i, n - 1);
    }
  }

  lemma {:induction false} RowsAgree(g: Grid, x: Cell, m: nat)
    requires ValidGrid(g) && m <= Side
    ensures PiecesInRows(g[..m], x) == CountInRows(HoldsAt(g, x), m)
  {
    if m > 0 {
      assert g[..m][..m - 1] == g[..m - 1];
      RowsAgree(g, x, m - 1);
      RowAgrees(g, x, m - 1, Side);
      assert g[m - 1][..Side] == g[m - 1];
    }
  }

  /** Counting row by row agrees with counting the cells where the grid holds x. */
  lemma {:induction false} CountAgrees(g: Grid, x: Cell)
    requires ValidGrid(g)
    ensures Count(g, x) == CountCells(HoldsAt(g, x))
  {
    assert g[..Side] == g;
    RowsAgree(g, x, Side);
  }

  lemma {:induction false} RowBalance(P: (int, int) -> bool, Q: (int, int) -> bool, R: (int, int) -> bool,
                                      S: (int, int) -> bool, i: int, n: nat)
    requires forall j :: 0 <= j < n ==> Ind(P(i, j)) + Ind(Q(i, j)) == Ind(R(i, j)) + Ind(S(i, j))
    ensures CountInRow(P, i, n) + CountInRow(Q, i, n) == CountInRow(R, i, n) + CountInRow(S, i, n)
  {
    if n > 0 {
      RowBalance(P, Q, R, S, i, n - 1);
    }
  }

  lemma {:induction false} RowsBalance(P: (int, int) -> bool, Q: (int, int) -> bool, R: (int, int) -> bool,
                                       S: (int, int) -> bool, m: nat)
    requires forall i, j :: 0 <= i < m && 0 <= j < Side ==> Ind(P(i, j)) + Ind(Q(i, j)) == Ind(R(i, j)) + Ind(S(i, j))
    ensures CountInRows(P, m) + CountInRows(Q, m) == CountInRows(R, m) + CountInRows(S, m)
  {
    if m > 0 {
      RowsBalance(P, Q, R, S, m - 1);
      RowBalance(P, Q, R, S, m - 1, Side);
    }
  }

  /** Counts add up cell by cell: when every cell contributes the same to both sides,
      so do the totals. */
  lemma {:induction false} CountBalance(P: (int, int) -> bool, Q: (int, int) -> bool, R: (int, int) -> bool, S: (int, int) -> bool)
    requires forall i, j :: InGrid(i, j) ==> Ind(P(i, j)) + Ind(Q(i, j)) == Ind(R(i, j)) + Ind(S(i, j))
    ensures CountCells(P) + CountCells(Q) == CountCells(R) + CountCells(S)
  {
    RowsBalance(P, Q, R, S, Side);
  }

  lemma {:induction false} RowSingle(P: (int, int) -> bool, t: Pos, i: int, n: nat)
    requires forall j :: 0 <= j < n ==> (P(i, j) <==> i == t.row && j == t.col)
    ensures CountInRow(P, i, n) == Ind(i == t.row && 0 <= t.col < n)
  {
    if n > 0 {
      RowSingle(P, t, i, n - 1);
    }
  }

  lemma {:induction false} RowsSingle(P: (int, int) -> bool, t: Pos, m: nat)
    requires 0 <= t.col < Side
    requires forall i, j :: 0 <= i < m && 0 <= j < Side ==> (P(i, j) <==> i == t.row && j == t.col)
    ensures CountInRows(P, m) == Ind(0 <= t.row < m)
  {
    if m > 0 {
      RowsSingle(P, t, m - 1);
      RowSingle(P, t, m - 1, Side);
    }
  }

  /** A condition that holds on exactly one cell of the grid counts one. */
  lemma {:induction false} CountSingle(P: (int, int) -> bool, t: Pos)
    requires InGrid(t.row, t.col)
    requires forall i, j :: InGrid(i, j) ==> (P(i, j) <==> i == t.row && j == t.col)
    ensures CountCells(P) == 1
  {
    RowsSingle(P, t, Side);
  }

  lemma {:induction false} RowNone(P: (int, int) -> bool, i: int, n: nat)
    requires forall j :: 0 <= j < n ==> !P(i, j)
    ensures CountInRow(P, i, n) == 0
  {
    if n > 0 {
      RowNone(P, i, n - 1);
    }
  }

  lemma {:induction false} RowsNone(P: (int, int) -> bool, m: nat)
    requires forall i, j :: 0 <= i < m && 0 <= j < Side ==> !P(i, j)
    ensures CountInRows(P, m) == 0
  {
    if m > 0 {
      RowsNone(P, m - 1);
      RowNone(P, m - 1, Side);
    }
  }

  /** A condition that holds on no cell of the grid counts zero. */
  lemma {:induction false} CountNone(P: (int, int) -> bool)
    requires forall i, j :: InGrid(i, j) ==> !P(i, j)
    ensures CountCells(P) == 0
  {
    RowsNone(P, Side);
  }

  /** Cells satisfying C turn into x and no other cell changes whether it holds x:
      the count of x grows by the count of C. */
  lemma {:induction false} CountGain(g: Grid, h: Grid, x: Cell, C: (int, int) -> bool)
    requires forall i, j :: InGrid(i, j) ==> Ind(Get(h, i, j) == x) == Ind(Get(g, i, j) == x) + Ind(C(i, j))
    ensures Count(h, x) == Count(g, x) + CountCells(C)
    requires ValidGrid(g) && ValidGrid(h)
  {
    var Nothing := (i: int, j: int) => false;
    CountAgrees(g, x);
    CountAgrees(h, x);
    CountNone(Nothing);
    CountBalance(HoldsAt(h, x), Nothing, HoldsAt(g, x), C);
  }

  /** Cells satisfying C stop holding x and no other cell changes whether it holds x:
      the count of x shrinks by the count of C. */
  lemma {:induction false} CountLoss(g: Grid, h: Grid, x: Cell, C: (int, int) -> bool)
    requires forall i, j :: InGrid(i, j) ==> Ind(Get(h, i, j) == x) + Ind(C(i, j)) == Ind(Get(g, i, j) == x)
    ensures Count(h, x) + CountCells(C) == Count(g, x)
    requires ValidGrid(g) && ValidGrid(h)
  {
    var Nothing := (i: int, j: int) => false;
    CountAgrees(g, x);
    CountAgrees(h, x);
    CountNone(Nothing);
    CountBalance(HoldsAt(h, x), C, HoldsAt(g, x), Nothing);
  }

  /** The count of a disjoint union is the sum of the counts. */
  lemma {:induction false} CountUnion(A: (int, int) -> bool, B: (int, int) -> bool, C: (int, int) -> bool)
    requires forall i, j :: InGrid(i, j) ==> Ind(C(i, j)) == Ind(A(i, j)) + Ind(B(i, j))
    ensures CountCells(C) == CountCells(A) + CountCells(B)
  {
    var Nothing := (i: int, j: int) => false;
    CountNone(Nothing);
    CountBalance(C, Nothing, A, B);
  }
}
