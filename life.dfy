/** The generation step of the Game of Life on an N x N grid whose edges are
    not wrapped: the neighbour count of a cell is the sum of the 3 x 3 window
    around it, clipped at the grid's edges, minus the cell itself, and the next
    state of every cell follows the birth-on-3, survive-on-2-or-3 rule. */
module Life {
  import opened Grids

  function Max(a: int, b: int): int { if a < b then b else a }

  function Min(a: int, b: int): int { if a < b then a else b }

  /** Sum of row[lo], ..., row[hi - 1]. */
  function RowSum(row: seq<int>, lo: nat, hi: nat): int
    requires lo <= hi <= |row|
    decreases hi - lo
  {
    if lo == hi then 0 else RowSum(row, lo, hi - 1) + row[hi - 1]
  }

  /** Sum of the rectangle of rows r0 .. r1 - 1 and columns c0 .. c1 - 1. */
  function WindowSum(g: Grid, r0: nat, r1: nat, c0: nat, c1: nat): int
    requires IsSquare(g) && r0 <= r1 <= |g| && c0 <= c1 <= |g|
    decreases r1 - r0
  {
    if r0 == r1 then 0 else WindowSum(g, r0, r1 - 1, c0, c1) + RowSum(g[r1 - 1], c0, c1)
  }

  /** The neighbour count as the generation step computes it: the sum of rows
      max(0, i-1) .. min(N, i+2) - 1 and columns max(0, j-1) .. min(N, j+2) - 1,
      minus the cell (i, j) itself. */
  function Neighbors(g: Grid, i: nat, j: nat): int
    requires IsSquare(g) && i < |g| && j < |g|
  {
    WindowSum(g, Max(0, i - 1), Min(|g|, i + 2), Max(0, j - 1), Min(|g|, j + 2)) - g[i][j]
  }

  /** An independent definition of the neighbour count: the eight cells around
      (i, j), each read with `At`, so a position off the grid counts as dead. */
  function Adjacent(g: Grid, i: int, j: int): int
  {
    At(g, i - 1, j - 1) + At(g, i - 1, j) + At(g, i - 1, j + 1) +
    At(g, i, j - 1) + At(g, i, j + 1) +
    At(g, i + 1, j - 1) + At(g, i + 1, j) + At(g, i + 1, j + 1)
  }

  /** The next state of a cell whose current value is `cell` and which has
      `neighbors` live neighbours. A cell is alive only when it holds exactly 1. */
  function Rule(cell: int, neighbors: int): (next: int)
    ensures next == 0 || next == 1
  {
    if cell == 1 then
      if neighbors < 2 || neighbors > 3 then 0 else 1
    else
      if neighbors == 3 then 1 else 0
  }

  /** The next generation: every cell by the rule, from the current grid alone. */
  function Step(g: Grid): (h: Grid)
    requires IsSquare(g)
    ensures |h| == |g| && IsSquare(h) && IsBinary(h)
  {
    seq(|g|, i requires 0 <= i < |g| =>
      seq(|g|, j requires 0 <= j < |g| => Rule(g[i][j], Neighbors(g, i, j))))
  }

  /** The cells (r, j-1), (r, j), (r, j+1), off-grid ones read as dead. */
  function Triple(g: Grid, r: int, j: int): int
  {
    At(g, r, j - 1) + At(g, r, j) + At(g, r, j + 1)
  }

  /** The clipped three-column sum of row r around column j is the sum of the
      three cells (r, j-1), (r, j), (r, j+1) with off-grid cells read as dead. */
  lemma RowWindow(g: Grid, r: nat, j: nat)
    requires IsSquare(g) && r < |g| && j < |g|
    ensures RowSum(g[r], Max(0, j - 1), Min(|g|, j + 2)) == Triple(g, r, j)
  {
    var row, n := g[r], |g|;
    if j == 0 {
      assert RowSum(row, 0, 1) == row[0];
      if n > 1 {
        assert RowSum(row, 0, 2) == RowSum(row, 0, 1) + row[1];
      }
    } else {
      assert RowSum(row, j - 1, j) == row[j - 1];
      assert RowSum(row, j - 1, j + 1) == RowSum(row, j - 1, j) + row[j];
      if j + 1 < n {
        assert RowSum(row, j - 1, j + 2) == RowSum(row, j - 1, j + 1) + row[j + 1];
      }
    }
  }

  /** Row r's clipped three-cell sum when r lies in rows lo .. hi - 1, else 0. */
  function RowIn(g: Grid, r: int, j: int, lo: int, hi: int): int
  {
    if lo <= r < hi then Triple(g, r, j) else 0
  }

  /** A window of at most the rows i-1, i, i+1 sums to the three-cell sums of
      the rows it contains. */
  lemma {:induction false} WindowRows(g: Grid, i: nat, j: nat, lo: nat, hi: nat)
    requires IsSquare(g) && i < |g| && j < |g|
    requires i - 1 <= lo <= hi <= i + 2 && hi <= |g|
    ensures WindowSum(g, lo, hi, Max(0, j - 1), Min(|g|, j + 2))
         == RowIn(g, i - 1, j, lo, hi) + RowIn(g, i, j, lo, hi) + RowIn(g, i + 1, j, lo, hi)
    decreases hi - lo
  {
    if lo < hi {
      WindowRows(g, i, j, lo, hi - 1);
      RowWindow(g, hi - 1, j);
    }
  }

  /** The window sum the generation step takes equals the three clipped rows
      i-1, i, i+1, an off-grid row counting as all dead. */
  lemma WindowNine(g: Grid, i: nat, j: nat)
    requires IsSquare(g) && i < |g| && j < |g|
    ensures WindowSum(g, Max(0, i - 1), Min(|g|, i + 2), Max(0, j - 1), Min(|g|, j + 2))
         == Triple(g, i - 1, j) + Triple(g, i, j) + Triple(g, i + 1, j)
  {
    WindowRows(g, i, j, Max(0, i - 1), Min(|g|, i + 2));
    assert i == 0 ==> Triple(g, i - 1, j) == 0;
    assert i + 1 == |g| ==> Triple(g, i + 1, j) == 0;
  }

  /** The clipped-window count of the generation step is exactly the count of
      the eight surrounding cells that lie on the grid: the cell itself is
      excluded and nothing wraps around an edge. */
  lemma NeighborsMatchAdjacent(g: Grid, i: nat, j: nat)
    requires IsSquare(g) && i < |g| && j < |g|
    ensures Neighbors(g, i, j) == Adjacent(g, i, j)
  {
    WindowNine(g, i, j);
    assert Triple(g, i, j) == At(g, i, j - 1) + g[i][j] + At(g, i, j + 1);
  }

  /** On a 0/1 grid the neighbour count lies in 0 .. 8. */
  lemma NeighborsRange(g: Grid, i: nat, j: nat)
    requires IsSquare(g) && IsBinary(g) && i < |g| && j < |g|
    ensures 0 <= Neighbors(g, i, j) <= 8
  {
    NeighborsMatchAdjacent(g, i, j);
  }

  /** The corner (0, 0) counts only its three on-grid neighbours; on a grid of
      at least 3 x 3 the opposite corner (N-1, N-1) is not among them. */
  lemma CornerNeighbors(g: Grid)
    requires IsSquare(g) && |g| > 0
    ensures Neighbors(g, 0, 0) == At(g, 0, 1) + At(g, 1, 0) + At(g, 1, 1)
  {
    NeighborsMatchAdjacent(g, 0, 0);
  }

  /** The neighbour count of (i, j) depends only on the eight cells around it:
      two grids that agree there give the same count. */
  lemma NeighborsLocal(g: Grid, h: Grid, i: nat, j: nat)
    requires IsSquare(g) && IsSquare(h) && |g| == |h| && i < |g| && j < |g|
    requires forall r, c ::
               (0 <= r < |g| && 0 <= c < |g| && i - 1 <= r <= i + 1 && j - 1 <= c <= j + 1 && !(r == i && c == j))
               ==> g[r][c] == h[r][c]
    ensures Neighbors(g, i, j) == Neighbors(h, i, j)
  {
    NeighborsMatchAdjacent(g, i, j);
    NeighborsMatchAdjacent(h, i, j);
  }

  /** Editing one cell changes the neighbour count only of the up to eight
      cells adjacent to it on the grid. */
  lemma SetCellNeighbors(g: Grid, r: nat, c: nat, v: int, i: nat, j: nat)
    requires IsSquare(g) && r < |g| && c < |g| && i < |g| && j < |g|
    requires (i == r && j == c) || i < r - 1 || i > r + 1 || j < c - 1 || j > c + 1
    ensures Neighbors(SetCell(g, r, c, v), i, j) == Neighbors(g, i, j)
  {
    NeighborsLocal(g, SetCell(g, r, c, v), i, j);
  }

  /** The next state of a cell depends only on the 3 x 3 window of the current
      generation around it, never on cells already written for the next one. */
  lemma StepLocal(g: Grid, h: Grid, i: nat, j: nat)
    requires IsSquare(g) && IsSquare(h) && |g| == |h| && i < |g| && j < |g|
    requires forall r, c :: 0 <= r < |g| && 0 <= c < |g| && i - 1 <= r <= i + 1 && j - 1 <= c <= j + 1
               ==> g[r][c] == h[r][c]
    ensures Step(g)[i][j] == Step(h)[i][j]
  {
    NeighborsLocal(g, h, i, j);
  }

  /** A live cell dies with fewer than two or more than three live neighbours
      and lives on with two or three. */
  lemma StepLiveCell(g: Grid, i: nat, j: nat)
    requires IsSquare(g) && i < |g| && j < |g| && g[i][j] == 1
    ensures Adjacent(g, i, j) < 2 || Adjacent(g, i, j) > 3 ==> Step(g)[i][j] == 0
    ensures 2 <= Adjacent(g, i, j) <= 3 ==> Step(g)[i][j] == 1
  {
    NeighborsMatchAdjacent(g, i, j);
  }

  /** A dead cell comes alive exactly when it has three live neighbours and
      stays dead otherwise. */
  lemma StepDeadCell(g: Grid, i: nat, j: nat)
    requires IsSquare(g) && i < |g| && j < |g| && g[i][j] == 0
    ensures Step(g)[i][j] == 1 <==> Adjacent(g, i, j) == 3
    ensures Step(g)[i][j] == 0 <==> Adjacent(g, i, j) != 3
  {
    NeighborsMatchAdjacent(g, i, j);
  }

  /** The all-dead grid stays all dead. */
  lemma StepZeros(n: nat)
    ensures Step(Zeros(n)) == Zeros(n)
  {
    var z := Zeros(n);
    forall i, j | 0 <= i < n && 0 <= j < n
      ensures Step(z)[i][j] == z[i][j]
    {
      NeighborsMatchAdjacent(z, i, j);
    }
    GridsEqual(Step(z), z);
  }

  /** On a grid whose only live cell is (r, c), every cell has at most one live
      neighbour, and (r, c) itself has none. */
  lemma SingleCellNeighbors(n: nat, r: nat, c: nat, i: nat, j: nat)
    requires r < n && c < n && i < n && j < n
    ensures var g := SetCell(Zeros(n), r, c, 1);
      Neighbors(g, i, j) <= 1 && (i == r && j == c ==> Neighbors(g, i, j) == 0)
  {
    var g := SetCell(Zeros(n), r, c, 1);
    NeighborsMatchAdjacent(g, i, j);
    assert forall a, b :: At(g, a, b) == (if a == r && b == c then 1 else 0);
  }

  /** A single live cell on an otherwise dead grid has no live neighbour and
      dies in one step, leaving the all-dead grid. */
  lemma SingleCellDies(n: nat, r: nat, c: nat)
    requires r < n && c < n
    ensures Step(SetCell(Zeros(n), r, c, 1)) == Zeros(n)
  {
    var g := SetCell(Zeros(n), r, c, 1);
    forall i, j | 0 <= i < n && 0 <= j < n
      ensures Step(g)[i][j] == 0
    {
      SingleCellNeighbors(n, r, c, i, j);
    }
    GridsEqual(Step(g), Zeros(n));
  }

  /** The generation step: fills a freshly allocated, all-dead array cell by
      cell from the current grid `g`, which it reads and never writes. */
  method UpdateGrid(g: array2<int>) returns (ng: array2<int>)
    requires g.Length0 == g.Length1
    ensures fresh(ng) && ng.Length0 == g.Length0 && ng.Length1 == g.Length1
    ensures Cells(ng) == Step(Cells(g))
  {
    var n := g.Length0;
    var cur := Cells(g);
    ng := new int[n, n]((_, _) => 0);
    assert IsSquare(cur);
    for i := 0 to n
      invariant forall r, c :: 0 <= r < i && 0 <= c < n ==> ng[r, c] == Rule(cur[r][c], Neighbors(cur, r, c))
      invariant forall r, c :: i <= r < n && 0 <= c < n ==> ng[r, c] == 0
    {
      for j := 0 to n
        invariant forall r, c :: 0 <= r < i && 0 <= c < n ==> ng[r, c] == Rule(cur[r][c], Neighbors(cur, r, c))
        invariant forall c :: 0 <= c < j ==> ng[i, c] == Rule(cur[i][c], Neighbors(cur, i, c))
        invariant forall c :: j <= c < n ==> ng[i, c] == 0
        invariant forall r, c :: i < r < n && 0 <= c < n ==> ng[r, c] == 0
      {
        var neighbors := Neighbors(cur, i, j);
        if g[i, j] == 1 {
          if neighbors < 2 || neighbors > 3 {
            ng[i, j] := 0;
          } else {
            ng[i, j] := 1;
          }
        } else if neighbors == 3 {
          ng[i, j] := 1;
        }
      }
    }
    GridsEqual(Cells(ng), Step(cur));
  }
}
