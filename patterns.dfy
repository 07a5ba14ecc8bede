/** Well-known patterns under the generation step: a 2 x 2 block is a still
    life and a three-cell blinker oscillates with period two. */
module Patterns {
  import opened Grids
  import opened Life

  /** The N x N grid whose live cells are the 2 x 2 square with top-left corner (r, c). */
  function Block(n: nat, r: nat, c: nat): (g: Grid)
    ensures |g| == n && IsSquare(g)
  {
    seq(n, i => seq(n, j => if r <= i <= r + 1 && c <= j <= c + 1 then 1 else 0))
  }

  /** The N x N grid whose live cells are the three centred on (r, c): a row
      (r, c-1), (r, c), (r, c+1) when `horizontal`, else a column (r-1, c), (r, c), (r+1, c). */
  function Blinker(n: nat, r: nat, c: nat, horizontal: bool): (g: Grid)
    ensures |g| == n && IsSquare(g)
  {
    seq(n, i => seq(n, j => if OnBlinker(r, c, horizontal, i, j) then 1 else 0))
  }

  /** (a, b) is one of the three cells of the blinker centred on (r, c). */
  predicate OnBlinker(r: int, c: int, horizontal: bool, a: int, b: int)
  {
    if horizontal then a == r && c - 1 <= b <= c + 1 else b == c && r - 1 <= a <= r + 1
  }

  /** Reading a block whose cells all lie on the grid: exactly its four cells are alive. */
  lemma BlockAt(n: nat, r: nat, c: nat)
    requires r + 2 <= n && c + 2 <= n
    ensures forall a, b :: At(Block(n, r, c), a, b) == (if r <= a <= r + 1 && c <= b <= c + 1 then 1 else 0)
  {
  }

  /** One cell of a block after one step: every block cell has three live
      neighbours and every other cell at most two. */
  lemma BlockCell(n: nat, r: nat, c: nat, i: nat, j: nat)
    requires r + 2 <= n && c + 2 <= n && i < n && j < n
    ensures Step(Block(n, r, c))[i][j] == Block(n, r, c)[i][j]
  {
    var g := Block(n, r, c);
    NeighborsMatchAdjacent(g, i, j);
    BlockAt(n, r, c);
    if r <= i <= r + 1 && c <= j <= c + 1 {
      assert Adjacent(g, i, j) == 3;
    } else {
      assert Adjacent(g, i, j) <= 2;
    }
  }

  /** A block anywhere on the grid, touching an edge or not, is unchanged by a step. */
  lemma BlockIsStill(n: nat, r: nat, c: nat)
    requires r + 2 <= n && c + 2 <= n
    ensures Step(Block(n, r, c)) == Block(n, r, c)
  {
    var g := Block(n, r, c);
    forall i, j | 0 <= i < n && 0 <= j < n
      ensures Step(g)[i][j] == g[i][j]
    {
      BlockCell(n, r, c, i, j);
    }
    GridsEqual(Step(g), g);
  }

  /** Reading a blinker whose cells all lie on the grid, on the grid or off it:
      exactly its three cells are alive. */
  lemma BlinkerAt(n: nat, r: nat, c: nat, horizontal: bool)
    requires 1 <= r && r + 1 < n && 1 <= c && c + 1 < n
    ensures forall a, b :: At(Blinker(n, r, c, horizontal), a, b) == (if OnBlinker(r, c, horizontal, a, b) then 1 else 0)
  {
  }

  /** One cell of a blinker after one step, for a horizontal blinker. */
  lemma HorizontalBlinkerCell(n: nat, r: nat, c: nat, i: nat, j: nat)
    requires 1 <= r && r + 1 < n && 1 <= c && c + 1 < n && i < n && j < n
    ensures Step(Blinker(n, r, c, true))[i][j] == Blinker(n, r, c, false)[i][j]
  {
    var g := Blinker(n, r, c, true);
    NeighborsMatchAdjacent(g, i, j);
    BlinkerAt(n, r, c, true);
    if i < r - 1 || i > r + 1 || j < c - 2 || j > c + 2 {
      assert Adjacent(g, i, j) == 0;
    } else if i == r {
      assert Adjacent(g, i, j) == (if j == c then 2 else 1);
    } else {
      assert Adjacent(g, i, j) == (if j == c then 3 else if j == c - 2 || j == c + 2 then 1 else 2);
    }
  }

  /** One cell of a blinker after one step, for a vertical blinker. */
  lemma VerticalBlinkerCell(n: nat, r: nat, c: nat, i: nat, j: nat)
    requires 1 <= r && r + 1 < n && 1 <= c && c + 1 < n && i < n && j < n
    ensures Step(Blinker(n, r, c, false))[i][j] == Blinker(n, r, c, true)[i][j]
  {
    var g := Blinker(n, r, c, false);
    NeighborsMatchAdjacent(g, i, j);
    BlinkerAt(n, r, c, false);
    if i < r - 2 || i > r + 2 || j < c - 1 || j > c + 1 {
      assert Adjacent(g, i, j) == 0;
    } else if j == c {
      assert Adjacent(g, i, j) == (if i == r then 2 else 1);
    } else {
      assert Adjacent(g, i, j) == (if i == r then 3 else if i == r - 2 || i == r + 2 then 1 else 2);
    }
  }

  /** One step turns a blinker by a quarter turn about its centre; the centre
      must lie at least one cell away from every edge. */
  lemma BlinkerTurns(n: nat, r: nat, c: nat, horizontal: bool)
    requires 1 <= r && r + 1 < n && 1 <= c && c + 1 < n
    ensures Step(Blinker(n, r, c, horizontal)) == Blinker(n, r, c, !horizontal)
  {
    var g, h := Blinker(n, r, c, horizontal), Blinker(n, r, c, !horizontal);
    forall i, j | 0 <= i < n && 0 <= j < n
      ensures Step(g)[i][j] == h[i][j]
    {
      if horizontal {
        HorizontalBlinkerCell(n, r, c, i, j);
      } else {
        VerticalBlinkerCell(n, r, c, i, j);
      }
    }
    GridsEqual(Step(g), h);
  }

  /** A blinker comes back after two steps. */
  lemma BlinkerPeriodTwo(n: nat, r: nat, c: nat)
    requires 1 <= r && r + 1 < n && 1 <= c && c + 1 < n
    ensures Step(Step(Blinker(n, r, c, true))) == Blinker(n, r, c, true)
    ensures Step(Blinker(n, r, c, true)) != Blinker(n, r, c, true)
  {
    BlinkerTurns(n, r, c, true);
    BlinkerTurns(n, r, c, false);
    assert Blinker(n, r, c, true)[r][c - 1] != Blinker(n, r, c, false)[r][c - 1];
  }
}
