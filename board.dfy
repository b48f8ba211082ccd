/**
 * The 8×8 board of the knights puzzle as a value: eight rows of eight cells,
 * each cell one of the characters 'B' (black knight), 'W' (white knight) or
 * '-' (empty). Cells are addressed by (row, column) or by their row-major
 * index 8 * row + column, the order in which the source's loops visit them.
 */
module Board {
  const Size: int := 8
  const CellCount: int := 64

  const Black: char := 'B'
  const White: char := 'W'
  const Empty: char := '-'

  type Grid = seq<seq<char>>
  type Pos = (int, int)

  /** An 8×8 shape; the cells may hold any character. */
  predicate IsGrid(g: Grid) {
    |g| == Size && forall i :: 0 <= i < Size ==> |g[i]| == Size
  }

  predicate IsSymbol(c: char) {
    c == Black || c == White || c == Empty
  }

  predicate IsPiece(c: char) {
    c == Black || c == White
  }

  /** An 8×8 shape whose every cell is one of the three symbols. */
  predicate IsBoard(g: Grid) {
    IsGrid(g) && forall i, j :: 0 <= i < Size && 0 <= j < Size ==> IsSymbol(g[i][j])
  }

  predicate InBounds(i: int, j: int) {
    0 <= i < Size && 0 <= j < Size
  }

  function Row(m: int): int { m / Size }
  function Col(m: int): int { m % Size }
  function Index(p: Pos): int { Size * p.0 + p.1 }

  lemma IndexOfCell(m: int)
    requires 0 <= m < CellCount
    ensures InBounds(Row(m), Col(m)) && Index((Row(m), Col(m))) == m
  {
  }

  lemma CellOfIndex(i: int, j: int)
    requires InBounds(i, j)
    ensures 0 <= Index((i, j)) < CellCount
    ensures Row(Index((i, j))) == i && Col(Index((i, j))) == j
  {
  }

  /** The grid with the one cell (i, j) overwritten by c. */
  function Place(g: Grid, i: int, j: int, c: char): (h: Grid)
    requires IsGrid(g) && InBounds(i, j)
    ensures IsGrid(h) && h[i][j] == c
    ensures forall i', j' :: InBounds(i', j') && (i', j') != (i, j) ==> h[i'][j'] == g[i'][j']
  {
    g[i := g[i][j := c]]
  }

  /** Two grids are equal exactly when all 64 cells agree. */
  lemma GridExtensionality(g: Grid, h: Grid)
    requires IsGrid(g) && IsGrid(h)
    requires forall i, j :: InBounds(i, j) ==> g[i][j] == h[i][j]
    ensures g == h
  {
    forall i | 0 <= i < Size
      ensures g[i] == h[i]
    {
      assert forall j :: 0 <= j < Size ==> g[i][j] == h[i][j];
    }
  }

  function EmptyBoard(): (g: Grid)
    ensures IsBoard(g)
    ensures forall i, j :: InBounds(i, j) ==> g[i][j] == Empty
  {
    seq(Size, _ => seq(Size, _ => Empty))
  }
}
