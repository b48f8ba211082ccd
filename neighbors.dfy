/**
 * LocalSearch.getNeighbors: for every cell, two copies of the board with
 * that one cell switched to each of the other two symbols. The set of all
 * such copies is Neighbors(g); GetNeighbors builds it on State objects.
 */
module Neighborhood {
  import opened Board
  import opened States

  /**
   * What the switch in getNeighbors writes into copy A and copy B. The switch
   * has no default branch, so a character outside the alphabet is left as
   * it is in both copies.
   */
  function Alternatives(c: char): (char, char) {
    if c == Black then (White, Empty)
    else if c == White then (Black, Empty)
    else if c == Empty then (Black, White)
    else (c, c)
  }

  /**
   * A symbol's two alternatives are the two other symbols, so the symbol and
   * its alternatives cover the alphabet; anything else is its own alternative.
   */
  lemma AlternativesOfSymbol(c: char)
    ensures IsSymbol(c) ==> IsSymbol(Alternatives(c).0) && IsSymbol(Alternatives(c).1)
    ensures IsSymbol(c) ==> Alternatives(c).0 != c && Alternatives(c).1 != c && Alternatives(c).0 != Alternatives(c).1
    ensures IsSymbol(c) ==> (c == Black || Alternatives(c).0 == Black || Alternatives(c).1 == Black)
                            && (c == White || Alternatives(c).0 == White || Alternatives(c).1 == White)
                            && (c == Empty || Alternatives(c).0 == Empty || Alternatives(c).1 == Empty)
    ensures !IsSymbol(c) ==> Alternatives(c).0 == c && Alternatives(c).1 == c
  {
  }

  /** The two copies made for cell (i, j). */
  function CellNeighbors(g: Grid, i: int, j: int): set<Grid>
    requires IsGrid(g) && InBounds(i, j)
  {
    var alt := Alternatives(g[i][j]);
    {Place(g, i, j, alt.0), Place(g, i, j, alt.1)}
  }

  /** The neighbor set after the first n cells in row-major order. */
  function NeighborsUpTo(g: Grid, n: int): (r: set<Grid>)
    requires IsGrid(g) && 0 <= n <= CellCount
    ensures forall h :: h in r ==> IsGrid(h)
  {
    if n == 0 then {} else NeighborsUpTo(g, n - 1) + CellNeighbors(g, Row(n - 1), Col(n - 1))
  }

  function Neighbors(g: Grid): (r: set<Grid>)
    requires IsGrid(g)
    ensures forall h :: h in r ==> IsGrid(h)
  {
    NeighborsUpTo(g, CellCount)
  }

  /** h is g with the one cell (i, j) changed and every other cell kept. */
  ghost predicate ChangedOnlyAt(g: Grid, h: Grid, i: int, j: int)
    requires IsGrid(g) && InBounds(i, j)
  {
    IsGrid(h) && h[i][j] != g[i][j]
    && forall i', j' :: InBounds(i', j') && (i', j') != (i, j) ==> h[i'][j'] == g[i'][j']
  }

  /** One more cell in row-major order, cell n = (i, j), adds that cell's two copies. */
  lemma NeighborsUpToStep(g: Grid, n: int, i: int, j: int)
    requires IsGrid(g) && InBounds(i, j) && n == Size * i + j
    ensures 0 <= n < CellCount
    ensures NeighborsUpTo(g, n + 1) == NeighborsUpTo(g, n) + CellNeighbors(g, i, j)
  {
    CellOfIndex(i, j);
  }

  /** On a board, the two copies of a cell are different boards. */
  lemma CellNeighborsSize(g: Grid, i: int, j: int)
    requires IsBoard(g) && InBounds(i, j)
    ensures |CellNeighbors(g, i, j)| == 2
  {
    var alt := Alternatives(g[i][j]);
    assert Place(g, i, j, alt.0)[i][j] != Place(g, i, j, alt.1)[i][j];
  }

  /** On a board, the two copies of a cell are boards that differ from it exactly there. */
  lemma CellNeighborsShape(g: Grid, i: int, j: int)
    requires IsBoard(g) && InBounds(i, j)
    ensures forall h :: h in CellNeighbors(g, i, j) ==> IsBoard(h) && ChangedOnlyAt(g, h, i, j)
  {
    var alt := Alternatives(g[i][j]);
    var a, b := Place(g, i, j, alt.0), Place(g, i, j, alt.1);
    forall h | h in CellNeighbors(g, i, j)
      ensures IsBoard(h) && ChangedOnlyAt(g, h, i, j)
    {
      assert h == a || h == b;
    }
  }

  /** The first cell, in row-major order from index m on, where g and h differ; 64 if none. */
  ghost function FirstChange(g: Grid, h: Grid, m: int): (k: int)
    requires IsGrid(g) && IsGrid(h) && 0 <= m <= CellCount
    ensures m <= k <= CellCount
    decreases CellCount - m
  {
    if m == CellCount then CellCount
    else if g[Row(m)][Col(m)] != h[Row(m)][Col(m)] then m
    else FirstChange(g, h, m + 1)
  }

  /** If h differs from g only at (i, j), the first difference from m on is at 8i + j. */
  lemma {:induction false} FirstChangeAt(g: Grid, h: Grid, m: int, i: int, j: int)
    requires IsGrid(g) && InBounds(i, j) && ChangedOnlyAt(g, h, i, j)
    requires 0 <= m <= Size * i + j
    ensures FirstChange(g, h, m) == Size * i + j
    decreases Size * i + j - m
  {
    if m < Size * i + j {
      IndexOfCell(m);
      assert (Row(m), Col(m)) != (i, j);
      FirstChangeAt(g, h, m + 1, i, j);
    } else {
      CellOfIndex(i, j);
    }
  }

  /** Both copies made for cell (i, j) first differ from g at index 8i + j. */
  lemma CellNeighborIndex(g: Grid, i: int, j: int, h: Grid)
    requires IsBoard(g) && InBounds(i, j) && h in CellNeighbors(g, i, j)
    ensures IsGrid(h) && FirstChange(g, h, 0) == Size * i + j
  {
    CellNeighborsShape(g, i, j);
    FirstChangeAt(g, h, 0, i, j);
  }

  /** Every board the first n cells contribute is a copy made for a cell of index below n. */
  lemma {:induction false} NeighborsUpToSound(g: Grid, n: int, h: Grid)
    requires IsBoard(g) && 0 <= n <= CellCount && h in NeighborsUpTo(g, n)
    ensures IsGrid(h) && FirstChange(g, h, 0) < n
    ensures h in CellNeighbors(g, Row(FirstChange(g, h, 0)), Col(FirstChange(g, h, 0)))
  {
    var i0, j0 := Row(n - 1), Col(n - 1);
    IndexOfCell(n - 1);
    if h in CellNeighbors(g, i0, j0) {
      CellNeighborIndex(g, i0, j0, h);
    } else {
      NeighborsUpToSound(g, n - 1, h);
    }
  }

  /** The copies made for a cell of index below n are among the first n cells' boards. */
  lemma {:induction false} NeighborsUpToComplete(g: Grid, n: int, i: int, j: int)
    requires IsGrid(g) && 0 <= n <= CellCount && InBounds(i, j) && Size * i + j < n
    ensures CellNeighbors(g, i, j) <= NeighborsUpTo(g, n)
  {
    if Size * i + j < n - 1 {
      NeighborsUpToComplete(g, n - 1, i, j);
    } else {
      CellOfIndex(i, j);
    }
  }

  /** The copies made for cell m are new: none of the first m cells made them. */
  lemma NeighborsUpToDisjoint(g: Grid, m: int)
    requires IsBoard(g) && 0 <= m < CellCount
    ensures InBounds(Row(m), Col(m))
    ensures NeighborsUpTo(g, m) * CellNeighbors(g, Row(m), Col(m)) == {}
  {
    IndexOfCell(m);
    forall h | h in CellNeighbors(g, Row(m), Col(m))
      ensures h !in NeighborsUpTo(g, m)
    {
      NotEarlierNeighbor(g, m, h);
    }
  }

  lemma NotEarlierNeighbor(g: Grid, m: int, h: Grid)
    requires IsBoard(g) && 0 <= m < CellCount
    requires InBounds(Row(m), Col(m)) && h in CellNeighbors(g, Row(m), Col(m))
    ensures h !in NeighborsUpTo(g, m)
  {
    CellNeighborIndex(g, Row(m), Col(m), h);
    IndexOfCell(m);
    if h in NeighborsUpTo(g, m) {
      NeighborsUpToSound(g, m, h);
    }
  }

  /** Cell n - 1's two copies are new, so they add two boards to those of the cells before. */
  lemma NeighborsUpToCountStep(g: Grid, n: int)
    requires IsBoard(g) && 0 < n <= CellCount
    ensures |NeighborsUpTo(g, n)| == |NeighborsUpTo(g, n - 1)| + 2
  {
    NeighborsUpToDisjoint(g, n - 1);
    CellNeighborsSize(g, Row(n - 1), Col(n - 1));
  }

  /** Distinct cells give disjoint pairs of copies, so the first n cells give 2n boards. */
  lemma {:induction false} NeighborsUpToCount(g: Grid, n: int)
    requires IsBoard(g) && 0 <= n <= CellCount
    ensures |NeighborsUpTo(g, n)| == 2 * n
    decreases n
  {
    if n == 0 {
    } else {
      NeighborsUpToCount(g, n - 1);
      NeighborsUpToCountStep(g, n);
    }
  }

  /**
   * The neighbors of a board are exactly the boards that differ from it in
   * precisely one cell.
   */
  lemma NeighborsAreOneCellChanges(g: Grid, h: Grid)
    requires IsBoard(g)
    ensures h in Neighbors(g) <==>
            IsBoard(h) && exists i, j :: InBounds(i, j) && ChangedOnlyAt(g, h, i, j)
  {
    if h in Neighbors(g) {
      NeighborsUpToSound(g, CellCount, h);
      var m := FirstChange(g, h, 0);
      IndexOfCell(m);
      CellNeighborsShape(g, Row(m), Col(m));
    }
    if IsBoard(h) && exists i, j :: InBounds(i, j) && ChangedOnlyAt(g, h, i, j) {
      var i, j :| InBounds(i, j) && ChangedOnlyAt(g, h, i, j);
      var alt := Alternatives(g[i][j]);
      var c := h[i][j];
      assert c == alt.0 || c == alt.1;
      GridExtensionality(h, Place(g, i, j, c));
      NeighborsUpToComplete(g, CellCount, i, j);
    }
  }

  /** getNeighbors of a board returns 128 distinct boards. */
  lemma NeighborsOfBoard(g: Grid)
    requires IsBoard(g)
    ensures |Neighbors(g)| == 2 * CellCount
    ensures forall h :: h in Neighbors(g) ==> IsBoard(h)
  {
    NeighborsUpToCount(g, CellCount);
    forall h | h in Neighbors(g)
      ensures IsBoard(h)
    {
      NeighborsAreOneCellChanges(g, h);
    }
  }

  /** No board is its own neighbor. */
  lemma NotOwnNeighbor(g: Grid)
    requires IsBoard(g)
    ensures g !in Neighbors(g)
  {
    NeighborsAreOneCellChanges(g, g);
  }

  /** The one cell a neighbor changes takes one of the two other symbols. */
  lemma NeighborChangedCell(g: Grid, h: Grid, i: int, j: int)
    requires IsBoard(g) && InBounds(i, j)
    requires h in Neighbors(g) && IsGrid(h) && h[i][j] != g[i][j]
    ensures IsSymbol(h[i][j]) && h[i][j] != g[i][j]
    ensures h[i][j] == Alternatives(g[i][j]).0 || h[i][j] == Alternatives(g[i][j]).1
  {
    NeighborsAreOneCellChanges(g, h);
  }

  /**
   * The neighbor set as getNeighbors' double loop holds it: the copies for
   * every cell of the rows above row i and for the first j cells of row i.
   */
  function NeighborsBefore(g: Grid, i: int, j: int): set<Grid>
    requires IsGrid(g) && 0 <= i <= Size && 0 <= j <= Size && (i < Size || j == 0)
    decreases i, j
  {
    if j > 0 then NeighborsBefore(g, i, j - 1) + CellNeighbors(g, i, j - 1)
    else if i > 0 then NeighborsBefore(g, i - 1, Size)
    else {}
  }

  /** Row i starts where row i - 1 ended. */
  lemma NeighborsBeforeRowStep(g: Grid, i: int, n: int)
    requires IsGrid(g) && 0 < i <= Size && n == Size * i
    requires NeighborsBefore(g, i - 1, Size) == NeighborsUpTo(g, n)
    ensures NeighborsBefore(g, i, 0) == NeighborsUpTo(g, n)
  {
  }

  /** Cell j - 1 of row i is cell n - 1 in row-major order, so both views add the same two copies. */
  lemma NeighborsBeforeCellStep(g: Grid, i: int, j: int, n: int)
    requires IsGrid(g) && 0 <= i < Size && 0 < j <= Size
    requires n == Size * i + j
    requires NeighborsBefore(g, i, j - 1) == NeighborsUpTo(g, n - 1)
    ensures NeighborsBefore(g, i, j) == NeighborsUpTo(g, n)
  {
    NeighborsUpToStep(g, n - 1, i, j - 1);
  }

  /** Within row i, the loop's view after j cells is the row-major view after 8i + j cells. */
  lemma {:induction false} NeighborsBeforeInRow(g: Grid, i: int, j: int, n: int)
    requires IsGrid(g) && 0 <= i < Size && 0 <= j <= Size && n == Size * i + j
    requires NeighborsBefore(g, i, 0) == NeighborsUpTo(g, Size * i)
    ensures NeighborsBefore(g, i, j) == NeighborsUpTo(g, n)
  {
    if j > 0 {
      NeighborsBeforeInRow(g, i, j - 1, n - 1);
      NeighborsBeforeCellStep(g, i, j, n);
    }
  }

  /** Before row i, the loop's view is the row-major view after 8i cells. */
  lemma {:induction false} NeighborsBeforeRows(g: Grid, i: int)
    requires IsGrid(g) && 0 <= i <= Size
    ensures NeighborsBefore(g, i, 0) == NeighborsUpTo(g, Size * i)
  {
    if i > 0 {
      NeighborsBeforeRows(g, i - 1);
      NeighborsBeforeInRow(g, i - 1, Size, Size * i);
      NeighborsBeforeRowStep(g, i, Size * i);
    }
  }

  /** After the last row the loop holds every neighbor. */
  lemma NeighborsBeforeAll(g: Grid)
    requires IsGrid(g)
    ensures NeighborsBefore(g, Size, 0) == Neighbors(g)
  {
    NeighborsBeforeRows(g, Size);
  }

  /**
   * getNeighbors: for every cell, two copies of the argument with that cell
   * switched (CopiesForCell), both added to the set. The loops hold
   * NeighborsBefore(g, i, j), which after the last row is Neighbors(g).
   */
  method GetNeighbors(state: State) returns (neighbors: set<Grid>)
    requires state.Valid()
    ensures neighbors == Neighbors(state.Contents())
  {
    ghost var g := state.Contents();
    neighbors := {};
    var i := 0;
    while i < Size
      invariant 0 <= i <= Size
      invariant state.Contents() == g
      invariant neighbors == NeighborsBefore(g, i, 0)
    {
      var j := 0;
      while j < Size
        invariant 0 <= j <= Size
        invariant state.Contents() == g
        invariant neighbors == NeighborsBefore(g, i, j)
      {
        var newStateA, newStateB := CopiesForCell(state, g, i, j);
        neighbors := neighbors + {newStateA.Contents(), newStateB.Contents()};
        j := j + 1;
      }
      i := i + 1;
    }
    NeighborsBeforeAll(g);
  }

  /**
   * One pass of getNeighbors' inner loop: two copies of the state, and the
   * switch writes cell (i, j) of each. Only the fresh copies are written, so
   * the argument's board is left as it was.
   */
  method CopiesForCell(state: State, ghost g: Grid, i: int, j: int) returns (newStateA: State, newStateB: State)
    requires state.Valid() && InBounds(i, j) && g == state.Contents()
    ensures fresh(newStateA.board) && fresh(newStateB.board)
    ensures state.Contents() == g
    ensures newStateA.Valid() && newStateB.Valid()
    ensures {newStateA.Contents(), newStateB.Contents()} == CellNeighbors(g, i, j)
  {
    newStateA := new State.Copy(state);
    newStateB := new State.Copy(state);
    SwitchCell(state, newStateA, newStateB, i, j);
  }

  /**
   * The switch on the state's cell (i, j): copy A gets the first and copy B
   * the second of the other two symbols; any other character is left alone.
   */
  method SwitchCell(state: State, newStateA: State, newStateB: State, i: int, j: int)
    requires state.Valid() && newStateA.Valid() && newStateB.Valid() && InBounds(i, j)
    requires newStateA.board != newStateB.board
    requires newStateA.board != state.board && newStateB.board != state.board
    requires newStateA.Contents() == state.Contents() && newStateB.Contents() == state.Contents()
    modifies newStateA.board, newStateB.board
    ensures newStateA.Contents() == Place(state.Contents(), i, j, Alternatives(state.Contents()[i][j]).0)
    ensures newStateB.Contents() == Place(state.Contents(), i, j, Alternatives(state.Contents()[i][j]).1)
  {
    ghost var g := state.Contents();
    var c := state.board[i, j];
    if c == Black {
      newStateA.SetCell(i, j, White);
      newStateB.SetCell(i, j, Empty);
    } else if c == White {
      newStateA.SetCell(i, j, Black);
      newStateB.SetCell(i, j, Empty);
    } else if c == Empty {
      newStateA.SetCell(i, j, Black);
      newStateB.SetCell(i, j, White);
    } else {
      assert g[i][j := c] == g[i];
    }
  }
}
