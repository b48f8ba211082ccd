/**
 * State.java: a board held in a fixed 8×8 character array that the
 * constructors fill in place. Contents() is the board's value; the methods
 * are proved against the value-level definitions of Scoring and Text.
 */
module States {
  import opened Board
  import Scoring
  import Text

  /** The symbols the random constructor draws from, indexed by the draw. */
  const Pieces: seq<char> := [Black, White, Empty]

  class State {
    /** The board; the reference is final, the cells are not. */
    const board: array2<char>

    predicate Valid() {
      board.Length0 == Size && board.Length1 == Size
    }

    /** The board as a value: two States are equal exactly when these agree. */
    function Contents(): (g: Grid)
      reads board
      requires Valid()
      ensures IsGrid(g)
      ensures forall i, j :: InBounds(i, j) ==> g[i][j] == board[i, j]
    {
      seq(Size, i requires 0 <= i < Size reads board =>
        seq(Size, j requires 0 <= j < Size reads board => board[i, j]))
    }

    /**
     * The random constructor, with the random indices as a parameter:
     * draws[8 * i + j] in 0..2 picks the symbol of cell (i, j).
     */
    constructor Random(draws: seq<int>)
      requires |draws| == CellCount
      requires forall k :: 0 <= k < |draws| ==> 0 <= draws[k] < |Pieces|
      ensures Valid() && fresh(board)
      ensures IsBoard(Contents())
      ensures forall i, j :: InBounds(i, j) ==> Contents()[i][j] == Pieces[draws[Size * i + j]]
    {
      board := new char[Size, Size];
      new;
      var i := 0;
      while i < Size
        invariant 0 <= i <= Size
        invariant forall i', j' :: 0 <= i' < i && 0 <= j' < Size ==> board[i', j'] == Pieces[draws[Size * i' + j']]
      {
        var j := 0;
        while j < Size
          invariant 0 <= j <= Size
          invariant forall i', j' :: 0 <= i' < i && 0 <= j' < Size ==> board[i', j'] == Pieces[draws[Size * i' + j']]
          invariant forall j' :: 0 <= j' < j ==> board[i, j'] == Pieces[draws[Size * i + j']]
        {
          board[i, j] := Pieces[draws[Size * i + j]];
          j := j + 1;
        }
        i := i + 1;
      }
    }

    /** The copy constructor: a fresh array holding the same cells. */
    constructor Copy(state: State)
      requires state.Valid()
      ensures Valid() && fresh(board)
      ensures Contents() == state.Contents()
    {
      board := new char[Size, Size];
      new;
      var i := 0;
      while i < Size
        invariant 0 <= i <= Size
        invariant forall i', j' :: 0 <= i' < i && 0 <= j' < Size ==> board[i', j'] == state.board[i', j']
      {
        var j := 0;
        while j < Size
          invariant 0 <= j <= Size
          invariant forall i', j' :: 0 <= i' < i && 0 <= j' < Size ==> board[i', j'] == state.board[i', j']
          invariant forall j' :: 0 <= j' < j ==> board[i, j'] == state.board[i, j']
        {
          board[i, j] := state.board[i, j];
          j := j + 1;
        }
        i := i + 1;
      }
      GridExtensionality(Contents(), state.Contents());
    }

    /** A write through getBoard(): board[i][j] = c. */
    method SetCell(i: int, j: int, c: char)
      requires Valid() && InBounds(i, j)
      modifies board
      ensures Contents() == Place(old(Contents()), i, j, c)
    {
      board[i, j] := c;
      GridExtensionality(Contents(), Place(old(Contents()), i, j, c));
    }

    /**
     * score(): the double loop over the cells, with every board read in
     * bounds. The body of the inner loop is CellScoreAt.
     */
    method Score() returns (score: int)
      requires Valid()
      ensures score == Scoring.Score(Contents())
    {
      ghost var g := Contents();
      ghost var done := 0;
      score := 0;
      var i := 0;
      while i < Size
        invariant 0 <= i <= Size && done == Size * i
        invariant Contents() == g
        invariant score == Scoring.ScoreUpTo(g, done)
      {
        var j := 0;
        while j < Size
          invariant 0 <= j <= Size && done == Size * i + j
          invariant Contents() == g
          invariant score == Scoring.ScoreUpTo(g, done)
        {
          var delta := CellScoreAt(g, i, j);
          Scoring.ScoreUpToStep(g, done, i, j);
          score := score + delta;
          done := done + 1;
          j := j + 1;
        }
        i := i + 1;
      }
    }

    /**
     * One pass of score()'s inner loop: what cell (i, j) adds to the score,
     * its color value, +1 per opposite-colored knight to the south or
     * east, its row and column, and -3 per occupied offset target.
     */
    method CellScoreAt(ghost g: Grid, i: int, j: int) returns (delta: int)
      requires Valid() && InBounds(i, j) && g == Contents()
      ensures delta == Scoring.CellScore(g, i, j)
    {
      delta := 0;
      var piece := board[i, j];
      if piece == Black || piece == White {
        if piece == Black {
          delta := delta + 3;
          if i + 1 < Size && board[i + 1, j] == White {
            delta := delta + 1;
          }
          if j + 1 < Size && board[i, j + 1] == White {
            delta := delta + 1;
          }
        } else {
          delta := delta + 2;
          if i + 1 < Size && board[i + 1, j] == Black {
            delta := delta + 1;
          }
          if j + 1 < Size && board[i, j + 1] == Black {
            delta := delta + 1;
          }
        }
        delta := delta + i + j;
        ghost var withIndex := delta;
        var k := 0;
        while k < |Scoring.Offsets|
          invariant 0 <= k <= |Scoring.Offsets|
          invariant delta == withIndex - 3 * Scoring.KnightHits(g, i, j, k)
        {
          var iCapture := i + Scoring.Offsets[k].0;
          var jCapture := j + Scoring.Offsets[k].1;
          if iCapture >= 0 && iCapture < Size && jCapture < Size &&
             (board[iCapture, jCapture] == Black || board[iCapture, jCapture] == White) {
            delta := delta - 3;
          }
          k := k + 1;
        }
      }
    }

    /** equals(Object): the same object, or another State with the same cells. */
    method Equals(other: State?) returns (eq: bool)
      requires Valid()
      requires other != null ==> other.Valid()
      ensures eq <==> other != null && Contents() == other.Contents()
    {
      if other == this {
        return true;
      }
      if other == null {
        return false;
      }
      var i := 0;
      while i < Size
        invariant 0 <= i <= Size
        invariant forall i', j' :: 0 <= i' < i && 0 <= j' < Size ==> board[i', j'] == other.board[i', j']
      {
        var j := 0;
        while j < Size
          invariant 0 <= j <= Size
          invariant forall i', j' :: 0 <= i' < i && 0 <= j' < Size ==> board[i', j'] == other.board[i', j']
          invariant forall j' :: 0 <= j' < j ==> board[i, j'] == other.board[i, j']
        {
          if board[i, j] != other.board[i, j] {
            assert Contents()[i][j] != other.Contents()[i][j];
            return false;
          }
          j := j + 1;
        }
        i := i + 1;
      }
      GridExtensionality(Contents(), other.Contents());
      return true;
    }

    /** toString(): "[c]" per cell, a newline per row, then strip(). */
    method ToString() returns (text: string)
      requires Valid()
      ensures text == Text.Render(Contents())
    {
      ghost var g := Contents();
      var res := "";
      var i := 0;
      while i < Size
        invariant 0 <= i <= Size
        invariant res == Text.Built(g, i)
      {
        var j := 0;
        while j < Size
          invariant 0 <= j <= Size
          invariant res == Text.Built(g, i) + Text.RowText(g[i][..j])
        {
          res := res + "[" + [board[i, j]] + "]";
          assert g[i][..j + 1][..j] == g[i][..j];
          j := j + 1;
        }
        assert g[i][..Size] == g[i];
        res := res + "\n";
        i := i + 1;
      }
      text := Text.Strip(res);
      Text.StripBuilt(g);
    }
  }
}
