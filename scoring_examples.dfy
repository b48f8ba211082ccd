/**
 * Scores of small boards, read off the loop of State.score(): the empty
 * board, a lone knight, an adjacent opposite-colored pair and a pair a
 * knight move apart.
 */
module ScoringExamples {
  import opened Board
  import opened Scoring

  /** Only the row-major cells a and b may hold a knight; the rest add nothing. */
  lemma {:induction false} ScoreUpToSparse(g: Grid, n: int, a: int, b: int)
    requires IsGrid(g) && 0 <= n <= CellCount && 0 <= a < CellCount && 0 <= b < CellCount
    requires forall m :: 0 <= m < CellCount && m != a && m != b ==> !IsPiece(g[Row(m)][Col(m)])
    ensures ScoreUpTo(g, n) ==
            (if a < n then CellScore(g, Row(a), Col(a)) else 0)
            + (if b < n && b != a then CellScore(g, Row(b), Col(b)) else 0)
  {
    if n == 0 {
    } else {
      ScoreUpToSparse(g, n - 1, a, b);
    }
  }

  lemma {:induction false} EmptyCellsScoreZero(g: Grid, n: int)
    requires IsGrid(g) && 0 <= n <= CellCount
    requires forall i, j :: InBounds(i, j) ==> !IsPiece(g[i][j])
    ensures ScoreUpTo(g, n) == 0
  {
    if n == 0 {
    } else {
      IndexOfCell(n - 1);
      EmptyCellsScoreZero(g, n - 1);
    }
  }

  /** A board without knights scores 0. */
  lemma NoKnightsScoreZero(g: Grid)
    requires IsGrid(g)
    requires forall i, j :: InBounds(i, j) ==> !IsPiece(g[i][j])
    ensures Score(g) == 0
  {
    EmptyCellsScoreZero(g, CellCount);
  }

  lemma EmptyBoardScoresZero()
    ensures Score(EmptyBoard()) == 0
  {
    NoKnightsScoreZero(EmptyBoard());
  }

  /** A lone knight scores its color value plus its row and column. */
  lemma LoneKnightScore(i: int, j: int, c: char)
    requires InBounds(i, j) && IsPiece(c)
    ensures Score(Place(EmptyBoard(), i, j, c)) == PieceValue(c) + i + j
  {
    var g := Place(EmptyBoard(), i, j, c);
    var a := Index((i, j));
    CellOfIndex(i, j);
    forall m | 0 <= m < CellCount && m != a
      ensures !IsPiece(g[Row(m)][Col(m)])
    {
      IndexOfCell(m);
    }
    ScoreUpToSparse(g, CellCount, a, a);
    assert KnightHits(g, i, j, 1) == 0;
    assert KnightHits(g, i, j, 2) == 0;
    assert KnightHits(g, i, j, 3) == 0;
    assert KnightHits(g, i, j, 4) == 0;
  }

  lemma BlackInCornerScoresThree()
    ensures Score(Place(EmptyBoard(), 0, 0, Black)) == 3
  {
    LoneKnightScore(0, 0, Black);
  }

  lemma WhiteInFarCornerScoresSixteen()
    ensures Score(Place(EmptyBoard(), 7, 7, White)) == 16
  {
    LoneKnightScore(7, 7, White);
  }

  /** Scoring a board with knights only at row-major cells a and b. */
  lemma TwoKnightScore(g: Grid, a: int, b: int)
    requires IsGrid(g) && 0 <= a < b < CellCount
    requires forall m :: 0 <= m < CellCount && m != a && m != b ==> !IsPiece(g[Row(m)][Col(m)])
    ensures Score(g) == CellScore(g, Row(a), Col(a)) + CellScore(g, Row(b), Col(b))
  {
    ScoreUpToSparse(g, CellCount, a, b);
  }

  /**
   * A black knight at (0, 0) with a white one east of it: 3 + 1 + 0 for the
   * black knight, 2 + 1 for the white one. The pair earns +1 once, from the
   * black knight's east test; the white knight's tests look further east
   * and south only.
   */
  lemma AdjacentPairScoresSeven()
    ensures Score(Place(Place(EmptyBoard(), 0, 0, Black), 0, 1, White)) == 7
  {
    var g := Place(Place(EmptyBoard(), 0, 0, Black), 0, 1, White);
    forall m | 0 <= m < CellCount && m != 0 && m != 1
      ensures !IsPiece(g[Row(m)][Col(m)])
    {
      IndexOfCell(m);
    }
    TwoKnightScore(g, 0, 1);
    assert KnightHits(g, 0, 0, 4) == 0 by {
      assert KnightHits(g, 0, 0, 1) == 0;
      assert KnightHits(g, 0, 0, 2) == 0;
      assert KnightHits(g, 0, 0, 3) == 0;
    }
    assert KnightHits(g, 0, 1, 4) == 0 by {
      assert KnightHits(g, 0, 1, 1) == 0;
      assert KnightHits(g, 0, 1, 2) == 0;
      assert KnightHits(g, 0, 1, 3) == 0;
    }
  }

  /**
   * A black knight at (0, 0) and a white one at (1, 2): (3 - 3) + (2 + 3).
   * Only the black knight, the left-hand one, sees the other through an
   * offset, so the pair is penalised once.
   */
  lemma KnightPairScoresFive()
    ensures Score(Place(Place(EmptyBoard(), 0, 0, Black), 1, 2, White)) == 5
  {
    var g := Place(Place(EmptyBoard(), 0, 0, Black), 1, 2, White);
    forall m | 0 <= m < CellCount && m != 0 && m != 10
      ensures !IsPiece(g[Row(m)][Col(m)])
    {
      IndexOfCell(m);
    }
    TwoKnightScore(g, 0, 10);
    assert KnightHits(g, 0, 0, 4) == 1 by {
      assert KnightHits(g, 0, 0, 1) == 0;
      assert KnightHits(g, 0, 0, 2) == 0;
      assert KnightHits(g, 0, 0, 3) == 1;
    }
    assert KnightHits(g, 1, 2, 4) == 0 by {
      assert KnightHits(g, 1, 2, 1) == 0;
      assert KnightHits(g, 1, 2, 2) == 0;
      assert KnightHits(g, 1, 2, 3) == 0;
    }
  }
}
