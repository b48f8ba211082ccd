/**
 * The score of a board, as State.score() computes it: one pass over the
 * cells in row-major order, each occupied cell adding its color value, a
 * bonus for opposite-colored south and east neighbors, its row plus column,
 * and a penalty of 3 for each occupied cell it could capture with one of four
 * knight moves.
 *
 * ScoreUpTo follows the loop; ScoreDecomposition proves that the result is
 * the sum of four independently defined terms, so that every orthogonally
 * adjacent opposite-colored pair and every knight-attacking pair of pieces
 * is counted exactly once.
 */
module Scoring {
  import opened Board

  /** The four knight offsets (row, column) that the score inspects. */
  const Offsets: seq<(int, int)> := [(-2, 1), (-1, 2), (1, 2), (2, 1)]

  function Target(i: int, j: int, k: int): Pos
    requires 0 <= k < |Offsets|
  {
    (i + Offsets[k].0, j + Offsets[k].1)
  }

  /**
   * Offset k from (i, j) reaches an occupied cell. The column is not tested
   * against 0: every offset moves to the right, so it cannot go below 0.
   */
  predicate KnightHit(g: Grid, i: int, j: int, k: int)
    requires IsGrid(g) && InBounds(i, j) && 0 <= k < |Offsets|
  {
    var iCapture := i + Offsets[k].0;
    var jCapture := j + Offsets[k].1;
    iCapture >= 0 && iCapture < Size && jCapture < Size && IsPiece(g[iCapture][jCapture])
  }

  /** How many of the first k offsets reach an occupied cell. */
  function KnightHits(g: Grid, i: int, j: int, k: int): (hits: nat)
    requires IsGrid(g) && InBounds(i, j) && 0 <= k <= |Offsets|
    ensures hits <= k
  {
    if k == 0 then 0 else KnightHits(g, i, j, k - 1) + (if KnightHit(g, i, j, k - 1) then 1 else 0)
  }

  /** What one pass of the double loop adds for cell (i, j). */
  function CellScore(g: Grid, i: int, j: int): int
    requires IsGrid(g) && InBounds(i, j)
  {
    var piece := g[i][j];
    if piece == Black || piece == White then
      var own :=
        if piece == Black then
          3 + (if i + 1 < Size && g[i + 1][j] == White then 1 else 0)
            + (if j + 1 < Size && g[i][j + 1] == White then 1 else 0)
        else
          2 + (if i + 1 < Size && g[i + 1][j] == Black then 1 else 0)
            + (if j + 1 < Size && g[i][j + 1] == Black then 1 else 0);
      own + (i + j) - 3 * KnightHits(g, i, j, |Offsets|)
    else
      0
  }

  /** The accumulator after the first n cells in row-major order. */
  function ScoreUpTo(g: Grid, n: int): int
    requires IsGrid(g) && 0 <= n <= CellCount
  {
    if n == 0 then 0 else ScoreUpTo(g, n - 1) + CellScore(g, Row(n - 1), Col(n - 1))
  }

  function Score(g: Grid): int
    requires IsGrid(g)
  {
    ScoreUpTo(g, CellCount)
  }

  /**
   * An empty cell adds nothing; a knight adds its color value and i + j, at
   * most +2 for neighbors of the other color and at most -12 for
   * knight-move targets.
   */
  lemma CellScoreBounds(g: Grid, i: int, j: int)
    requires IsGrid(g) && InBounds(i, j)
    ensures !IsPiece(g[i][j]) ==> CellScore(g, i, j) == 0
    ensures IsPiece(g[i][j]) ==>
              PieceValue(g[i][j]) + i + j - 12 <= CellScore(g, i, j) <= PieceValue(g[i][j]) + i + j + 2
  {
  }

  /** One more cell of the loop, cell n = (i, j), adds that cell's score. */
  lemma ScoreUpToStep(g: Grid, n: int, i: int, j: int)
    requires IsGrid(g) && InBounds(i, j) && n == Size * i + j
    ensures 0 <= n < CellCount
    ensures ScoreUpTo(g, n + 1) == ScoreUpTo(g, n) + CellScore(g, i, j)
  {
    CellOfIndex(i, j);
  }

  // ---------------------------------------------------------------------
  // An independent description of the score
  // ---------------------------------------------------------------------

  /** An unordered pair of cells, written with the row-major earlier cell first. */
  type Pair = (Pos, Pos)

  function PieceValue(c: char): int {
    if c == Black then 3 else if c == White then 2 else 0
  }

  predicate Opposite(a: char, b: char) {
    (a == Black && b == White) || (a == White && b == Black)
  }

  /** p comes strictly before q in row-major order. */
  predicate Before(p: Pos, q: Pos) {
    p.0 < q.0 || (p.0 == q.0 && p.1 < q.1)
  }

  predicate Orthogonal(p: Pos, q: Pos) {
    var di := q.0 - p.0;
    var dj := q.1 - p.1;
    (di == 0 && (dj == 1 || dj == -1)) || (dj == 0 && (di == 1 || di == -1))
  }

  /** p and q are one knight move apart, in any of the eight directions. */
  predicate KnightApart(p: Pos, q: Pos) {
    var di := q.0 - p.0;
    var dj := q.1 - p.1;
    ((di == 1 || di == -1) && (dj == 2 || dj == -2)) || ((di == 2 || di == -2) && (dj == 1 || dj == -1))
  }

  predicate IsCellPair(x: Pair) {
    InBounds(x.0.0, x.0.1) && InBounds(x.1.0, x.1.1) && Before(x.0, x.1)
  }

  function At(g: Grid, p: Pos): char
    requires IsGrid(g) && InBounds(p.0, p.1)
  {
    g[p.0][p.1]
  }

  function Cells(): set<Pos> {
    set i, j | 0 <= i < Size && 0 <= j < Size :: (i, j)
  }

  function CellPairs(): set<Pair> {
    set i1, j1, i2, j2 | 0 <= i1 < Size && 0 <= j1 < Size && 0 <= i2 < Size && 0 <= j2 < Size
      :: ((i1, j1), (i2, j2))
  }

  lemma InCells(p: Pos)
    requires InBounds(p.0, p.1)
    ensures p in Cells()
  {
    var (i, j) := p;
    assert (i, j) in Cells();
  }

  lemma InCellPairs(x: Pair)
    requires InBounds(x.0.0, x.0.1) && InBounds(x.1.0, x.1.1)
    ensures x in CellPairs()
  {
    var ((i1, j1), (i2, j2)) := x;
    assert ((i1, j1), (i2, j2)) in CellPairs();
  }

  /** The cells holding color c. */
  function ColorCells(g: Grid, c: char): set<Pos>
    requires IsGrid(g)
  {
    set p | p in Cells() && InBounds(p.0, p.1) && At(g, p) == c
  }

  /** Unordered pairs of orthogonally adjacent cells holding opposite colors. */
  function AdjacentPairs(g: Grid): set<Pair>
    requires IsGrid(g)
  {
    set x | x in CellPairs() && IsCellPair(x) && Orthogonal(x.0, x.1) && Opposite(At(g, x.0), At(g, x.1))
  }

  /** Unordered pairs of occupied cells a knight move apart. */
  function KnightPairs(g: Grid): set<Pair>
    requires IsGrid(g)
  {
    set x | x in CellPairs() && IsCellPair(x) && KnightApart(x.0, x.1) && IsPiece(At(g, x.0)) && IsPiece(At(g, x.1))
  }

  function IndexTerm(g: Grid, i: int, j: int): int
    requires IsGrid(g) && InBounds(i, j)
  {
    if IsPiece(g[i][j]) then i + j else 0
  }

  function IndexSumUpTo(g: Grid, n: int): int
    requires IsGrid(g) && 0 <= n <= CellCount
  {
    if n == 0 then 0 else IndexSumUpTo(g, n - 1) + IndexTerm(g, Row(n - 1), Col(n - 1))
  }

  /** The sum of row + column over the occupied cells. */
  function OccupiedIndexSum(g: Grid): int
    requires IsGrid(g)
  {
    IndexSumUpTo(g, CellCount)
  }

  // ---------------------------------------------------------------------
  // Which cell's pass of the loop accounts for which pair
  // ---------------------------------------------------------------------

  /** Of an adjacent pair, the earlier cell: the later one is its south or east neighbor. */
  function AdjacentOwner(x: Pair): Pos { x.0 }

  /** Of a knight pair, the cell with the smaller column: every offset moves to the right. */
  function KnightOwner(x: Pair): Pos {
    if x.0.1 < x.1.1 then x.0 else x.1
  }

  function CellsBelow(s: set<Pos>, n: int): set<Pos> {
    set p | p in s && Index(p) < n
  }

  function CellsAt(s: set<Pos>, m: int): set<Pos> {
    set p | p in s && Index(p) == m
  }

  function AdjacentBelow(s: set<Pair>, n: int): set<Pair> {
    set x | x in s && Index(AdjacentOwner(x)) < n
  }

  function AdjacentAt(s: set<Pair>, m: int): set<Pair> {
    set x | x in s && Index(AdjacentOwner(x)) == m
  }

  function KnightBelow(s: set<Pair>, n: int): set<Pair> {
    set x | x in s && Index(KnightOwner(x)) < n
  }

  function KnightAt(s: set<Pair>, m: int): set<Pair> {
    set x | x in s && Index(KnightOwner(x)) == m
  }

  /** The canonical form of the unordered pair {p, q}. */
  function Canon(p: Pos, q: Pos): Pair {
    if Before(p, q) then (p, q) else (q, p)
  }

  /** The pairs formed by (i, j) and the targets of the first k offsets that hit. */
  function HitPairs(g: Grid, i: int, j: int, k: int): set<Pair>
    requires IsGrid(g) && InBounds(i, j) && 0 <= k <= |Offsets|
  {
    if k == 0 then {}
    else HitPairs(g, i, j, k - 1) + (if KnightHit(g, i, j, k - 1) then {Canon((i, j), Target(i, j, k - 1))} else {})
  }

  lemma {:induction false} HitPairsMembers(g: Grid, i: int, j: int, k: int, x: Pair)
    requires IsGrid(g) && InBounds(i, j) && 0 <= k <= |Offsets|
    ensures x in HitPairs(g, i, j, k) <==>
            exists k' :: 0 <= k' < k && KnightHit(g, i, j, k') && x == Canon((i, j), Target(i, j, k'))
  {
    if k == 0 {
    } else {
      HitPairsMembers(g, i, j, k - 1, x);
    }
  }

  /** Different offsets from one cell give different pairs. */
  lemma CanonTargetsDistinct(i: int, j: int, k1: int, k2: int)
    requires 0 <= k1 < |Offsets| && 0 <= k2 < |Offsets| && k1 != k2
    ensures Canon((i, j), Target(i, j, k1)) != Canon((i, j), Target(i, j, k2))
  {
    assert Offsets[k1] != Offsets[k2];
  }

  /** The pair of a later offset is not among the pairs of the first k offsets. */
  lemma {:induction false} HitPairsAvoid(g: Grid, i: int, j: int, k: int, k2: int)
    requires IsGrid(g) && InBounds(i, j) && 0 <= k <= k2 < |Offsets|
    ensures Canon((i, j), Target(i, j, k2)) !in HitPairs(g, i, j, k)
  {
    if k == 0 {
    } else {
      HitPairsAvoid(g, i, j, k - 1, k2);
      CanonTargetsDistinct(i, j, k - 1, k2);
    }
  }

  /** The pairs reached by the first k offsets are all different. */
  lemma {:induction false} HitPairsCount(g: Grid, i: int, j: int, k: int)
    requires IsGrid(g) && InBounds(i, j) && 0 <= k <= |Offsets|
    ensures |HitPairs(g, i, j, k)| == KnightHits(g, i, j, k)
  {
    if k == 0 {
    } else {
      HitPairsCount(g, i, j, k - 1);
      HitPairsAvoid(g, i, j, k - 1, k - 1);
    }
  }

  /** A knight pair owned by (i, j) joins it to the target of one of its offsets. */
  lemma KnightOwnedIsHit(g: Grid, i: int, j: int, x: Pair)
    requires IsGrid(g) && InBounds(i, j)
    requires x in KnightPairs(g) && KnightOwner(x) == (i, j)
    ensures IsPiece(g[i][j]) && x in HitPairs(g, i, j, |Offsets|)
  {
    var r := if x.0 == (i, j) then x.1 else x.0;
    assert x == Canon((i, j), r);
    assert r.1 - j == 1 || r.1 - j == 2;
    var k :=
      if r.0 - i == -2 then 0
      else if r.0 - i == -1 then 1
      else if r.0 - i == 1 then 2
      else 3;
    assert r == Target(i, j, k);
    assert KnightHit(g, i, j, k);
    HitPairsMembers(g, i, j, |Offsets|, x);
  }

  /** A pair found by an offset of an occupied (i, j) is a knight pair owned by (i, j). */
  lemma HitIsKnightOwned(g: Grid, i: int, j: int, x: Pair)
    requires IsGrid(g) && InBounds(i, j) && IsPiece(g[i][j])
    requires x in HitPairs(g, i, j, |Offsets|)
    ensures x in KnightPairs(g) && KnightOwner(x) == (i, j)
  {
    HitPairsMembers(g, i, j, |Offsets|, x);
    var k :| 0 <= k < |Offsets| && KnightHit(g, i, j, k) && x == Canon((i, j), Target(i, j, k));
    assert Offsets[k].1 > 0;
    InCellPairs(x);
  }

  /** The knight pairs accounted to cell (i, j) are exactly those its offsets find. */
  lemma KnightAtCell(g: Grid, i: int, j: int)
    requires IsGrid(g) && InBounds(i, j)
    ensures KnightAt(KnightPairs(g), Index((i, j))) ==
            if IsPiece(g[i][j]) then HitPairs(g, i, j, |Offsets|) else {}
  {
    var lhs := KnightAt(KnightPairs(g), Index((i, j)));
    var rhs := if IsPiece(g[i][j]) then HitPairs(g, i, j, |Offsets|) else {};
    forall x | x in lhs
      ensures x in rhs
    {
      assert KnightOwner(x) == (i, j);
      KnightOwnedIsHit(g, i, j, x);
    }
    forall x | x in rhs
      ensures x in lhs
    {
      HitIsKnightOwned(g, i, j, x);
    }
  }

  lemma AdjacentOwnedIsNeighbor(g: Grid, i: int, j: int, x: Pair)
    requires IsGrid(g) && InBounds(i, j)
    requires x in AdjacentPairs(g) && x.0 == (i, j)
    ensures (i + 1 < Size && Opposite(g[i][j], g[i + 1][j]) && x == ((i, j), (i + 1, j))) ||
            (j + 1 < Size && Opposite(g[i][j], g[i][j + 1]) && x == ((i, j), (i, j + 1)))
  {
  }

  lemma NeighborIsAdjacentOwned(g: Grid, i: int, j: int, x: Pair)
    requires IsGrid(g) && InBounds(i, j)
    requires (i + 1 < Size && Opposite(g[i][j], g[i + 1][j]) && x == ((i, j), (i + 1, j))) ||
             (j + 1 < Size && Opposite(g[i][j], g[i][j + 1]) && x == ((i, j), (i, j + 1)))
    ensures x in AdjacentPairs(g)
  {
    InCellPairs(x);
  }

  function SouthPair(g: Grid, i: int, j: int): set<Pair>
    requires IsGrid(g) && InBounds(i, j)
  {
    if i + 1 < Size && Opposite(g[i][j], g[i + 1][j]) then {((i, j), (i + 1, j))} else {}
  }

  function EastPair(g: Grid, i: int, j: int): set<Pair>
    requires IsGrid(g) && InBounds(i, j)
  {
    if j + 1 < Size && Opposite(g[i][j], g[i][j + 1]) then {((i, j), (i, j + 1))} else {}
  }

  lemma AdjacentAtCellMembers(g: Grid, i: int, j: int)
    requires IsGrid(g) && InBounds(i, j)
    ensures AdjacentAt(AdjacentPairs(g), Index((i, j))) == SouthPair(g, i, j) + EastPair(g, i, j)
  {
    var lhs := AdjacentAt(AdjacentPairs(g), Index((i, j)));
    forall x | x in lhs
      ensures x in SouthPair(g, i, j) + EastPair(g, i, j)
    {
      assert x in AdjacentPairs(g);
      assert InBounds(x.0.0, x.0.1);
      assert x.0 == (i, j);
      AdjacentOwnedIsNeighbor(g, i, j, x);
    }
    forall x | x in SouthPair(g, i, j) + EastPair(g, i, j)
      ensures x in lhs
    {
      NeighborIsAdjacentOwned(g, i, j, x);
    }
  }

  /** The adjacent pairs accounted to cell (i, j): its south and its east neighbor. */
  lemma AdjacentAtCell(g: Grid, i: int, j: int)
    requires IsGrid(g) && InBounds(i, j)
    ensures |AdjacentAt(AdjacentPairs(g), Index((i, j)))| ==
            (if i + 1 < Size && Opposite(g[i][j], g[i + 1][j]) then 1 else 0) +
            (if j + 1 < Size && Opposite(g[i][j], g[i][j + 1]) then 1 else 0)
  {
    AdjacentAtCellMembers(g, i, j);
    assert SouthPair(g, i, j) * EastPair(g, i, j) == {};
  }

  /** What the loop adds for cell (i, j), as the parts of the four terms that (i, j) owns. */
  lemma CellScoreOwned(g: Grid, i: int, j: int)
    requires IsGrid(g) && InBounds(i, j)
    ensures CellScore(g, i, j) ==
            3 * |CellsAt(ColorCells(g, Black), Index((i, j)))| + 2 * |CellsAt(ColorCells(g, White), Index((i, j)))|
            + IndexTerm(g, i, j)
            + |AdjacentAt(AdjacentPairs(g), Index((i, j)))| - 3 * |KnightAt(KnightPairs(g), Index((i, j)))|
  {
    CellScoreTerms(g, i, j);
    ColorAtCell(g, Black, i, j);
    ColorAtCell(g, White, i, j);
    AdjacentAtCell(g, i, j);
    KnightAtCell(g, i, j);
    if IsPiece(g[i][j]) {
      HitPairsCount(g, i, j, |Offsets|);
    }
  }

  lemma ColorAtCell(g: Grid, c: char, i: int, j: int)
    requires IsGrid(g) && InBounds(i, j)
    ensures CellsAt(ColorCells(g, c), Index((i, j))) == if g[i][j] == c then {(i, j)} else {}
  {
    var lhs := CellsAt(ColorCells(g, c), Index((i, j)));
    if g[i][j] == c {
      InCells((i, j));
      assert (i, j) in lhs;
    }
  }

  /** What the loop adds for one cell, split into the four terms. */
  lemma CellScoreTerms(g: Grid, i: int, j: int)
    requires IsGrid(g) && InBounds(i, j)
    ensures CellScore(g, i, j) ==
            PieceValue(g[i][j]) + IndexTerm(g, i, j)
            + (if IsPiece(g[i][j]) && i + 1 < Size && Opposite(g[i][j], g[i + 1][j]) then 1 else 0)
            + (if IsPiece(g[i][j]) && j + 1 < Size && Opposite(g[i][j], g[i][j + 1]) then 1 else 0)
            - 3 * (if IsPiece(g[i][j]) then KnightHits(g, i, j, |Offsets|) else 0)
  {
  }

  lemma CellsBelowStep(s: set<Pos>, n: int)
    ensures |CellsBelow(s, n)| == |CellsBelow(s, n - 1)| + |CellsAt(s, n - 1)|
  {
    assert CellsBelow(s, n) == CellsBelow(s, n - 1) + CellsAt(s, n - 1);
    assert CellsBelow(s, n - 1) * CellsAt(s, n - 1) == {};
  }

  lemma AdjacentBelowStep(s: set<Pair>, n: int)
    ensures |AdjacentBelow(s, n)| == |AdjacentBelow(s, n - 1)| + |AdjacentAt(s, n - 1)|
  {
    assert AdjacentBelow(s, n) == AdjacentBelow(s, n - 1) + AdjacentAt(s, n - 1);
    assert AdjacentBelow(s, n - 1) * AdjacentAt(s, n - 1) == {};
  }

  lemma KnightBelowStep(s: set<Pair>, n: int)
    ensures |KnightBelow(s, n)| == |KnightBelow(s, n - 1)| + |KnightAt(s, n - 1)|
  {
    assert KnightBelow(s, n) == KnightBelow(s, n - 1) + KnightAt(s, n - 1);
    assert KnightBelow(s, n - 1) * KnightAt(s, n - 1) == {};
  }

  /** The accumulator after n cells is the four terms restricted to the cells that own them. */
  lemma {:induction false} ScoreUpToTerms(g: Grid, n: int)
    requires IsGrid(g) && 0 <= n <= CellCount
    ensures ScoreUpTo(g, n) ==
            3 * |CellsBelow(ColorCells(g, Black), n)| + 2 * |CellsBelow(ColorCells(g, White), n)|
            + IndexSumUpTo(g, n)
            + |AdjacentBelow(AdjacentPairs(g), n)| - 3 * |KnightBelow(KnightPairs(g), n)|
  {
    if n == 0 {
      assert CellsBelow(ColorCells(g, Black), n) == {};
      assert CellsBelow(ColorCells(g, White), n) == {};
      assert AdjacentBelow(AdjacentPairs(g), n) == {};
      assert KnightBelow(KnightPairs(g), n) == {};
    } else {
      var m := n - 1;
      var i, j := Row(m), Col(m);
      IndexOfCell(m);
      ScoreUpToTerms(g, m);
      CellScoreOwned(g, i, j);
      CellsBelowStep(ColorCells(g, Black), n);
      CellsBelowStep(ColorCells(g, White), n);
      AdjacentBelowStep(AdjacentPairs(g), n);
      KnightBelowStep(KnightPairs(g), n);
    }
  }

  /**
   * The score is 3 per black knight, 2 per white knight, the row + column of
   * every knight, +1 per orthogonally adjacent opposite-colored pair and -3
   * per pair of knights a knight move apart, each pair counted once.
   */
  lemma ScoreDecomposition(g: Grid)
    requires IsGrid(g)
    ensures Score(g) ==
            3 * |ColorCells(g, Black)| + 2 * |ColorCells(g, White)| + OccupiedIndexSum(g)
            + |AdjacentPairs(g)| - 3 * |KnightPairs(g)|
  {
    ScoreUpToTerms(g, CellCount);
    assert CellsBelow(ColorCells(g, Black), CellCount) == ColorCells(g, Black);
    assert CellsBelow(ColorCells(g, White), CellCount) == ColorCells(g, White);
    assert AdjacentBelow(AdjacentPairs(g), CellCount) == AdjacentPairs(g);
    assert KnightBelow(KnightPairs(g), CellCount) == KnightPairs(g);
  }
}
