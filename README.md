# Knights puzzle local search, modelled in Dafny

The program places black knights (`B`), white knights (`W`) and empty cells
(`-`) on an 8×8 board and searches for a board of high score by local search.
This project models its core:

- `State`: the board, its constructors, `score()`, `equals`, `toString`.
- `LocalSearch`: `getNeighbors`, `getBestState`, `hillClimbing` and
  `beamSearch`.

It proves what these promise.

The modules follow the program's structure:

- `Board` (board.dfy) defines the board as a value, `Grid = seq<seq<char>>`, and the single-cell write `Place`.
- `Scoring` (scoring.dfy) defines the specification of `score()`:
  - `CellScore` is what one pass of the double loop adds;
  - `ScoreUpTo` is the accumulator after the first n cells in row-major order;
  - `Score` is the full score.
  
  It also gives an independent description of the score as four counted terms and proves the two agree (`ScoreDecomposition`).
- `ScoringExamples` (scoring_examples.dfy) proves the scores of the small boards the rules are usually explained with.
- `Text` (text.dfy) defines the printed form of a board, `String.strip()`, and a parser that reads the board back.
- `States` (state.dfy) models `State.java` as a class:
  - the board is an `array2<char>` that the constructors fill in place;
  - `Contents()` is its value;
  - `Score`, `Equals` and `ToString` are the source's loops, each proved equal to the value-level definition.
- `Neighborhood` (neighbors.dfy) models `getNeighbors`:
  - `GetNeighbors` runs the source's double loop on `State` objects;
  - it is proved equal to the value-level set `Neighbors(g)`;
  - that set is characterised as exactly the 128 boards that differ from `g` in one cell.
- `Search` (search.dfy) models `getBestState`, `hillClimbing` and `beamSearch` on board values:
  - a `HashSet<State>` is a `set<Grid>`, because `State` equality is cell-wise;
  - the random start states are parameters.

The code and the doc comment of `score()` disagree in one place, and the model follows the code:

- **Adjacent pairs.** The comment at src/State.java:34 says each adjacent pair of opposite-colored knights adds 2. The code inspects only the south and east neighbor of each knight (src/State.java:49-66), so every such pair adds exactly 1, once. A black knight at (0, 0) with a white one at (0, 1) therefore scores 3 + 1 + 0 + 2 + 1 = 7 (`ScoringExamples.AdjacentPairScoresSeven`).

The knight-pair rule of src/State.java:36 is what the code does. The four offsets at src/State.java:71 all move right, so each pair of knights a knight move apart is found once, from its left-hand member, and costs 3. A black knight at (0, 0) with a white one at (1, 2) scores 5 (`ScoringExamples.KnightPairScoresFive`).

## Model

| member | source | states |
|---|---|---|
| Board.Place | src/State.java:86-88 | writing c into cell (i, j) through `getBoard()` gives an 8×8 board whose cell (i, j) is c and whose every other cell is unchanged |
| Scoring.KnightHit | src/State.java:72-77 | offset k from (i, j) lands inside the board on a knight of either color; the column is not tested against 0, as in the source, since every offset moves right |
| Scoring.KnightHits | src/State.java:71-78 | the number of the first k offsets that land on a knight, at most k |
| Scoring.CellScore | src/State.java:43-79 | what one pass of the double loop adds for cell (i, j): 0 for an empty cell; for a knight, its color value, +1 for each south or east neighbor of the other color, i + j, and −3 per occupied offset target; `CellScoreBounds` bounds it |
| Scoring.CellScoreBounds | src/State.java:43-79 | an empty cell adds 0; a knight adds at least its color value + i + j − 12, four offset penalties at most, and at most its color value + i + j + 2, two adjacency bonuses at most |
| Scoring.ScoreUpTo | src/State.java:39-84 | the accumulator after the first n cells in row-major order; `ScoreUpToStep` ties it to the loop and `ScoreUpToTerms` to the four counted terms |
| Scoring.Score | src/State.java:39-84 | `score()` as a value, the accumulator after all 64 cells; `ScoreDecomposition` states what it counts |
| Scoring.ScoreUpToStep | src/State.java:41-82 | the pass of the double loop for cell (i, j), the cell with row-major index 8i + j, adds exactly `CellScore(g, i, j)` to the accumulator |
| Scoring.HitPairsCount | src/State.java:71-78 | the four offsets from one cell reach pairwise different cells, so the number of −3 penalties a cell takes equals the number of distinct knight pairs it finds |
| Scoring.HitPairsAvoid | src/State.java:71-78 | the pair found by a later offset is never among the pairs found by earlier offsets |
| Scoring.KnightAtCell | src/State.java:70-79 | the knight-move pairs of knights whose left-hand member is (i, j) are exactly the pairs the four offsets of (i, j) find, and there are none if (i, j) is empty |
| Scoring.AdjacentAtCell | src/State.java:48-66 | the opposite-colored adjacent pairs whose earlier cell is (i, j) are its south and its east neighbor when they hold the other color, so their number is the bonus the cell adds |
| Scoring.CellScoreOwned | src/State.java:43-79 | what the loop adds for one cell equals that cell's share of the four terms: color value, row + column, adjacent pairs it owns, −3 per knight pair it owns |
| Scoring.HitPairsMembers | src/State.java:71-78 | a pair is among those found by the first k offsets of (i, j) if and only if one of those offsets lands on a knight inside the board |
| Scoring.CanonTargetsDistinct | src/State.java:71 | two different offsets from the same cell reach different cells |
| Scoring.KnightOwnedIsHit | src/State.java:70-79 | every knight-move pair of knights owned by (i, j) is found by one of its four offsets |
| Scoring.HitIsKnightOwned | src/State.java:70-79 | every pair a knight's offsets find is a knight-move pair of knights owned by that cell |
| Scoring.AdjacentOwnedIsNeighbor | src/State.java:48-66 | an opposite-colored adjacent pair whose earlier cell is (i, j) is its south or its east pair |
| Scoring.NeighborIsAdjacentOwned | src/State.java:48-66 | a south or east neighbor of the other color forms an opposite-colored adjacent pair |
| Scoring.AdjacentAtCellMembers | src/State.java:48-66 | the adjacent pairs owned by (i, j) are exactly its south pair and its east pair, where these hold the other color |
| Scoring.ColorAtCell | src/State.java:44-58 | the cells of color c owned by (i, j) are (i, j) itself when it holds c, and none otherwise |
| Scoring.CellScoreTerms | src/State.java:43-79 | what one cell adds equals its share of the four slices of the decomposed score |
| Scoring.ScoreUpToTerms | src/State.java:39-84 | after the first n cells the accumulator equals the four terms restricted to the pairs and cells owned by those n cells |
| Scoring.ScoreDecomposition | src/State.java:32-84 | the score is 3 per black knight, 2 per white knight, plus the row + column of every knight, plus 1 per orthogonally adjacent opposite-colored pair, minus 3 per pair of knights a knight move apart; each pair is counted exactly once |
| ScoringExamples.ScoreUpToSparse | src/State.java:39-84 | if only cells a and b may hold knights, the accumulator after n cells is the sum of the contributions of those of a, b below n |
| ScoringExamples.EmptyCellsScoreZero | src/State.java:39-84 | on a board without knights the accumulator stays 0 after every cell |
| ScoringExamples.NoKnightsScoreZero | src/State.java:39-84 | a board without knights scores 0 |
| ScoringExamples.EmptyBoardScoresZero | src/State.java:39-84 | the all-empty board scores 0 |
| ScoringExamples.LoneKnightScore | src/State.java:44-69 | a single knight of color c at (i, j) on an empty board scores its color value plus i + j |
| ScoringExamples.BlackInCornerScoresThree | src/State.java:44-69 | a lone black knight at (0, 0) scores 3 |
| ScoringExamples.WhiteInFarCornerScoresSixteen | src/State.java:57-69 | a lone white knight at (7, 7) scores 2 + 14 = 16 |
| ScoringExamples.TwoKnightScore | src/State.java:39-84 | if only cells a < b may hold knights, the score is the sum of those two cells' contributions |
| ScoringExamples.AdjacentPairScoresSeven | src/State.java:45-69 | black at (0, 0) with white at (0, 1) scores 7: the pair earns +1, once |
| ScoringExamples.KnightPairScoresFive | src/State.java:71-78 | black at (0, 0) with white at (1, 2) scores 5: the knight pair costs 3, once |
| Text.Strip | src/State.java:98 | `String.strip()`: leading and trailing characters that `Character.isWhitespace` accepts removed; `StripBuilt` states what it does to the builder's contents |
| Text.RowText | src/State.java:93-95 | one row as "[c]" per cell, left to right; `RowTextAt` places each cell |
| Text.Built | src/State.java:91-96 | the builder's contents after n rows, each followed by a newline; `StripBuilt` relates it to `Render` |
| Text.Render | src/State.java:90-98 | the text `toString` returns; `RenderLayout` gives its layout and `ParseRender` its inverse |
| Text.RowTextAt | src/State.java:93-95 | cell j of a row appears as "[c]" at offsets 3j..3j + 2 of the row's text |
| Text.Parse | src/State.java:90-98 | reading the cell characters back from a 199-character text gives an 8×8 grid |
| Text.JoinRowsCell | src/State.java:91-97 | in the first n rows joined by newlines, cell (i, j) sits between brackets at offset 25i + 3j + 1 |
| Text.JoinRowsNewline | src/State.java:96 | the character after row i, when another row follows, is a newline |
| Text.RenderLayout | src/State.java:90-98 | the printed board is 199 characters: 8 lines of eight "[c]" groups, separated by 7 newlines, with no trailing newline; line i holds cell (i, j) at column 3j + 1 |
| Text.ParseRender | src/State.java:90-98 | the printed form loses nothing: reading the cells back from it gives the board |
| Text.StripBuilt | src/State.java:91-98 | `strip()` of the builder's contents, rows each followed by a newline, removes exactly the final newline |
| States.State.Contents | src/State.java:4 | the value of the board: an 8×8 grid whose cell (i, j) is the array's cell (i, j) |
| States.State.Random | src/State.java:9-18 | the random constructor, with the random indices as the draws parameter, fills a fresh 8×8 array; every cell is one of `B`, `W`, `-`, the symbol picked by its draw |
| States.State.Copy | src/State.java:24-30 | the copy constructor gives a fresh array, so writes to the copy cannot reach the original, holding the same cells as the argument |
| States.State.SetCell | src/State.java:86-88 | a write `getBoard()[i][j] = c` changes the board to `Place(old board, i, j, c)` and nothing else |
| States.State.Score | src/State.java:39-84 | `score()`'s double loop returns `Scoring.Score` of the board; the loop invariant is the accumulator of the cells visited so far |
| States.State.CellScoreAt | src/State.java:43-79 | one pass of the inner loop adds `CellScore` for its cell, with every array read in bounds |
| States.State.Equals | src/State.java:101-111 | `equals` is true exactly when the other object is a State with the same cells |
| States.State.ToString | src/State.java:90-98 | `toString` returns `Text.Render` of the board |
| Neighborhood.Alternatives | src/LocalSearch.java:136-149 | the values the switch writes into copy A and copy B: B→(W, -), W→(B, -), -→(B, W); any other character is kept in both copies, as the switch has no default; `AlternativesOfSymbol` states what they are |
| Neighborhood.AlternativesOfSymbol | src/LocalSearch.java:136-149 | for a symbol, the two values the switch writes are the other two symbols and differ from each other, so the symbol and its alternatives are B, W and - in some order; for any other character (no case matches) both copies keep it |
| Neighborhood.NeighborsUpToStep | src/LocalSearch.java:132-153 | the pass for cell (i, j), index 8i + j, adds exactly that cell's two copies to the set |
| Neighborhood.CellNeighbors | src/LocalSearch.java:134-151 | the two copies made for cell (i, j): the board with the switch's first and second alternative written there; `CellNeighborsShape` and `CellNeighborsSize` state what they are |
| Neighborhood.NeighborsUpTo | src/LocalSearch.java:130-153 | the set after the first n cells in row-major order; all of its members are grids |
| Neighborhood.Neighbors | src/LocalSearch.java:129-155 | what `getNeighbors` returns, as a set of boards; `NeighborsAreOneCellChanges` characterises it and `NeighborsOfBoard` counts it |
| Neighborhood.CellNeighborsSize | src/LocalSearch.java:134-151 | on a board, the two copies made for a cell are different boards |
| Neighborhood.CellNeighborsShape | src/LocalSearch.java:134-151 | on a board, both copies made for (i, j) are boards that differ from the original in cell (i, j) and nowhere else |
| Neighborhood.FirstChange | src/LocalSearch.java:132-153 | the first row-major cell from index m on where two boards differ lies between m and 64 |
| Neighborhood.FirstChangeAt | src/LocalSearch.java:132-151 | a copy that differs from the board only at (i, j) first differs at index 8i + j |
| Neighborhood.CellNeighborIndex | src/LocalSearch.java:132-151 | both copies made for cell (i, j) first differ from the board at index 8i + j |
| Neighborhood.NeighborsUpToSound | src/LocalSearch.java:132-153 | every board collected after n cells is a copy made for the cell of its first difference, and that cell's index is below n |
| Neighborhood.NeighborsUpToComplete | src/LocalSearch.java:132-153 | the copies made for every cell of index below n have been collected after n cells |
| Neighborhood.NeighborsUpToDisjoint | src/LocalSearch.java:132-153 | the copies made for cell m are new: none of the first m cells made them |
| Neighborhood.NotEarlierNeighbor | src/LocalSearch.java:132-153 | a copy made for cell m is not among the boards collected for the cells before it |
| Neighborhood.NeighborsUpToCountStep | src/LocalSearch.java:150-151 | each pass adds exactly two new boards to the set |
| Neighborhood.NeighborsUpToCount | src/LocalSearch.java:132-153 | after n cells the set holds 2n boards |
| Neighborhood.NeighborsAreOneCellChanges | src/LocalSearch.java:129-155 | a board h is a neighbor of board g if and only if h is a board that differs from g in exactly one cell |
| Neighborhood.NeighborsOfBoard | src/LocalSearch.java:129-155 | `getNeighbors` of a board returns 128 distinct boards, all of them boards |
| Neighborhood.NotOwnNeighbor | src/LocalSearch.java:129-155 | no board is its own neighbor |
| Neighborhood.NeighborChangedCell | src/LocalSearch.java:136-149 | the cell a neighbor changes holds one of the two symbols other than the original's: B to W or -, W to B or -, - to B or W |
| Neighborhood.NeighborsBefore | src/LocalSearch.java:130-153 | the set as the double loop holds it before cell (i, j): the copies for every cell of the rows above row i and for the first j cells of row i |
| Neighborhood.NeighborsBeforeRowStep | src/LocalSearch.java:130-153 | the set at the start of row i is the set at the end of row i − 1 |
| Neighborhood.NeighborsBeforeCellStep | src/LocalSearch.java:132-153 | the pass for cell (i, j − 1) of the loop is the pass for cell 8i + j − 1 in row-major order |
| Neighborhood.NeighborsBeforeInRow | src/LocalSearch.java:132-153 | within row i, the loop's set after j cells is the row-major set after 8i + j cells |
| Neighborhood.NeighborsBeforeRows | src/LocalSearch.java:130-153 | the loop's set before row i is the row-major set after 8i cells |
| Neighborhood.NeighborsBeforeAll | src/LocalSearch.java:129-155 | after the last row the loop's set is `Neighbors` of the board |
| Neighborhood.GetNeighbors | src/LocalSearch.java:129-155 | the double loop over a State returns exactly `Neighbors` of its board; before each cell its set is `NeighborsBefore` that cell |
| Neighborhood.CopiesForCell | src/LocalSearch.java:134-151 | one pass makes two fresh copies whose boards are the two alternatives for cell (i, j), and leaves the argument's board unchanged |
| Neighborhood.SwitchCell | src/LocalSearch.java:136-149 | the switch writes the first alternative into copy A and the second into copy B |
| Search.Insert | src/LocalSearch.java:174 | inserting into a list gives a permutation of the list plus the new element |
| Search.SortByScore | src/LocalSearch.java:108 | the sort is a permutation of its input |
| Search.InsertSorted | src/LocalSearch.java:174 | inserting into a list sorted by descending score keeps it sorted |
| Search.SortByScoreSorted | src/LocalSearch.java:108 | the sort's result is ordered by descending score, which is what the comparator `Double.compare(o2.score(), o1.score())` asks for |
| Search.DistinctByMultiset | src/LocalSearch.java:107 | a list has no duplicates if and only if every element occurs at most once in its multiset |
| Search.DistinctPermutation | src/LocalSearch.java:107-108 | sorting a duplicate-free list leaves it duplicate-free |
| Search.ListOf | src/LocalSearch.java:107 | `new ArrayList<>(set)` lists every member of the set exactly once, in some order |
| Search.SortedList | src/LocalSearch.java:173-174 | the listed and sorted set has the same members as the set, no duplicates, and descending scores |
| Search.GetBestState | src/LocalSearch.java:172-176 | for a non-empty set, `getBestState` returns a member whose score is greater than or equal to every member's score |
| Search.ClimbMove | src/LocalSearch.java:23-34 | one move of `hillClimbing`: to a neighbor of maximal score (the `getBestState` of line 24) that is at least as good; the counter resets on a strict improvement and goes up by one on an equal score |
| Search.ClimbRun | src/LocalSearch.java:20-43 | the recorded run: it starts with counter 0, every counter lies in 0..100, and every step is a `ClimbMove` |
| Search.ClimbRunMonotone | src/LocalSearch.java:27-34 | along the run of `hillClimbing` the score never falls below the start's |
| Search.ClimbRunExtend | src/LocalSearch.java:23-34 | a move to a maximal-score neighbor, with the counter reset to 0 on a strict improvement or incremented on an equal score and still at most 100, extends a valid run |
| Search.HillClimbing | src/LocalSearch.java:18-45 | `hillClimbing` returns a board scoring at least the start's; every step goes to a neighbor of maximal score among all neighbors, and that neighbor is at least as good; `sidewaysSteps` stays in 0..100, resets on a strict improvement and counts up on a sideways move; it stops after at most 1001 moves; when it stops through the else branch, no neighbor is better; when it stops through the else branch and a neighbor scores equally, the sideways budget of 100 is spent |
| Search.Candidates | src/LocalSearch.java:103-106 | the union of the neighborhoods of the beam's members; `CandidatesMembers` characterises it |
| Search.CandidatesMembers | src/LocalSearch.java:103-106 | a board is in the united neighborhoods of the beam if and only if it is a neighbor of some member |
| Search.CandidatesOfBoards | src/LocalSearch.java:103-106 | the united neighborhoods of a non-empty beam of boards are boards, at least 128 of them |
| Search.CandidateSource | src/LocalSearch.java:103-106 | a candidate is a board and the neighbor of a member of the beam |
| Search.CollectNeighbors | src/LocalSearch.java:103-106 | the `for` loop adding each member's neighbors computes exactly the union of their neighborhoods |
| Search.SortedPrefix | src/LocalSearch.java:109 | the first w members of a sorted duplicate-free list are sorted and duplicate-free, and every member left out scores no more than the last one kept |
| Search.RoundOf | src/LocalSearch.java:103-109 | what one round promises: the next beam holds exactly 3 distinct boards, sorted by non-increasing score; each is a neighbor of a member of the previous beam; every candidate left out scores no more than the last one kept |
| Search.BeamPrefix | src/LocalSearch.java:107-109 | the first three members of the sorted candidate list are a `RoundOf` the beam |
| Search.BeamRound | src/LocalSearch.java:103-109 | the beam one round of `beamSearch` computes is a `RoundOf` the previous beam |
| Search.Stalled | src/LocalSearch.java:111-117 | `noImprovementCounter` after the given rounds, from each round's top score: reset when a round's top beats the previous round's top, with `Integer.MIN_VALUE` before the first, and incremented otherwise |
| Search.StalledRounds | src/LocalSearch.java:111-117 | if the counter is c after the rounds so far, then none of the last c rounds had a top score above the previous round's |
| Search.StalledReset | src/LocalSearch.java:111-117 | the counter resets to 0 exactly when the new top beats the previous round's top, with `Integer.MIN_VALUE` before the first round; otherwise it goes up by one |
| Search.StalledLength | src/LocalSearch.java:96-117 | the counter never exceeds the number of rounds |
| Search.Recorded | src/LocalSearch.java:98-117 | the recorded search: beam r + 1 is a `RoundOf` beam r, and round r's top score is the score of beam r + 1's head (`states.get(0).score()`, line 112) |
| Search.BeamsExtend | src/LocalSearch.java:103-112 | appending one more round and its top score keeps the record consistent |
| Search.StalledHistoryExtend | src/LocalSearch.java:99-117 | a round run with the counter at most 50 keeps the counter at most 50 at the start of every round so far |
| Search.BeamSearch | src/LocalSearch.java:90-118 | in `beamSearch`, the recorded beams start from the initial beam and each comes from the one before by a `RoundOf`, with the round's top score the score of its head; before every round the counter is at most 50; it returns a board exactly when the counter reaches 51, after more than 50 rounds, and that board is `states.get(0)` of the last beam, with the last round's top score; with no result, the fuel ran out with the counter still at most 50 |

## Left out

- `simulatedAnnealing`, `cooling` and `acceptanceProbability` (src/LocalSearch.java:51-84, 183-198) are not modelled. They rest on `double` arithmetic (`Math.pow`, `Math.exp`) and on `Math.random`.
- `getRandomNeighbor` (src/LocalSearch.java:162-165) is not modelled. Its only logic is a random index into the neighbor list.
- States.State.Random: `Math.random()` becomes the draws parameter, one index in 0..2 per cell. The distribution is not modelled.
- Search.HillClimbing and Search.BeamSearch take their start board, or start beam, as a parameter. In the source these come from the random constructor.
- States.State.Equals takes a `State?`, so the branch of src/State.java:106 for an argument of another class, which returns false, is not modelled: Dafny's types rule that argument out.
- `hashCode` (src/State.java:113-116) is not modelled; its concrete value is `Arrays.deepHashCode`. Equality of boards in the model is value equality of grids, which is the relation `equals` decides.
- The search layer works on board values, not on `State` objects:
  - `hillClimbing` and `beamSearch` use `Neighbors(g)` and `Score(g)`, the functions that `GetNeighbors` and `State.Score` are proved to compute;
  - the object-level loops are modelled once, in those two methods.
- Search.GetBestState: this does not say which maximal member is returned. The source's choice depends on `HashSet` iteration order and on the stability of `List.sort`. The model lists the set in an unspecified order and sorts stably.
- Search.BeamRound: this does not say which of several equal-scoring candidates fill the beam, for the same reason.
- Search.BeamSearch: the source's `while (true)` loop has no bound, and it need not terminate, because the top score can rise and fall forever. The model runs at most `fuel` rounds and returns `None` when they run out. The beams and top scores are ghost outputs that record the run.
- Search.HillClimbing: the trace, the sideways counters and the capped flag are ghost outputs that record the run. The `System.out.println` at src/LocalSearch.java:40 is left out.
- src/KnightsPuzzle.java is not part of this model. It is the driver that runs the searches, prints to the console, takes wall-clock times and averages them as `double`s.
- Java `int` overflow is not modelled. No value computed here comes near it: a board scores between −800 and 1300, and `Integer.MIN_VALUE` is kept as the exact constant −2³¹.
- `getBoard()` (src/State.java:86-88) returns the `char[][]` itself. The model has no aliasing of rows:
  - the board is one `array2<char>`;
  - the only writes through `getBoard()` in the source are the single-cell writes in `getNeighbors`, and `SetCell` models those.
- The inner loop bodies are separate methods so that each proof stays small. These are `CellScoreAt` in `State.Score`, and `CopiesForCell` and `SwitchCell` in `GetNeighbors`. Java's `System.arraycopy` of each row becomes a cell-by-cell loop in the copy constructor.
