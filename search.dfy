/**
 * LocalSearch: getBestState, hill climbing with sideways moves, and beam
 * search, on board values. A HashSet<State> is a set of boards, since State
 * equality is cell-wise; the random start states are parameters.
 */
module Search {
  import opened Board
  import opened Scoring
  import opened Neighborhood

  datatype Option<T> = None | Some(value: T)

  const MaxSidewaysSteps: int := 100
  const MaxIterations: int := 1000
  const BeamWidth: int := 3
  /** Integer.MIN_VALUE, the beam's best score before the first round. */
  const IntMin: int := -0x8000_0000
  /** beamSearch stops once noImprovementCounter exceeds this. */
  const StallLimit: int := 50

  ghost predicate AllGrids(s: seq<Grid>) {
    forall k :: 0 <= k < |s| ==> IsGrid(s[k])
  }

  ghost predicate AllBoards(s: seq<Grid>) {
    forall k :: 0 <= k < |s| ==> IsBoard(s[k])
  }

  ghost predicate Distinct(s: seq<Grid>) {
    forall p, q :: 0 <= p < q < |s| ==> s[p] != s[q]
  }

  /** Non-increasing by score, the order of the comparator o2.score() vs o1.score(). */
  ghost predicate SortedByScore(s: seq<Grid>)
    requires AllGrids(s)
  {
    forall p, q :: 0 <= p < q < |s| ==> Score(s[p]) >= Score(s[q])
  }

  // ---------------------------------------------------------------------
  // list.sort with the descending-score comparator
  // ---------------------------------------------------------------------

  /**
   * Inserts g into a list sorted by descending score, before the first
   * element that scores no more than g.
   */
  function Insert(g: Grid, s: seq<Grid>): (r: seq<Grid>)
    requires IsGrid(g) && AllGrids(s)
    ensures multiset(r) == multiset(s) + multiset{g} && AllGrids(r)
  {
    if s == [] then [g]
    else if Score(g) >= Score(s[0]) then [g] + s
    else
      assert s == [s[0]] + s[1..];
      [s[0]] + Insert(g, s[1..])
  }

  /** The list sorted by descending score (ties keep their order): a permutation of it. */
  function SortByScore(s: seq<Grid>): (r: seq<Grid>)
    requires AllGrids(s)
    ensures multiset(r) == multiset(s) && AllGrids(r)
  {
    if s == [] then []
    else
      assert s == [s[0]] + s[1..];
      Insert(s[0], SortByScore(s[1..]))
  }

  lemma {:induction false} InsertSorted(g: Grid, s: seq<Grid>)
    requires IsGrid(g) && AllGrids(s) && SortedByScore(s)
    ensures SortedByScore(Insert(g, s))
  {
    if s != [] && Score(g) < Score(s[0]) {
      InsertSorted(g, s[1..]);
      var t := Insert(g, s[1..]);
      forall q | 0 <= q < |t|
        ensures Score(s[0]) >= Score(t[q])
      {
        assert t[q] in multiset(t);
        assert t[q] == g || t[q] in multiset(s[1..]);
      }
    }
  }

  /** The sort leaves the list sorted by descending score. */
  lemma {:induction false} SortByScoreSorted(s: seq<Grid>)
    requires AllGrids(s)
    ensures SortedByScore(SortByScore(s))
  {
    if s != [] {
      SortByScoreSorted(s[1..]);
      InsertSorted(s[0], SortByScore(s[1..]));
    }
  }

  /** A list is duplicate-free exactly when every element occurs once. */
  lemma {:induction false} DistinctByMultiset(s: seq<Grid>)
    ensures Distinct(s) <==> forall g :: multiset(s)[g] <= 1
  {
    if s != [] {
      var rest := s[1..];
      DistinctByMultiset(rest);
      assert s == [s[0]] + rest;
      assert multiset(s) == multiset{s[0]} + multiset(rest);
      if Distinct(s) {
        assert Distinct(rest);
        assert s[0] !in rest;
        forall g
          ensures multiset(s)[g] <= 1
        {
          if g == s[0] {
            assert multiset(rest)[g] == 0;
          }
        }
      }
      if forall g :: multiset(s)[g] <= 1 {
        assert multiset(rest)[s[0]] == 0 by {
          assert multiset(s)[s[0]] == 1 + multiset(rest)[s[0]];
        }
        forall g
          ensures multiset(rest)[g] <= 1
        {
          assert multiset(s)[g] >= multiset(rest)[g];
        }
        forall p, q | 0 <= p < q < |s|
          ensures s[p] != s[q]
        {
          assert rest[q - 1] == s[q] && rest[q - 1] in multiset(rest);
          if p > 0 {
            assert rest[p - 1] == s[p];
          }
        }
      }
    }
  }

  /** A permutation of a duplicate-free list is duplicate-free. */
  lemma DistinctPermutation(s: seq<Grid>, t: seq<Grid>)
    requires multiset(s) == multiset(t) && Distinct(s)
    ensures Distinct(t)
  {
    DistinctByMultiset(s);
    DistinctByMultiset(t);
  }

  /** new ArrayList<>(set): every member once, in some order. */
  method ListOf(states: set<Grid>) returns (list: seq<Grid>)
    ensures |list| == |states| && Distinct(list)
    ensures forall g :: g in list <==> g in states
  {
    list := [];
    var rest := states;
    while rest != {}
      invariant rest <= states && |list| + |rest| == |states| && Distinct(list)
      invariant forall g :: g in list <==> g in states && g !in rest
      decreases |rest|
    {
      var g :| g in rest;
      list := list + [g];
      rest := rest - {g};
    }
  }

  /** The members of a set, sorted by descending score. */
  method SortedList(states: set<Grid>) returns (list: seq<Grid>)
    requires forall g :: g in states ==> IsGrid(g)
    ensures |list| == |states| && Distinct(list)
    ensures forall g :: g in list <==> g in states
    ensures AllGrids(list) && SortedByScore(list)
  {
    var unsorted := ListOf(states);
    list := SortByScore(unsorted);
    SortByScoreSorted(unsorted);
    DistinctPermutation(unsorted, list);
    forall g
      ensures g in list <==> g in unsorted
    {
      assert g in list <==> g in multiset(list);
    }
  }

  // ---------------------------------------------------------------------
  // getBestState
  // ---------------------------------------------------------------------

  /** getBestState: the head of the sorted list, a member of maximal score. */
  method GetBestState(states: set<Grid>) returns (best: Grid)
    requires states != {} && forall g :: g in states ==> IsGrid(g)
    ensures best in states
    ensures forall g :: g in states ==> Score(g) <= Score(best)
  {
    var list := SortedList(states);
    best := list[0];
    forall g | g in states
      ensures Score(g) <= Score(best)
    {
      var q :| 0 <= q < |list| && list[q] == g;
    }
  }

  // ---------------------------------------------------------------------
  // hillClimbing
  // ---------------------------------------------------------------------

  /**
   * One move of hillClimbing, from board a with counter sa to board b with
   * counter sb: b is a neighbor of a of maximal score (getBestState) and at
   * least as good as a; a strict improvement resets the sideways counter and
   * an equal-score move increments it.
   */
  ghost predicate ClimbMove(a: Grid, b: Grid, sa: int, sb: int)
    requires IsGrid(a) && IsGrid(b)
  {
    b in Neighbors(a)
    && (forall h :: h in Neighbors(a) ==> Score(h) <= Score(b))
    && Score(b) >= Score(a)
    && (Score(b) > Score(a) ==> sb == 0)
    && (Score(b) == Score(a) ==> sb == sa + 1)
  }

  /**
   * The run recorded by hillClimbing: trace is the sequence of current
   * boards and sideways the sidewaysSteps value that goes with each, and
   * every step is a ClimbMove.
   */
  ghost predicate ClimbRun(trace: seq<Grid>, sideways: seq<int>)
  {
    |trace| >= 1 && |sideways| == |trace| && AllBoards(trace) && sideways[0] == 0
    && (forall t :: 0 <= t < |sideways| ==> 0 <= sideways[t] <= MaxSidewaysSteps)
    && forall t :: 0 <= t < |trace| - 1 ==> ClimbMove(trace[t], trace[t + 1], sideways[t], sideways[t + 1])
  }

  /** Along a climbing run the score never decreases. */
  lemma {:induction false} ClimbRunMonotone(trace: seq<Grid>, sideways: seq<int>, t: int)
    requires ClimbRun(trace, sideways) && 0 <= t < |trace|
    ensures Score(trace[t]) >= Score(trace[0])
  {
    if t > 0 {
      ClimbRunMonotone(trace, sideways, t - 1);
    }
  }

  /** A move of hillClimbing extends the run. */
  lemma ClimbRunExtend(trace: seq<Grid>, sideways: seq<int>, next: Grid, steps: int)
    requires ClimbRun(trace, sideways) && IsBoard(next) && 0 <= steps <= MaxSidewaysSteps
    requires ClimbMove(trace[|trace| - 1], next, sideways[|sideways| - 1], steps)
    ensures ClimbRun(trace + [next], sideways + [steps])
  {
    var trace', sideways' := trace + [next], sideways + [steps];
    forall t | 0 <= t < |trace'| - 1
      ensures ClimbMove(trace'[t], trace'[t + 1], sideways'[t], sideways'[t + 1])
    {
      if t < |trace| - 1 {
        assert trace'[t] == trace[t] && trace'[t + 1] == trace[t + 1];
        assert sideways'[t] == sideways[t] && sideways'[t + 1] == sideways[t + 1];
      }
    }
  }

  /**
   * hillClimbing from the given start board. It returns when no neighbor
   * is better and no sideways move is allowed (not capped), or after the
   * move of iteration 1001 (capped).
   */
  method HillClimbing(initial: Grid) returns (result: Grid, ghost capped: bool, ghost trace: seq<Grid>, ghost sideways: seq<int>)
    requires IsBoard(initial)
    ensures IsBoard(result) && Score(result) >= Score(initial)
    ensures ClimbRun(trace, sideways) && trace[0] == initial && trace[|trace| - 1] == result
    ensures capped <==> |trace| == MaxIterations + 2
    ensures |trace| <= MaxIterations + 2
    ensures !capped ==> forall h :: h in Neighbors(result) ==> Score(h) <= Score(result)
    ensures !capped && (exists h :: h in Neighbors(result) && Score(h) == Score(result)) ==>
              sideways[|sideways| - 1] == MaxSidewaysSteps
  {
    var current := initial;
    var iteration := 1;
    var sidewaysSteps := 0;
    trace, sideways := [initial], [0];
    while true
      invariant 1 <= iteration <= MaxIterations + 1 && |trace| == iteration
      invariant ClimbRun(trace, sideways) && trace[0] == initial
      invariant trace[|trace| - 1] == current && sideways[|sideways| - 1] == sidewaysSteps
      decreases MaxIterations + 1 - iteration
    {
      var neighbors := Neighbors(current);
      NeighborsOfBoard(current);
      var bestNeighbor := GetBestState(neighbors);
      var currentScore := Score(current);
      var bestNeighborScore := Score(bestNeighbor);
      if bestNeighborScore > currentScore {
        current := bestNeighbor;
        sidewaysSteps := 0;
      } else if bestNeighborScore == currentScore && sidewaysSteps < MaxSidewaysSteps {
        current := bestNeighbor;
        sidewaysSteps := sidewaysSteps + 1;
      } else {
        ClimbRunMonotone(trace, sideways, |trace| - 1);
        capped := false;
        return current, capped, trace, sideways;
      }
      ClimbRunExtend(trace, sideways, current, sidewaysSteps);
      trace, sideways := trace + [current], sideways + [sidewaysSteps];
      if iteration > MaxIterations {
        ClimbRunMonotone(trace, sideways, |trace| - 1);
        capped := true;
        return current, capped, trace, sideways;
      }
      iteration := iteration + 1;
    }
  }

  // ---------------------------------------------------------------------
  // beamSearch
  // ---------------------------------------------------------------------

  /** The union of the neighborhoods of the beam's members. */
  function Candidates(beam: seq<Grid>): (r: set<Grid>)
    requires AllGrids(beam)
    ensures forall h :: h in r ==> IsGrid(h)
  {
    if beam == [] then {} else Candidates(beam[..|beam| - 1]) + Neighbors(beam[|beam| - 1])
  }

  lemma {:induction false} CandidatesMembers(beam: seq<Grid>, h: Grid)
    requires AllGrids(beam)
    ensures h in Candidates(beam) <==> exists k :: 0 <= k < |beam| && h in Neighbors(beam[k])
  {
    if beam != [] {
      var front := beam[..|beam| - 1];
      CandidatesMembers(front, h);
      if exists k :: 0 <= k < |front| && h in Neighbors(front[k]) {
        var k :| 0 <= k < |front| && h in Neighbors(front[k]);
        assert beam[k] == front[k];
      }
      if exists k :: 0 <= k < |beam| && h in Neighbors(beam[k]) {
        var k :| 0 <= k < |beam| && h in Neighbors(beam[k]);
        if k < |front| {
          assert front[k] == beam[k];
        }
      }
    }
  }

  /** The candidates of a beam of boards are boards, at least 128 of them. */
  lemma CandidatesOfBoards(beam: seq<Grid>)
    requires |beam| > 0 && AllBoards(beam)
    ensures |Candidates(beam)| >= 2 * CellCount
    ensures forall h :: h in Candidates(beam) ==> IsBoard(h)
  {
    var last := beam[|beam| - 1];
    NeighborsOfBoard(last);
    assert Neighbors(last) <= Candidates(beam);
    assert |Neighbors(last)| <= |Candidates(beam)| by {
      SubsetCardinality(Neighbors(last), Candidates(beam));
    }
    forall h | h in Candidates(beam)
      ensures IsBoard(h)
    {
      CandidatesMembers(beam, h);
      var k :| 0 <= k < |beam| && h in Neighbors(beam[k]);
      NeighborsOfBoard(beam[k]);
    }
  }

  lemma SubsetCardinality(a: set<Grid>, b: set<Grid>)
    requires a <= b
    ensures |a| <= |b|
  {
    assert b == a + (b - a);
  }

  /**
   * next is a beam one round of beamSearch may produce from prev: three
   * distinct boards in descending score order, each a neighbor of a member
   * of prev, and no candidate left out scores more than the last one kept.
   */
  ghost predicate RoundOf(prev: seq<Grid>, next: seq<Grid>)
  {
    |prev| > 0 && AllBoards(prev)
    && |next| == BeamWidth && Distinct(next) && AllBoards(next) && SortedByScore(next)
    && (forall k :: 0 <= k < |next| ==> exists s :: s in prev && next[k] in Neighbors(s))
    && (forall h :: h in Candidates(prev) && h !in next ==> Score(h) <= Score(next[BeamWidth - 1]))
  }

  /**
   * One round of beamSearch: the neighborhoods of the beam are united,
   * sorted by descending score, and the first three are kept.
   */
  method BeamRound(states: seq<Grid>) returns (next: seq<Grid>)
    requires |states| > 0 && AllBoards(states)
    ensures RoundOf(states, next)
  {
    var neighbors := CollectNeighbors(states);
    CandidatesOfBoards(states);
    var list := SortedList(neighbors);
    next := list[..BeamWidth];
    BeamPrefix(states, list, next);
  }

  /** The first three of the sorted candidate list meet what a round promises. */
  lemma BeamPrefix(states: seq<Grid>, list: seq<Grid>, next: seq<Grid>)
    requires |states| > 0 && AllBoards(states)
    requires Distinct(list) && AllGrids(list) && SortedByScore(list)
    requires forall g :: g in list <==> g in Candidates(states)
    requires BeamWidth <= |list| && next == list[..BeamWidth]
    ensures RoundOf(states, next)
  {
    SortedPrefix(list, BeamWidth);
    forall k | 0 <= k < |next|
      ensures IsBoard(next[k]) && exists s :: s in states && next[k] in Neighbors(s)
    {
      CandidateSource(states, next[k]);
    }
  }

  /** The for loop over the beam that adds each member's neighbors to one set. */
  method CollectNeighbors(states: seq<Grid>) returns (neighbors: set<Grid>)
    requires AllGrids(states)
    ensures neighbors == Candidates(states)
  {
    neighbors := {};
    var n := 0;
    while n < |states|
      invariant 0 <= n <= |states| && neighbors == Candidates(states[..n])
    {
      assert states[..n + 1][..n] == states[..n];
      neighbors := neighbors + Neighbors(states[n]);
      n := n + 1;
    }
    assert states[..n] == states;
  }

  /**
   * The first w members of a sorted, duplicate-free list are sorted and
   * duplicate-free, and every member left out scores no more than the last
   * one kept.
   */
  lemma SortedPrefix(list: seq<Grid>, w: int)
    requires AllGrids(list) && SortedByScore(list) && Distinct(list) && 0 < w <= |list|
    ensures AllGrids(list[..w]) && SortedByScore(list[..w]) && Distinct(list[..w])
    ensures forall h :: h in list && h !in list[..w] ==> Score(h) <= Score(list[w - 1])
  {
    forall h | h in list && h !in list[..w]
      ensures Score(h) <= Score(list[w - 1])
    {
      var q :| 0 <= q < |list| && list[q] == h;
    }
  }

  /** A candidate is a board and the neighbor of some member of the beam. */
  lemma CandidateSource(beam: seq<Grid>, h: Grid)
    requires AllBoards(beam) && h in Candidates(beam)
    ensures IsBoard(h) && exists s :: s in beam && h in Neighbors(s)
  {
    CandidatesMembers(beam, h);
    var k :| 0 <= k < |beam| && h in Neighbors(beam[k]);
    NeighborsOfBoard(beam[k]);
    assert beam[k] in beam;
  }

  /**
   * noImprovementCounter after the given rounds, from the top score of each
   * round: reset when a round's top beats the previous round's top (the
   * first round is compared with Integer.MIN_VALUE), incremented otherwise.
   * The previous top is overwritten, not maximised.
   */
  function Stalled(tops: seq<int>): nat
  {
    if tops == [] then 0
    else
      var previous := if |tops| == 1 then IntMin else tops[|tops| - 2];
      if tops[|tops| - 1] > previous then 0 else Stalled(tops[..|tops| - 1]) + 1
  }

  /** A counter of n means that none of the last n rounds beat the round before it. */
  lemma {:induction false} StalledRounds(tops: seq<int>, t: int)
    requires 0 <= t < |tops| && |tops| - Stalled(tops) <= t
    ensures tops[t] <= (if t == 0 then IntMin else tops[t - 1])
  {
    var front := tops[..|tops| - 1];
    if t < |tops| - 1 {
      StalledRounds(front, t);
      assert front[t] == tops[t];
      if t >= 1 {
        assert front[t - 1] == tops[t - 1];
      }
    }
  }

  /** The counter resets exactly when the newest top beats the previous one. */
  lemma StalledReset(tops: seq<int>, top: int)
    ensures Stalled(tops + [top]) == 0 <==> top > (if tops == [] then IntMin else tops[|tops| - 1])
    ensures Stalled(tops + [top]) != 0 ==> Stalled(tops + [top]) == Stalled(tops) + 1
  {
    assert (tops + [top])[..|tops|] == tops;
  }

  /** The counter counts rounds, so it never exceeds their number. */
  lemma {:induction false} StalledLength(tops: seq<int>)
    ensures Stalled(tops) <= |tops|
  {
    if tops != [] {
      StalledLength(tops[..|tops| - 1]);
    }
  }

  /**
   * beamSearch from the given start beam. The source's loop has no bound;
   * here at most fuel rounds are run, and the result is None if the counter
   * has still not exceeded 50 after them. beams records the beam before the
   * first round and after each round, tops the top score of each round.
   */
  method BeamSearch(initial: seq<Grid>, fuel: nat)
    returns (result: Option<Grid>, ghost beams: seq<seq<Grid>>, ghost tops: seq<int>)
    requires |initial| == BeamWidth && AllBoards(initial)
    ensures |tops| <= fuel && Recorded(beams, tops) && beams[0] == initial
    ensures forall r :: 0 <= r < |tops| ==> Stalled(tops[..r]) <= StallLimit
    ensures result.Some? ==> Stalled(tops) == StallLimit + 1 && |tops| > StallLimit
    ensures result.Some? ==> |beams[|tops|]| == BeamWidth && result.value == beams[|tops|][0]
    ensures result.Some? ==> IsBoard(result.value) && Score(result.value) == tops[|tops| - 1]
    ensures result.None? ==> |tops| == fuel && Stalled(tops) <= StallLimit
  {
    var states := initial;
    var bestScore := IntMin;
    var noImprovementCounter := 0;
    var rounds := 0;
    beams, tops := [initial], [];
    while true
      invariant 0 <= rounds <= fuel && |tops| == rounds
      invariant |states| == BeamWidth && AllBoards(states)
      invariant Recorded(beams, tops) && beams[0] == initial && beams[|tops|] == states
      invariant noImprovementCounter == Stalled(tops)
      invariant bestScore == if tops == [] then IntMin else tops[|tops| - 1]
      invariant forall r :: 0 <= r < |tops| ==> Stalled(tops[..r]) <= StallLimit
      invariant tops != [] ==> Stalled(tops) <= StallLimit + 1
      decreases fuel - rounds
    {
      if noImprovementCounter > StallLimit {
        StalledLength(tops);
        return Some(states[0]), beams, tops;
      }
      if rounds == fuel {
        return None, beams, tops;
      }
      states := BeamRound(states);
      var oldBestScore := bestScore;
      bestScore := Score(states[0]);
      StalledReset(tops, bestScore);
      if bestScore > oldBestScore {
        noImprovementCounter := 0;
      } else {
        noImprovementCounter := noImprovementCounter + 1;
      }
      BeamsExtend(beams, tops, states, bestScore);
      StalledHistoryExtend(tops, bestScore);
      beams, tops := beams + [states], tops + [bestScore];
      rounds := rounds + 1;
    }
  }

  /** A round run while the counter was at most 50 keeps every earlier counter at most 50. */
  lemma StalledHistoryExtend(tops: seq<int>, top: int)
    requires forall r :: 0 <= r < |tops| ==> Stalled(tops[..r]) <= StallLimit
    requires Stalled(tops) <= StallLimit
    ensures forall r :: 0 <= r < |tops| + 1 ==> Stalled((tops + [top])[..r]) <= StallLimit
  {
    forall r | 0 <= r < |tops| + 1
      ensures Stalled((tops + [top])[..r]) <= StallLimit
    {
      if r < |tops| {
        assert (tops + [top])[..r] == tops[..r];
      } else {
        assert (tops + [top])[..r] == tops;
      }
    }
  }

  /**
   * beams[r + 1] is the beam round r produced from beams[r], and tops[r] is
   * the score of its head, states.get(0).score().
   */
  ghost predicate Recorded(beams: seq<seq<Grid>>, tops: seq<int>)
  {
    |beams| == |tops| + 1
    && forall r :: 0 <= r < |tops| ==> RoundOf(beams[r], beams[r + 1]) && tops[r] == Score(beams[r + 1][0])
  }

  /** Recording one more round keeps the beams and tops in step. */
  lemma BeamsExtend(beams: seq<seq<Grid>>, tops: seq<int>, next: seq<Grid>, top: int)
    requires Recorded(beams, tops)
    requires RoundOf(beams[|tops|], next) && top == Score(next[0])
    ensures Recorded(beams + [next], tops + [top])
  {
    var beams', tops' := beams + [next], tops + [top];
    forall r | 0 <= r < |tops'|
      ensures RoundOf(beams'[r], beams'[r + 1]) && tops'[r] == Score(beams'[r + 1][0])
    {
      if r < |tops| {
        assert beams'[r] == beams[r] && beams'[r + 1] == beams[r + 1] && tops'[r] == tops[r];
      }
    }
  }
}
