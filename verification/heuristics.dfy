/** The two heuristics: food_heuristic for the food-collection maze (the
    Manhattan distance to the farthest remaining pellet) and
    eight_puzzle_heuristic for the sliding-tile puzzle (the number of misplaced
    tiles). Neither looks at the search space it is handed, so here each is a
    function of the state alone. */
module Heuristics {
  import opened SearchSpace
  import opened Food
  import opened Search

  function Abs(a: int): nat
  {
    if a < 0 then -a else a
  }

  /** |x1 - x2| + |y1 - y2| */
  function Manhattan(a: Pos, b: Pos): nat
  {
    Abs(a.x - b.x) + Abs(a.y - b.y)
  }

  // ---------------------------------------------------------------------------
  // A fixed order in which to visit the food set.

  /** Lexicographic order on positions. */
  predicate Below(a: Pos, b: Pos)
  {
    a.x < b.x || (a.x == b.x && a.y <= b.y)
  }

  lemma {:induction false} LeastExists(s: set<Pos>)
    requires s != {}
    ensures exists a :: a in s && forall b :: b in s ==> Below(a, b)
    decreases s
  {
    var a :| a in s;
    if s != {a} {
      LeastExists(s - {a});
      var m :| m in s - {a} && forall b :: b in s - {a} ==> Below(m, b);
      if Below(a, m) {
        forall b | b in s ensures Below(a, b) {
          if b != a {
            assert b in s - {a};
          }
        }
      } else {
        forall b | b in s ensures Below(m, b) {
          if b != a {
            assert b in s - {a};
          }
        }
      }
    }
  }

  /** The lexicographically least position of a non-empty set. */
  function Least(s: set<Pos>): (a: Pos)
    requires s != {}
    ensures a in s
  {
    LeastExists(s);
    var a :| a in s && forall b :: b in s ==> Below(a, b);
    a
  }

  // ---------------------------------------------------------------------------
  // food_heuristic

  /** The loop over the food positions: starting from the distance `best` found
      so far, keep the larger of it and each pellet's Manhattan distance. */
  function FarthestFrom(from: Pos, food: set<Pos>, best: nat): (r: nat)
    ensures best <= r
    ensures forall f :: f in food ==> Manhattan(from, f) <= r
    ensures r == best || exists f :: f in food && Manhattan(from, f) == r
    decreases food
  {
    if food == {} then best
    else
      var f := Least(food);
      var d := Manhattan(from, f);
      FarthestFrom(from, food - {f}, if d > best then d else best)
  }

  /** food_heuristic: 0 when no food is left, otherwise the Manhattan distance
      from pacman to the farthest pellet. */
  function FoodHeuristic(s: State): (r: nat)
    ensures IsFinal(s) ==> r == 0
    ensures forall f :: f in s.food ==> Manhattan(s.pacman, f) <= r
    ensures !IsFinal(s) ==> exists f :: f in s.food && Manhattan(s.pacman, f) == r
  {
    if |s.food| == 0 then 0
    else
      var r := FarthestFrom(s.pacman, s.food, 0);
      assert r == 0 ==> exists f :: f in s.food && Manhattan(s.pacman, f) == r by {
        var f :| f in s.food;
      }
      r
  }

  /** Once pacman is off the food (as after any move, since a move eats what it
      lands on), the heuristic is 0 exactly on the final states. */
  lemma FoodHeuristicZeroIffFinal(s: State)
    requires s.pacman !in s.food
    ensures FoodHeuristic(s) == 0 <==> IsFinal(s)
  {
    if !IsFinal(s) {
      var f :| f in s.food && Manhattan(s.pacman, f) == FoodHeuristic(s);
      assert f != s.pacman;
    }
  }

  /** Without that condition the equivalence fails: the start state keeps a
      pellet under pacman uneaten, and there the heuristic is 0 though food is left. */
  lemma PelletUnderPacmanScoresZero(p: Pos)
    ensures !IsFinal(State(p, {p})) && FoodHeuristic(State(p, {p})) == 0
  {
    var f :| f in {p} && Manhattan(p, f) == FoodHeuristic(State(p, {p}));
    assert f == p;
  }

  /** A move can bring pacman at most one square closer to any position. */
  lemma MoveShortensByAtMostOne(p: Pos, d: Direction, f: Pos)
    ensures Manhattan(p, f) <= 1 + Manhattan(Move(p, d), f)
    ensures Manhattan(p, Move(p, d)) == 1
  {
  }

  /** Across any successor step the heuristic drops by at most 1, the step's cost. */
  lemma FoodHeuristicDropsByAtMostOne(m: Maze, s: State, i: nat)
    requires i < |Successors(m, s)|
    ensures FoodHeuristic(s) <= 1 + FoodHeuristic(Successors(m, s)[i].next)
  {
    var st := Successors(m, s)[i];
    var t := st.next;
    if !IsFinal(s) {
      var f :| f in s.food && Manhattan(s.pacman, f) == FoodHeuristic(s);
      MoveShortensByAtMostOne(s.pacman, st.action, f);
      if f !in t.food {
        assert f == t.pacman;
      }
    }
  }

  /** food_heuristic is consistent for every food maze: it drops by at most the
      step cost along every successor and is 0 on final states. */
  lemma FoodHeuristicConsistent(m: Maze)
    ensures Consistent(FoodProblem(m), FoodHeuristic)
  {
    var p := FoodProblem(m);
    forall s, i | 0 <= i < |p.succ(s)|
      ensures FoodHeuristic(s) <= p.succ(s)[i].cost + FoodHeuristic(p.succ(s)[i].next)
    {
      assert p.succ(s) == Successors(m, s);
      FoodHeuristicDropsByAtMostOne(m, s, i);
    }
  }

  /** food_heuristic never overestimates: it is at most the number of steps of any
      path from the state to a state with no food left. */
  lemma FoodHeuristicAdmissible(m: Maze, s: State, choices: seq<nat>)
    requires Walk(FoodProblem(m), s, choices).Some?
    requires IsFinal(Walk(FoodProblem(m), s, choices).value.state)
    ensures FoodHeuristic(s) <= Walk(FoodProblem(m), s, choices).value.cost
    ensures FoodHeuristic(s) <= |choices|
  {
    FoodCostIsLength(m, s, choices);
    FoodHeuristicConsistent(m);
    ConsistentIsAdmissible(FoodProblem(m), FoodHeuristic, s, choices);
  }

  /** Every step of the food maze costs 1, so a path's cost is its number of steps. */
  lemma {:induction false} FoodCostIsLength(m: Maze, s: State, choices: seq<nat>)
    requires Walk(FoodProblem(m), s, choices).Some?
    ensures Walk(FoodProblem(m), s, choices).value.cost == |choices|
    decreases |choices|
  {
    if |choices| > 0 {
      var parent := choices[..|choices| - 1];
      FoodCostIsLength(m, s, parent);
      var u := Walk(FoodProblem(m), s, parent).value.state;
      assert FoodProblem(m).succ(u) == Successors(m, u);
    }
  }

  /** On the food maze a cheapest solution is one with the fewest steps. */
  lemma CheapestIsShortest(m: Maze, actions: seq<Direction>)
    requires CheapestSolution(FoodProblem(m), actions)
    ensures ShortestSolution(FoodProblem(m), actions)
  {
    var p := FoodProblem(m);
    var best :| && IsGoalWalk(p, best)
                && Walk(p, p.start, best).value.actions == actions
                && forall other :: IsGoalWalk(p, other) ==>
                     Walk(p, p.start, best).value.cost <= Walk(p, p.start, other).value.cost;
    FoodCostIsLength(m, p.start, best);
    forall other | IsGoalWalk(p, other) ensures |actions| <= |other| {
      FoodCostIsLength(m, p.start, other);
    }
  }

  /** The A* run on the food maze with food_heuristic, as the pacman front end
      selects it (assuming its FoodSearchProblem and foodHeuristic are the food
      search space and heuristic here). Any path it returns eats all the food
      in the fewest steps. */
  method FoodAStarSearch(m: Maze) returns (r: Option<seq<Direction>>, count: nat, ghost expanded: seq<State>)
    ensures 1 <= count == |expanded| <= |Universe(m)|
    ensures forall i, j :: 0 <= i < j < |expanded| ==> expanded[i] != expanded[j]
    ensures forall i :: 0 <= i < |expanded| ==> Reachable(FoodProblem(m), expanded[i])
    ensures r.Some? ==> CheapestSolution(FoodProblem(m), r.value)
    ensures r.Some? ==> ShortestSolution(FoodProblem(m), r.value)
    ensures r.None? ==> Unsolvable(FoodProblem(m))
    ensures IsFinal(StartState(m)) ==> r == Some([]) && count == 1
  {
    FoodIsFinite(m);
    FoodHeuristicConsistent(m);
    r, count, expanded := AStarSearch(FoodProblem(m), FoodHeuristic, Universe(m));
    if r.Some? {
      CheapestIsShortest(m, r.value);
    }
  }

  // ---------------------------------------------------------------------------
  // eight_puzzle_heuristic

  /** The cells among the first n whose tile is not the one the solved board has
      there (cell i of the row-major board holds tile i + 1). */
  ghost function Misplaced(board: seq<int>, n: nat): set<nat>
    requires n <= |board|
  {
    set i: nat | i < n && board[i] != i + 1
  }

  /** Counts the misplaced tiles among the first n cells. */
  function CountMisplaced(board: seq<int>, n: nat): (r: nat)
    requires n <= |board|
    ensures r == |Misplaced(board, n)|
    ensures r <= n
    ensures r == 0 <==> forall i :: 0 <= i < n ==> board[i] == i + 1
    decreases n
  {
    if n == 0 then 0
    else
      var r := CountMisplaced(board, n - 1) + (if board[n - 1] != n then 1 else 0);
      assert Misplaced(board, n) ==
             Misplaced(board, n - 1) + (if board[n - 1] != n then {n - 1} else {});
      r
  }

  /** eight_puzzle_heuristic: compares the first eight cells of the row-major
      3-by-3 board with 1..8; the last cell, where the blank belongs, is ignored. */
  function EightPuzzleHeuristic(board: seq<int>): (r: nat)
    requires |board| == 9
    ensures r == |Misplaced(board, 8)|
    ensures r <= 8
    ensures r == 0 <==> forall i :: 0 <= i < 8 ==> board[i] == i + 1
  {
    CountMisplaced(board, 8)
  }

  /** The blank's cell never counts: changing it leaves the heuristic unchanged. */
  lemma LastCellIgnored(board: seq<int>, v: int)
    requires |board| == 9
    ensures EightPuzzleHeuristic(board[..8] + [v]) == EightPuzzleHeuristic(board)
  {
    assert Misplaced(board[..8] + [v], 8) == Misplaced(board, 8);
  }

  /** The solved board [[1, 2, 3], [4, 5, 6], [7, 8, 0]] scores 0. */
  lemma SolvedBoardScoresZero()
    ensures EightPuzzleHeuristic([1, 2, 3, 4, 5, 6, 7, 8, 0]) == 0
  {
  }
}
