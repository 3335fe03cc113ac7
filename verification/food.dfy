/** The food-collection search space (PacmanFoodSearchSpace). Pacman walks on a
    width-by-height grid with walls; a state is pacman's position together with
    the food still on the board, stepping onto a pellet eats it, every step costs
    1, and a state is final when no food is left. The grid's width, height and
    walls never change, so they stay in the maze rather than in the state. */
module Food {
  import opened SearchSpace

  datatype Pos = Pos(x: int, y: int)

  /** A maze description: its height and width, its walls, its food and pacman's position. */
  datatype Maze = Maze(width: int, height: int, walls: set<Pos>, food: set<Pos>, pacman: Pos)

  /** A search state: pacman's position and the positions of the remaining food. */
  datatype State = State(pacman: Pos, food: set<Pos>)

  /** The four moves, listed in the order successors are generated. */
  datatype Direction = North | South | East | West

  /** Position of a direction in the generation order North, South, East, West. */
  function Order(d: Direction): nat
  {
    match d
    case North => 0
    case South => 1
    case East => 2
    case West => 3
  }

  /** The square one step from `p` in direction `d`: North is +y, South -y, East +x, West -x. */
  function Move(p: Pos, d: Direction): Pos
  {
    match d
    case North => Pos(p.x, p.y + 1)
    case South => Pos(p.x, p.y - 1)
    case East => Pos(p.x + 1, p.y)
    case West => Pos(p.x - 1, p.y)
  }

  /** Pacman may stand on `q`: it lies inside the grid and is not a wall. */
  predicate Open(m: Maze, q: Pos)
  {
    0 <= q.x < m.width && 0 <= q.y < m.height && q !in m.walls
  }

  /** get_start_state: pacman's given position with all of the given food (a
      pellet under pacman is not eaten); it lies among the maze's states. */
  function StartState(m: Maze): (s: State)
    ensures s.pacman == m.pacman && s.food == m.food
    ensures s in Universe(m)
  {
    State(m.pacman, m.food)
  }

  /** is_final_state: no food is left. */
  predicate IsFinal(s: State)
    ensures IsFinal(s) <==> s.food == {}
  {
    |s.food| == 0
  }

  /** The food left once pacman stands on `q`: a pellet there is eaten. */
  function Eat(food: set<Pos>, q: Pos): (r: set<Pos>)
    ensures r == food - {q}
  {
    if q in food then food - {q} else food
  }

  /** The successor triple for direction `d`, when the square it leads to is open. */
  function TryMove(m: Maze, s: State, d: Direction): seq<Step<State, Direction>>
  {
    var q := Move(s.pacman, d);
    if Open(m, q) then [Step(State(q, Eat(s.food, q)), d, 1)] else []
  }

  /** A successor triple of `s` as get_successors produces them: an open square
      one step away in the labelled direction, that square's pellet eaten, cost 1. */
  ghost predicate LegalStep(m: Maze, s: State, st: Step<State, Direction>)
  {
    && st.next.pacman == Move(s.pacman, st.action)
    && Open(m, st.next.pacman)
    && st.next.food == s.food - {st.next.pacman}
    && st.cost == 1
  }

  /** get_successors: the moves North, South, East and West, in that order, whose
      square is open. Every triple is a legal step, and there are at most four. */
  function Successors(m: Maze, s: State): (r: seq<Step<State, Direction>>)
    ensures |r| <= 4
    ensures forall i :: 0 <= i < |r| ==> LegalStep(m, s, r[i])
  {
    var n, so, e, w := TryMove(m, s, North), TryMove(m, s, South), TryMove(m, s, East), TryMove(m, s, West);
    TryMoveLegal(m, s, North);
    TryMoveLegal(m, s, South);
    TryMoveLegal(m, s, East);
    TryMoveLegal(m, s, West);
    AllLegalConcat(m, s, n, so);
    AllLegalConcat(m, s, n + so, e);
    AllLegalConcat(m, s, n + so + e, w);
    n + so + e + w
  }

  /** Every triple of `steps` is a legal step from `s`. */
  ghost predicate AllLegal(m: Maze, s: State, steps: seq<Step<State, Direction>>)
  {
    forall i :: 0 <= i < |steps| ==> LegalStep(m, s, steps[i])
  }

  lemma TryMoveLegal(m: Maze, s: State, d: Direction)
    ensures AllLegal(m, s, TryMove(m, s, d))
  {
  }

  lemma AllLegalConcat(m: Maze, s: State, a: seq<Step<State, Direction>>, b: seq<Step<State, Direction>>)
    requires AllLegal(m, s, a) && AllLegal(m, s, b)
    ensures AllLegal(m, s, a + b)
  {
    forall i | 0 <= i < |a + b| ensures LegalStep(m, s, (a + b)[i]) {
      if i >= |a| {
        assert (a + b)[i] == b[i - |a|];
      }
    }
  }

  /** A direction has a successor triple exactly when the square it leads to is open. */
  lemma SuccessorsComplete(m: Maze, s: State, d: Direction)
    ensures Open(m, Move(s.pacman, d)) <==> exists i :: 0 <= i < |Successors(m, s)| && Successors(m, s)[i].action == d
  {
    var n, so, e, w := TryMove(m, s, North), TryMove(m, s, South), TryMove(m, s, East), TryMove(m, s, West);
    var r := Successors(m, s);
    assert r == n + so + e + w;
    if Open(m, Move(s.pacman, d)) {
      var i := match d
        case North => 0
        case South => |n|
        case East => |n| + |so|
        case West => |n| + |so| + |e|;
      assert r[i].action == d;
    }
    if exists i :: 0 <= i < |r| && r[i].action == d {
      var i :| 0 <= i < |r| && r[i].action == d;
    }
  }

  /** Successor triples come in the order North, South, East, West, each direction at most once. */
  lemma SuccessorsInOrder(m: Maze, s: State, i: nat, j: nat)
    requires i < j < |Successors(m, s)|
    ensures Order(Successors(m, s)[i].action) < Order(Successors(m, s)[j].action)
  {
    var n, so, e, w := TryMove(m, s, North), TryMove(m, s, South), TryMove(m, s, East), TryMove(m, s, West);
    var r := Successors(m, s);
    assert r == n + so + e + w;
    assert forall k :: 0 <= k < |n| ==> r[k].action == North;
    assert forall k :: |n| <= k < |n| + |so| ==> r[k].action == South;
    assert forall k :: |n| + |so| <= k < |n| + |so| + |e| ==> r[k].action == East;
    assert forall k :: |n| + |so| + |e| <= k < |r| ==> r[k].action == West;
  }

  /** The maze as a search space. */
  function FoodProblem(m: Maze): Problem<State, Direction>
  {
    Problem(StartState(m), s => IsFinal(s), s => Successors(m, s))
  }

  /** A move never leaves pacman where it was. */
  lemma MoveChangesPosition(p: Pos, d: Direction)
    ensures Move(p, d) != p
  {
  }

  /** Food never grows, and one step eats at most one pellet. */
  lemma FoodShrinksByAtMostOne(m: Maze, s: State, i: nat)
    requires i < |Successors(m, s)|
    ensures var t := Successors(m, s)[i].next;
            t.food <= s.food && |s.food| - 1 <= |t.food| <= |s.food|
  {
    var st := Successors(m, s)[i];
    RemoveOneSize(s.food, st.next.pacman);
  }

  lemma RemoveOneSize<T>(a: set<T>, x: T)
    ensures |a| - 1 <= |a - {x}| <= |a|
  {
    if x in a {
      assert a == (a - {x}) + {x};
    } else {
      assert a - {x} == a;
    }
  }

  /** Every position pacman can be in, with every subset of the maze's food. */
  ghost function Universe(m: Maze): set<State>
  {
    (set f | f <= m.food :: State(m.pacman, f)) +
    (set x, y, f | 0 <= x < m.width && 0 <= y < m.height && f <= m.food :: State(Pos(x, y), f))
  }

  /** A state is reachable only if pacman is at its start or on an open square, with some of the food eaten. */
  lemma {:induction false} ReachableInUniverse(m: Maze, choices: seq<nat>)
    requires Walk(FoodProblem(m), StartState(m), choices).Some?
    ensures var t := Walk(FoodProblem(m), StartState(m), choices).value.state;
            t.food <= m.food && (t.pacman == m.pacman || Open(m, t.pacman))
    ensures Walk(FoodProblem(m), StartState(m), choices).value.state in Universe(m)
    decreases |choices|
  {
    var t := Walk(FoodProblem(m), StartState(m), choices).value.state;
    if |choices| > 0 {
      var parent := choices[..|choices| - 1];
      ReachableInUniverse(m, parent);
      var u := Walk(FoodProblem(m), StartState(m), parent).value.state;
      var i := choices[|choices| - 1];
      assert i < |Successors(m, u)|;
    }
    if t.pacman != m.pacman {
      assert t == State(Pos(t.pacman.x, t.pacman.y), t.food);
    }
  }

  /** The food problem's reachable states form a finite set, so every search on it terminates. */
  lemma FoodIsFinite(m: Maze)
    ensures Finite(FoodProblem(m), Universe(m))
  {
    forall choices | Walk(FoodProblem(m), FoodProblem(m).start, choices).Some?
      ensures Walk(FoodProblem(m), FoodProblem(m).start, choices).value.state in Universe(m)
    {
      ReachableInUniverse(m, choices);
    }
  }
}
