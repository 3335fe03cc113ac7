# Pacman search, modelled in Dafny

This is a model of the search core of a small Pacman project.

- **The search space.** A search space offers a start state, a goal test and a successor function. The successor function lists (successor, action, step cost) triples.
- **`search_template`.** One generic graph-search loop runs with a container that decides which pending node comes out next:
  - a LIFO stack gives depth-first search;
  - a FIFO queue gives breadth-first search;
  - a priority queue keyed by path cost gives uniform cost search;
  - a priority queue keyed by path cost plus a heuristic gives A*.

  Visited states are only checked when a node comes out of the container, so duplicates may wait in the frontier. The loop returns the actions of the first node whose state is a goal, or nothing once the container is empty.
- **The food domain.** Pacman walks a walled grid and eats every pellet. A state is pacman's position plus the set of remaining food. Each of the four moves costs 1, and the state is final when no food is left.
- **The two heuristics.** `food_heuristic` is the Manhattan distance to the farthest remaining pellet. `eight_puzzle_heuristic` is the number of misplaced tiles on a 3-by-3 board.

The modules follow the source files:

| file | module | models |
|---|---|---|
| `problem.dfy` | `SearchSpace` | The search-space contract. `Walk` replays a path given as successor choices. It defines what "a path to a goal", "a shortest solution", "a cheapest solution" and "a consistent heuristic" mean. |
| `frontier.dfy` | `Frontier` | The three containers and their `put`/`get`. |
| `search.dfy` | `Search` | `search_template` as a loop with invariants, and the four entry points. |
| `food.dfy` | `Food` | `PacmanFoodSearchSpace`. |
| `heuristics.dfy` | `Heuristics` | `food_heuristic` and `eight_puzzle_heuristic`, plus A* on the food maze with the food heuristic. |

Paths are represented as the sequence of successor indices chosen at each state. A frontier node is a path from the start, which is the loop's central invariant (`Witnessed`). This is what makes the following provable:

- a returned action sequence labels a real path to a goal;
- an empty frontier means no goal is reachable;
- no state is expanded twice, and the count equals the number of expanded states;
- a search whose start state is a goal returns the empty sequence after one expansion;
- breadth-first search returns a path with the fewest steps;
- uniform cost search returns a cheapest path;
- A* returns a cheapest path when the heuristic is consistent.

The food heuristic is proved consistent for every maze, and therefore admissible. Every food step costs 1, so a path's cost is its number of steps. So A* with the food heuristic returns a way to eat all the food in the fewest steps (`Heuristics.FoodAStarSearch`). The front end at `pacman.py:27-34` selects this configuration by name: `prob=FoodSearchProblem,heuristic=foodHeuristic`, resolved by a game framework that is not part of this model. That these names denote `PacmanFoodSearchSpace` and `food_heuristic` is an assumption of the model.

Two modelling choices:

- **Ties in the priority queue.** The source adds a tiny random number to every priority. The model breaks ties deterministically instead: among the nodes of minimal key, the earliest inserted comes out first.
- **Termination.** The source loop simply runs until the container is empty. The model's loop takes a ghost set `universe` that holds every state reachable from the start (the `Finite` precondition). The loop terminates because each expansion adds a new state of that set, and each discard shrinks the frontier.

One quirk of the source is kept as it is. The start state pairs pacman's position with all of the food, so a pellet under pacman at the start is not eaten until pacman leaves and comes back. The food heuristic is 0 in that state even though food is left (`Heuristics.PelletUnderPacmanScoresZero`).

## Model

| member | source | states |
|---|---|---|
| `SearchSpace.ConsistentAlongWalk` | search.py:97-98 | Along any path, a consistent heuristic at the origin is at most the path's cost plus the heuristic at its end. |
| `SearchSpace.ConsistentIsAdmissible` | search.py:97-98 | A consistent heuristic is at most the cost of any path from the state to a goal. |
| `Frontier.EarliestMin` | search.py:81-87 | The priority queue removes a node whose key is no larger than any other node's key. Among nodes of minimal key it removes the earliest inserted, which replaces the random perturbation. |
| `Frontier.Select` | search.py:68-98 | The index removed next is the newest node for LIFO (`LifoQueue`) and the oldest for FIFO (`Queue`). For a priority queue it is a node of minimal key, and no earlier node has that key. |
| `Frontier.Put` | search.py:81-83 | `put` adds exactly the new node to the frontier's contents. |
| `Frontier.PutAll` | search.py:62-65 | Putting the successor nodes one by one, as the `for` loop does, appends them behind the frontier in their listed order. |
| `Frontier.Get` | search.py:85-87 | `get` returns a node of the frontier and leaves exactly the other nodes. Under a priority queue the returned node has minimal key. |
| `Frontier.LifoGetsLastPut` | search.py:68-69 | The LIFO container returns the node put last and leaves the frontier as it was before that `put`. |
| `Frontier.FifoGetsFirstPut` | search.py:72-73 | The FIFO container returns the oldest node, and a node put afterwards waits behind the rest. |
| `Frontier.ZeroHeuristicAStarIsUniformCost` | search.py:93-98 | When every estimate is 0 (the default heuristic of line 34), the A* key and the uniform-cost key pick the same node. |
| `Search.InitialNode` | search.py:47 | The initial node is the empty path from the start: the start state, cost 0, no actions. Its estimate is 0 whatever the heuristic. |
| `Search.Expand` | search.py:61-65 | There is one new node per successor triple. If the parent's path from the start is `w`, then path `w` extended by choice i reaches exactly the i-th new node: its state, its accumulated cost and its action sequence. Each new node carries the heuristic of its own state. |
| `Search.InitialInv` | search.py:46-48 | The initial frontier satisfies the loop invariant with nothing visited. It holds the single node (start, 0, 0, no actions), reached by the empty path. |
| `Search.ExpandWitnessed` | search.py:61-65 | Each node put for a successor has the state, accumulated cost and extended action sequence of a real path: the expanded node's path plus one choice. The node carries the heuristic of its state. |
| `Search.LayeredAfterRemove` | search.py:64 | Under FIFO, removing the oldest node and appending successors one step longer keeps the frontier ordered by action count. All of it stays within one step of its first node. |
| `Search.DiscardPreserves` | search.py:53 | Dropping a removed node whose state was already visited keeps the loop invariant. |
| `Search.ExpandPreserves` | search.py:53-65 | Marking a non-goal state visited and putting its successors keeps the loop invariant. The invariant covers: paths witnessed, estimates, FIFO layering, every unvisited boundary state covered, and no goal visited. |
| `Search.MinFront` | search.py:51-65 | Under FIFO, uniform cost, or A* with a consistent heuristic, the node removed next ranks no worse than any path to an unvisited state. The bound is that path's measure: its steps under FIFO, its cost otherwise. Under A* the path's end also adds its heuristic estimate. |
| `Search.FirstGoalIsBest` | search.py:57-60 | Under the same containers, the first goal node removed is no worse, in steps (FIFO) or in cost (priority), than any path to a goal. |
| `Search.ExhaustedMeansExpanded` | search.py:51 | When the frontier is empty, every state reachable from the start has been expanded. |
| `Search.ExhaustedUnsolvable` | search.py:51-65 | An empty frontier with no goal expanded means no goal is reachable, so returning nothing is correct. |
| `Search.ExpandStep` | search.py:53-65 | Expanding a new non-goal state keeps the loop invariant, records the state as expanded, and shrinks the part of the universe not yet expanded. |
| `Search.GoalOutcome` | search.py:57-60 | When the removed node is a new goal, returning its actions meets the loop's promise. The actions label a path to that goal, and under a ranked container no goal path is better. |
| `Search.ExhaustedOutcome` | search.py:51-65 | When the frontier runs dry, returning nothing meets the loop's promise: no goal is reachable. |
| `Search.SearchTemplate` | search.py:34-65 | The loop terminates whenever the reachable states lie in the finite set `universe`. `count` is the number of distinct states expanded, at least 1 and at most the size of `universe`. The expanded states are all reachable, and the first is the start. Only the last expanded state can be a goal. A returned sequence labels a path from the start to that last state, which is a goal. No result means no goal is reachable. A goal start returns the empty sequence with count 1. Under a ranked container the result is optimal in that container's measure. |
| `Search.DepthFirstSearch` | search.py:68-69 | DFS returns the actions of a path to a goal, or nothing exactly when none exists. `count` is the number of distinct states expanded, all reachable from the start, and at most the size of `universe`. A goal start returns the empty sequence with count 1. |
| `Search.BreadthFirstSearch` | search.py:72-73 | BFS returns a solution with the fewest steps, or nothing when no goal is reachable. `count` is the number of distinct states expanded, all reachable from the start, and at most the size of `universe`. |
| `Search.UniformCostSearch` | search.py:93-94 | UCS returns a solution of least total step cost, or nothing when no goal is reachable. `count` is the number of distinct states expanded, all reachable from the start, and at most the size of `universe`. |
| `Search.AStarSearch` | search.py:97-98 | A* returns a solution, which is a cheapest one when the heuristic is consistent, or nothing when no goal is reachable. `count` is the number of distinct states expanded, all reachable from the start, and at most the size of `universe`. |
| `Food.StartState` | food.py:30-32 | The start state is pacman's given position with all of the given food, including any pellet under pacman. It is one of the maze's states. |
| `Food.IsFinal` | food.py:62-65 | A state is final exactly when its food set is empty. |
| `Food.Eat` | food.py:85-90 | The food left after stepping on a square is the old food without that square. |
| `Food.Successors` | food.py:67-91 | There are at most four successor triples. Each moves one square in its labelled direction (N +y, S -y, E +x, W -x). The square is inside the grid and not a wall, the pellet there is eaten, and the cost is 1. |
| `Food.SuccessorsComplete` | food.py:76-83 | A direction appears among the successors exactly when its square is inside the grid and not a wall. |
| `Food.SuccessorsInOrder` | food.py:73-76 | Successors come in the order North, South, East, West, each direction at most once, so there are at most four. |
| `Food.MoveChangesPosition` | food.py:77-78 | A move never leaves pacman on the same square. |
| `Food.FoodShrinksByAtMostOne` | food.py:85-90 | Along a successor step the food never grows, and it shrinks by at most one pellet. |
| `Food.ReachableInUniverse` | food.py:30-32 | Every reachable state holds a subset of the maze's food, with pacman at the start or on an open square. |
| `Food.FoodIsFinite` | food.py:24-109 | The reachable states of a maze lie in one finite set, so every search on it terminates. |
| `Heuristics.FarthestFrom` | heuristics.py:30-35 | The loop's result is at least the initial best, at least the distance to every pellet, and equal to the initial best or to some pellet's distance. |
| `Heuristics.FoodHeuristic` | heuristics.py:13-35 | The result is 0 when no food remains. Otherwise it is at least the Manhattan distance to every pellet and equal to the distance to some pellet, which makes it the maximum. |
| `Heuristics.FoodHeuristicZeroIffFinal` | heuristics.py:28-29 | When pacman does not stand on a pellet, the heuristic is 0 exactly on final states. |
| `Heuristics.PelletUnderPacmanScoresZero` | food.py:32 | The start state can keep a pellet under pacman. There the heuristic is 0 although the state is not final. |
| `Heuristics.MoveShortensByAtMostOne` | food.py:77-78 | One move changes the Manhattan distance to any square by at most one. |
| `Heuristics.FoodHeuristicDropsByAtMostOne` | heuristics.py:18 | Across any food successor, the heuristic drops by at most 1, the step cost. |
| `Heuristics.FoodHeuristicConsistent` | heuristics.py:13-35 | The food heuristic is consistent for every maze: it drops by at most the step cost and is 0 on final states. |
| `Heuristics.FoodHeuristicAdmissible` | heuristics.py:13-35 | The food heuristic never exceeds the cost of any path that eats all the food, nor that path's number of steps. |
| `Heuristics.FoodCostIsLength` | food.py:91 | Every food step costs 1, so any path's cost equals its number of steps. |
| `Heuristics.CheapestIsShortest` | food.py:91 | On the food maze a cheapest solution is also one with the fewest steps. |
| `Heuristics.FoodAStarSearch` | pacman.py:27-34 | A* on the food maze with the food heuristic returns a solution of least cost, and therefore of fewest steps. It returns nothing only when the food cannot all be eaten. The count is the number of distinct reachable states expanded, between 1 and the number of maze states. A start with no food returns the empty sequence with count 1. |
| `Heuristics.CountMisplaced` | heuristics.py:6-9 | The count over the first n cells is the number of cells i whose tile differs from i + 1. It is at most n, and 0 exactly when every such cell holds its tile. |
| `Heuristics.EightPuzzleHeuristic` | heuristics.py:5-9 | The result is the number of cells among the first eight whose tile differs from 1..8. It is at most 8, and 0 exactly when those eight cells are 1..8. |
| `Heuristics.LastCellIgnored` | heuristics.py:8 | Changing the last cell, where the blank belongs, does not change the heuristic. |
| `Heuristics.SolvedBoardScoresZero` | eightpuzzle.py:24 | The solved board [[1, 2, 3], [4, 5, 6], [7, 8, 0]] scores 0. |

## Left out

- The progress bar and the printed count of visited nodes (search.py:50, 55, 58-59) are output only. The count is returned instead.
- The random perturbation of priorities (search.py:82) is floating point and nondeterministic. It is replaced by earliest-inserted-first among equal keys. The double wrapping of the queued item (search.py:82-83) only matters to Python's tuple comparison on ties, so it is not modelled either.
- The thread-safe `queue` classes and the abstract-base-class machinery are replaced by a sequence and a datatype of three functions.
- Heuristics take only the state. The source also passes the search space, which neither heuristic reads.
- Step costs are natural numbers. The source's costs are 1 in the food domain and are assumed non-negative by uniform cost search and A*.
- Heuristic estimates are natural numbers too. The source allows any non-negative number, including fractions (search.py:43). Both heuristics here return integers.
- The tie-break matches the random perturbation only for integer keys. There the perturbation, below 1e-6, never reorders keys that differ, and it orders equal keys arbitrarily, of which earliest-first is one choice. With fractional keys, the perturbation can also reorder keys that differ by less than 1e-6, and the model does not describe that.
- Search.SearchTemplate: requires every reachable state to lie in a given finite set (the ghost `universe`), and so do the four entry points that call it. On an infinite space the source may run forever, and the model does not describe that case.
- Search.AStarSearch: optimality is proved only for consistent heuristics that are 0 on goals. With an admissible but inconsistent heuristic, this graph search can return a more expensive path, so no stronger claim is made.
- Search.DepthFirstSearch: states only that the result is a solution. Which solution depth-first search finds depends on the successor order, and is not characterised.
- The `space` object's fields `width`, `height` and `walls` live in `Maze`. The maze's dictionary form and the conversion to tuples and frozensets (food.py:25-35) are represented directly as a datatype.
- eightpuzzle.py: its search space is unimplemented (every method raises). Only its solved example board is used.
- The heuristic is modelled on a flat sequence of nine integers instead of a torch tensor.
- pacman.py: the command-line front end and the game framework it calls are not modelled beyond the A* configuration it selects.
- The torch imports, the commented-out tensor implementation (food.py:2-3, 38-57, 94-107), the commented-out alternative heuristics, and the unreachable final `return 0` of heuristics.py are not modelled.
