/** The one search loop (search_template) that, given a container, performs
    depth-first, breadth-first, uniform cost or A* search, and the four entry
    points that pick the container.

    The loop removes a node, skips it when its state was already expanded
    (duplicates may wait in the frontier: they are only discarded when they come
    out), marks the state expanded, returns the node's actions when the state is
    a goal, and otherwise puts one node per successor. When the frontier runs
    dry there is no solution. */
module Search {
  import opened SearchSpace
  import opened Frontier

  /** The default heuristic: zero everywhere. */
  function Zero<S>(s: S): nat
  {
    0
  }

  /** The node the search starts from: the start state, cost 0, estimate 0, no actions. */
  function InitialNode<S, A>(p: Problem<S, A>): (n: Node<S, A>)
    ensures Walk(p, p.start, []) == Some(NodeTrail(n))
    ensures n.h == 0
  {
    Node(p.start, 0, 0, [])
  }

  /** The nodes put for the successors of `n`, in the order they are listed:
      path cost grows by the step cost, the estimate is the heuristic of the
      successor, and the action is appended. Whatever path from the start
      reaches `n`, extending it by choice i reaches the i-th new node. */
  function Expand<S, A>(p: Problem<S, A>, h: S -> nat, n: Node<S, A>): (r: seq<Node<S, A>>)
    ensures |r| == |p.succ(n.state)|
    ensures forall i :: 0 <= i < |r| ==> r[i].h == h(r[i].state)
    ensures forall w: seq<nat> {:trigger Walk(p, p.start, w)} :: Walk(p, p.start, w) == Some(NodeTrail(n)) ==>
              forall i :: 0 <= i < |r| ==> Walk(p, p.start, w + [i]) == Some(NodeTrail(r[i]))
  {
    var steps := p.succ(n.state);
    var r := seq(|steps|, i requires 0 <= i < |steps| =>
      Node(steps[i].next, n.g + steps[i].cost, h(steps[i].next), n.actions + [steps[i].action]));
    assert forall w: seq<nat> {:trigger Walk(p, p.start, w)} :: Walk(p, p.start, w) == Some(NodeTrail(n)) ==>
             forall i :: 0 <= i < |r| ==> Walk(p, p.start, w + [i]) == Some(NodeTrail(r[i])) by {
      forall w: seq<nat>, i | Walk(p, p.start, w) == Some(NodeTrail(n)) && 0 <= i < |r|
        ensures Walk(p, p.start, w + [i]) == Some(NodeTrail(r[i]))
      {
        WalkExtend(p, p.start, w, i);
      }
    }
    r
  }

  /** The path a node claims to have followed: its state, its actions and its cost. */
  function NodeTrail<S, A>(n: Node<S, A>): Trail<S, A>
  {
    Trail(n.state, n.actions, n.g)
  }

  // ---------------------------------------------------------------------------
  // What the container makes the search optimise.

  /** Containers whose removal order makes the first goal removed an optimal
      one: FIFO (fewest steps), path-cost priority (cheapest), and
      cost-plus-heuristic priority when the heuristic is consistent. */
  ghost predicate Ranked<S(!new), A>(c: Container, p: Problem<S, A>, h: S -> nat)
  {
    match c
    case LifoQueue => false
    case FifoQueue => true
    case PriorityQueue(key) => key == PathCost || Consistent(p, h)
  }

  /** The quantity a ranked container minimises: step count under FIFO, path cost under a priority queue. */
  function Measure<S, A>(c: Container, t: Trail<S, A>): nat
  {
    if c.FifoQueue? then |t.actions| else t.cost
  }

  /** The order in which a container removes nodes, as a number (smallest first). */
  function Rank<S, A>(c: Container, n: Node<S, A>): nat
  {
    match c
    case LifoQueue => 0
    case FifoQueue => |n.actions|
    case PriorityQueue(key) => Key(key, n)
  }

  /** How much the removal key of a node at state `s` may exceed its measure. */
  function Allowance<S>(c: Container, h: S -> nat, s: S): nat
  {
    if c == PriorityQueue(PathCostPlusHeuristic) then h(s) else 0
  }

  // ---------------------------------------------------------------------------
  // The loop invariant.

  /** Each frontier node is reached from the start by the path in `wit` beside it. */
  ghost predicate Witnessed<S, A>(p: Problem<S, A>, f: seq<Node<S, A>>, wit: seq<seq<nat>>)
  {
    && |wit| == |f|
    && forall k :: 0 <= k < |f| ==> Walk(p, p.start, wit[k]) == Some(NodeTrail(f[k]))
  }

  /** The estimate stored in a node: 0 in the initial node, the heuristic of its state in every other. */
  ghost predicate Estimated<S, A>(h: S -> nat, f: seq<Node<S, A>>)
  {
    forall k :: 0 <= k < |f| ==> f[k].h == (if |f[k].actions| == 0 then 0 else h(f[k].state))
  }

  /** A FIFO frontier holds its nodes by non-decreasing action count, the last at most one step longer than the first. */
  ghost predicate Layered<S, A>(c: Container, f: seq<Node<S, A>>)
  {
    c.FifoQueue? ==>
      && (forall i, j :: 0 <= i < j < |f| ==> |f[i].actions| <= |f[j].actions|)
      && (|f| > 0 ==> |f[|f| - 1].actions| <= |f[0].actions| + 1)
  }

  /** `choices` reaches an unexpanded state, and is either empty or has an expanded parent. */
  ghost predicate OnBoundary<S, A>(p: Problem<S, A>, visited: set<S>, choices: seq<nat>)
  {
    && Walk(p, p.start, choices).Some?
    && Walk(p, p.start, choices).value.state !in visited
    && (|choices| == 0 ||
        (Walk(p, p.start, choices[..|choices| - 1]).Some? &&
         Walk(p, p.start, choices[..|choices| - 1]).value.state in visited))
  }

  /** Node `n` stands for the end of trail `t`: same state, and under a ranked
      container a measure no worse than the trail's. */
  ghost predicate Covers<S(!new), A>(c: Container, p: Problem<S, A>, h: S -> nat, n: Node<S, A>, t: Trail<S, A>)
  {
    n.state == t.state && (Ranked(c, p, h) ==> Measure(c, NodeTrail(n)) <= Measure(c, t))
  }

  /** Some frontier node covers the end of `choices`. */
  ghost predicate HasCover<S(!new), A>(c: Container, p: Problem<S, A>, h: S -> nat, f: seq<Node<S, A>>, choices: seq<nat>)
    requires Walk(p, p.start, choices).Some?
  {
    exists k :: 0 <= k < |f| && Covers(c, p, h, f[k], Walk(p, p.start, choices).value)
  }

  /** Every boundary path is covered by a frontier node. */
  ghost predicate Covered<S(!new), A>(c: Container, p: Problem<S, A>, h: S -> nat, f: seq<Node<S, A>>, visited: set<S>)
  {
    forall choices :: OnBoundary(p, visited, choices) ==> HasCover(c, p, h, f, choices)
  }

  /** No expanded state is a goal: the search stops at the first one. */
  ghost predicate NoGoalVisited<S, A>(p: Problem<S, A>, visited: set<S>)
  {
    forall s :: s in visited ==> !p.isGoal(s)
  }

  ghost predicate Inv<S(!new), A>(c: Container, p: Problem<S, A>, h: S -> nat,
                                  f: seq<Node<S, A>>, wit: seq<seq<nat>>, visited: set<S>)
  {
    && Witnessed(p, f, wit)
    && Estimated(h, f)
    && Layered(c, f)
    && Covered(c, p, h, f, visited)
    && NoGoalVisited(p, visited)
  }

  /** The paths that extend `w` by each of the first `n` successor choices. */
  ghost function Extensions(w: seq<nat>, n: nat): (r: seq<seq<nat>>)
    ensures |r| == n
  {
    seq(n, i requires 0 <= i < n => w + [i])
  }

  lemma InitialInv<S(!new), A>(c: Container, p: Problem<S, A>, h: S -> nat)
    ensures Inv(c, p, h, [InitialNode(p)], [[]], {})
  {
    var f := [InitialNode(p)];
    forall choices | OnBoundary(p, {}, choices)
      ensures f[0].state == Walk(p, p.start, choices).value.state
      ensures Ranked(c, p, h) ==> Measure(c, NodeTrail(f[0])) <= Measure(c, Walk(p, p.start, choices).value)
    {
      if |choices| > 0 {
        WalkParent(p, p.start, choices);
      }
    }
  }

  /** A ranked container removes a node whose key is at most the measure of any
      path to an unexpanded state, plus the heuristic allowance at that state. */
  lemma {:induction false} MinFront<S(!new), A>(c: Container, p: Problem<S, A>, h: S -> nat,
      f: seq<Node<S, A>>, wit: seq<seq<nat>>, visited: set<S>, choices: seq<nat>)
    requires Inv(c, p, h, f, wit, visited) && Ranked(c, p, h) && |f| > 0
    requires Walk(p, p.start, choices).Some? && Walk(p, p.start, choices).value.state !in visited
    ensures Rank(c, f[Select(c, f)]) <=
            Measure(c, Walk(p, p.start, choices).value) + Allowance(c, h, Walk(p, p.start, choices).value.state)
    decreases |choices|
  {
    var t := Walk(p, p.start, choices).value;
    var k := Select(c, f);
    if |choices| > 0 {
      WalkParent(p, p.start, choices);
    }
    if |choices| == 0 || Walk(p, p.start, choices[..|choices| - 1]).value.state in visited {
      assert OnBoundary(p, visited, choices);
      var m :| 0 <= m < |f| && f[m].state == t.state && Measure(c, NodeTrail(f[m])) <= Measure(c, t);
      assert Rank(c, f[k]) <= Rank(c, f[m]) by {
        if c.FifoQueue? && m > 0 {
          assert |f[0].actions| <= |f[m].actions|;
        }
      }
      assert f[m].h <= h(f[m].state);
    } else {
      var parent := choices[..|choices| - 1];
      MinFront(c, p, h, f, wit, visited, parent);
      var u := Walk(p, p.start, parent).value;
      var i := choices[|choices| - 1];
      assert i < |p.succ(u.state)|;
      if c == PriorityQueue(PathCostPlusHeuristic) {
        assert h(u.state) <= p.succ(u.state)[i].cost + h(p.succ(u.state)[i].next);
      }
    }
  }

  /** Under a ranked container the first goal removed is no worse, in the
      container's measure, than any path to a goal. */
  lemma FirstGoalIsBest<S(!new), A>(c: Container, p: Problem<S, A>, h: S -> nat,
      f: seq<Node<S, A>>, wit: seq<seq<nat>>, visited: set<S>)
    requires Inv(c, p, h, f, wit, visited) && |f| > 0
    ensures Ranked(c, p, h) ==>
      forall other :: IsGoalWalk(p, other) ==>
        Measure(c, NodeTrail(f[Select(c, f)])) <= Measure(c, Walk(p, p.start, other).value)
  {
    if Ranked(c, p, h) {
      forall other | IsGoalWalk(p, other)
        ensures Measure(c, NodeTrail(f[Select(c, f)])) <= Measure(c, Walk(p, p.start, other).value)
      {
        MinFront(c, p, h, f, wit, visited, other);
      }
    }
  }

  /** Once the frontier is empty, every state reachable from the start has been expanded. */
  lemma {:induction false} ExhaustedMeansExpanded<S(!new), A>(c: Container, p: Problem<S, A>, h: S -> nat,
      visited: set<S>, choices: seq<nat>)
    requires Covered(c, p, h, [], visited)
    requires Walk(p, p.start, choices).Some?
    ensures Walk(p, p.start, choices).value.state in visited
    decreases |choices|
  {
    if |choices| > 0 {
      WalkParent(p, p.start, choices);
      ExhaustedMeansExpanded(c, p, h, visited, choices[..|choices| - 1]);
    }
    assert OnBoundary(p, visited, choices) ==> false;
  }

  /** The index, before removing index k, of what sits at index j afterwards. */
  function Before(k: nat, j: nat): nat
  {
    if j < k then j else j + 1
  }

  lemma RemoveIndex<T>(f: seq<T>, k: nat, j: nat)
    requires k < |f| && j < |f| - 1
    ensures Remove(f, k)[j] == f[Before(k, j)]
  {
  }

  lemma {:induction false} WitnessedAfterRemove<S, A>(p: Problem<S, A>, f: seq<Node<S, A>>, wit: seq<seq<nat>>,
      k: nat, added: seq<Node<S, A>>, addedWit: seq<seq<nat>>)
    requires Witnessed(p, f, wit) && k < |f| && Witnessed(p, added, addedWit)
    ensures Witnessed(p, Remove(f, k) + added, Remove(wit, k) + addedWit)
  {
    var f' := Remove(f, k) + added;
    var wit' := Remove(wit, k) + addedWit;
    forall j | 0 <= j < |f'|
      ensures Walk(p, p.start, wit'[j]) == Some(NodeTrail(f'[j]))
    {
      if j < |f| - 1 {
        RemoveIndex(f, k, j);
        RemoveIndex(wit, k, j);
      }
    }
  }

  lemma {:induction false} EstimatedAfterRemove<S, A>(h: S -> nat, f: seq<Node<S, A>>, k: nat, added: seq<Node<S, A>>)
    requires Estimated(h, f) && k < |f| && Estimated(h, added)
    ensures Estimated(h, Remove(f, k) + added)
  {
    var f' := Remove(f, k) + added;
    forall j | 0 <= j < |f'|
      ensures f'[j].h == (if |f'[j].actions| == 0 then 0 else h(f'[j].state))
    {
      if j < |f| - 1 {
        RemoveIndex(f, k, j);
      }
    }
  }

  lemma {:induction false} LayeredAfterRemove<S, A>(c: Container, f: seq<Node<S, A>>, k: nat, added: seq<Node<S, A>>)
    requires Layered(c, f) && k < |f| && (c.FifoQueue? ==> k == 0)
    requires forall i :: 0 <= i < |added| ==> |added[i].actions| == |f[k].actions| + 1
    ensures Layered(c, Remove(f, k) + added)
  {
    if c.FifoQueue? {
      var f' := Remove(f, k) + added;
      assert Remove(f, k) == f[1..];
      forall i, j | 0 <= i < j < |f'|
        ensures |f'[i].actions| <= |f'[j].actions|
      {
        if j >= |f| - 1 && i < |f| - 1 {
          assert |f[i + 1].actions| <= |f[|f| - 1].actions|;
        }
      }
      if |f'| > 0 && |f| > 1 {
        assert f'[0] == f[1];
        if |added| == 0 {
          assert f'[|f'| - 1] == f[|f| - 1];
        }
      }
    }
  }

  lemma {:induction false} CoveredAfterDiscard<S(!new), A>(c: Container, p: Problem<S, A>, h: S -> nat,
      f: seq<Node<S, A>>, visited: set<S>, k: nat)
    requires Covered(c, p, h, f, visited) && k < |f| && f[k].state in visited
    ensures Covered(c, p, h, Remove(f, k), visited)
  {
    var f' := Remove(f, k);
    forall choices | OnBoundary(p, visited, choices)
      ensures HasCover(c, p, h, f', choices)
    {
      var t := Walk(p, p.start, choices).value;
      assert HasCover(c, p, h, f, choices);
      var m :| 0 <= m < |f| && Covers(c, p, h, f[m], t);
      var j := if m < k then m else m - 1;
      RemoveIndex(f, k, j);
      assert Covers(c, p, h, f'[j], t);
    }
  }

  /** Discarding an already expanded node keeps the invariant. */
  lemma {:induction false} DiscardPreserves<S(!new), A>(c: Container, p: Problem<S, A>, h: S -> nat,
      f: seq<Node<S, A>>, wit: seq<seq<nat>>, visited: set<S>)
    requires Inv(c, p, h, f, wit, visited) && |f| > 0
    requires f[Select(c, f)].state in visited
    ensures Inv(c, p, h, Remove(f, Select(c, f)), Remove(wit, Select(c, f)), visited)
  {
    var k := Select(c, f);
    assert Remove(f, k) + [] == Remove(f, k);
    assert Remove(wit, k) + [] == Remove(wit, k);
    WitnessedAfterRemove(p, f, wit, k, [], []);
    EstimatedAfterRemove(h, f, k, []);
    LayeredAfterRemove(c, f, k, []);
    CoveredAfterDiscard(c, p, h, f, visited, k);
  }

  /** The successor nodes of a node are witnessed by its path extended by each choice. */
  lemma {:induction false} ExpandWitnessed<S, A>(p: Problem<S, A>, h: S -> nat, n: Node<S, A>, w: seq<nat>)
    requires Walk(p, p.start, w) == Some(NodeTrail(n))
    ensures Witnessed(p, Expand(p, h, n), Extensions(w, |p.succ(n.state)|))
    ensures Estimated(h, Expand(p, h, n))
  {
  }

  lemma {:induction false} CoveredAfterExpand<S(!new), A>(c: Container, p: Problem<S, A>, h: S -> nat,
      f: seq<Node<S, A>>, wit: seq<seq<nat>>, visited: set<S>)
    requires Inv(c, p, h, f, wit, visited) && |f| > 0
    requires f[Select(c, f)].state !in visited
    ensures var n := f[Select(c, f)];
            Covered(c, p, h, Remove(f, Select(c, f)) + Expand(p, h, n), visited + {n.state})
  {
    var k := Select(c, f);
    var n := f[k];
    var steps := p.succ(n.state);
    var f' := Remove(f, k) + Expand(p, h, n);
    forall choices | OnBoundary(p, visited + {n.state}, choices)
      ensures HasCover(c, p, h, f', choices)
    {
      if |choices| > 0 {
        WalkParent(p, p.start, choices);
      }
      if |choices| > 0 && Walk(p, p.start, choices[..|choices| - 1]).value.state == n.state {
        NewBoundaryCovered(c, p, h, f, wit, visited, choices);
      } else {
        OldBoundaryCovered(c, p, h, f, visited, k, Expand(p, h, n), choices);
      }
    }
  }

  /** A boundary path through the node just expanded is covered by one of the nodes put for its successors. */
  lemma {:induction false} NewBoundaryCovered<S(!new), A>(c: Container, p: Problem<S, A>, h: S -> nat,
      f: seq<Node<S, A>>, wit: seq<seq<nat>>, visited: set<S>, choices: seq<nat>)
    requires Inv(c, p, h, f, wit, visited) && |f| > 0
    requires f[Select(c, f)].state !in visited
    requires |choices| > 0 && Walk(p, p.start, choices).Some?
    requires Walk(p, p.start, choices[..|choices| - 1]).Some?
    requires Walk(p, p.start, choices[..|choices| - 1]).value.state == f[Select(c, f)].state
    ensures var n := f[Select(c, f)];
            HasCover(c, p, h, Remove(f, Select(c, f)) + Expand(p, h, n), choices)
  {
    var k := Select(c, f);
    var n := f[k];
    var steps := p.succ(n.state);
    var rest := Remove(f, k);
    var f' := rest + Expand(p, h, n);
    var parent := choices[..|choices| - 1];
    var u := Walk(p, p.start, parent).value;
    var t := Walk(p, p.start, choices).value;
    var i := choices[|choices| - 1];
    assert i < |steps|;
    var j := |rest| + i;
    assert f'[j] == Node(steps[i].next, n.g + steps[i].cost, h(steps[i].next), n.actions + [steps[i].action]);
    assert t == Trail(steps[i].next, u.actions + [steps[i].action], u.cost + steps[i].cost);
    if Ranked(c, p, h) {
      MinFront(c, p, h, f, wit, visited, parent);
      if c == PriorityQueue(PathCostPlusHeuristic) && |n.actions| == 0 {
        assert |wit[k]| == 0;
      }
    }
    assert Covers(c, p, h, f'[j], t);
  }

  /** A boundary path that does not pass through the node just expanded keeps its cover. */
  lemma {:induction false} OldBoundaryCovered<S(!new), A>(c: Container, p: Problem<S, A>, h: S -> nat,
      f: seq<Node<S, A>>, visited: set<S>, k: nat, added: seq<Node<S, A>>, choices: seq<nat>)
    requires Covered(c, p, h, f, visited) && k < |f|
    requires OnBoundary(p, visited + {f[k].state}, choices)
    requires |choices| > 0 ==> Walk(p, p.start, choices[..|choices| - 1]).Some? &&
                               Walk(p, p.start, choices[..|choices| - 1]).value.state != f[k].state
    ensures HasCover(c, p, h, Remove(f, k) + added, choices)
  {
    var f' := Remove(f, k) + added;
    var t := Walk(p, p.start, choices).value;
    assert OnBoundary(p, visited, choices);
    assert HasCover(c, p, h, f, choices);
    var m :| 0 <= m < |f| && Covers(c, p, h, f[m], t);
    var j := if m < k then m else m - 1;
    RemoveIndex(f, k, j);
    assert f'[j] == f[m];
    assert Covers(c, p, h, f'[j], t);
  }

  /** Expanding the removed node's successors keeps the invariant, now with its state expanded. */
  lemma {:induction false} ExpandPreserves<S(!new), A>(c: Container, p: Problem<S, A>, h: S -> nat,
      f: seq<Node<S, A>>, wit: seq<seq<nat>>, visited: set<S>)
    requires Inv(c, p, h, f, wit, visited) && |f| > 0
    requires f[Select(c, f)].state !in visited && !p.isGoal(f[Select(c, f)].state)
    ensures var k := Select(c, f);
            var n := f[k];
            Inv(c, p, h,
                Remove(f, k) + Expand(p, h, n),
                Remove(wit, k) + Extensions(wit[k], |p.succ(n.state)|),
                visited + {n.state})
  {
    var k := Select(c, f);
    var n := f[k];
    var steps := p.succ(n.state);
    ExpandWitnessed(p, h, n, wit[k]);
    WitnessedAfterRemove(p, f, wit, k, Expand(p, h, n), Extensions(wit[k], |steps|));
    EstimatedAfterRemove(h, f, k, Expand(p, h, n));
    LayeredAfterRemove(c, f, k, Expand(p, h, n));
    CoveredAfterExpand(c, p, h, f, wit, visited);
  }

  // ---------------------------------------------------------------------------
  // The loop.

  /** search_template: runs the loop with container `c` and heuristic `h`.
      `count` is the number of states expanded, `expanded` lists them in the
      order they were expanded, and `trace` is the path of the returned node.
      The ghost `universe` holds every state reachable from the start; it bounds
      the number of expansions and so makes the loop terminate. */
  method SearchTemplate<S(==, !new), A>(p: Problem<S, A>, c: Container, h: S -> nat, ghost universe: set<S>)
    returns (r: Option<seq<A>>, count: nat, ghost expanded: seq<S>, ghost trace: seq<nat>)
    requires Finite(p, universe)
    ensures 1 <= count == |expanded| <= |universe|
    ensures forall i, j :: 0 <= i < j < |expanded| ==> expanded[i] != expanded[j]
    ensures forall i :: 0 <= i < |expanded| ==> expanded[i] in universe && Reachable(p, expanded[i])
    ensures expanded[0] == p.start
    ensures forall i :: 0 <= i < |expanded| - 1 ==> !p.isGoal(expanded[i])
    ensures r.Some? ==> && IsGoalWalk(p, trace)
                        && Walk(p, p.start, trace).value.actions == r.value
                        && Walk(p, p.start, trace).value.state == expanded[|expanded| - 1]
    ensures r.None? ==> Unsolvable(p)
    ensures p.isGoal(p.start) ==> r == Some([]) && count == 1
    ensures r.Some? && Ranked(c, p, h) ==>
      forall other :: IsGoalWalk(p, other) ==>
        Measure(c, Walk(p, p.start, trace).value) <= Measure(c, Walk(p, p.start, other).value)
  {
    var frontier := Put([], InitialNode(p));
    ghost var wit: seq<seq<nat>> := [[]];
    var visited: set<S> := {};
    count := 0;
    expanded := [];
    RunningInit(c, p, h, universe);
    while |frontier| > 0
      invariant Running(c, p, h, universe, frontier, wit, visited, expanded, count)
      decreases |universe - visited|, |frontier|
    {
      ghost var k := Select(c, frontier);
      ghost var w := wit[k];
      var (n, rest) := Get(c, frontier);
      if n.state in visited {
        DiscardStep(c, p, h, universe, frontier, wit, visited, expanded, count);
        frontier := rest;
        wit := Remove(wit, k);
      } else if p.isGoal(n.state) {
        GoalOutcome(c, p, h, universe, frontier, wit, visited, expanded, count);
        r, count, expanded, trace := Some(n.actions), count + 1, expanded + [n.state], w;
        return;
      } else {
        ExpandStep(c, p, h, universe, frontier, wit, visited, expanded, count);
        var steps := p.succ(n.state);
        frontier := PutAll(rest, Expand(p, h, n));
        wit := Remove(wit, k) + Extensions(w, |steps|);
        visited := visited + {n.state};
        count := count + 1;
        expanded := expanded + [n.state];
      }
    }
    ExhaustedOutcome(c, p, h, universe, frontier, wit, visited, expanded, count);
    r, trace := None, [];
  }

  /** The loop invariant of search_template together with its bookkeeping:
      `count` states have been expanded, listed in `expanded`, all of them in
      the universe; before the first expansion the frontier holds just the
      initial node; and a goal start is caught by the first expansion. */
  ghost predicate Running<S(!new), A>(c: Container, p: Problem<S, A>, h: S -> nat, universe: set<S>,
      f: seq<Node<S, A>>, wit: seq<seq<nat>>, visited: set<S>, expanded: seq<S>, count: nat)
  {
    && Finite(p, universe)
    && Inv(c, p, h, f, wit, visited)
    && visited <= universe
    && count == |visited|
    && Log(p, expanded, visited)
    && (count == 0 ==> visited == {} && f == [InitialNode(p)])
    && (p.isGoal(p.start) ==> count == 0)
  }

  lemma RunningInit<S(!new), A>(c: Container, p: Problem<S, A>, h: S -> nat, universe: set<S>)
    requires Finite(p, universe)
    ensures Running(c, p, h, universe, [InitialNode(p)], [[]], {}, [], 0)
  {
    InitialInv(c, p, h);
  }

  /** Dropping a removed node whose state was already expanded. */
  lemma DiscardStep<S(!new), A>(c: Container, p: Problem<S, A>, h: S -> nat, universe: set<S>,
      f: seq<Node<S, A>>, wit: seq<seq<nat>>, visited: set<S>, expanded: seq<S>, count: nat)
    requires Running(c, p, h, universe, f, wit, visited, expanded, count) && |f| > 0
    requires f[Select(c, f)].state in visited
    ensures var k := Select(c, f);
            Running(c, p, h, universe, Remove(f, k), Remove(wit, k), visited, expanded, count)
  {
    DiscardPreserves(c, p, h, f, wit, visited);
  }

  /** Expanding a removed node whose state is new and not a goal: one more
      state expanded, so fewer of the universe remain. */
  lemma ExpandStep<S(!new), A>(c: Container, p: Problem<S, A>, h: S -> nat, universe: set<S>,
      f: seq<Node<S, A>>, wit: seq<seq<nat>>, visited: set<S>, expanded: seq<S>, count: nat)
    requires Running(c, p, h, universe, f, wit, visited, expanded, count) && |f| > 0
    requires f[Select(c, f)].state !in visited && !p.isGoal(f[Select(c, f)].state)
    ensures var k := Select(c, f);
            var n := f[k];
            && Running(c, p, h, universe,
                       Remove(f, k) + Expand(p, h, n),
                       Remove(wit, k) + Extensions(wit[k], |p.succ(n.state)|),
                       visited + {n.state}, expanded + [n.state], count + 1)
            && |universe - (visited + {n.state})| < |universe - visited|
  {
    var k := Select(c, f);
    var n := f[k];
    assert Walk(p, p.start, wit[k]) == Some(NodeTrail(n));
    LogAppend(p, expanded, visited, wit[k], n.state);
    FewerUnexpanded(universe, visited, n.state);
    ExpandPreserves(c, p, h, f, wit, visited);
  }

  /** What search_template promises of a finished run (its postcondition,
      bundled for the two exits of the loop): `count` distinct
      reachable states were expanded, the start first and only the last
      possibly a goal; a returned sequence is the actions of `trace`, a path
      to that last state, which is a goal; no result means no goal is
      reachable; and under a ranked container the result is optimal. */
  ghost predicate Outcome<S(!new), A>(c: Container, p: Problem<S, A>, h: S -> nat, universe: set<S>,
      r: Option<seq<A>>, count: nat, expanded: seq<S>, trace: seq<nat>)
  {
    && 1 <= count == |expanded| <= |universe|
    && (forall i, j :: 0 <= i < j < |expanded| ==> expanded[i] != expanded[j])
    && (forall i :: 0 <= i < |expanded| ==> expanded[i] in universe && Reachable(p, expanded[i]))
    && expanded[0] == p.start
    && (forall i :: 0 <= i < |expanded| - 1 ==> !p.isGoal(expanded[i]))
    && (r.Some? ==> && IsGoalWalk(p, trace)
                    && Walk(p, p.start, trace).value.actions == r.value
                    && Walk(p, p.start, trace).value.state == expanded[|expanded| - 1])
    && (r.None? ==> Unsolvable(p))
    && (p.isGoal(p.start) ==> r == Some([]) && count == 1)
    && (r.Some? && Ranked(c, p, h) ==>
         forall other :: IsGoalWalk(p, other) ==>
           Measure(c, Walk(p, p.start, trace).value) <= Measure(c, Walk(p, p.start, other).value))
  }

  /** The run's outcome when the removed node's state is an unexpanded goal. */
  lemma GoalOutcome<S(!new), A>(c: Container, p: Problem<S, A>, h: S -> nat, universe: set<S>,
      f: seq<Node<S, A>>, wit: seq<seq<nat>>, visited: set<S>, expanded: seq<S>, count: nat)
    requires Running(c, p, h, universe, f, wit, visited, expanded, count) && |f| > 0
    requires f[Select(c, f)].state !in visited && p.isGoal(f[Select(c, f)].state)
    ensures var k := Select(c, f);
            Outcome(c, p, h, universe, Some(f[k].actions), count + 1, expanded + [f[k].state], wit[k])
  {
    var k := Select(c, f);
    var n := f[k];
    assert Walk(p, p.start, wit[k]) == Some(NodeTrail(n));
    FirstGoalIsBest(c, p, h, f, wit, visited);
    LogAppend(p, expanded, visited, wit[k], n.state);
    SubsetSize(visited + {n.state}, universe);
    LogFacts(p, expanded + [n.state], visited + {n.state});
  }

  /** The run's outcome when the frontier has run dry. */
  lemma ExhaustedOutcome<S(!new), A>(c: Container, p: Problem<S, A>, h: S -> nat, universe: set<S>,
      f: seq<Node<S, A>>, wit: seq<seq<nat>>, visited: set<S>, expanded: seq<S>, count: nat)
    requires Running(c, p, h, universe, f, wit, visited, expanded, count) && |f| == 0
    ensures Outcome(c, p, h, universe, None, count, expanded, [])
  {
    assert f == [];
    ExhaustedUnsolvable(c, p, h, visited);
    SubsetSize(visited, universe);
    LogFacts(p, expanded, visited);
  }

  /** With nothing left in the frontier and no goal expanded, no goal is reachable. */
  lemma ExhaustedUnsolvable<S(!new), A>(c: Container, p: Problem<S, A>, h: S -> nat, visited: set<S>)
    requires Covered(c, p, h, [], visited) && NoGoalVisited(p, visited)
    ensures Unsolvable(p)
  {
    forall choices | Walk(p, p.start, choices).Some?
      ensures !IsGoalWalk(p, choices)
    {
      ExhaustedMeansExpanded(c, p, h, visited, choices);
    }
  }

  /** `order` lists the states of `visited` without repetition, in the order they
      were expanded: the start first, each of them reachable. */
  ghost predicate Log<S, A>(p: Problem<S, A>, order: seq<S>, visited: set<S>)
  {
    && |order| == |visited|
    && (forall i :: 0 <= i < |order| ==> order[i] in visited)
    && (forall i, j :: 0 <= i < j < |order| ==> order[i] != order[j])
    && (forall s :: s in visited ==> Reachable(p, s))
    && (|order| > 0 ==> order[0] == p.start)
  }

  lemma LogAppend<S, A>(p: Problem<S, A>, order: seq<S>, visited: set<S>, w: seq<nat>, s: S)
    requires Log(p, order, visited) && s !in visited
    requires Walk(p, p.start, w).Some? && Walk(p, p.start, w).value.state == s
    requires |order| == 0 ==> s == p.start
    ensures Log(p, order + [s], visited + {s})
  {
  }

  lemma LogFacts<S, A>(p: Problem<S, A>, order: seq<S>, visited: set<S>)
    requires Log(p, order, visited)
    ensures |order| == |visited|
    ensures forall i :: 0 <= i < |order| ==> order[i] in visited && Reachable(p, order[i])
    ensures forall i, j :: 0 <= i < j < |order| ==> order[i] != order[j]
    ensures |order| > 0 ==> order[0] == p.start
  {
  }

  lemma FewerUnexpanded<T>(universe: set<T>, visited: set<T>, s: T)
    requires s in universe && s !in visited
    ensures |universe - (visited + {s})| < |universe - visited|
  {
    assert universe - visited == (universe - (visited + {s})) + {s};
  }

  lemma SubsetSize<T>(a: set<T>, b: set<T>)
    requires a <= b
    ensures |a| <= |b|
  {
    assert b == a + (b - a);
  }

  // ---------------------------------------------------------------------------
  // The four entry points.

  /** depth_first_search: the loop with a LIFO container and the default heuristic. */
  method DepthFirstSearch<S(==, !new), A>(p: Problem<S, A>, ghost universe: set<S>)
    returns (r: Option<seq<A>>, count: nat, ghost expanded: seq<S>)
    requires Finite(p, universe)
    ensures 1 <= count == |expanded| <= |universe|
    ensures forall i, j :: 0 <= i < j < |expanded| ==> expanded[i] != expanded[j]
    ensures forall i :: 0 <= i < |expanded| ==> Reachable(p, expanded[i])
    ensures r.Some? ==> Solves(p, r.value)
    ensures r.None? ==> Unsolvable(p)
    ensures p.isGoal(p.start) ==> r == Some([]) && count == 1
  {
    ghost var trace;
    r, count, expanded, trace := SearchTemplate(p, LifoQueue, Zero, universe);
  }

  /** breadth_first_search: the loop with a FIFO container; a solution has the fewest steps. */
  method BreadthFirstSearch<S(==, !new), A>(p: Problem<S, A>, ghost universe: set<S>)
    returns (r: Option<seq<A>>, count: nat, ghost expanded: seq<S>)
    requires Finite(p, universe)
    ensures 1 <= count == |expanded| <= |universe|
    ensures forall i, j :: 0 <= i < j < |expanded| ==> expanded[i] != expanded[j]
    ensures forall i :: 0 <= i < |expanded| ==> Reachable(p, expanded[i])
    ensures r.Some? ==> ShortestSolution(p, r.value)
    ensures r.None? ==> Unsolvable(p)
    ensures p.isGoal(p.start) ==> r == Some([]) && count == 1
  {
    ghost var trace;
    r, count, expanded, trace := SearchTemplate(p, FifoQueue, Zero, universe);
  }

  /** uniform_cost_search: the loop with a priority queue keyed by path cost; a solution is a cheapest one. */
  method UniformCostSearch<S(==, !new), A>(p: Problem<S, A>, ghost universe: set<S>)
    returns (r: Option<seq<A>>, count: nat, ghost expanded: seq<S>)
    requires Finite(p, universe)
    ensures 1 <= count == |expanded| <= |universe|
    ensures forall i, j :: 0 <= i < j < |expanded| ==> expanded[i] != expanded[j]
    ensures forall i :: 0 <= i < |expanded| ==> Reachable(p, expanded[i])
    ensures r.Some? ==> CheapestSolution(p, r.value)
    ensures r.None? ==> Unsolvable(p)
    ensures p.isGoal(p.start) ==> r == Some([]) && count == 1
  {
    ghost var trace;
    r, count, expanded, trace := SearchTemplate(p, PriorityQueue(PathCost), Zero, universe);
  }

  /** a_star_search: the loop with a priority queue keyed by path cost plus
      heuristic; with a consistent heuristic a solution is a cheapest one. */
  method AStarSearch<S(==, !new), A>(p: Problem<S, A>, h: S -> nat, ghost universe: set<S>)
    returns (r: Option<seq<A>>, count: nat, ghost expanded: seq<S>)
    requires Finite(p, universe)
    ensures 1 <= count == |expanded| <= |universe|
    ensures forall i, j :: 0 <= i < j < |expanded| ==> expanded[i] != expanded[j]
    ensures forall i :: 0 <= i < |expanded| ==> Reachable(p, expanded[i])
    ensures r.Some? ==> Solves(p, r.value)
    ensures r.Some? && Consistent(p, h) ==> CheapestSolution(p, r.value)
    ensures r.None? ==> Unsolvable(p)
    ensures p.isGoal(p.start) ==> r == Some([]) && count == 1
  {
    ghost var trace;
    r, count, expanded, trace := SearchTemplate(p, PriorityQueue(PathCostPlusHeuristic), h, universe);
  }
}
