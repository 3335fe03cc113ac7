/** The contract every search domain satisfies (get_start_state, is_final_state,
    get_successors), and the replay of a path through a domain: which states a
    sequence of successor choices reaches, with what actions and at what cost. */
module SearchSpace {

  /** A search result: the actions of a solution, or no solution at all. */
  datatype Option<T> = None | Some(value: T)

  /** One (successor, action, stepCost) triple produced by get_successors. */
  datatype Step<S, A> = Step(next: S, action: A, cost: nat)

  /** A search space: its start state, its goal test and its successor function.
      Step costs are non-negative, as uniform-cost search and A* assume. */
  datatype Problem<!S, A> = Problem(start: S, isGoal: S -> bool, succ: S -> seq<Step<S, A>>)

  /** Where a replayed path arrives, the actions it took and its summed step cost. */
  datatype Trail<S, A> = Trail(state: S, actions: seq<A>, cost: nat)

  /** Replays `choices` from `origin`: at each state, choice i takes the i-th
      successor triple. None when a choice names no successor. The last choice is
      peeled first, so that extending a path by one step is one unfolding. */
  function Walk<S, A>(p: Problem<S, A>, origin: S, choices: seq<nat>): (r: Option<Trail<S, A>>)
    ensures r.Some? ==> |r.value.actions| == |choices|
    decreases |choices|
  {
    if |choices| == 0 then Some(Trail(origin, [], 0))
    else
      match Walk(p, origin, choices[..|choices| - 1])
      case None => None
      case Some(t) =>
        var i := choices[|choices| - 1];
        var steps := p.succ(t.state);
        if i < |steps| then
          Some(Trail(steps[i].next, t.actions + [steps[i].action], t.cost + steps[i].cost))
        else None
  }

  /** Extending a replayable path by the i-th successor of its end state. */
  lemma WalkExtend<S, A>(p: Problem<S, A>, origin: S, choices: seq<nat>, i: nat)
    requires Walk(p, origin, choices).Some?
    requires i < |p.succ(Walk(p, origin, choices).value.state)|
    ensures var t := Walk(p, origin, choices).value;
            var st := p.succ(t.state)[i];
            Walk(p, origin, choices + [i]) == Some(Trail(st.next, t.actions + [st.action], t.cost + st.cost))
  {
    assert (choices + [i])[..|choices|] == choices;
  }

  /** Every prefix of a replayable path is replayable. */
  lemma WalkParent<S, A>(p: Problem<S, A>, origin: S, choices: seq<nat>)
    requires |choices| > 0 && Walk(p, origin, choices).Some?
    ensures Walk(p, origin, choices[..|choices| - 1]).Some?
  {
  }

  /** The states reachable from the start of `p` all lie in `universe`. */
  ghost predicate Finite<S(!new), A>(p: Problem<S, A>, universe: set<S>)
  {
    forall choices :: Walk(p, p.start, choices).Some? ==> Walk(p, p.start, choices).value.state in universe
  }

  /** Some path from the start of `p` reaches `s`. */
  ghost predicate Reachable<S, A>(p: Problem<S, A>, s: S)
  {
    exists choices :: Walk(p, p.start, choices).Some? && Walk(p, p.start, choices).value.state == s
  }

  /** `choices` replays from the start of `p` to a goal state. */
  ghost predicate IsGoalWalk<S, A>(p: Problem<S, A>, choices: seq<nat>)
  {
    Walk(p, p.start, choices).Some? && p.isGoal(Walk(p, p.start, choices).value.state)
  }

  /** `actions` labels some path from the start to a goal. */
  ghost predicate Solves<S, A>(p: Problem<S, A>, actions: seq<A>)
  {
    exists choices :: IsGoalWalk(p, choices) && Walk(p, p.start, choices).value.actions == actions
  }

  /** `actions` labels a path to a goal, and no path to a goal has fewer steps. */
  ghost predicate ShortestSolution<S, A>(p: Problem<S, A>, actions: seq<A>)
  {
    && Solves(p, actions)
    && forall choices :: IsGoalWalk(p, choices) ==> |actions| <= |choices|
  }

  /** `actions` labels a path to a goal whose cost no path to a goal undercuts. */
  ghost predicate CheapestSolution<S, A>(p: Problem<S, A>, actions: seq<A>)
  {
    exists choices ::
      && IsGoalWalk(p, choices)
      && Walk(p, p.start, choices).value.actions == actions
      && forall other :: IsGoalWalk(p, other) ==>
           Walk(p, p.start, choices).value.cost <= Walk(p, p.start, other).value.cost
  }

  /** No path from the start reaches a goal. */
  ghost predicate Unsolvable<S, A>(p: Problem<S, A>)
  {
    forall choices :: !IsGoalWalk(p, choices)
  }

  /** A consistent heuristic: across every step it drops by at most the step's
      cost, and it is zero on goal states. */
  ghost predicate Consistent<S(!new), A>(p: Problem<S, A>, h: S -> nat)
  {
    && (forall s, i :: 0 <= i < |p.succ(s)| ==> h(s) <= p.succ(s)[i].cost + h(p.succ(s)[i].next))
    && (forall s :: p.isGoal(s) ==> h(s) == 0)
  }

  /** Along any path, a consistent heuristic at the origin is at most the path's
      cost plus the heuristic at its end. */
  lemma {:induction false} ConsistentAlongWalk<S(!new), A>(p: Problem<S, A>, h: S -> nat, origin: S, choices: seq<nat>)
    requires Consistent(p, h)
    requires Walk(p, origin, choices).Some?
    ensures h(origin) <= Walk(p, origin, choices).value.cost + h(Walk(p, origin, choices).value.state)
    decreases |choices|
  {
    if |choices| > 0 {
      var parent := choices[..|choices| - 1];
      ConsistentAlongWalk(p, h, origin, parent);
      var t := Walk(p, origin, parent).value;
      var i := choices[|choices| - 1];
      assert i < |p.succ(t.state)|;
      assert h(t.state) <= p.succ(t.state)[i].cost + h(p.succ(t.state)[i].next);
    }
  }

  /** A consistent heuristic never overestimates: it is at most the cost of any
      path from the state to a goal. */
  lemma ConsistentIsAdmissible<S(!new), A>(p: Problem<S, A>, h: S -> nat, origin: S, choices: seq<nat>)
    requires Consistent(p, h)
    requires Walk(p, origin, choices).Some? && p.isGoal(Walk(p, origin, choices).value.state)
    ensures h(origin) <= Walk(p, origin, choices).value.cost
  {
    ConsistentAlongWalk(p, h, origin, choices);
  }
}
