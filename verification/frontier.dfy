/** The containers that turn the one search loop into four algorithms: a LIFO
    stack (depth-first), a FIFO queue (breadth-first) and a priority queue keyed
    by path cost (uniform cost) or by path cost plus heuristic (A*).

    A frontier is the sequence of pending nodes in insertion order; `put`
    appends, and `get` removes the node that the container's policy selects. The
    random perturbation the priority queue adds to its keys is replaced by a
    deterministic tie-break: among nodes of minimal key, the earliest inserted. */
module Frontier {

  /** A search node (q, g, h, solution): the state, its accumulated path cost,
      the heuristic estimate computed when the node was made, and the actions
      taken from the start. */
  datatype Node<S, A> = Node(state: S, g: nat, h: nat, actions: seq<A>)

  /** The priority functions used with the priority queue: the node's path cost
      g for uniform cost search, g + h for A*. */
  datatype PriorityKey = PathCost | PathCostPlusHeuristic

  /** The container handed to the search loop. */
  datatype Container = LifoQueue | FifoQueue | PriorityQueue(key: PriorityKey)

  /** The priority of a node under `key`. */
  function Key<S, A>(key: PriorityKey, n: Node<S, A>): nat
  {
    match key
    case PathCost => n.g
    case PathCostPlusHeuristic => n.g + n.h
  }

  /** The earliest index holding a node of minimal key. */
  function EarliestMin<S, A>(key: PriorityKey, f: seq<Node<S, A>>): (k: nat)
    requires |f| > 0
    ensures k < |f|
    ensures forall j :: 0 <= j < |f| ==> Key(key, f[k]) <= Key(key, f[j])
    ensures forall j :: 0 <= j < k ==> Key(key, f[k]) < Key(key, f[j])
    decreases |f|
  {
    if |f| == 1 then 0
    else
      var k := EarliestMin(key, f[..|f| - 1]);
      if Key(key, f[|f| - 1]) < Key(key, f[k]) then |f| - 1 else k
  }

  /** The index of the node the container removes next: the newest for LIFO,
      the oldest for FIFO, and for a priority queue the oldest of minimal key. */
  function Select<S, A>(c: Container, f: seq<Node<S, A>>): (k: nat)
    requires |f| > 0
    ensures k < |f|
    ensures c.LifoQueue? ==> k == |f| - 1
    ensures c.FifoQueue? ==> k == 0
    ensures c.PriorityQueue? ==> forall j :: 0 <= j < |f| ==> Key(c.key, f[k]) <= Key(c.key, f[j])
    ensures c.PriorityQueue? ==> forall j :: 0 <= j < k ==> Key(c.key, f[k]) < Key(c.key, f[j])
  {
    match c
    case LifoQueue => |f| - 1
    case FifoQueue => 0
    case PriorityQueue(key) => EarliestMin(key, f)
  }

  /** The frontier with the node at index k taken out, the rest in order. */
  function Remove<T>(f: seq<T>, k: nat): (r: seq<T>)
    requires k < |f|
    ensures |r| == |f| - 1
  {
    f[..k] + f[k + 1..]
  }

  /** Removing index k takes out exactly that element and keeps every other. */
  lemma RemoveTakesOne<T>(f: seq<T>, k: nat)
    requires k < |f|
    ensures multiset(Remove(f, k)) + multiset{f[k]} == multiset(f)
  {
    assert f == f[..k] + [f[k]] + f[k + 1..];
  }

  /** `put`: a new node joins the frontier behind every node already in it. */
  function Put<S, A>(f: seq<Node<S, A>>, n: Node<S, A>): (r: seq<Node<S, A>>)
    ensures multiset(r) == multiset(f) + multiset{n}
  {
    f + [n]
  }

  /** Putting the nodes of `ns` one by one: they join the frontier behind every
      node already in it, in their own order. */
  function PutAll<S, A>(f: seq<Node<S, A>>, ns: seq<Node<S, A>>): (r: seq<Node<S, A>>)
    ensures r == f + ns
    decreases |ns|
  {
    if ns == [] then f
    else
      assert f + ns == Put(f, ns[0]) + ns[1..];
      PutAll(Put(f, ns[0]), ns[1..])
  }

  /** `get`: the node the container removes, and the frontier left behind. */
  function Get<S, A>(c: Container, f: seq<Node<S, A>>): (r: (Node<S, A>, seq<Node<S, A>>))
    requires |f| > 0
    ensures r.0 in f
    ensures multiset(r.1) + multiset{r.0} == multiset(f)
    ensures c.PriorityQueue? ==> forall j :: 0 <= j < |f| ==> Key(c.key, r.0) <= Key(c.key, f[j])
  {
    var k := Select(c, f);
    RemoveTakesOne(f, k);
    (f[k], Remove(f, k))
  }

  /** A LIFO queue hands back the node put last, leaving the rest as it was. */
  lemma LifoGetsLastPut<S, A>(f: seq<Node<S, A>>, n: Node<S, A>)
    ensures Get(LifoQueue, Put(f, n)) == (n, f)
  {
    assert Put(f, n)[..|f|] == f;
    assert Remove(Put(f, n), |f|) == f;
  }

  /** A FIFO queue hands back its oldest node; a node put afterwards waits behind the others. */
  lemma FifoGetsFirstPut<S, A>(f: seq<Node<S, A>>, n: Node<S, A>)
    requires |f| > 0
    ensures Get(FifoQueue, Put(f, n)) == (f[0], Put(f[1..], n))
  {
    assert Put(f, n)[1..] == Put(f[1..], n);
    assert Remove(Put(f, n), 0) == Put(f, n)[1..];
  }

  /** With the default heuristic every node's estimate is 0, so the A* key and
      the uniform cost key coincide and both containers remove the same node. */
  lemma ZeroHeuristicAStarIsUniformCost<S, A>(f: seq<Node<S, A>>)
    requires |f| > 0
    requires forall j :: 0 <= j < |f| ==> f[j].h == 0
    ensures Get(PriorityQueue(PathCostPlusHeuristic), f) == Get(PriorityQueue(PathCost), f)
  {
    ZeroHeuristicSameMin(f);
  }

  lemma {:induction false} ZeroHeuristicSameMin<S, A>(f: seq<Node<S, A>>)
    requires |f| > 0
    requires forall j :: 0 <= j < |f| ==> f[j].h == 0
    ensures EarliestMin(PathCostPlusHeuristic, f) == EarliestMin(PathCost, f)
    decreases |f|
  {
    if |f| > 1 {
      ZeroHeuristicSameMin(f[..|f| - 1]);
    }
  }
}
