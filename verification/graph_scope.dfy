/** Breadth-first distances as the web client computes them, against walks in the graph. */
module GraphScope {
  import opened Ordering

  type Id = string
  datatype Edge = Edge(source: Id, target: Id)
  type Adjacency = map<Id, seq<Id>>

  function Next(next: Adjacency, u: Id): seq<Id> {
    if u in next then next[u] else []
  }

  // ----- walks and distances, independent of any search

  ghost predicate IsWalk(next: Adjacency, walk: seq<Id>) {
    walk != [] && forall i :: 0 <= i < |walk| - 1 ==> walk[i + 1] in Next(next, walk[i])
  }

  /** A walk of the given number of steps from u to v. */
  ghost predicate Reaches(next: Adjacency, u: Id, v: Id, steps: nat) {
    exists walk :: IsWalk(next, walk) && |walk| == steps + 1 && walk[0] == u && walk[steps] == v
  }

  ghost predicate IsDistance(next: Adjacency, u: Id, v: Id, d: nat) {
    Reaches(next, u, v, d) && forall k: nat :: Reaches(next, u, v, k) ==> d <= k
  }

  /** Exactly the reachable nodes, each with its distance. */
  ghost predicate Distances(next: Adjacency, seed: Id, depths: map<Id, nat>) {
    && (forall v :: v in depths <==> exists k: nat :: Reaches(next, seed, v, k))
    && (forall v :: v in depths ==> IsDistance(next, seed, v, depths[v]))
  }

  lemma ReachesSelf(next: Adjacency, u: Id)
    ensures Reaches(next, u, u, 0)
  {
    assert IsWalk(next, [u]);
  }

  lemma ReachesStep(next: Adjacency, u: Id, v: Id, w: Id, steps: nat)
    requires Reaches(next, u, v, steps) && w in Next(next, v)
    ensures Reaches(next, u, w, steps + 1)
  {
    var walk :| IsWalk(next, walk) && |walk| == steps + 1 && walk[0] == u && walk[steps] == v;
    assert IsWalk(next, walk + [w]);
  }

  /** Labels that start at zero and grow by at most one along every edge bound all walks. */
  ghost predicate Relaxed(next: Adjacency, seed: Id, depths: map<Id, nat>) {
    && seed in depths && depths[seed] == 0
    && forall u, v :: u in depths && v in Next(next, u) ==> v in depths && depths[v] <= depths[u] + 1
  }

  lemma {:induction false} RelaxedBoundsWalks(next: Adjacency, seed: Id, depths: map<Id, nat>, walk: seq<Id>)
    requires Relaxed(next, seed, depths) && IsWalk(next, walk) && walk[0] == seed
    ensures var last := walk[|walk| - 1]; last in depths && depths[last] <= |walk| - 1
  {
    if |walk| > 1 {
      var k := |walk| - 1;
      assert IsWalk(next, walk[..k]);
      RelaxedBoundsWalks(next, seed, depths, walk[..k]);
      assert walk[k] in Next(next, walk[k - 1]);
    }
  }

  lemma RelaxedIsDistances(next: Adjacency, seed: Id, depths: map<Id, nat>)
    requires Relaxed(next, seed, depths)
    requires forall v :: v in depths ==> Reaches(next, seed, v, depths[v])
    ensures Distances(next, seed, depths)
  {
    forall v, k: nat | Reaches(next, seed, v, k) ensures v in depths && depths[v] <= k {
      var walk :| IsWalk(next, walk) && |walk| == k + 1 && walk[0] == seed && walk[k] == v;
      RelaxedBoundsWalks(next, seed, depths, walk);
    }
  }

  /** Two labellings with all distances are the same. */
  lemma DistancesUnique(next: Adjacency, seed: Id, a: map<Id, nat>, b: map<Id, nat>)
    requires Distances(next, seed, a) && Distances(next, seed, b)
    ensures a == b
  {
    forall v ensures v in a <==> v in b {
      assert v in a <==> exists k: nat :: Reaches(next, seed, v, k);
    }
    forall v | v in a ensures a[v] == b[v] {
      assert IsDistance(next, seed, v, a[v]) && IsDistance(next, seed, v, b[v]);
    }
  }

  // ----- the search

  ghost predicate Ascending(depths: map<Id, nat>, queue: seq<Id>)
    requires forall v :: v in queue ==> v in depths
  {
    forall i, j :: 0 <= i <= j < |queue| ==> depths[queue[i]] <= depths[queue[j]]
  }

  /** The invariant of the queue: it holds the labelled nodes, by ascending label. */
  ghost predicate QueueValid(next: Adjacency, seed: Id, depths: map<Id, nat>, queue: seq<Id>, bound: nat) {
    && queue != [] && queue[0] == seed && seed in depths && depths[seed] == 0
    && (forall v :: v in queue <==> v in depths)
    && Distinct(queue) && Ascending(depths, queue)
    && (forall v :: v in depths ==> Labelled(next, seed, v, depths[v], bound))
  }

  ghost predicate Labelled(next: Adjacency, seed: Id, v: Id, d: nat, bound: nat) {
    d <= bound && Reaches(next, seed, v, d) && v in AllIds(next, seed)
  }

  lemma StillAscending(depths: map<Id, nat>, queue: seq<Id>, v: Id, d: nat)
    requires v !in depths && forall w :: w in queue ==> w in depths && depths[w] <= d
    requires Ascending(depths, queue)
    ensures Ascending(depths[v := d], queue + [v])
  {
    var queue' := queue + [v];
    forall i, j | 0 <= i <= j < |queue'| ensures depths[v := d][queue'[i]] <= depths[v := d][queue'[j]] {
      assert i < |queue| ==> queue'[i] == queue[i] && queue[i] in depths;
      assert j < |queue| ==> queue'[j] == queue[j] && queue[j] in depths;
    }
  }

  lemma DistinctAppend(queue: seq<Id>, v: Id)
    requires Distinct(queue) && v !in queue
    ensures Distinct(queue + [v])
  {
  }

  lemma Discover(next: Adjacency, seed: Id, depths: map<Id, nat>, queue: seq<Id>, u: Id, v: Id)
    requires u in depths && QueueValid(next, seed, depths, queue, depths[u] + 1)
    requires v in Next(next, u) && v !in depths
    ensures QueueValid(next, seed, depths[v := depths[u] + 1], queue + [v], depths[u] + 1)
  {
    assert Labelled(next, seed, u, depths[u], depths[u] + 1);
    ReachesStep(next, seed, u, v, depths[u]);
    var depths', queue' := depths[v := depths[u] + 1], queue + [v];
    DistinctAppend(queue, v);
    assert forall w :: w in queue' <==> w in depths';
    StillAscending(depths, queue, v, depths[u] + 1);
  }

  ghost predicate Explored(next: Adjacency, depths: map<Id, nat>, u: Id)
    requires u in depths
  {
    forall v :: v in Next(next, u) ==> v in depths && depths[v] <= depths[u] + 1
  }

  ghost function AllIds(next: Adjacency, seed: Id): set<Id> {
    {seed} + set u, v | u in next && v in next[u] :: v
  }

  lemma {:induction false} DistinctFits(queue: seq<Id>, s: set<Id>)
    requires forall i, j :: 0 <= i < j < |queue| ==> queue[i] != queue[j]
    requires forall v :: v in queue ==> v in s
    ensures |queue| <= |s|
  {
    if queue != [] {
      var k := |queue| - 1;
      DistinctFits(queue[..k], s - {queue[k]});
    }
  }

  /** Label the unlabelled neighbours of one node and queue them. */
  method Visit(seed: Id, next: Adjacency, current: Id, depths0: map<Id, nat>, queue0: seq<Id>)
    returns (depths: map<Id, nat>, queue: seq<Id>)
    requires current in depths0 && QueueValid(next, seed, depths0, queue0, depths0[current] + 1)
    ensures current in depths && QueueValid(next, seed, depths, queue, depths[current] + 1)
    ensures queue0 <= queue
    ensures forall v :: v in depths0 ==> v in depths && depths[v] == depths0[v]
    ensures Explored(next, depths, current)
  {
    depths, queue := depths0, queue0;
    var neighbours := Next(next, current);
    for k := 0 to |neighbours|
      invariant forall v :: v in depths0 ==> v in depths && depths[v] == depths0[v]
      invariant QueueValid(next, seed, depths, queue, depths0[current] + 1)
      invariant queue0 <= queue
      invariant forall j :: 0 <= j < k ==> neighbours[j] in depths && depths[neighbours[j]] <= depths0[current] + 1
    {
      var neighbour := neighbours[k];
      if neighbour in depths {
        continue;
      }
      Discover(next, seed, depths, queue, current, neighbour);
      depths := depths[neighbour := depths[current] + 1];
      queue := queue + [neighbour];
    }
  }

  lemma QueueFits(next: Adjacency, seed: Id, depths: map<Id, nat>, queue: seq<Id>, bound: nat)
    requires QueueValid(next, seed, depths, queue, bound)
    ensures |queue| <= |AllIds(next, seed)|
  {
    forall v | v in queue ensures v in AllIds(next, seed) {
      assert Labelled(next, seed, v, depths[v], bound);
    }
    DistinctFits(queue, AllIds(next, seed));
  }

  lemma NextAscends(depths: map<Id, nat>, queue: seq<Id>, index: nat)
    requires (forall v :: v in queue ==> v in depths) && Ascending(depths, queue) && 0 < index <= |queue|
    ensures index < |queue| ==> depths[queue[index - 1]] <= depths[queue[index]]
  {
  }

  method DistancesFrom(seed: Id, next: Adjacency) returns (depths: map<Id, nat>)
    ensures Distances(next, seed, depths)
  {
    depths := map[seed := 0];
    var queue := [seed];
    var index := 0;
    ReachesSelf(next, seed);
    ghost var reach := 1;
    while index < |queue|
      invariant 0 <= index <= |queue| && QueueValid(next, seed, depths, queue, reach)
      invariant index < |queue| && queue[index] in depths ==> reach <= depths[queue[index]] + 1
      invariant forall i :: 0 <= i < index ==> queue[i] in depths && Explored(next, depths, queue[i])
      decreases |AllIds(next, seed)| - index
    {
      var current := queue[index];
      ghost var depths0, queue0 := depths, queue;
      depths, queue := Visit(seed, next, current, depths, queue);
      StillExplored(next, depths0, depths, queue0, queue, index);
      QueueFits(next, seed, depths, queue, depths[current] + 1);
      reach := depths[current] + 1;
      index := index + 1;
      NextAscends(depths, queue, index);
    }
    QueueExhausted(next, seed, depths, queue, reach);
  }

  lemma QueueExhausted(next: Adjacency, seed: Id, depths: map<Id, nat>, queue: seq<Id>, bound: nat)
    requires QueueValid(next, seed, depths, queue, bound)
    requires forall i :: 0 <= i < |queue| ==> Explored(next, depths, queue[i])
    ensures Distances(next, seed, depths)
  {
    assert Relaxed(next, seed, depths) by {
      forall u, v | u in depths && v in Next(next, u) ensures v in depths && depths[v] <= depths[u] + 1 {
        assert u in queue;
        assert Explored(next, depths, u);
      }
    }
    assert forall v :: v in depths ==> Labelled(next, seed, v, depths[v], bound);
    RelaxedIsDistances(next, seed, depths);
  }

  lemma StillExplored(next: Adjacency, before: map<Id, nat>, after: map<Id, nat>, queue0: seq<Id>, queue: seq<Id>, index: nat)
    requires index <= |queue0| && queue0 <= queue
    requires forall v :: v in before ==> v in after && after[v] == before[v]
    requires forall i :: 0 <= i < index ==> queue0[i] in before && Explored(next, before, queue0[i])
    ensures forall i :: 0 <= i < index ==> queue[i] in after && Explored(next, after, queue[i])
  {
    forall i | 0 <= i < index ensures queue[i] in after && Explored(next, after, queue[i]) {
      assert queue[i] == queue0[i];
    }
  }

  // ----- adjacency of an edge list

  function Append(next: Adjacency, u: Id, v: Id): (r: Adjacency)
    ensures forall x, y :: y in Next(r, x) <==> y in Next(next, x) || (x == u && y == v)
  {
    next[u := Next(next, u) + [v]]
  }

  function AdjacencyOf(edges: seq<Edge>): (next: Adjacency)
    ensures forall u, v :: v in Next(next, u) <==> Edge(u, v) in edges
  {
    if edges == [] then map[]
    else
      var k := |edges| - 1;
      assert edges == edges[..k] + [edges[k]];
      Append(AdjacencyOf(edges[..k]), edges[k].source, edges[k].target)
  }

  function Flip(edges: seq<Edge>): (r: seq<Edge>)
    ensures |r| == |edges| && forall u, v :: Edge(u, v) in r <==> Edge(v, u) in edges
  {
    if edges == [] then []
    else
      var k := |edges| - 1;
      assert edges == edges[..k] + [edges[k]];
      Flip(edges[..k]) + [Edge(edges[k].target, edges[k].source)]
  }

  /** Distances only depend on which nodes are adjacent. */
  lemma SameAdjacency(a: Adjacency, b: Adjacency, seed: Id, depths: map<Id, nat>)
    requires forall u, v :: v in Next(a, u) <==> v in Next(b, u)
    requires Distances(a, seed, depths)
    ensures Distances(b, seed, depths)
  {
    forall walk ensures IsWalk(a, walk) <==> IsWalk(b, walk) {
    }
    forall u, v, k: nat ensures Reaches(a, u, v, k) <==> Reaches(b, u, v, k) {
    }
  }

  /** Every node reachable from the seed over edges in either direction, with its distance. */
  method NodeDepths(seed: Id, edges: seq<Edge>) returns (depths: map<Id, nat>)
    ensures Distances(AdjacencyOf(edges + Flip(edges)), seed, depths)
  {
    var neighbours: Adjacency := map[];
    for i := 0 to |edges|
      invariant forall u, v :: v in Next(neighbours, u) <==> Edge(u, v) in edges[..i] || Edge(v, u) in edges[..i]
    {
      assert edges[..i + 1] == edges[..i] + [edges[i]];
      neighbours := Append(neighbours, edges[i].source, edges[i].target);
      neighbours := Append(neighbours, edges[i].target, edges[i].source);
    }
    assert edges[..|edges|] == edges;
    depths := DistancesFrom(seed, neighbours);
    SameAdjacency(neighbours, AdjacencyOf(edges + Flip(edges)), seed, depths);
  }
}
