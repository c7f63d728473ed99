/** Balls of a relation: what lies within a number of steps of a seed. */
module Balls {

  /** v is within d steps of the seed. */
  ghost predicate InBall(leads: (string, string) -> bool, seed: string, d: nat, v: string) {
    if d == 0 then v == seed else InBall(leads, seed, d - 1, v) || exists u :: InBall(leads, seed, d - 1, u) && leads(u, v)
  }

  lemma InBallStep(leads: (string, string) -> bool, seed: string, d: nat, u: string, v: string)
    requires InBall(leads, seed, d, u) && leads(u, v)
    ensures InBall(leads, seed, d + 1, v)
  {
  }

  lemma {:induction false} InBallMore(leads: (string, string) -> bool, seed: string, c: nat, d: nat, v: string)
    requires c <= d && InBall(leads, seed, c, v)
    ensures InBall(leads, seed, d, v)
  {
    if c < d {
      InBallMore(leads, seed, c, d - 1, v);
    }
  }

  ghost predicate Stops(leads: (string, string) -> bool, seed: string, c: nat) {
    forall u, v :: InBall(leads, seed, c, u) && leads(u, v) ==> InBall(leads, seed, c, v)
  }

  /** A ball that no step leaves never grows again. */
  lemma {:induction false} BallStops(leads: (string, string) -> bool, seed: string, c: nat, d: nat, v: string)
    requires c <= d && InBall(leads, seed, d, v) && Stops(leads, seed, c)
    ensures InBall(leads, seed, c, v)
  {
    if c < d {
      if InBall(leads, seed, d - 1, v) {
        BallStops(leads, seed, c, d - 1, v);
      } else {
        var u :| InBall(leads, seed, d - 1, u) && leads(u, v);
        BallStops(leads, seed, c, d - 1, u);
      }
    }
  }

  // ----- a search that expands nodes, each of which leads to nodes and carries rows

  /** What is searched: where a node leads and which rows it carries. */
  datatype Space<!T> = Space(leads: (string, string) -> bool, carries: (string, T) -> bool, seed: string)

  /** What has been found: rows, marked nodes, queued nodes. */
  datatype Found<!T> = Found(rows: iset<T>, marked: set<string>, queued: set<string>)

  ghost predicate Near<T>(space: Space<T>, d: nat, nodes: set<string>) {
    forall v :: v in nodes ==> InBall(space.leads, space.seed, d, v)
  }

  /** The row is carried by a node within d steps of the seed. */
  ghost predicate CarriedWithin<T(!new)>(space: Space<T>, d: nat, r: T) {
    exists u :: InBall(space.leads, space.seed, d, u) && space.carries(u, r)
  }

  ghost predicate NextFrom<T>(space: Space<T>, nodes: set<string>, v: string) {
    exists u :: u in nodes && space.leads(u, v)
  }

  ghost predicate RowFrom<T(!new)>(space: Space<T>, nodes: set<string>, r: T) {
    exists u :: u in nodes && space.carries(u, r)
  }

  /** The nodes `done` have been expanded: exactly their rows are found, their ends marked and,
      unless in `base`, queued. */
  ghost predicate Complete<T(!new)>(space: Space<T>, done: set<string>, base: set<string>, f: Found<T>) {
    && (forall r :: r in f.rows <==> RowFrom(space, done, r))
    && (forall v :: v in f.marked <==> v in base || NextFrom(space, done, v))
    && (forall v :: v in f.queued <==> v in f.marked && v !in base)
  }

  /** One more node was expanded, and nothing it leads to was dropped. */
  ghost predicate Adds<T(!new)>(space: Space<T>, u: string, f: Found<T>, g: Found<T>) {
    && (forall r :: r in g.rows <==> r in f.rows || space.carries(u, r))
    && (forall v :: v in g.marked <==> v in f.marked || space.leads(u, v))
    && (forall v :: v in g.queued <==> v in f.queued || (v in g.marked && v !in f.marked))
  }

  lemma CompleteStep<T(!new)>(space: Space<T>, u: string, done: set<string>, base: set<string>, f: Found<T>, g: Found<T>)
    requires Complete(space, done, base, f) && Adds(space, u, f, g)
    ensures Complete(space, done + {u}, base, g)
  {
    assert forall r :: RowFrom(space, done + {u}, r) <==> RowFrom(space, done, r) || space.carries(u, r);
    assert forall v :: NextFrom(space, done + {u}, v) <==> NextFrom(space, done, v) || space.leads(u, v);
  }

  lemma MarkedNear<T(!new)>(space: Space<T>, d: nat, done: set<string>, base: set<string>, f: Found<T>)
    requires Near(space, d, base) && Near(space, d, done) && Complete(space, done, base, f)
    ensures Near(space, d + 1, f.marked)
  {
    forall v | v in f.marked ensures InBall(space.leads, space.seed, d + 1, v) {
      if v !in base {
        assert NextFrom(space, done, v);
        var u :| u in done && space.leads(u, v);
        InBallStep(space.leads, space.seed, d, u, v);
      }
    }
  }

  lemma RowsWithin<T(!new)>(space: Space<T>, d: nat, done: set<string>, base: set<string>, f: Found<T>, r: T)
    requires Near(space, d, done) && Complete(space, done, base, f) && r in f.rows
    ensures CarriedWithin(space, d, r)
  {
    assert RowFrom(space, done, r);
  }

  lemma NearMore<T>(space: Space<T>, c: nat, d: nat, nodes: set<string>)
    requires c <= d && Near(space, c, nodes)
    ensures Near(space, d, nodes)
  {
    forall v | v in nodes ensures InBall(space.leads, space.seed, d, v) {
      InBallMore(space.leads, space.seed, c, d, v);
    }
  }

  lemma CarriedMore<T(!new)>(space: Space<T>, c: nat, d: nat, r: T)
    requires c <= d && CarriedWithin(space, c, r)
    ensures CarriedWithin(space, d, r)
  {
    var u :| InBall(space.leads, space.seed, c, u) && space.carries(u, r);
    InBallMore(space.leads, space.seed, c, d, u);
  }

  /** Fewer than `maxNodes` nodes lie within the depth, fewer than `maxRows` rows are carried closer than it. */
  ghost predicate Roomy<T(!new)>(space: Space<T>, depth: nat, maxNodes: nat, maxRows: nat)
    requires depth > 0
  {
    && (forall nodes: set<string> :: Near(space, depth, nodes) ==> |nodes| < maxNodes)
    && (forall rows: set<T> :: AllWithin(space, depth - 1, rows) ==> |rows| < maxRows)
  }

  ghost predicate AllWithin<T(!new)>(space: Space<T>, d: nat, rows: set<T>) {
    forall r :: r in rows ==> CarriedWithin(space, d, r)
  }

  /** While everything expanded lies within d < depth steps, there is room. */
  lemma RoomLeft<T(!new)>(space: Space<T>, depth: nat, maxNodes: nat, maxRows: nat, d: nat,
                          done: set<string>, base: set<string>, f: Found<T>, rows: set<T>)
    requires d < depth && Roomy(space, depth, maxNodes, maxRows)
    requires Near(space, d, base) && Near(space, d, done) && Complete(space, done, base, f)
    requires forall r :: r in rows ==> r in f.rows
    ensures |f.marked| < maxNodes && |rows| < maxRows
  {
    MarkedNear(space, d, done, base, f);
    NearMore(space, d + 1, depth, f.marked);
    forall r | r in rows ensures CarriedWithin(space, depth - 1, r) {
      RowsWithin(space, d, done, base, f, r);
      CarriedMore(space, d, depth - 1, r);
    }
    assert AllWithin(space, depth - 1, rows);
  }

  /** Marking only ends of one more node stays within the cap. */
  lemma MarksFit<T(!new)>(space: Space<T>, depth: nat, maxNodes: nat, maxRows: nat, d: nat,
                          done: set<string>, base: set<string>, f: Found<T>, u: string, marked: set<string>)
    requires d < depth && Roomy(space, depth, maxNodes, maxRows)
    requires Near(space, d, base) && Near(space, d, done) && Complete(space, done, base, f)
    requires InBall(space.leads, space.seed, d, u) && forall v :: v in marked ==> v in f.marked || space.leads(u, v)
    ensures |marked| < maxNodes
  {
    MarkedNear(space, d, done, base, f);
    forall v | v in marked ensures InBall(space.leads, space.seed, d + 1, v) {
      if v !in f.marked {
        InBallStep(space.leads, space.seed, d, u, v);
      }
    }
    assert Near(space, d + 1, marked);
    NearMore(space, d + 1, depth, marked);
  }

  // ----- level by level

  /** v is within d steps, but not within d - 1. */
  ghost predicate OnRim<T>(space: Space<T>, d: nat, v: string) {
    InBall(space.leads, space.seed, d, v) && (d > 0 ==> !InBall(space.leads, space.seed, d - 1, v))
  }

  /** Before hop d: the ball is marked, its rim is queued, and the rows of its inside are found. */
  ghost predicate LevelReached<T(!new)>(space: Space<T>, d: nat, f: Found<T>) {
    && (forall v :: v in f.marked <==> InBall(space.leads, space.seed, d, v))
    && (forall v :: v in f.queued <==> OnRim(space, d, v))
    && (forall r :: r in f.rows <==> d > 0 && CarriedWithin(space, d - 1, r))
  }

  /** The marked nodes that are not queued any more have been expanded. */
  lemma LevelStarts<T(!new)>(space: Space<T>, d: nat, f: Found<T>)
    requires LevelReached(space, d, f)
    ensures Complete(space, f.marked - f.queued, f.marked, f.(queued := {}))
    ensures Near(space, d, f.marked)
  {
    var done := f.marked - f.queued;
    assert forall u :: u in done <==> d > 0 && InBall(space.leads, space.seed, d - 1, u) by {
      forall u | d > 0 && InBall(space.leads, space.seed, d - 1, u) ensures InBall(space.leads, space.seed, d, u) {
      }
    }
    forall r ensures r in f.rows <==> RowFrom(space, done, r) {
      if r in f.rows {
        var u :| InBall(space.leads, space.seed, d - 1, u) && space.carries(u, r);
        assert u in done;
      }
    }
    forall v | NextFrom(space, done, v) ensures v in f.marked {
      var u :| u in done && space.leads(u, v);
      InBallStep(space.leads, space.seed, d - 1, u, v);
    }
  }

  lemma LevelEnds<T(!new)>(space: Space<T>, d: nat, base: set<string>, g: Found<T>)
    requires forall v :: v in base <==> InBall(space.leads, space.seed, d, v)
    requires Complete(space, base, base, g)
    ensures LevelReached(space, d + 1, g)
  {
    forall v ensures v in g.marked <==> InBall(space.leads, space.seed, d + 1, v) {
    }
    forall r ensures r in g.rows <==> CarriedWithin(space, d, r) {
      if CarriedWithin(space, d, r) {
        var u :| InBall(space.leads, space.seed, d, u) && space.carries(u, r);
        assert u in base;
      }
    }
  }

  /** When the queue or the depth runs out, the rows within the depth are found. */
  lemma LevelsDone<T(!new)>(space: Space<T>, depth: nat, d: nat, f: Found<T>, r: T)
    requires 0 < depth && d <= depth && LevelReached(space, d, f)
    requires d == depth || forall v :: v !in f.queued
    ensures r in f.rows <==> CarriedWithin(space, depth - 1, r)
  {
    assert OnRim(space, 0, space.seed);
    if d < depth {
      if r in f.rows {
        CarriedMore(space, d - 1, depth - 1, r);
      }
      if CarriedWithin(space, depth - 1, r) {
        var u :| InBall(space.leads, space.seed, depth - 1, u) && space.carries(u, r);
        RimEmpty(space, d, f);
        BallStops(space.leads, space.seed, d - 1, depth - 1, u);
      }
    }
  }

  lemma RimEmpty<T(!new)>(space: Space<T>, d: nat, f: Found<T>)
    requires d > 0 && LevelReached(space, d, f) && forall v :: v !in f.queued
    ensures Stops(space.leads, space.seed, d - 1)
  {
    forall u, v | InBall(space.leads, space.seed, d - 1, u) && space.leads(u, v)
      ensures InBall(space.leads, space.seed, d - 1, v)
    {
      InBallStep(space.leads, space.seed, d - 1, u, v);
      assert !OnRim(space, d, v);
    }
  }

  // ----- balls are exactly the ends of short paths

  ghost predicate IsPath(leads: (string, string) -> bool, path: seq<string>) {
    path != [] && forall i :: 0 <= i < |path| - 1 ==> leads(path[i], path[i + 1])
  }

  /** v is in the ball of radius d if and only if some path of at most d steps leads there. */
  lemma {:induction false} BallIsPaths(leads: (string, string) -> bool, seed: string, d: nat, v: string)
    ensures InBall(leads, seed, d, v) <==>
            exists path :: IsPath(leads, path) && |path| <= d + 1 && path[0] == seed && path[|path| - 1] == v
  {
    if InBall(leads, seed, d, v) {
      if d == 0 {
        assert IsPath(leads, [seed]);
      } else if InBall(leads, seed, d - 1, v) {
        BallIsPaths(leads, seed, d - 1, v);
      } else {
        var u :| InBall(leads, seed, d - 1, u) && leads(u, v);
        BallIsPaths(leads, seed, d - 1, u);
        var path :| IsPath(leads, path) && |path| <= d && path[0] == seed && path[|path| - 1] == u;
        assert IsPath(leads, path + [v]);
      }
    }
    forall path | IsPath(leads, path) && |path| <= d + 1 && path[0] == seed && path[|path| - 1] == v
      ensures InBall(leads, seed, d, v)
    {
      PathInBall(leads, path);
      InBallMore(leads, seed, |path| - 1, d, v);
    }
  }

  lemma {:induction false} PathInBall(leads: (string, string) -> bool, path: seq<string>)
    requires IsPath(leads, path)
    ensures InBall(leads, path[0], |path| - 1, path[|path| - 1])
  {
    var k := |path| - 1;
    if k > 0 {
      assert IsPath(leads, path[..k]);
      PathInBall(leads, path[..k]);
      assert leads(path[k - 1], path[k]);
    }
  }
}
