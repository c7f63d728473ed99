/** The web client's flow layout: a column for every directed distance, a row for every node of it. */
module FlowLayout {
  import opened GraphScope
  import Ordering
  import Text

  datatype Direction = Both | Inbound | Outbound

  datatype Point = Point(x: int, y: int)

  predicate Labelled(depths: map<Id, nat>, id: Id) {
    id in depths && depths[id] != 0
  }

  function Column(seed: Id, id: Id, inDepth: map<Id, nat>, outDepth: map<Id, nat>, direction: Direction): int {
    var i, o := Labelled(inDepth, id), Labelled(outDepth, id);
    var left: int := if i then -(inDepth[id] as int) else 0;
    var right: int := if o then outDepth[id] else 0;
    if id == seed then 0
    else if direction.Inbound? then if i then left else 1
    else if direction.Outbound? then if o then right else -1
    else if i && !o then left
    else if o && !i then right
    else if i && o then if right <= -left then right else left
    else 1
  }

  // ----- rows

  function LastIndex(ids: seq<Id>, id: Id): (k: nat)
    requires id in ids
    ensures k < |ids| && ids[k] == id && forall j :: k < j < |ids| ==> ids[j] != id
  {
    if ids[|ids| - 1] == id then |ids| - 1 else LastIndex(ids[..|ids| - 1], id)
  }

  /** The coordinates of a node of the column: rows 110 apart, centred on zero. */
  function Place(column: int, ids: seq<Id>, id: Id): Point
    requires id in ids
  {
    Point(column * 220, 55 * (2 * LastIndex(ids, id) - (|ids| - 1)))
  }

  lemma PlacesDiffer(c: int, d: int, ids: seq<Id>, jds: seq<Id>, i: Id, j: Id)
    requires i in ids && j in jds && i != j && (c == d ==> ids == jds)
    ensures Place(c, ids, i) != Place(d, jds, j)
  {
  }

  /** The nodes of one column, in input order, repeated as often as in the input. */
  function Members(nodes: seq<Id>, column: Id -> int, c: int): (ids: seq<Id>)
    ensures forall id :: id in ids <==> id in nodes && column(id) == c
  {
    if nodes == [] then []
    else
      var k := |nodes| - 1;
      assert nodes == nodes[..k] + [nodes[k]];
      Members(nodes[..k], column, c) + if column(nodes[k]) == c then [nodes[k]] else []
  }

  function Rows(nodes: seq<Id>, column: Id -> int, c: int): (ids: seq<Id>)
    ensures forall id :: id in ids <==> id in nodes && column(id) == c
    ensures |ids| == |Members(nodes, column, c)|
  {
    Ordering.SameMembers(Ordering.Sort(Members(nodes, column, c), Text.StringLess), Members(nodes, column, c));
    Ordering.Sort(Members(nodes, column, c), Text.StringLess)
  }

  ghost predicate Placed(nodes: seq<Id>, column: Id -> int, positions: map<Id, Point>, id: Id) {
    id in nodes && id in positions && positions[id] == Place(column(id), Rows(nodes, column, column(id)), id)
  }

  function Get(columns: map<int, seq<Id>>, c: int): seq<Id> {
    if c in columns then columns[c] else []
  }

  /** Every column once, in the order in which they were first met. */
  ghost predicate Keys(order: seq<int>, columns: map<int, seq<Id>>) {
    && (forall k :: 0 <= k < |order| ==> order[k] in columns)
    && (forall c :: c in columns ==> c in order)
    && (forall i, j :: 0 <= i < j < |order| ==> order[i] != order[j])
  }

  lemma KeysStep(order: seq<int>, columns: map<int, seq<Id>>, c: int, ids: seq<Id>)
    requires Keys(order, columns)
    ensures Keys(if c in columns then order else order + [c], columns[c := ids])
  {
  }

  ghost predicate Filled(columns: map<int, seq<Id>>, nodes: seq<Id>, column: Id -> int) {
    && (forall c :: Get(columns, c) == Members(nodes, column, c))
    && (forall k :: 0 <= k < |nodes| ==> column(nodes[k]) in columns)
  }

  lemma FilledStep(columns: map<int, seq<Id>>, nodes: seq<Id>, column: Id -> int, id: Id)
    requires Filled(columns, nodes, column)
    ensures var c := column(id); Filled(columns[c := Get(columns, c) + [id]], nodes + [id], column)
  {
    var c := column(id);
    var columns' := columns[c := Get(columns, c) + [id]];
    assert (nodes + [id])[..|nodes|] == nodes;
    forall d ensures Get(columns', d) == Members(nodes + [id], column, d) {
      assert Get(columns, d) == Members(nodes, column, d);
    }
  }

  method FillColumns(nodes: seq<Id>, column: Id -> int) returns (columns: map<int, seq<Id>>, order: seq<int>)
    ensures Filled(columns, nodes, column) && Keys(order, columns)
  {
    columns, order := map[], [];
    for i := 0 to |nodes|
      invariant Filled(columns, nodes[..i], column) && Keys(order, columns)
    {
      var c := column(nodes[i]);
      assert nodes[..i + 1] == nodes[..i] + [nodes[i]];
      FilledStep(columns, nodes[..i], column, nodes[i]);
      KeysStep(order, columns, c, Get(columns, c) + [nodes[i]]);
      order := if c in columns then order else order + [c];
      columns := columns[c := Get(columns, c) + [nodes[i]]];
    }
    assert nodes[..|nodes|] == nodes;
  }

  /** Columns filled node by node, then every column sorted and spread over its rows. */
  method Spread(nodes: seq<Id>, column: Id -> int) returns (positions: map<Id, Point>)
    ensures forall id :: id in positions <==> id in nodes
    ensures forall id :: id in nodes ==> Placed(nodes, column, positions, id)
  {
    var columns, order := FillColumns(nodes, column);
    positions := map[];
    for k := 0 to |order|
      invariant forall id :: id in positions <==> id in nodes && column(id) in order[..k]
      invariant forall id :: id in positions ==> Placed(nodes, column, positions, id)
    {
      assert order[..k + 1] == order[..k] + [order[k]];
      assert columns[order[k]] == Get(columns, order[k]);
      positions := SpreadColumn(nodes, column, order[k], columns[order[k]], positions);
    }
    assert order[..|order|] == order;
    forall id | id in nodes ensures column(id) in order {
      var k :| 0 <= k < |nodes| && nodes[k] == id;
      assert column(nodes[k]) in columns;
    }
  }

  lemma LastIndexAppend(ids: seq<Id>, last: Id)
    ensures LastIndex(ids + [last], last) == |ids|
    ensures forall id :: id in ids && id != last ==> LastIndex(ids + [last], id) == LastIndex(ids, id)
  {
    assert (ids + [last])[..|ids|] == ids;
  }

  /** The first n rows of the column are placed, on top of what was placed before. */
  ghost predicate RowsDone(positions: map<Id, Point>, before: map<Id, Point>, ids: seq<Id>, c: int, n: nat)
    requires n <= |ids|
  {
    && (forall id :: id in positions <==> id in before || id in ids[..n])
    && (forall id :: id in before && id in positions ==> positions[id] == before[id])
    && (forall id :: id in ids[..n] && id in positions ==>
          positions[id] == Point(c * 220, 55 * (2 * LastIndex(ids[..n], id) - (|ids| - 1))))
  }

  lemma RowStep(positions: map<Id, Point>, before: map<Id, Point>, ids: seq<Id>, c: int, n: nat)
    requires n < |ids| && ids[n] !in before && RowsDone(positions, before, ids, c, n)
    ensures RowsDone(positions[ids[n] := Point(c * 220, 55 * (2 * n - (|ids| - 1)))], before, ids, c, n + 1)
  {
    assert ids[..n + 1] == ids[..n] + [ids[n]];
    LastIndexAppend(ids[..n], ids[n]);
  }

  method SpreadColumn(nodes: seq<Id>, column: Id -> int, c: int, members: seq<Id>, before: map<Id, Point>)
    returns (positions: map<Id, Point>)
    requires members == Members(nodes, column, c)
    requires forall id :: id in before ==> column(id) != c && Placed(nodes, column, before, id)
    ensures forall id :: id in positions <==> id in before || (id in nodes && column(id) == c)
    ensures forall id :: id in positions ==> Placed(nodes, column, positions, id)
  {
    positions := before;
    var ids := Ordering.Sort(members, Text.StringLess);
    assert ids == Rows(nodes, column, c);
    for index := 0 to |ids|
      invariant RowsDone(positions, before, ids, c, index)
    {
      assert ids[index] in ids;
      RowStep(positions, before, ids, c, index);
      positions := positions[ids[index] := Point(c * 220, 55 * (2 * index - (|ids| - 1)))];
    }
    assert ids[..|ids|] == ids;
    forall id | id in positions ensures Placed(nodes, column, positions, id) {
      assert id in before ==> Placed(nodes, column, before, id);
    }
  }

  // ----- the layout

  /** The seed stands in the middle. Sources stand to the left and destinations to the right, a column for every hop; where
      both ways lead to a node the shorter counts, and the right-hand one if they are equal. What the direction does not
      reach stands on the far side of the first column. */
  predicate InItsColumn(seed: Id, id: Id, inDepth: map<Id, nat>, outDepth: map<Id, nat>, direction: Direction, x: int) {
    if id == seed then x == 0
    else match direction
      case Inbound => x == if id in inDepth then -220 * (inDepth[id] as int) else 220
      case Outbound => x == if id in outDepth then 220 * outDepth[id] else -220
      case Both =>
        && (id in inDepth && id !in outDepth ==> x == -220 * (inDepth[id] as int))
        && (id in outDepth && id !in inDepth ==> x == 220 * outDepth[id])
        && (id in inDepth && id in outDepth ==> x == if outDepth[id] <= inDepth[id] then 220 * outDepth[id] else -220 * (inDepth[id] as int))
        && (id !in inDepth && id !in outDepth ==> x == 220)
  }

  ghost function ColumnOf(positions: map<Id, Point>, x: int): set<Id> {
    set id | id in positions && positions[id].x == x
  }

  ghost function Above(positions: map<Id, Point>, id: Id): set<Id>
    requires id in positions
  {
    set j | j in ColumnOf(positions, positions[id].x) && Text.StringLess(j, id)
  }

  /** The nodes of a column stand in dictionary order, 110 apart, half of them above the middle. */
  ghost predicate InItsRow(positions: map<Id, Point>, id: Id)
    requires id in positions
  {
    positions[id].y == 110 * |Above(positions, id)| - 55 * (|ColumnOf(positions, positions[id].x)| - 1)
  }

  function Occurrences(nodes: seq<Id>, id: Id): nat {
    multiset(nodes)[id]
  }

  method FlowNodePositions(seed: Id, nodes: seq<Id>, edges: seq<Edge>, direction: Direction)
    returns (positions: map<Id, Point>, ghost inDepth: map<Id, nat>, ghost outDepth: map<Id, nat>)
    ensures Distances(AdjacencyOf(Flip(edges)), seed, inDepth) && Distances(AdjacencyOf(edges), seed, outDepth)
    ensures forall id :: id in positions <==> id in nodes
    // different nodes never share coordinates
    ensures forall i, j :: i in positions && j in positions && i != j ==> positions[i] != positions[j]
    ensures forall id :: id in positions ==> InItsColumn(seed, id, inDepth, outDepth, direction, positions[id].x)
    ensures Ordering.Distinct(nodes) ==> forall id :: id in positions ==> InItsRow(positions, id)
    // the seed is at the origin exactly when it is listed once
    ensures seed in positions ==> (positions[seed] == Point(0, 0) <==> Occurrences(nodes, seed) == 1)
  {
    var inbounds, outbounds := DirectedDepths(seed, edges);
    inDepth, outDepth := inbounds, outbounds;
    var column := (id: Id) => Column(seed, id, inbounds, outbounds, direction);
    positions := Spread(nodes, column);
    SpreadSeparates(nodes, column, positions);
    SeedInTheMiddle(seed, nodes, inDepth, outDepth, direction, column, positions);
    if Ordering.Distinct(nodes) {
      RowsAreInOrder(nodes, column, positions);
    }
    forall id | id in positions ensures InItsColumn(seed, id, inDepth, outDepth, direction, positions[id].x) {
      ColumnIsDistance(seed, id, inDepth, outDepth, direction);
      assert positions[id].x == 220 * column(id);
    }
  }

  lemma SeedInTheMiddle(seed: Id, nodes: seq<Id>, inDepth: map<Id, nat>, outDepth: map<Id, nat>, direction: Direction,
                        column: Id -> int, positions: map<Id, Point>)
    requires OnlySeedAtZero(seed, inDepth) && OnlySeedAtZero(seed, outDepth)
    requires forall id :: column(id) == Column(seed, id, inDepth, outDepth, direction)
    requires seed in positions ==> Placed(nodes, column, positions, seed)
    ensures seed in positions ==> (positions[seed] == Point(0, 0) <==> Occurrences(nodes, seed) == 1)
  {
    if seed in positions {
      forall id ensures column(id) == 0 <==> id == seed {
        ColumnIsDistance(seed, id, inDepth, outDepth, direction);
      }
      SeedColumn(nodes, column, seed);
    }
  }

  lemma ColumnIsDistance(seed: Id, id: Id, inDepth: map<Id, nat>, outDepth: map<Id, nat>, direction: Direction)
    requires OnlySeedAtZero(seed, inDepth) && OnlySeedAtZero(seed, outDepth)
    ensures InItsColumn(seed, id, inDepth, outDepth, direction, 220 * Column(seed, id, inDepth, outDepth, direction))
  {
  }

  ghost predicate OnlySeedAtZero(seed: Id, depths: map<Id, nat>) {
    seed in depths && depths[seed] == 0 && forall v :: v in depths && depths[v] == 0 ==> v == seed
  }

  /** Distances against and along the edges. */
  method DirectedDepths(seed: Id, edges: seq<Edge>) returns (inDepth: map<Id, nat>, outDepth: map<Id, nat>)
    ensures Distances(AdjacencyOf(Flip(edges)), seed, inDepth) && Distances(AdjacencyOf(edges), seed, outDepth)
    ensures OnlySeedAtZero(seed, inDepth) && OnlySeedAtZero(seed, outDepth)
  {
    var inbound, outbound := Adjacencies(edges);
    inDepth := DistancesFrom(seed, inbound);
    outDepth := DistancesFrom(seed, outbound);
    SameAdjacency(inbound, AdjacencyOf(Flip(edges)), seed, inDepth);
    SameAdjacency(outbound, AdjacencyOf(edges), seed, outDepth);
    ZeroIsSeed(AdjacencyOf(Flip(edges)), seed, inDepth);
    ZeroIsSeed(AdjacencyOf(edges), seed, outDepth);
  }

  method Adjacencies(edges: seq<Edge>) returns (inbound: Adjacency, outbound: Adjacency)
    ensures forall u, v :: v in Next(outbound, u) <==> Edge(u, v) in edges
    ensures forall u, v :: v in Next(inbound, u) <==> Edge(v, u) in edges
  {
    inbound, outbound := map[], map[];
    for i := 0 to |edges|
      invariant forall u, v :: v in Next(outbound, u) <==> Edge(u, v) in edges[..i]
      invariant forall u, v :: v in Next(inbound, u) <==> Edge(v, u) in edges[..i]
    {
      assert edges[..i + 1] == edges[..i] + [edges[i]];
      inbound := Append(inbound, edges[i].target, edges[i].source);
      outbound := Append(outbound, edges[i].source, edges[i].target);
    }
    assert edges[..|edges|] == edges;
  }

  lemma SpreadSeparates(nodes: seq<Id>, column: Id -> int, positions: map<Id, Point>)
    requires forall id :: id in positions ==> Placed(nodes, column, positions, id)
    ensures forall i, j :: i in positions && j in positions && i != j ==> positions[i] != positions[j]
    ensures forall id :: id in positions ==> positions[id].x == 220 * column(id)
  {
    forall i, j | i in positions && j in positions && i != j ensures positions[i] != positions[j] {
      assert Placed(nodes, column, positions, i) && Placed(nodes, column, positions, j);
      PlacesDiffer(column(i), column(j), Rows(nodes, column, column(i)), Rows(nodes, column, column(j)), i, j);
    }
    forall id | id in positions ensures positions[id].x == 220 * column(id) {
      assert Placed(nodes, column, positions, id);
    }
  }

  lemma {:induction false} MembersAreDistinct(nodes: seq<Id>, column: Id -> int, c: int)
    requires Ordering.Distinct(nodes)
    ensures Ordering.Distinct(Members(nodes, column, c))
  {
    if nodes != [] {
      var k := |nodes| - 1;
      MembersAreDistinct(nodes[..k], column, c);
      assert forall id :: id in Members(nodes[..k], column, c) ==> id in nodes[..k];
    }
  }

  lemma RowsAreDistinct(nodes: seq<Id>, column: Id -> int, c: int)
    requires Ordering.Distinct(nodes)
    ensures Ordering.Distinct(Rows(nodes, column, c))
    ensures forall i, j :: 0 <= i < j < |Rows(nodes, column, c)| ==> Text.StringLess(Rows(nodes, column, c)[i], Rows(nodes, column, c)[j])
  {
    var members, ids := Members(nodes, column, c), Rows(nodes, column, c);
    MembersAreDistinct(nodes, column, c);
    Ordering.SortedDistinct(members, Text.StringLess);
    Text.StringLessIsOrder();
    Ordering.SortSorts(members, Text.StringLess);
    forall i, j | 0 <= i < j < |ids| ensures Text.StringLess(ids[i], ids[j]) {
      assert Ordering.AtMost(Text.StringLess, ids[i], ids[j]);
    }
  }

  ghost function Smaller(ids: seq<Id>, id: Id): set<Id> {
    set j | j in ids && Text.StringLess(j, id)
  }

  /** In an ascending list the index of an element is the number of smaller ones. */
  lemma IndexIsRank(ids: seq<Id>, k: nat)
    requires k < |ids| && Ordering.Distinct(ids) && forall i, j :: 0 <= i < j < |ids| ==> Text.StringLess(ids[i], ids[j])
    ensures |Smaller(ids, ids[k])| == k
  {
    var before := ids[..k];
    Text.StringLessIsOrder();
    Ordering.DistinctSize(before);
    forall id ensures id in Smaller(ids, ids[k]) <==> id in before {
      if id in Smaller(ids, ids[k]) {
        var i :| 0 <= i < |ids| && ids[i] == id;
        assert i < k && before[i] == id;
      }
      if id in before {
        var i :| 0 <= i < k && before[i] == id;
        assert ids[i] == id;
      }
    }
    assert Smaller(ids, ids[k]) == Ordering.SetOf(before);
  }

  lemma ColumnIsRows(nodes: seq<Id>, column: Id -> int, positions: map<Id, Point>, id: Id)
    requires (forall j :: j in positions <==> j in nodes) && id in positions
    requires forall j :: j in positions ==> positions[j].x == 220 * column(j)
    ensures ColumnOf(positions, positions[id].x) == Ordering.SetOf(Rows(nodes, column, column(id)))
  {
    var ids := Rows(nodes, column, column(id));
    forall j ensures j in ColumnOf(positions, positions[id].x) <==> j in ids {
    }
  }

  lemma RowsAreInOrder(nodes: seq<Id>, column: Id -> int, positions: map<Id, Point>)
    requires Ordering.Distinct(nodes) && (forall id :: id in positions <==> id in nodes)
    requires forall id :: id in positions ==> Placed(nodes, column, positions, id)
    requires forall id :: id in positions ==> positions[id].x == 220 * column(id)
    ensures forall id :: id in positions ==> InItsRow(positions, id)
  {
    forall id | id in positions ensures InItsRow(positions, id) {
      RowIsRank(nodes, column, positions, id);
    }
  }

  lemma RowIsRank(nodes: seq<Id>, column: Id -> int, positions: map<Id, Point>, id: Id)
    requires Ordering.Distinct(nodes) && (forall j :: j in positions <==> j in nodes) && id in positions
    requires Placed(nodes, column, positions, id)
    requires forall j :: j in positions ==> positions[j].x == 220 * column(j)
    ensures InItsRow(positions, id)
  {
    var ids := Rows(nodes, column, column(id));
    RowsAreDistinct(nodes, column, column(id));
    ColumnIsRows(nodes, column, positions, id);
    Ordering.DistinctSize(ids);
    IndexIsRank(ids, LastIndex(ids, id));
    assert Above(positions, id) == Smaller(ids, id);
  }

  lemma ZeroIsSeed(next: Adjacency, seed: Id, depths: map<Id, nat>)
    requires Distances(next, seed, depths)
    ensures OnlySeedAtZero(seed, depths)
  {
    ReachesSelf(next, seed);
    forall v | v in depths && depths[v] == 0 ensures v == seed {
      assert IsDistance(next, seed, v, depths[v]);
    }
    assert IsDistance(next, seed, seed, depths[seed]);
  }

  lemma {:induction false} AllSeed(nodes: seq<Id>, column: Id -> int, seed: Id)
    requires forall id :: column(id) == 0 <==> id == seed
    ensures |Members(nodes, column, 0)| == Occurrences(nodes, seed)
  {
    if nodes != [] {
      var k := |nodes| - 1;
      assert nodes == nodes[..k] + [nodes[k]];
      AllSeed(nodes[..k], column, seed);
    }
  }

  lemma SeedColumn(nodes: seq<Id>, column: Id -> int, seed: Id)
    requires seed in nodes && forall id :: column(id) == 0 <==> id == seed
    ensures Place(0, Rows(nodes, column, 0), seed).y == 55 * (Occurrences(nodes, seed) - 1)
  {
    AllSeed(nodes, column, seed);
    var ids := Rows(nodes, column, 0);
    assert ids[|ids| - 1] in ids;
  }
}
