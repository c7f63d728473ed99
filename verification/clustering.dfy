/** Collapsing leaf counterparties of the canvas into clusters. */
module LeafClustering {
  import opened Options
  import opened Ordering
  import opened Sums
  import opened Text
  import opened Transfers

  datatype Direction = Inbound | Outbound

  datatype Node = Node(id: string, isSeed: bool, title: string)

  datatype Edge = Edge(id: string, source: string, target: string, asset: Option<Asset>, amount: string, txCount: nat)

  /** Leaves hanging off one anchor, in one direction, with one asset. */
  datatype Key = Key(anchor: string, direction: Direction, asset: string)

  datatype Group = Group(members: seq<string>, edges: seq<Edge>)

  datatype Cluster = Cluster(id: string, anchor: string, direction: Direction, members: seq<string>, transferCount: int, totalAmount: int,
                             representative: Edge)

  datatype Clustered = Clustered(nodes: seq<Node>, edges: seq<Edge>, clusters: seq<Cluster>)

  function AssetKeyOf(e: Edge): string {
    match e.asset
    case None => "::"
    case Some(a) => a.kind + ":" + (if a.contract != "" then a.contract else a.symbol) + ":" + Decimal(a.decimals)
  }

  // ----- incident edges

  /** The edges at a node, a self-loop twice. */
  function Incidents(edges: seq<Edge>, n: string): seq<Edge> {
    if edges == [] then []
    else
      var k := |edges| - 1;
      var atSource := AddIf(Incidents(edges[..k], n), edges[k].source == n, edges[k]);
      AddIf(atSource, edges[k].target == n, edges[k])
  }

  function AddIf(edges: seq<Edge>, add: bool, e: Edge): seq<Edge> {
    if add then edges + [e] else edges
  }

  predicate Touches(e: Edge, n: string) {
    e.source == n || e.target == n
  }

  lemma {:induction false} IncidentsExactly(edges: seq<Edge>, n: string, e: Edge)
    ensures e in Incidents(edges, n) <==> e in edges && Touches(e, n)
  {
    if edges != [] {
      var k := |edges| - 1;
      IncidentsExactly(edges[..k], n, e);
      assert edges == edges[..k] + [edges[k]];
    }
  }

  function Related(incidents: map<string, seq<Edge>>, n: string): seq<Edge> {
    if n in incidents then incidents[n] else []
  }

  function AddIncident(incidents: map<string, seq<Edge>>, n: string, e: Edge): map<string, seq<Edge>> {
    incidents[n := Related(incidents, n) + [e]]
  }

  method CollectIncidents(edges: seq<Edge>) returns (incidents: map<string, seq<Edge>>)
    ensures forall n :: Related(incidents, n) == Incidents(edges, n)
  {
    incidents := map[];
    for i := 0 to |edges|
      invariant forall n :: Related(incidents, n) == Incidents(edges[..i], n)
    {
      var e := edges[i];
      ghost var before := incidents;
      incidents := AddIncident(AddIncident(incidents, e.source, e), e.target, e);
      forall n ensures Related(incidents, n) == Incidents(edges[..i + 1], n) {
        assert edges[..i + 1][..i] == edges[..i];
        assert Related(incidents, n) == AddIf(AddIf(Related(before, n), e.source == n, e), e.target == n, e);
      }
    }
    assert edges[..|edges|] == edges;
  }

  // ----- leaves and groups

  predicate Fits(e: Edge, n: string, k: Key) {
    AssetKeyOf(e) == k.asset
    && if k.direction.Outbound? then e.source == k.anchor && e.target == n else e.source == n && e.target == k.anchor
  }

  /** Direction, anchor and asset of the first edge. */
  function FirstKey(first: Edge, n: string): Key {
    if first.target == n then Key(first.source, Outbound, AssetKeyOf(first)) else Key(first.target, Inbound, AssetKeyOf(first))
  }

  function LeafKey(related: seq<Edge>, n: string): Option<Key> {
    if related == [] then None
    else
      var k := FirstKey(related[0], n);
      if forall e :: e in related ==> Fits(e, n, k) then Some(k) else None
  }

  function KeyOf(edges: seq<Edge>, node: Node): Option<Key> {
    if node.isSeed then None else LeafKey(Incidents(edges, node.id), node.id)
  }

  function GroupAt(groups: map<Key, Group>, k: Key): Group {
    if k in groups then groups[k] else Group([], [])
  }

  function AddMember(groups: map<Key, Group>, k: Key, n: string, related: seq<Edge>): map<Key, Group> {
    groups[k := Group(GroupAt(groups, k).members + [n], GroupAt(groups, k).edges + related)]
  }

  function GroupsOf(nodes: seq<Node>, edges: seq<Edge>): map<Key, Group> {
    if nodes == [] then map[]
    else
      var front, node := GroupsOf(nodes[..|nodes| - 1], edges), nodes[|nodes| - 1];
      var k := KeyOf(edges, node);
      if k.None? then front else AddMember(front, k.value, node.id, Incidents(edges, node.id))
  }

  method CollectGroups(nodes: seq<Node>, edges: seq<Edge>) returns (groups: map<Key, Group>)
    ensures groups == GroupsOf(nodes, edges)
  {
    var incidents := CollectIncidents(edges);
    groups := map[];
    for i := 0 to |nodes|
      invariant groups == GroupsOf(nodes[..i], edges)
    {
      assert nodes[..i + 1][..i] == nodes[..i];
      if nodes[i].isSeed {
        continue;
      }
      var related := Related(incidents, nodes[i].id);
      var k := LeafKey(related, nodes[i].id);
      if k.None? {
        continue;
      }
      groups := AddMember(groups, k.value, nodes[i].id, related);
    }
    assert nodes[..|nodes|] == nodes;
  }

  /** The members of a group are the nodes with its key, each once. */
  ghost predicate IsMember(nodes: seq<Node>, edges: seq<Edge>, k: Key, n: string) {
    exists node :: node in nodes && node.id == n && KeyOf(edges, node) == Some(k)
  }

  lemma {:induction false} MembersExactly(nodes: seq<Node>, edges: seq<Edge>, k: Key, n: string)
    ensures n in GroupAt(GroupsOf(nodes, edges), k).members <==> IsMember(nodes, edges, k, n)
  {
    if nodes != [] {
      var last := |nodes| - 1;
      MembersExactly(nodes[..last], edges, k, n);
      assert nodes == nodes[..last] + [nodes[last]];
    }
  }

  function NodeIds(nodes: seq<Node>): (ids: seq<string>)
    ensures |ids| == |nodes| && forall i :: 0 <= i < |nodes| ==> ids[i] == nodes[i].id
  {
    seq(|nodes|, i requires 0 <= i < |nodes| => nodes[i].id)
  }

  lemma {:induction false} MembersOnce(nodes: seq<Node>, edges: seq<Edge>, k: Key)
    requires Distinct(NodeIds(nodes))
    ensures Distinct(GroupAt(GroupsOf(nodes, edges), k).members)
  {
    if nodes != [] {
      var last := |nodes| - 1;
      assert NodeIds(nodes[..last]) == NodeIds(nodes)[..last];
      MembersOnce(nodes[..last], edges, k);
      MembersExactly(nodes[..last], edges, k, nodes[last].id);
      assert forall node :: node in nodes[..last] ==> node.id in NodeIds(nodes)[..last];
    }
  }

  // ----- why collapsing loses no relationship

  /** Every edge at a leaf runs between it and its anchor. */
  lemma LeafEdges(edges: seq<Edge>, n: string, k: Key, e: Edge)
    requires LeafKey(Incidents(edges, n), n) == Some(k) && e in edges && Touches(e, n)
    ensures Fits(e, n, k) && (e.source == n ==> e.target == k.anchor) && (e.target == n ==> e.source == k.anchor)
  {
    IncidentsExactly(edges, n, e);
  }

  lemma LeafHasEdge(edges: seq<Edge>, n: string, k: Key) returns (e: Edge)
    requires LeafKey(Incidents(edges, n), n) == Some(k)
    ensures e in edges && Touches(e, n) && Fits(e, n, k)
  {
    e := Incidents(edges, n)[0];
    assert e in Incidents(edges, n);
    IncidentsExactly(edges, n, e);
  }

  /** An anchor of two leaves is no leaf. */
  lemma AnchorIsNoLeaf(edges: seq<Edge>, m: string, n: string, k: Key)
    requires m != n && LeafKey(Incidents(edges, m), m) == Some(k) && LeafKey(Incidents(edges, n), n) == Some(k)
    ensures LeafKey(Incidents(edges, k.anchor), k.anchor).None?
  {
    var e := LeafHasEdge(edges, m, k);
    var f := LeafHasEdge(edges, n, k);
    var anchor := LeafKey(Incidents(edges, k.anchor), k.anchor);
    if anchor.Some? {
      LeafEdges(edges, k.anchor, anchor.value, e);
      LeafEdges(edges, k.anchor, anchor.value, f);
    }
  }

  function Quantity(e: Edge): int {
    if e.txCount == 0 then 1 else e.txCount
  }

  /** Amounts as the canvas reads them; what it cannot read is 0. */
  function Units(baseUnits: string -> int): Edge -> int {
    (e: Edge) => baseUnits(e.amount)
  }

  // ----- clusters

  ghost predicate IsCluster(c: Cluster, k: Key, g: Group, baseUnits: string -> int) {
    && c.anchor == k.anchor && c.direction == k.direction && c.members == Sort(g.members, StringLess)
    && c.transferCount == SumOver(g.edges, Quantity) && c.totalAmount == SumOver(g.edges, Units(baseUnits))
    && g.edges != [] && c.representative == g.edges[0]
  }

  predicate Collapsible(groups: map<Key, Group>, minimum: int, k: Key) {
    k in groups && |groups[k].members| >= minimum
  }

  function ClusterIds(clusters: seq<Cluster>): (ids: seq<string>)
    ensures |ids| == |clusters| && forall i :: 0 <= i < |clusters| ==> ids[i] == clusters[i].id
  {
    seq(|clusters|, i requires 0 <= i < |clusters| => clusters[i].id)
  }

  /** The clusters so far stand for the keys so far, under new IDs. */
  ghost predicate Stand(clusters: seq<Cluster>, keys: seq<Key>, groups: map<Key, Group>, nodeIds: seq<string>, baseUnits: string -> int) {
    && |clusters| == |keys|
    && (forall i :: 0 <= i < |keys| ==> keys[i] in groups && IsCluster(clusters[i], keys[i], groups[keys[i]], baseUnits))
    && Distinct(ClusterIds(clusters)) && (forall id :: id in ClusterIds(clusters) ==> id !in nodeIds)
  }

  function Assign(homes: map<string, string>, members: seq<string>, id: string): map<string, string> {
    if members == [] then homes else Assign(homes, members[..|members| - 1], id)[members[|members| - 1] := id]
  }

  /** Which cluster a collapsed node went into. */
  function HomesOf(clusters: seq<Cluster>, expanded: set<string>): map<string, string> {
    if clusters == [] then map[]
    else
      var front, c := HomesOf(clusters[..|clusters| - 1], expanded), clusters[|clusters| - 1];
      if c.id in expanded then front else Assign(front, c.members, c.id)
  }

  lemma LongerIds(existing: set<string>, id: string)
    requires id in existing
    ensures (set x | x in existing && |x| >= |"_" + id|) < (set x | x in existing && |x| >= |id|)
  {
    var longer, all := (set x | x in existing && |x| >= |"_" + id|), (set x | x in existing && |x| >= |id|);
    assert |"_" + id| == |id| + 1;
    assert id in all && id !in longer && longer <= all;
  }

  method FreshId(index: nat, existing: set<string>) returns (id: string)
    ensures id !in existing
  {
    id := "__openchain_cluster_" + Decimal(index);
    while id in existing
      decreases set x | x in existing && |x| >= |id|
    {
      ghost var before := id;
      id := "_" + id;
      LongerIds(existing, before);
    }
  }

  lemma {:induction false} GroupsHaveEdges(nodes: seq<Node>, edges: seq<Edge>, k: Key)
    requires k in GroupsOf(nodes, edges)
    ensures GroupsOf(nodes, edges)[k].edges != []
  {
    var last := |nodes| - 1;
    if k in GroupsOf(nodes[..last], edges) {
      GroupsHaveEdges(nodes[..last], edges, k);
    }
  }

  function ClusterOf(id: string, k: Key, g: Group, baseUnits: string -> int): Cluster
    requires g.edges != []
  {
    Cluster(id, k.anchor, k.direction, Sort(g.members, StringLess), SumOver(g.edges, Quantity), SumOver(g.edges, Units(baseUnits)), g.edges[0])
  }

  method AssignMembers(before: map<string, string>, members: seq<string>, id: string) returns (homes: map<string, string>)
    ensures homes == Assign(before, members, id)
  {
    homes := before;
    for i := 0 to |members|
      invariant homes == Assign(before, members[..i], id)
    {
      assert members[..i + 1][..i] == members[..i];
      homes := homes[members[i] := id];
    }
    assert members[..|members|] == members;
  }

  lemma StandStep(clusters: seq<Cluster>, keys: seq<Key>, groups: map<Key, Group>, nodeIds: seq<string>, baseUnits: string -> int,
                  k: Key, id: string)
    requires Stand(clusters, keys, groups, nodeIds, baseUnits) && k in groups && groups[k].edges != []
    requires id !in nodeIds && id !in ClusterIds(clusters)
    ensures Stand(clusters + [ClusterOf(id, k, groups[k], baseUnits)], keys + [k], groups, nodeIds, baseUnits)
    ensures ClusterIds(clusters + [ClusterOf(id, k, groups[k], baseUnits)]) == ClusterIds(clusters) + [id]
  {
    var ids := ClusterIds(clusters);
    assert ClusterIds(clusters + [ClusterOf(id, k, groups[k], baseUnits)]) == ids + [id];
    DistinctConcat(ids, [id]);
  }

  function Large(groups: map<Key, Group>, minimum: int, keys: seq<Key>): seq<Key> {
    if keys == [] then []
    else
      var k := keys[|keys| - 1];
      Large(groups, minimum, keys[..|keys| - 1]) + if Collapsible(groups, minimum, k) then [k] else []
  }

  /** What has been built when the keys so far are done. */
  ghost predicate Built(clusters: seq<Cluster>, homes: map<string, string>, existing: set<string>, keys: seq<Key>,
                        groups: map<Key, Group>, nodeIds: seq<string>, expanded: set<string>, baseUnits: string -> int)
  {
    && Stand(clusters, keys, groups, nodeIds, baseUnits) && homes == HomesOf(clusters, expanded)
    && existing == SetOf(nodeIds) + SetOf(ClusterIds(clusters))
  }

  method AddCluster(clusters0: seq<Cluster>, homes0: map<string, string>, existing0: set<string>, index: nat, k: Key, ghost keys: seq<Key>,
                    groups: map<Key, Group>, ghost nodeIds: seq<string>, expanded: set<string>, baseUnits: string -> int)
    returns (clusters: seq<Cluster>, homes: map<string, string>, existing: set<string>)
    requires Built(clusters0, homes0, existing0, keys, groups, nodeIds, expanded, baseUnits)
    requires k in groups && groups[k].edges != []
    ensures Built(clusters, homes, existing, keys + [k], groups, nodeIds, expanded, baseUnits)
  {
    var id := FreshId(index, existing0);
    var cluster := ClusterOf(id, k, groups[k], baseUnits);
    StandStep(clusters0, keys, groups, nodeIds, baseUnits, k, id);
    clusters := clusters0 + [cluster];
    assert clusters[..|clusters0|] == clusters0;
    existing := existing0 + {id};
    assert SetOf(ClusterIds(clusters0) + [id]) == SetOf(ClusterIds(clusters0)) + {id};
    homes := homes0;
    if id !in expanded {
      homes := AssignMembers(homes0, cluster.members, id);
    }
  }

  /** One cluster for every group that is large enough, in the given order of the keys. */
  method BuildClusters(nodeIds: seq<string>, groups: map<Key, Group>, order: seq<Key>, minimum: int, expanded: set<string>, baseUnits: string -> int)
    returns (clusters: seq<Cluster>, homes: map<string, string>)
    requires forall k :: k in order ==> k in groups && groups[k].edges != []
    ensures Stand(clusters, Large(groups, minimum, order), groups, nodeIds, baseUnits) && homes == HomesOf(clusters, expanded)
  {
    clusters, homes := [], map[];
    var existing := SetOf(nodeIds);
    var index := 0;
    for i := 0 to |order|
      invariant Built(clusters, homes, existing, Large(groups, minimum, order[..i]), groups, nodeIds, expanded, baseUnits)
    {
      LargeStep(groups, minimum, order, i);
      assert order[i] in order;
      if |groups[order[i]].members| < minimum {
        continue;
      }
      clusters, homes, existing := AddCluster(clusters, homes, existing, index, order[i], Large(groups, minimum, order[..i]),
                                              groups, nodeIds, expanded, baseUnits);
      index := index + 1;
    }
    assert order[..|order|] == order;
  }

  lemma LargeStep(groups: map<Key, Group>, minimum: int, order: seq<Key>, i: nat)
    requires i < |order|
    ensures Large(groups, minimum, order[..i + 1]) ==
            Large(groups, minimum, order[..i]) + if Collapsible(groups, minimum, order[i]) then [order[i]] else []
  {
    assert order[..i + 1][..i] == order[..i];
  }

  // ----- the clustered graph

  function KeptNodes(nodes: seq<Node>, homes: map<string, string>): (kept: seq<Node>)
    ensures forall node :: node in kept <==> node in nodes && node.id !in homes
  {
    if nodes == [] then []
    else
      var k := |nodes| - 1;
      assert nodes == nodes[..k] + [nodes[k]];
      KeptNodes(nodes[..k], homes) + if nodes[k].id in homes then [] else [nodes[k]]
  }

  function ClusterNodes(clusters: seq<Cluster>, expanded: set<string>): seq<Node> {
    if clusters == [] then []
    else
      var k := |clusters| - 1;
      var front := ClusterNodes(clusters[..k], expanded);
      if clusters[k].id in expanded then front else front + [ClusterNode(clusters[k])]
  }

  function ClusterNode(c: Cluster): (node: Node)
    ensures node.id == c.id && !node.isSeed
  {
    Node(c.id, false, Decimal(|c.members|) + " counterparties")
  }

  predicate HasId(nodes: seq<Node>, id: string) {
    exists node :: node in nodes && node.id == id
  }

  lemma HasIdAdd(nodes: seq<Node>, node: Node, id: string)
    ensures HasId(nodes + [node], id) <==> HasId(nodes, id) || node.id == id
  {
    assert node in nodes + [node];
  }

  lemma {:induction false} ClusterNodeIds(clusters: seq<Cluster>, expanded: set<string>, id: string)
    ensures HasId(ClusterNodes(clusters, expanded), id) <==> id in ClusterIds(clusters) && id !in expanded
  {
    if clusters != [] {
      var k := |clusters| - 1;
      ClusterNodeIds(clusters[..k], expanded, id);
      assert ClusterIds(clusters) == ClusterIds(clusters[..k]) + [clusters[k].id];
      HasIdAdd(ClusterNodes(clusters[..k], expanded), ClusterNode(clusters[k]), id);
    }
  }

  function Home(homes: map<string, string>, n: string): string {
    if n in homes then homes[n] else n
  }

  function MovedEdges(edges: seq<Edge>, homes: map<string, string>): (moved: seq<Edge>)
    ensures |moved| == |edges|
    ensures forall i :: 0 <= i < |edges| ==> moved[i] == edges[i].(source := Home(homes, edges[i].source), target := Home(homes, edges[i].target))
  {
    seq(|edges|, i requires 0 <= i < |edges| => edges[i].(source := Home(homes, edges[i].source), target := Home(homes, edges[i].target)))
  }

  /** The clusters stand for exactly the large groups, and nodes and edges are drawn accordingly. */
  ghost predicate IsClustering(nodes: seq<Node>, edges: seq<Edge>, expanded: set<string>, minimum: int, baseUnits: string -> int,
                               r: Clustered, keys: seq<Key>)
  {
    && Stand(r.clusters, keys, GroupsOf(nodes, edges), NodeIds(nodes), baseUnits)
    && Distinct(keys) && (forall k :: k in keys <==> Collapsible(GroupsOf(nodes, edges), minimum, k))
    && r.nodes == KeptNodes(nodes, HomesOf(r.clusters, expanded)) + ClusterNodes(r.clusters, expanded)
    && r.edges == MovedEdges(edges, HomesOf(r.clusters, expanded))
  }

  lemma {:induction false} LargeExactly(groups: map<Key, Group>, minimum: int, keys: seq<Key>)
    requires Distinct(keys)
    ensures Distinct(Large(groups, minimum, keys)) && forall k :: k in Large(groups, minimum, keys) <==> k in keys && Collapsible(groups, minimum, k)
  {
    if keys != [] {
      var n := |keys| - 1;
      LargeExactly(groups, minimum, keys[..n]);
      assert keys == keys[..n] + [keys[n]];
    }
  }

  method ClusterLeafCounterparties(nodes: seq<Node>, edges: seq<Edge>, expanded: set<string>, minimum: int, collate: (Key, Key) -> bool,
                                   baseUnits: string -> int) returns (r: Clustered)
    ensures exists keys :: IsClustering(nodes, edges, expanded, minimum, baseUnits, r, keys)
  {
    var groups := CollectGroups(nodes, edges);
    var order := KeysInOrder(groups, collate);
    forall k | k in order ensures groups[k].edges != [] {
      GroupsHaveEdges(nodes, edges, k);
    }
    var clusters, homes := BuildClusters(NodeIds(nodes), groups, order, minimum, expanded, baseUnits);
    LargeExactly(groups, minimum, order);
    r := Clustered(KeptNodes(nodes, homes) + ClusterNodes(clusters, expanded), MovedEdges(edges, homes), clusters);
    assert IsClustering(nodes, edges, expanded, minimum, baseUnits, r, Large(groups, minimum, order));
  }

  method KeysInOrder(groups: map<Key, Group>, collate: (Key, Key) -> bool) returns (order: seq<Key>)
    ensures Distinct(order) && forall k :: k in order <==> k in groups
  {
    var unordered := InAnyOrder(groups.Keys);
    order := Sort(unordered, collate);
    SortedDistinct(unordered, collate);
    SameMembers(order, unordered);
    assert forall k :: k in order <==> k in SetOf(unordered);
  }

  // ----- who is collapsed

  lemma {:induction false} AssignExactly(before: map<string, string>, members: seq<string>, id: string, m: string)
    ensures m in Assign(before, members, id) <==> m in before || m in members
    ensures m in Assign(before, members, id) ==> Assign(before, members, id)[m] == if m in members then id else before[m]
  {
    if members != [] {
      var k := |members| - 1;
      AssignExactly(before, members[..k], id, m);
      assert members == members[..k] + [members[k]];
    }
  }

  ghost predicate CollapsedInto(clusters: seq<Cluster>, expanded: set<string>, c: Cluster, m: string) {
    c in clusters && c.id !in expanded && m in c.members
  }

  ghost predicate IsHome(clusters: seq<Cluster>, expanded: set<string>, id: string, m: string) {
    exists c :: CollapsedInto(clusters, expanded, c, m) && c.id == id
  }

  lemma IsHomeAdd(front: seq<Cluster>, last: Cluster, expanded: set<string>, id: string, m: string)
    ensures IsHome(front + [last], expanded, id, m) <==>
            IsHome(front, expanded, id, m) || (last.id == id && last.id !in expanded && m in last.members)
  {
    var clusters := front + [last];
    assert forall c :: CollapsedInto(clusters, expanded, c, m) <==>
                       CollapsedInto(front, expanded, c, m) || (c == last && last.id !in expanded && m in last.members);
  }

  /** A node has a home exactly if it is in a collapsed cluster, and then that is one. */
  lemma {:induction false} HomesExactly(clusters: seq<Cluster>, expanded: set<string>, m: string)
    ensures m in HomesOf(clusters, expanded) ==> IsHome(clusters, expanded, HomesOf(clusters, expanded)[m], m)
    ensures forall id :: IsHome(clusters, expanded, id, m) ==> m in HomesOf(clusters, expanded)
  {
    if clusters != [] {
      var k := |clusters| - 1;
      var front, last := clusters[..k], clusters[k];
      HomesExactly(front, expanded, m);
      assert clusters == front + [last];
      forall id ensures IsHome(clusters, expanded, id, m) <==>
                        IsHome(front, expanded, id, m) || (last.id == id && last.id !in expanded && m in last.members) {
        IsHomeAdd(front, last, expanded, id, m);
      }
      if last.id !in expanded {
        AssignExactly(HomesOf(front, expanded), last.members, last.id, m);
      }
    }
  }

  lemma CollapsedPlace(nodes: seq<Node>, edges: seq<Edge>, expanded: set<string>, minimum: int, baseUnits: string -> int,
                       r: Clustered, keys: seq<Key>, m: string) returns (i: nat)
    requires IsClustering(nodes, edges, expanded, minimum, baseUnits, r, keys) && m in HomesOf(r.clusters, expanded)
    ensures i < |keys| && r.clusters[i].id !in expanded && IsMember(nodes, edges, keys[i], m)
  {
    HomesExactly(r.clusters, expanded, m);
    var c :| CollapsedInto(r.clusters, expanded, c, m) && c.id == HomesOf(r.clusters, expanded)[m];
    i :| 0 <= i < |r.clusters| && r.clusters[i] == c;
    SameMembers(c.members, GroupsOf(nodes, edges)[keys[i]].members);
    MembersExactly(nodes, edges, keys[i], m);
  }

  /** A collapsed node belongs to a large group. */
  lemma CollapsedKey(nodes: seq<Node>, edges: seq<Edge>, expanded: set<string>, minimum: int, baseUnits: string -> int,
                     r: Clustered, keys: seq<Key>, m: string) returns (k: Key)
    requires IsClustering(nodes, edges, expanded, minimum, baseUnits, r, keys) && m in HomesOf(r.clusters, expanded)
    ensures k in keys && IsMember(nodes, edges, k, m) && LeafKey(Incidents(edges, m), m) == Some(k)
  {
    var i := CollapsedPlace(nodes, edges, expanded, minimum, baseUnits, r, keys, m);
    k := keys[i];
  }

  lemma TwoMembers(nodes: seq<Node>, edges: seq<Edge>, k: Key) returns (m: string, n: string)
    requires Distinct(NodeIds(nodes)) && Collapsible(GroupsOf(nodes, edges), 2, k)
    ensures m != n && LeafKey(Incidents(edges, m), m) == Some(k) && LeafKey(Incidents(edges, n), n) == Some(k)
  {
    var members := GroupsOf(nodes, edges)[k].members;
    m, n := members[0], members[1];
    MembersOnce(nodes, edges, k);
    MembersExactly(nodes, edges, k, m);
    MembersExactly(nodes, edges, k, n);
  }

  /** The anchor of a cluster is not collapsed. */
  lemma AnchorsStay(nodes: seq<Node>, edges: seq<Edge>, expanded: set<string>, minimum: int, baseUnits: string -> int,
                    r: Clustered, keys: seq<Key>, c: Cluster)
    requires IsClustering(nodes, edges, expanded, minimum, baseUnits, r, keys) && minimum >= 2 && Distinct(NodeIds(nodes)) && c in r.clusters
    ensures c.anchor !in HomesOf(r.clusters, expanded)
  {
    var i :| 0 <= i < |r.clusters| && r.clusters[i] == c;
    assert keys[i] in keys;
    var m, n := TwoMembers(nodes, edges, keys[i]);
    AnchorIsNoLeaf(edges, m, n, keys[i]);
    if c.anchor in HomesOf(r.clusters, expanded) {
      var k := CollapsedKey(nodes, edges, expanded, minimum, baseUnits, r, keys, c.anchor);
    }
  }

  lemma SameIdSameNode(nodes: seq<Node>, a: Node, b: Node)
    requires Distinct(NodeIds(nodes)) && a in nodes && b in nodes && a.id == b.id
    ensures a == b
  {
    var i :| 0 <= i < |nodes| && nodes[i] == a;
    var j :| 0 <= j < |nodes| && nodes[j] == b;
    assert NodeIds(nodes)[i] == NodeIds(nodes)[j];
  }

  lemma SeedIsNoMember(nodes: seq<Node>, edges: seq<Edge>, k: Key, node: Node)
    requires Distinct(NodeIds(nodes)) && node in nodes && node.isSeed
    ensures !IsMember(nodes, edges, k, node.id)
  {
    forall other | other in nodes && other.id == node.id ensures other == node {
      SameIdSameNode(nodes, other, node);
    }
  }

  /** The seed is not collapsed. */
  lemma SeedsStay(nodes: seq<Node>, edges: seq<Edge>, expanded: set<string>, minimum: int, baseUnits: string -> int,
                  r: Clustered, keys: seq<Key>, node: Node)
    requires IsClustering(nodes, edges, expanded, minimum, baseUnits, r, keys) && Distinct(NodeIds(nodes)) && node in nodes && node.isSeed
    ensures node.id !in HomesOf(r.clusters, expanded) && node in r.nodes
  {
    if node.id in HomesOf(r.clusters, expanded) {
      var k := CollapsedKey(nodes, edges, expanded, minimum, baseUnits, r, keys, node.id);
      SeedIsNoMember(nodes, edges, k, node);
    }
  }

  /** No edge is collapsed at both ends: at the other end of a collapsed node is its anchor. */
  lemma NoEdgeWithin(nodes: seq<Node>, edges: seq<Edge>, expanded: set<string>, minimum: int, baseUnits: string -> int,
                     r: Clustered, keys: seq<Key>, e: Edge)
    requires IsClustering(nodes, edges, expanded, minimum, baseUnits, r, keys) && minimum >= 2 && Distinct(NodeIds(nodes)) && e in edges
    ensures !(e.source in HomesOf(r.clusters, expanded) && e.target in HomesOf(r.clusters, expanded))
  {
    if e.source in HomesOf(r.clusters, expanded) {
      var k := CollapsedKey(nodes, edges, expanded, minimum, baseUnits, r, keys, e.source);
      LeafEdges(edges, e.source, k, e);
      var i :| 0 <= i < |keys| && keys[i] == k;
      AnchorsStay(nodes, edges, expanded, minimum, baseUnits, r, keys, r.clusters[i]);
    }
  }

  function IdSet(nodes: seq<Node>): set<string> {
    set node | node in nodes :: node.id
  }

  ghost predicate Closed(nodes: seq<Node>, edges: seq<Edge>) {
    forall e :: e in edges ==> e.source in IdSet(nodes) && e.target in IdSet(nodes)
  }

  lemma HomeIsDrawn(nodes: seq<Node>, edges: seq<Edge>, expanded: set<string>, minimum: int, baseUnits: string -> int,
                    r: Clustered, keys: seq<Key>, n: string)
    requires IsClustering(nodes, edges, expanded, minimum, baseUnits, r, keys) && n in IdSet(nodes)
    ensures Home(HomesOf(r.clusters, expanded), n) in IdSet(r.nodes)
  {
    var homes := HomesOf(r.clusters, expanded);
    if n in homes {
      HomesExactly(r.clusters, expanded, n);
      var c :| CollapsedInto(r.clusters, expanded, c, n) && c.id == homes[n];
      var i :| 0 <= i < |r.clusters| && r.clusters[i] == c;
      assert ClusterIds(r.clusters)[i] == c.id;
      ClusterNodeIds(r.clusters, expanded, c.id);
      var node :| node in ClusterNodes(r.clusters, expanded) && node.id == c.id;
      assert node in r.nodes;
    } else {
      var node :| node in nodes && node.id == n;
      assert node in KeptNodes(nodes, homes) && node in r.nodes;
    }
  }

  /** Every edge that is drawn runs between nodes that are drawn. */
  lemma ClusteringIsClosed(nodes: seq<Node>, edges: seq<Edge>, expanded: set<string>, minimum: int, baseUnits: string -> int,
                           r: Clustered, keys: seq<Key>)
    requires IsClustering(nodes, edges, expanded, minimum, baseUnits, r, keys) && Closed(nodes, edges)
    ensures Closed(r.nodes, r.edges)
  {
    forall e | e in r.edges ensures e.source in IdSet(r.nodes) && e.target in IdSet(r.nodes) {
      var i :| 0 <= i < |edges| && r.edges[i] == e;
      assert edges[i] in edges;
      HomeIsDrawn(nodes, edges, expanded, minimum, baseUnits, r, keys, edges[i].source);
      HomeIsDrawn(nodes, edges, expanded, minimum, baseUnits, r, keys, edges[i].target);
    }
  }

  // ----- nothing is lost

  /** What the edges at a node add up to. */
  function IncidentSum(edges: seq<Edge>, f: Edge -> int): string -> int {
    n => SumOver(Incidents(edges, n), f)
  }

  function If(b: bool, n: int): int {
    if b then n else 0
  }

  lemma SumOfAdd(edges: seq<Edge>, add: bool, e: Edge, f: Edge -> int)
    ensures SumOver(AddIf(edges, add, e), f) == SumOver(edges, f) + If(add, f(e))
  {
    assert (edges + [e])[..|edges|] == edges;
  }

  lemma IncidentStep(edges: seq<Edge>, n: string, f: Edge -> int)
    requires edges != []
    ensures var e := edges[|edges| - 1];
            IncidentSum(edges, f)(n) == IncidentSum(edges[..|edges| - 1], f)(n) + If(e.source == n, f(e)) + If(e.target == n, f(e))
  {
    var k := |edges| - 1;
    SumOfAdd(Incidents(edges[..k], n), edges[k].source == n, edges[k], f);
    SumOfAdd(AddIf(Incidents(edges[..k], n), edges[k].source == n, edges[k]), edges[k].target == n, edges[k], f);
  }

  function HalfStep(edges: seq<Edge>, f: Edge -> int): string -> int
    requires edges != []
  {
    var e := edges[|edges| - 1];
    n => IncidentSum(edges[..|edges| - 1], f)(n) + if n == e.source then f(e) else 0
  }

  /** Both ends of the last edge are credited with it. */
  lemma MembersStep(edges: seq<Edge>, members: seq<string>, f: Edge -> int)
    requires edges != [] && Distinct(members)
    ensures var e := edges[|edges| - 1];
            SumOver(members, IncidentSum(edges, f))
            == SumOver(members, IncidentSum(edges[..|edges| - 1], f)) + If(e.source in members, f(e)) + If(e.target in members, f(e))
  {
    var k := |edges| - 1;
    var e := edges[k];
    var before, half, after := IncidentSum(edges[..k], f), HalfStep(edges, f), IncidentSum(edges, f);
    forall n ensures after(n) == half(n) + if n == e.target then f(e) else 0 {
      IncidentStep(edges, n, f);
    }
    SumBump(members, before, half, e.source, f(e));
    SumBump(members, half, after, e.target, f(e));
  }

  function Untouched(edges: seq<Edge>, homes: map<string, string>): seq<Edge> {
    if edges == [] then []
    else
      var k := |edges| - 1;
      AddIf(Untouched(edges[..k], homes), edges[k].source !in homes && edges[k].target !in homes, edges[k])
  }

  /** If no edge has both ends among the members, their edges and the others make up all edges. */
  lemma {:induction false} SplitSum(edges: seq<Edge>, members: seq<string>, homes: map<string, string>, f: Edge -> int)
    requires Distinct(members) && forall m :: m in members <==> m in homes
    requires forall e :: e in edges ==> !(e.source in homes && e.target in homes)
    ensures SumOver(edges, f) == SumOver(Untouched(edges, homes), f) + SumOver(members, IncidentSum(edges, f))
  {
    if edges == [] {
      SumZero(members, IncidentSum(edges, f));
    } else {
      var k := |edges| - 1;
      var e := edges[k];
      assert e in edges && forall x :: x in edges[..k] ==> x in edges;
      SplitSum(edges[..k], members, homes, f);
      MembersStep(edges, members, f);
      SumOfAdd(Untouched(edges[..k], homes), e.source !in homes && e.target !in homes, e, f);
    }
  }

  lemma {:induction false} GroupSum(nodes: seq<Node>, edges: seq<Edge>, k: Key, f: Edge -> int)
    ensures var g := GroupAt(GroupsOf(nodes, edges), k); SumOver(g.edges, f) == SumOver(g.members, IncidentSum(edges, f))
  {
    if nodes != [] {
      var last := nodes[|nodes| - 1];
      GroupSum(nodes[..|nodes| - 1], edges, k, f);
      var g, grown := GroupAt(GroupsOf(nodes[..|nodes| - 1], edges), k), GroupAt(GroupsOf(nodes, edges), k);
      var related := Incidents(edges, last.id);
      if KeyOf(edges, last) == Some(k) {
        assert grown == Group(g.members + [last.id], g.edges + related);
        SumConcat(g.edges, related, f);
        SumAppend(g.members, last.id, IncidentSum(edges, f));
      } else {
        assert grown == g;
      }
    }
  }

  /** What the collapsed clusters report, added up. */
  function CollapsedTotal(clusters: seq<Cluster>, expanded: set<string>, total: Cluster -> int): int {
    if clusters == [] then 0
    else
      var c := clusters[|clusters| - 1];
      CollapsedTotal(clusters[..|clusters| - 1], expanded, total) + If(c.id !in expanded, total(c))
  }

  /** The members of the collapsed clusters. */
  function CollapsedMembers(clusters: seq<Cluster>, keys: seq<Key>, groups: map<Key, Group>, expanded: set<string>): seq<string>
    requires |clusters| == |keys|
  {
    if clusters == [] then []
    else
      var k := |clusters| - 1;
      CollapsedMembers(clusters[..k], keys[..k], groups, expanded) + HereIf(clusters[k].id !in expanded, GroupAt(groups, keys[k]))
  }

  function HereIf(b: bool, g: Group): seq<string> {
    if b then g.members else []
  }

  /** The cluster reports the sum over the edges of its group. */
  ghost predicate Totals(clusters: seq<Cluster>, keys: seq<Key>, groups: map<Key, Group>, total: Cluster -> int, f: Edge -> int) {
    |clusters| == |keys| && forall i :: 0 <= i < |keys| ==> total(clusters[i]) == SumOver(GroupAt(groups, keys[i]).edges, f)
  }

  lemma {:induction false} CollapsedSum(nodes: seq<Node>, edges: seq<Edge>, clusters: seq<Cluster>, keys: seq<Key>, expanded: set<string>,
                                        total: Cluster -> int, f: Edge -> int)
    requires Totals(clusters, keys, GroupsOf(nodes, edges), total, f)
    ensures CollapsedTotal(clusters, expanded, total)
            == SumOver(CollapsedMembers(clusters, keys, GroupsOf(nodes, edges), expanded), IncidentSum(edges, f))
  {
    if clusters != [] {
      var k := |clusters| - 1;
      var groups := GroupsOf(nodes, edges);
      CollapsedSum(nodes, edges, clusters[..k], keys[..k], expanded, total, f);
      GroupSum(nodes, edges, keys[k], f);
      var front, here := CollapsedMembers(clusters[..k], keys[..k], groups, expanded), HereIf(clusters[k].id !in expanded, GroupAt(groups, keys[k]));
      SumConcat(front, here, IncidentSum(edges, f));
      assert Totals(clusters, keys, groups, total, f);
      assert total(clusters[k]) == SumOver(GroupAt(groups, keys[k]).edges, f);
    }
  }

  lemma {:induction false} CollapsedMembersExactly(clusters: seq<Cluster>, keys: seq<Key>, groups: map<Key, Group>, expanded: set<string>, m: string)
    requires |clusters| == |keys|
    ensures m in CollapsedMembers(clusters, keys, groups, expanded) <==>
            exists i :: 0 <= i < |keys| && clusters[i].id !in expanded && m in GroupAt(groups, keys[i]).members
  {
    if clusters != [] {
      var k := |clusters| - 1;
      CollapsedMembersExactly(clusters[..k], keys[..k], groups, expanded, m);
    }
  }

  lemma OneKeyEach(nodes: seq<Node>, edges: seq<Edge>, k: Key, l: Key, m: string)
    requires IsMember(nodes, edges, k, m) && IsMember(nodes, edges, l, m)
    ensures k == l
  {
  }

  lemma {:induction false} CollapsedOnce(nodes: seq<Node>, edges: seq<Edge>, clusters: seq<Cluster>, keys: seq<Key>, expanded: set<string>)
    requires |clusters| == |keys| && Distinct(keys) && Distinct(NodeIds(nodes))
    ensures Distinct(CollapsedMembers(clusters, keys, GroupsOf(nodes, edges), expanded))
  {
    if clusters != [] {
      var k := |clusters| - 1;
      var groups := GroupsOf(nodes, edges);
      CollapsedOnce(nodes, edges, clusters[..k], keys[..k], expanded);
      MembersOnce(nodes, edges, keys[k]);
      var front, here := CollapsedMembers(clusters[..k], keys[..k], groups, expanded), HereIf(clusters[k].id !in expanded, GroupAt(groups, keys[k]));
      forall m | m in front ensures m !in here {
        CollapsedMembersExactly(clusters[..k], keys[..k], groups, expanded, m);
        var i :| 0 <= i < k && m in GroupAt(groups, keys[..k][i]).members;
        MembersExactly(nodes, edges, keys[i], m);
        MembersExactly(nodes, edges, keys[k], m);
        if m in here {
          OneKeyEach(nodes, edges, keys[i], keys[k], m);
        }
      }
      DistinctConcat(front, here);
    }
  }

  lemma HomesAreCollapsed(nodes: seq<Node>, edges: seq<Edge>, expanded: set<string>, minimum: int, baseUnits: string -> int,
                          r: Clustered, keys: seq<Key>, m: string)
    requires IsClustering(nodes, edges, expanded, minimum, baseUnits, r, keys)
    ensures m in CollapsedMembers(r.clusters, keys, GroupsOf(nodes, edges), expanded) <==> m in HomesOf(r.clusters, expanded)
  {
    var groups := GroupsOf(nodes, edges);
    CollapsedMembersExactly(r.clusters, keys, groups, expanded, m);
    HomesExactly(r.clusters, expanded, m);
    MembersListed(r.clusters, keys, groups, NodeIds(nodes), baseUnits, m);
    if m in HomesOf(r.clusters, expanded) {
      var c :| CollapsedInto(r.clusters, expanded, c, m);
      var i :| 0 <= i < |r.clusters| && r.clusters[i] == c;
      assert m in GroupAt(groups, keys[i]).members;
    }
    if i :| 0 <= i < |keys| && r.clusters[i].id !in expanded && m in GroupAt(groups, keys[i]).members {
      assert CollapsedInto(r.clusters, expanded, r.clusters[i], m);
      assert IsHome(r.clusters, expanded, r.clusters[i].id, m);
    }
  }

  lemma MembersListed(clusters: seq<Cluster>, keys: seq<Key>, groups: map<Key, Group>, nodeIds: seq<string>, baseUnits: string -> int, m: string)
    requires Stand(clusters, keys, groups, nodeIds, baseUnits)
    ensures forall i :: 0 <= i < |keys| ==> (m in clusters[i].members <==> m in GroupAt(groups, keys[i]).members)
  {
    forall i | 0 <= i < |keys| ensures m in clusters[i].members <==> m in GroupAt(groups, keys[i]).members {
      SameMembers(clusters[i].members, groups[keys[i]].members);
    }
  }

  lemma Conserves(nodes: seq<Node>, edges: seq<Edge>, expanded: set<string>, minimum: int, baseUnits: string -> int,
                  r: Clustered, keys: seq<Key>, total: Cluster -> int, f: Edge -> int)
    requires IsClustering(nodes, edges, expanded, minimum, baseUnits, r, keys) && minimum >= 2 && Distinct(NodeIds(nodes))
    requires Totals(r.clusters, keys, GroupsOf(nodes, edges), total, f)
    ensures SumOver(edges, f) == SumOver(Untouched(edges, HomesOf(r.clusters, expanded)), f) + CollapsedTotal(r.clusters, expanded, total)
  {
    var homes := HomesOf(r.clusters, expanded);
    var members := CollapsedMembers(r.clusters, keys, GroupsOf(nodes, edges), expanded);
    forall m ensures m in members <==> m in homes {
      HomesAreCollapsed(nodes, edges, expanded, minimum, baseUnits, r, keys, m);
    }
    forall e | e in edges ensures !(e.source in homes && e.target in homes) {
      NoEdgeWithin(nodes, edges, expanded, minimum, baseUnits, r, keys, e);
    }
    CollapsedOnce(nodes, edges, r.clusters, keys, expanded);
    SplitSum(edges, members, homes, f);
    CollapsedSum(nodes, edges, r.clusters, keys, expanded, total, f);
  }

  function TransferCount(): Cluster -> int {
    (c: Cluster) => c.transferCount
  }

  function TotalAmount(): Cluster -> int {
    (c: Cluster) => c.totalAmount
  }

  /** The transfers and amounts of the uncollapsed edges and of the collapsed clusters are those of the input. */
  lemma ClusteringConserves(nodes: seq<Node>, edges: seq<Edge>, expanded: set<string>, minimum: int, baseUnits: string -> int,
                            r: Clustered, keys: seq<Key>)
    requires IsClustering(nodes, edges, expanded, minimum, baseUnits, r, keys) && minimum >= 2 && Distinct(NodeIds(nodes))
    ensures var untouched := Untouched(edges, HomesOf(r.clusters, expanded));
            && SumOver(edges, Quantity) == SumOver(untouched, Quantity) + CollapsedTotal(r.clusters, expanded, TransferCount())
            && SumOver(edges, Units(baseUnits)) == SumOver(untouched, Units(baseUnits)) + CollapsedTotal(r.clusters, expanded, TotalAmount())
  {
    Conserves(nodes, edges, expanded, minimum, baseUnits, r, keys, TransferCount(), Quantity);
    Conserves(nodes, edges, expanded, minimum, baseUnits, r, keys, TotalAmount(), Units(baseUnits));
  }

  /** A member of a large group that is not expanded is collapsed. */
  lemma MembersCollapse(nodes: seq<Node>, edges: seq<Edge>, expanded: set<string>, minimum: int, baseUnits: string -> int,
                        r: Clustered, keys: seq<Key>, i: nat, m: string)
    requires IsClustering(nodes, edges, expanded, minimum, baseUnits, r, keys)
    requires i < |keys| && r.clusters[i].id !in expanded && IsMember(nodes, edges, keys[i], m)
    ensures m in HomesOf(r.clusters, expanded)
  {
    MembersExactly(nodes, edges, keys[i], m);
    MembersListed(r.clusters, keys, GroupsOf(nodes, edges), NodeIds(nodes), baseUnits, m);
    assert CollapsedInto(r.clusters, expanded, r.clusters[i], m);
    assert IsHome(r.clusters, expanded, r.clusters[i].id, m);
    HomesExactly(r.clusters, expanded, m);
  }

  /** A node that is a leaf, and whose group is not shown expanded. */
  ghost predicate IsOpenLeaf(nodes: seq<Node>, edges: seq<Edge>, expanded: set<string>, r: Clustered, keys: seq<Key>, m: string)
    requires |r.clusters| == |keys|
  {
    exists k :: IsMember(nodes, edges, k, m) && forall i :: 0 <= i < |keys| && keys[i] == k ==> r.clusters[i].id !in expanded
  }

  lemma OnePlace(keys: seq<Key>, i: nat)
    requires Distinct(keys) && i < |keys|
    ensures forall j :: 0 <= j < |keys| && keys[j] == keys[i] ==> j == i
  {
  }

  lemma CollapsedIsOpen(nodes: seq<Node>, edges: seq<Edge>, expanded: set<string>, minimum: int, baseUnits: string -> int,
                        r: Clustered, keys: seq<Key>, m: string)
    requires IsClustering(nodes, edges, expanded, minimum, baseUnits, r, keys) && m in HomesOf(r.clusters, expanded)
    ensures IsOpenLeaf(nodes, edges, expanded, r, keys, m)
  {
    var i := CollapsedPlace(nodes, edges, expanded, minimum, baseUnits, r, keys, m);
    OnePlace(keys, i);
  }

  lemma OpenCollapses(nodes: seq<Node>, edges: seq<Edge>, expanded: set<string>, minimum: int, baseUnits: string -> int,
                      r: Clustered, keys: seq<Key>, m: string)
    requires IsClustering(nodes, edges, expanded, minimum, baseUnits, r, keys) && minimum <= 1
    requires IsOpenLeaf(nodes, edges, expanded, r, keys, m)
    ensures m in HomesOf(r.clusters, expanded)
  {
    var k :| IsMember(nodes, edges, k, m) && forall i :: 0 <= i < |keys| && keys[i] == k ==> r.clusters[i].id !in expanded;
    MembersExactly(nodes, edges, k, m);
    assert Collapsible(GroupsOf(nodes, edges), minimum, k) && k in keys;
    var i :| 0 <= i < |keys| && keys[i] == k;
    MembersCollapse(nodes, edges, expanded, minimum, baseUnits, r, keys, i, m);
  }

  /** For every minimum: an edge is collapsed at both ends if and only if the minimum is below two and both ends are leaves
      whose groups are not expanded. */
  lemma EdgeCollapsesExactly(nodes: seq<Node>, edges: seq<Edge>, expanded: set<string>, minimum: int, baseUnits: string -> int,
                             r: Clustered, keys: seq<Key>, e: Edge)
    requires IsClustering(nodes, edges, expanded, minimum, baseUnits, r, keys) && Distinct(NodeIds(nodes)) && e in edges
    ensures e.source in HomesOf(r.clusters, expanded) && e.target in HomesOf(r.clusters, expanded) <==>
            minimum < 2 && IsOpenLeaf(nodes, edges, expanded, r, keys, e.source) && IsOpenLeaf(nodes, edges, expanded, r, keys, e.target)
  {
    if minimum >= 2 {
      NoEdgeWithin(nodes, edges, expanded, minimum, baseUnits, r, keys, e);
    } else {
      forall m | m == e.source || m == e.target
        ensures m in HomesOf(r.clusters, expanded) <==> IsOpenLeaf(nodes, edges, expanded, r, keys, m) {
        if m in HomesOf(r.clusters, expanded) {
          CollapsedIsOpen(nodes, edges, expanded, minimum, baseUnits, r, keys, m);
        }
        if IsOpenLeaf(nodes, edges, expanded, r, keys, m) {
          OpenCollapses(nodes, edges, expanded, minimum, baseUnits, r, keys, m);
        }
      }
    }
  }

  lemma LoneEdgeLeaves(e: Edge)
    requires e.source != e.target
    ensures LeafKey(Incidents([e], e.source), e.source) == Some(Key(e.target, Inbound, AssetKeyOf(e)))
    ensures LeafKey(Incidents([e], e.target), e.target) == Some(Key(e.source, Outbound, AssetKeyOf(e)))
  {
    assert Incidents([e], e.source) == [e] && Incidents([e], e.target) == [e];
  }

  /** With a minimum of 1 both ends of a lone edge are collapsed, each into its own cluster. */
  lemma LoneEdgeCollapses(e: Edge, a: Node, b: Node, baseUnits: string -> int, r: Clustered, keys: seq<Key>)
    requires e.source == a.id && e.target == b.id && a.id != b.id && !a.isSeed && !b.isSeed
    requires IsClustering([a, b], [e], {}, 1, baseUnits, r, keys)
    ensures a.id in HomesOf(r.clusters, {}) && b.id in HomesOf(r.clusters, {})
  {
    LoneEdgeLeaves(e);
    var k, l := Key(b.id, Inbound, AssetKeyOf(e)), Key(a.id, Outbound, AssetKeyOf(e));
    assert a in [a, b] && b in [a, b];
    assert IsMember([a, b], [e], k, a.id) && IsMember([a, b], [e], l, b.id);
    MembersExactly([a, b], [e], k, a.id);
    MembersExactly([a, b], [e], l, b.id);
    assert k in keys && l in keys;
    var i :| 0 <= i < |keys| && keys[i] == k;
    var j :| 0 <= j < |keys| && keys[j] == l;
    MembersCollapse([a, b], [e], {}, 1, baseUnits, r, keys, i, a.id);
    MembersCollapse([a, b], [e], {}, 1, baseUnits, r, keys, j, b.id);
  }
}
