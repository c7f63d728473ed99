/** What clustering means for the canvas: who is a leaf of whom, what a cluster stands for, and what is drawn. */
module ClusterLaws {
  import opened Options
  import opened Ordering
  import opened Sums
  import opened Text
  import opened Transfers
  import opened LeafClustering

  // ----- assets

  /** A contract stands for the asset; without one its symbol does. */
  function Token(a: Asset): string {
    if a.contract != "" then a.contract else a.symbol
  }

  predicate SameAsset(a: Option<Asset>, b: Option<Asset>) {
    match (a, b)
    case (None, None) => true
    case (Some(x), Some(y)) => x.kind == y.kind && Token(x) == Token(y) && x.decimals == y.decimals
    case _ => false
  }

  predicate Plain(a: Option<Asset>) {
    a.Some? ==> NoColon(a.value)
  }

  /** Edges have the same asset key if and only if they move the same asset. */
  lemma AssetKeysExactly(e: Edge, f: Edge)
    requires Plain(e.asset) && Plain(f.asset)
    ensures AssetKeyOf(e) == AssetKeyOf(f) <==> SameAsset(e.asset, f.asset)
  {
    if e.asset.Some? && f.asset.Some? && AssetKeyOf(e) == AssetKeyOf(f) {
      KeyParts(e.asset.value);
      KeyParts(f.asset.value);
      var a, b := e.asset.value, f.asset.value;
      SplitAt(':', a.kind, Token(a) + ":" + Decimal(a.decimals), b.kind, Token(b) + ":" + Decimal(b.decimals));
      SplitAt(':', Token(a), Decimal(a.decimals), Token(b), Decimal(b.decimals));
      DecimalIsInjective(a.decimals, b.decimals);
    } else if e.asset.Some? != f.asset.Some? {
      SomeIsNotNone(if e.asset.Some? then e.asset.value else f.asset.value);
    }
  }

  lemma KeyParts(a: Asset)
    ensures AssetKeyOf(Edge("", "", "", Some(a), "", 0)) == a.kind + ":" + (Token(a) + ":" + Decimal(a.decimals))
  {
  }

  lemma SomeIsNotNone(a: Asset)
    requires NoColon(a)
    ensures AssetKeyOf(Edge("", "", "", Some(a), "", 0)) != "::"
  {
    KeyParts(a);
    DecimalReadsBack(a.decimals);
    assert |a.kind + ":" + (Token(a) + ":" + Decimal(a.decimals))| > 2;
  }

  // ----- leaves

  /** The edge runs from the anchor to the node, or for an inbound leaf from the node to the anchor. */
  predicate RunsToLeaf(e: Edge, n: string, k: Key) {
    if k.direction == Outbound then e.source == k.anchor && e.target == n else e.source == n && e.target == k.anchor
  }

  /** A node is a leaf if it is not the seed, has edges, and all of them run one way between it and one anchor, with one
      asset. */
  ghost predicate IsLeaf(edges: seq<Edge>, node: Node, k: Key) {
    && !node.isSeed && (exists e :: e in edges && (e.source == node.id || e.target == node.id))
    && (forall e :: e in edges && (e.source == node.id || e.target == node.id) ==> RunsToLeaf(e, node.id, k) && AssetKeyOf(e) == k.asset)
    && (k.anchor == node.id ==> k.direction == Outbound)
  }

  lemma LeafExactly(edges: seq<Edge>, node: Node, k: Key)
    ensures KeyOf(edges, node) == Some(k) <==> IsLeaf(edges, node, k)
  {
    var related := Incidents(edges, node.id);
    forall e ensures e in related <==> e in edges && (e.source == node.id || e.target == node.id) {
      IncidentsExactly(edges, node.id, e);
    }
    if related != [] {
      assert related[0] in related;
      if IsLeaf(edges, node, k) {
        assert FirstKey(related[0], node.id) == k;
      }
    }
  }

  /** The edges at a node, each as often as it has ends there. */
  lemma {:induction false} IncidentCounts(edges: seq<Edge>, n: string, e: Edge)
    ensures multiset(Incidents(edges, n))[e] == multiset(edges)[e] * ((if e.source == n then 1 else 0) + if e.target == n then 1 else 0)
  {
    if edges != [] {
      var k := |edges| - 1;
      IncidentCounts(edges[..k], n, e);
      var front := Incidents(edges[..k], n);
      AddedCounts(front, edges[k].source == n, edges[k], e);
      AddedCounts(AddIf(front, edges[k].source == n, edges[k]), edges[k].target == n, edges[k], e);
      assert edges == edges[..k] + [edges[k]];
    }
  }

  lemma AddedCounts(edges: seq<Edge>, add: bool, x: Edge, e: Edge)
    ensures multiset(AddIf(edges, add, x))[e] == multiset(edges)[e] + if add && x == e then 1 else 0
  {
  }

  // ----- groups and clusters

  /** The leaves of a key. */
  ghost function Leaves(nodes: seq<Node>, edges: seq<Edge>, k: Key): set<string> {
    set node | node in nodes && IsLeaf(edges, node, k) :: node.id
  }

  lemma MembersAreLeaves(nodes: seq<Node>, edges: seq<Edge>, k: Key)
    requires Distinct(NodeIds(nodes))
    ensures var members := GroupAt(GroupsOf(nodes, edges), k).members;
            SetOf(members) == Leaves(nodes, edges, k) && |members| == |Leaves(nodes, edges, k)| && Distinct(members)
  {
    var members := GroupAt(GroupsOf(nodes, edges), k).members;
    MembersOnce(nodes, edges, k);
    DistinctSize(members);
    forall m ensures m in members <==> m in Leaves(nodes, edges, k) {
      MembersExactly(nodes, edges, k, m);
      if m in members {
        var node :| node in nodes && node.id == m && KeyOf(edges, node) == Some(k);
        LeafExactly(edges, node, k);
      }
      if m in Leaves(nodes, edges, k) {
        var node :| node in nodes && node.id == m && IsLeaf(edges, node, k);
        LeafExactly(edges, node, k);
      }
    }
  }

  /** A key has a cluster if and only if it has leaves, and at least the minimum of them. */
  lemma ClusteredExactly(nodes: seq<Node>, edges: seq<Edge>, expanded: set<string>, minimum: int, baseUnits: string -> int,
                         r: Clustered, keys: seq<Key>, k: Key)
    requires IsClustering(nodes, edges, expanded, minimum, baseUnits, r, keys) && Distinct(NodeIds(nodes))
    ensures k in keys <==> Leaves(nodes, edges, k) != {} && |Leaves(nodes, edges, k)| >= minimum
  {
    var groups := GroupsOf(nodes, edges);
    MembersAreLeaves(nodes, edges, k);
    GroupHasMembers(nodes, edges, k);
    if Leaves(nodes, edges, k) != {} {
      var m :| m in Leaves(nodes, edges, k);
      assert m in SetOf(GroupAt(groups, k).members);
    }
  }

  lemma {:induction false} GroupHasMembers(nodes: seq<Node>, edges: seq<Edge>, k: Key)
    ensures k in GroupsOf(nodes, edges) ==> GroupsOf(nodes, edges)[k].members != []
  {
    if nodes != [] {
      GroupHasMembers(nodes[..|nodes| - 1], edges, k);
    }
  }

  /** An edge stands for as many transfers as it counts, and for one if it counts none. */
  ghost function Moved(): Edge -> int {
    (e: Edge) => if e.txCount > 0 then e.txCount else 1
  }

  ghost function Amounts(baseUnits: string -> int): Edge -> int {
    (e: Edge) => baseUnits(e.amount)
  }

  /** What a cluster is: the leaves of its key in dictionary order, and the transfers and amounts of all their edges. */
  ghost predicate StandsFor(c: Cluster, nodes: seq<Node>, edges: seq<Edge>, k: Key, baseUnits: string -> int) {
    && c.anchor == k.anchor && c.direction == k.direction
    && SetOf(c.members) == Leaves(nodes, edges, k) && (forall i, j :: 0 <= i < j < |c.members| ==> StringLess(c.members[i], c.members[j]))
    && c.transferCount == SumOver(c.members, IncidentSum(edges, Moved()))
    && c.totalAmount == SumOver(c.members, IncidentSum(edges, Amounts(baseUnits)))
    && c.representative in edges && (c.representative.source in c.members || c.representative.target in c.members)
  }

  lemma MembersInOrder(members: seq<string>)
    requires Distinct(members)
    ensures var s := Sort(members, StringLess);
            SetOf(s) == SetOf(members) && forall i, j :: 0 <= i < j < |s| ==> StringLess(s[i], s[j])
  {
    var s := Sort(members, StringLess);
    StringLessIsOrder();
    SortSorts(members, StringLess);
    SameMembers(s, members);
    SortedDistinct(members, StringLess);
    forall i, j | 0 <= i < j < |s| ensures StringLess(s[i], s[j]) {
      assert AtMost(StringLess, s[i], s[j]);
    }
  }

  lemma {:induction false} GroupEdgesTouch(nodes: seq<Node>, edges: seq<Edge>, k: Key, e: Edge)
    requires e in GroupAt(GroupsOf(nodes, edges), k).edges
    ensures e in edges && (e.source in GroupAt(GroupsOf(nodes, edges), k).members || e.target in GroupAt(GroupsOf(nodes, edges), k).members)
  {
    if nodes != [] {
      var last := |nodes| - 1;
      var front := GroupsOf(nodes[..last], edges);
      IncidentsExactly(edges, nodes[last].id, e);
      if e in GroupAt(front, k).edges {
        GroupEdgesTouch(nodes[..last], edges, k, e);
      }
    }
  }

  lemma {:induction false} SumForgetsOrder(xs: seq<string>, ys: seq<string>, f: string -> int)
    requires multiset(xs) == multiset(ys)
    ensures SumOver(xs, f) == SumOver(ys, f)
  {
    SameMembers(xs, ys);
    if xs != [] {
      var k := |xs| - 1;
      assert xs[k] in ys;
      var i :| 0 <= i < |ys| && ys[i] == xs[k];
      SumWithout(ys, i, f);
      assert xs == xs[..k] + [xs[k]];
      Without(ys, i);
      SumForgetsOrder(xs[..k], ys[..i] + ys[i + 1..], f);
    }
  }

  lemma Without(ys: seq<string>, i: nat)
    requires i < |ys|
    ensures multiset(ys[..i] + ys[i + 1..]) == multiset(ys) - multiset{ys[i]}
  {
    assert ys == ys[..i] + [ys[i]] + ys[i + 1..];
  }

  lemma SumWithout(ys: seq<string>, i: nat, f: string -> int)
    requires i < |ys|
    ensures SumOver(ys, f) == SumOver(ys[..i] + ys[i + 1..], f) + f(ys[i])
  {
    SumConcat(ys[..i + 1], ys[i + 1..], f);
    SumConcat(ys[..i], ys[i + 1..], f);
    assert ys == ys[..i + 1] + ys[i + 1..] && ys[..i + 1][..i] == ys[..i];
  }

  lemma ClusterSums(c: Cluster, nodes: seq<Node>, edges: seq<Edge>, k: Key, baseUnits: string -> int)
    requires k in GroupsOf(nodes, edges) && IsCluster(c, k, GroupsOf(nodes, edges)[k], baseUnits)
    ensures c.transferCount == SumOver(c.members, IncidentSum(edges, Moved()))
    ensures c.totalAmount == SumOver(c.members, IncidentSum(edges, Amounts(baseUnits)))
  {
    var g := GroupsOf(nodes, edges)[k];
    SumSame(g.edges, Quantity, Moved());
    SumSame(g.edges, Units(baseUnits), Amounts(baseUnits));
    GroupSum(nodes, edges, k, Moved());
    GroupSum(nodes, edges, k, Amounts(baseUnits));
    SumForgetsOrder(c.members, g.members, IncidentSum(edges, Moved()));
    SumForgetsOrder(c.members, g.members, IncidentSum(edges, Amounts(baseUnits)));
  }

  lemma ClusterIsItsLeaves(c: Cluster, nodes: seq<Node>, edges: seq<Edge>, k: Key, baseUnits: string -> int)
    requires k in GroupsOf(nodes, edges) && IsCluster(c, k, GroupsOf(nodes, edges)[k], baseUnits) && Distinct(NodeIds(nodes))
    ensures StandsFor(c, nodes, edges, k, baseUnits)
  {
    var g := GroupsOf(nodes, edges)[k];
    MembersAreLeaves(nodes, edges, k);
    MembersInOrder(g.members);
    ClusterSums(c, nodes, edges, k, baseUnits);
    assert c.representative in g.edges;
    GroupEdgesTouch(nodes, edges, k, c.representative);
    SameMembers(c.members, g.members);
  }

  /** Every cluster stands for the leaves of one key. */
  lemma ClustersStandForLeaves(nodes: seq<Node>, edges: seq<Edge>, expanded: set<string>, minimum: int, baseUnits: string -> int,
                               r: Clustered, keys: seq<Key>, i: nat)
    requires IsClustering(nodes, edges, expanded, minimum, baseUnits, r, keys) && Distinct(NodeIds(nodes)) && i < |keys|
    ensures i < |r.clusters| && StandsFor(r.clusters[i], nodes, edges, keys[i], baseUnits)
  {
    ClusterIsItsLeaves(r.clusters[i], nodes, edges, keys[i], baseUnits);
  }

  // ----- what is drawn

  ghost predicate IsCollapsed(r: Clustered, expanded: set<string>, m: string) {
    exists c :: c in r.clusters && c.id !in expanded && m in c.members
  }

  lemma CollapsedExactly(r: Clustered, expanded: set<string>, m: string)
    ensures m in HomesOf(r.clusters, expanded) <==> IsCollapsed(r, expanded, m)
    ensures m in HomesOf(r.clusters, expanded) ==>
              exists c :: c in r.clusters && c.id !in expanded && m in c.members && c.id == HomesOf(r.clusters, expanded)[m]
  {
    HomesExactly(r.clusters, expanded, m);
    if m in HomesOf(r.clusters, expanded) {
      var c :| CollapsedInto(r.clusters, expanded, c, m) && c.id == HomesOf(r.clusters, expanded)[m];
    }
    if c :| c in r.clusters && c.id !in expanded && m in c.members {
      assert CollapsedInto(r.clusters, expanded, c, m);
      assert IsHome(r.clusters, expanded, c.id, m);
    }
  }

  /** A collapsed cluster is drawn as a node that counts its members. */
  predicate Draws(c: Cluster, expanded: set<string>, node: Node) {
    c.id !in expanded && node == Node(c.id, false, Decimal(|c.members|) + " counterparties")
  }

  ghost predicate DrawsSome(clusters: seq<Cluster>, expanded: set<string>, node: Node) {
    exists c :: c in clusters && Draws(c, expanded, node)
  }

  lemma {:induction false} ClusterNodesExactly(clusters: seq<Cluster>, expanded: set<string>, node: Node)
    ensures node in ClusterNodes(clusters, expanded) <==> DrawsSome(clusters, expanded, node)
  {
    if clusters != [] {
      var k := |clusters| - 1;
      ClusterNodesExactly(clusters[..k], expanded, node);
      DrawsOneMore(clusters[..k], clusters[k], expanded, node);
      assert clusters == clusters[..k] + [clusters[k]];
    }
  }

  lemma DrawsOneMore(clusters: seq<Cluster>, c: Cluster, expanded: set<string>, node: Node)
    ensures DrawsSome(clusters + [c], expanded, node) <==> DrawsSome(clusters, expanded, node) || Draws(c, expanded, node)
  {
    assert forall x :: x in clusters + [c] <==> x in clusters || x == c;
  }

  /** Drawn are the nodes that are not collapsed, and the collapsed clusters. */
  lemma NodesExactly(nodes: seq<Node>, edges: seq<Edge>, expanded: set<string>, minimum: int, baseUnits: string -> int,
                     r: Clustered, keys: seq<Key>, node: Node)
    requires IsClustering(nodes, edges, expanded, minimum, baseUnits, r, keys)
    ensures node in r.nodes <==>
            || (node in nodes && !IsCollapsed(r, expanded, node.id))
            || DrawsSome(r.clusters, expanded, node)
  {
    CollapsedExactly(r, expanded, node.id);
    ClusterNodesExactly(r.clusters, expanded, node);
  }

  /** An end of an edge is drawn at the cluster it is collapsed into, else where it was. */
  ghost predicate DrawnAt(r: Clustered, expanded: set<string>, end: string, drawn: string) {
    if IsCollapsed(r, expanded, end) then exists c :: c in r.clusters && c.id !in expanded && end in c.members && c.id == drawn
    else drawn == end
  }

  lemma EdgesExactly(nodes: seq<Node>, edges: seq<Edge>, expanded: set<string>, minimum: int, baseUnits: string -> int,
                     r: Clustered, keys: seq<Key>, i: nat)
    requires IsClustering(nodes, edges, expanded, minimum, baseUnits, r, keys) && i < |edges|
    ensures |r.edges| == |edges| && r.edges[i] == edges[i].(source := r.edges[i].source, target := r.edges[i].target)
    ensures DrawnAt(r, expanded, edges[i].source, r.edges[i].source) && DrawnAt(r, expanded, edges[i].target, r.edges[i].target)
  {
    CollapsedExactly(r, expanded, edges[i].source);
    CollapsedExactly(r, expanded, edges[i].target);
  }
}
