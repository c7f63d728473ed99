/** Node accounting: what graphFromEdges reports about the nodes of a list of edges. */
module GraphAccounting {
  import opened Options
  import opened Ordering
  import opened Sums
  import opened Text
  import opened Transfers

  datatype Edge = Edge(id: string, source: string, target: string, amount: string, asset: Asset)

  datatype AssetVolume = AssetVolume(asset: Asset, amount: int)

  datatype Node = Node(id: string, isSeed: bool, inCount: nat, outCount: nat, volumes: seq<AssetVolume>)

  // ----- what the report is about, edge by edge

  predicate Ends(normalize: string -> string, e: Edge, n: string) {
    normalize(e.source) == n || normalize(e.target) == n
  }

  predicate IsNode(normalize: string -> string, edges: seq<Edge>, seed: string, n: string) {
    n == seed || exists e :: e in edges && Ends(normalize, e, n)
  }

  function Outgoing(normalize: string -> string, edges: seq<Edge>, n: string): nat {
    if edges == [] then 0
    else
      var k := |edges| - 1;
      Outgoing(normalize, edges[..k], n) + if normalize(edges[k].source) == n then 1 else 0
  }

  function Incoming(normalize: string -> string, edges: seq<Edge>, n: string): nat {
    if edges == [] then 0
    else
      var k := |edges| - 1;
      Incoming(normalize, edges[..k], n) + if normalize(edges[k].target) == n then 1 else 0
  }

  /** The amount an edge moves of the asset; 0 for other assets and unreadable amounts. */
  function Moved(e: Edge, key: string): int {
    if AssetKey(e.asset) == key && ParseAmount(e.amount).Some? then ParseAmount(e.amount).value else 0
  }

  /** What the edges move at a node, a self-loop counting at both of its ends. */
  function Volume(normalize: string -> string, edges: seq<Edge>, n: string, key: string): int {
    if edges == [] then 0
    else
      var k := |edges| - 1;
      Volume(normalize, edges[..k], n, key)
      + (if normalize(edges[k].source) == n then Moved(edges[k], key) else 0)
      + (if normalize(edges[k].target) == n then Moved(edges[k], key) else 0)
  }

  function TotalMoved(edges: seq<Edge>, key: string): int {
    if edges == [] then 0 else TotalMoved(edges[..|edges| - 1], key) + Moved(edges[|edges| - 1], key)
  }

  predicate Carries(e: Edge, key: string) {
    AssetKey(e.asset) == key && ParseAmount(e.amount).Some?
  }

  /** Some readable edge at the node moves the asset. */
  predicate Trades(normalize: string -> string, edges: seq<Edge>, n: string, key: string) {
    exists e :: e in edges && TradedBy(normalize, e, n, key)
  }

  predicate TradedBy(normalize: string -> string, e: Edge, n: string, key: string) {
    Ends(normalize, e, n) && Carries(e, key)
  }

  /** The asset of the last readable edge with this key. */
  function LastAsset(edges: seq<Edge>, key: string): Option<Asset> {
    if edges == [] then None
    else
      var e := edges[|edges| - 1];
      if Carries(e, key) then Some(e.asset) else LastAsset(edges[..|edges| - 1], key)
  }

  // ----- the running totals

  datatype Tally = Tally(nodes: map<string, bool>, ins: map<string, nat>, outs: map<string, nat>,
                         volumes: map<string, map<string, int>>, assets: map<string, Asset>)

  function CountOf(counts: map<string, nat>, n: string): nat {
    if n in counts then counts[n] else 0
  }

  function VolumesOf(volumes: map<string, map<string, int>>, n: string): map<string, int> {
    if n in volumes then volumes[n] else map[]
  }

  function AmountOf(volumes: map<string, map<string, int>>, n: string, key: string): int {
    if key in VolumesOf(volumes, n) then VolumesOf(volumes, n)[key] else 0
  }

  function AddAssetVolume(volumes: map<string, map<string, int>>, n: string, key: string, amount: int): map<string, map<string, int>> {
    volumes[n := VolumesOf(volumes, n)[key := AmountOf(volumes, n, key) + amount]]
  }

  function AddEdge(normalize: string -> string, seed: string, t: Tally, e: Edge): Tally {
    var from, to := normalize(e.source), normalize(e.target);
    var nodes := if from in t.nodes then t.nodes else t.nodes[from := from == seed];
    var key, amount := AssetKey(e.asset), ParseAmount(e.amount);
    Tally(if to in nodes then nodes else nodes[to := to == seed],
          t.ins[to := CountOf(t.ins, to) + 1],
          t.outs[from := CountOf(t.outs, from) + 1],
          if amount.None? then t.volumes
          else AddAssetVolume(AddAssetVolume(t.volumes, from, key, amount.value), to, key, amount.value),
          if amount.None? then t.assets else t.assets[key := e.asset])
  }

  function TallyOf(normalize: string -> string, seed: string, edges: seq<Edge>): Tally {
    if edges == [] then Tally(map[seed := true], map[], map[], map[], map[])
    else AddEdge(normalize, seed, TallyOf(normalize, seed, edges[..|edges| - 1]), edges[|edges| - 1])
  }

  lemma IsNodeStep(normalize: string -> string, edges: seq<Edge>, seed: string, n: string)
    requires edges != []
    ensures IsNode(normalize, edges, seed, n) <==> IsNode(normalize, edges[..|edges| - 1], seed, n) || Ends(normalize, edges[|edges| - 1], n)
  {
    assert edges == edges[..|edges| - 1] + [edges[|edges| - 1]];
  }

  /** The running totals of a node are what its edges add up to. */
  lemma {:induction false} TallyCounts(normalize: string -> string, seed: string, edges: seq<Edge>, n: string)
    ensures var t := TallyOf(normalize, seed, edges);
            && (n in t.nodes <==> IsNode(normalize, edges, seed, n))
            && (n in t.nodes ==> t.nodes[n] == (n == seed))
            && CountOf(t.ins, n) == Incoming(normalize, edges, n)
            && CountOf(t.outs, n) == Outgoing(normalize, edges, n)
  {
    if edges != [] {
      var k := |edges| - 1;
      TallyCounts(normalize, seed, edges[..k], n);
      IsNodeStep(normalize, edges, seed, n);
    }
  }

  lemma AddVolumeAt(volumes: map<string, map<string, int>>, at: string, key: string, amount: int, n: string, k: string)
    ensures var added := AddAssetVolume(volumes, at, key, amount);
            && (k in VolumesOf(added, n) <==> k in VolumesOf(volumes, n) || (n == at && k == key))
            && AmountOf(added, n, k) == AmountOf(volumes, n, k) + if n == at && k == key then amount else 0
  {
  }

  lemma AddEdgeVolumes(normalize: string -> string, seed: string, t: Tally, e: Edge, n: string, key: string)
    ensures var added := AddEdge(normalize, seed, t, e).volumes;
            && (key in VolumesOf(added, n) <==> key in VolumesOf(t.volumes, n) || TradedBy(normalize, e, n, key))
            && AmountOf(added, n, key) == AmountOf(t.volumes, n, key)
                 + (if normalize(e.source) == n then Moved(e, key) else 0) + (if normalize(e.target) == n then Moved(e, key) else 0)
  {
    if ParseAmount(e.amount).Some? {
      var from, to, k, amount := normalize(e.source), normalize(e.target), AssetKey(e.asset), ParseAmount(e.amount).value;
      AddVolumeAt(t.volumes, from, k, amount, n, key);
      AddVolumeAt(AddAssetVolume(t.volumes, from, k, amount), to, k, amount, n, key);
    }
  }

  lemma TradesStep(normalize: string -> string, edges: seq<Edge>, n: string, key: string)
    requires edges != []
    ensures var k := |edges| - 1;
            Trades(normalize, edges, n, key) <==>
            Trades(normalize, edges[..k], n, key) || TradedBy(normalize, edges[k], n, key)
  {
    assert edges == edges[..|edges| - 1] + [edges[|edges| - 1]];
  }

  lemma {:induction false} TallyVolumes(normalize: string -> string, seed: string, edges: seq<Edge>, n: string, key: string)
    ensures var volumes := TallyOf(normalize, seed, edges).volumes;
            && (key in VolumesOf(volumes, n) <==> Trades(normalize, edges, n, key))
            && AmountOf(volumes, n, key) == Volume(normalize, edges, n, key)
  {
    if edges != [] {
      var k := |edges| - 1;
      TallyVolumes(normalize, seed, edges[..k], n, key);
      AddEdgeVolumes(normalize, seed, TallyOf(normalize, seed, edges[..k]), edges[k], n, key);
      TradesStep(normalize, edges, n, key);
    }
  }

  lemma {:induction false} TallyAssets(normalize: string -> string, seed: string, edges: seq<Edge>, key: string)
    ensures var t := TallyOf(normalize, seed, edges);
            LastAsset(edges, key) == if key in t.assets then Some(t.assets[key]) else None
  {
    if edges != [] {
      TallyAssets(normalize, seed, edges[..|edges| - 1], key);
    }
  }

  lemma {:induction false} CarriedIsLast(edges: seq<Edge>, key: string, i: nat)
    requires i < |edges| && Carries(edges[i], key)
    ensures LastAsset(edges, key).Some?
  {
    if i < |edges| - 1 {
      CarriedIsLast(edges[..|edges| - 1], key, i);
    }
  }

  lemma TradedIsLast(normalize: string -> string, edges: seq<Edge>, n: string, key: string)
    requires Trades(normalize, edges, n, key)
    ensures LastAsset(edges, key).Some?
  {
    var e :| e in edges && TradedBy(normalize, e, n, key);
    var i :| 0 <= i < |edges| && edges[i] == e;
    CarriedIsLast(edges, key, i);
  }

  lemma {:induction false} LastAssetKey(edges: seq<Edge>, key: string)
    ensures LastAsset(edges, key).Some? ==> AssetKey(LastAsset(edges, key).value) == key
  {
    if edges != [] {
      LastAssetKey(edges[..|edges| - 1], key);
    }
  }

  // ----- the report

  /** The volumes of a node: ascending asset keys, exactly the traded assets, what each adds up to. */
  ghost predicate VolumesReported(normalize: string -> string, edges: seq<Edge>, n: string, volumes: seq<AssetVolume>) {
    && (forall i, j :: 0 <= i < j < |volumes| ==> StringLess(AssetKey(volumes[i].asset), AssetKey(volumes[j].asset)))
    && (forall key :: Trades(normalize, edges, n, key) ==> exists i :: 0 <= i < |volumes| && AssetKey(volumes[i].asset) == key)
    && (forall i :: 0 <= i < |volumes| ==> VolumeReported(normalize, edges, n, volumes[i]))
  }

  ghost predicate VolumeReported(normalize: string -> string, edges: seq<Edge>, n: string, v: AssetVolume) {
    var key := AssetKey(v.asset);
    Trades(normalize, edges, n, key) && LastAsset(edges, key) == Some(v.asset) && v.amount == Volume(normalize, edges, n, key)
  }

  ghost predicate NodeReported(normalize: string -> string, edges: seq<Edge>, seed: string, node: Node) {
    && node.isSeed == (node.id == seed)
    && node.inCount == Incoming(normalize, edges, node.id) && node.outCount == Outgoing(normalize, edges, node.id)
    && VolumesReported(normalize, edges, node.id, node.volumes)
  }

  /** The seed first, then the other ends of edges by ascending address, each with its totals. */
  ghost predicate Reported(normalize: string -> string, edges: seq<Edge>, seed: string, nodes: seq<Node>) {
    && InNodeOrder(seed, nodes)
    && (forall n :: IsNode(normalize, edges, seed, n) <==> exists a :: a in nodes && a.id == n)
    && (forall a :: a in nodes ==> NodeReported(normalize, edges, seed, a))
  }

  method SortedMembers(members: set<string>) returns (keys: seq<string>)
    ensures Ascending(keys) && forall key :: key in keys <==> key in members
  {
    var unordered := InAnyOrder(members);
    assert forall key :: key in members <==> key in SetOf(unordered);
    SortedKeys(unordered);
    keys := Sort(unordered, StringLess);
  }

  /** One volume for every key, in the order of the keys. */
  ghost predicate Lists(volumes: map<string, int>, assets: map<string, Asset>, keys: seq<string>, result: seq<AssetVolume>) {
    && Ascending(keys) && (forall key :: key in keys <==> key in volumes) && |result| == |keys|
    && forall i :: 0 <= i < |keys| ==> keys[i] in volumes && keys[i] in assets && result[i] == AssetVolume(assets[keys[i]], volumes[keys[i]])
  }

  method SortedAssetVolumes(volumes: map<string, int>, assets: map<string, Asset>) returns (result: seq<AssetVolume>)
    requires volumes.Keys <= assets.Keys
    ensures exists keys :: Lists(volumes, assets, keys, result)
  {
    var keys := SortedMembers(volumes.Keys);
    result := [];
    for i := 0 to |keys|
      invariant |result| == i
      invariant forall j :: 0 <= j < i ==> result[j] == AssetVolume(assets[keys[j]], volumes[keys[j]])
    {
      result := result + [AssetVolume(assets[keys[i]], volumes[keys[i]])];
    }
    assert Lists(volumes, assets, keys, result);
  }

  ghost predicate Ascending(keys: seq<string>) {
    forall i, j :: 0 <= i < j < |keys| ==> StringLess(keys[i], keys[j])
  }

  lemma TalliedAsset(normalize: string -> string, seed: string, edges: seq<Edge>, n: string, key: string)
    requires var t := TallyOf(normalize, seed, edges); key in VolumesOf(t.volumes, n)
    ensures var t := TallyOf(normalize, seed, edges);
            && key in t.assets && AssetKey(t.assets[key]) == key
            && VolumeReported(normalize, edges, n, AssetVolume(t.assets[key], VolumesOf(t.volumes, n)[key]))
  {
    TallyVolumes(normalize, seed, edges, n, key);
    TradedIsLast(normalize, edges, n, key);
    TallyAssets(normalize, seed, edges, key);
    LastAssetKey(edges, key);
  }

  /** Listing the totals of a node reports its volumes. */
  lemma ListedIsReported(normalize: string -> string, seed: string, edges: seq<Edge>, n: string, keys: seq<string>, result: seq<AssetVolume>)
    requires var t := TallyOf(normalize, seed, edges); Lists(VolumesOf(t.volumes, n), t.assets, keys, result)
    ensures VolumesReported(normalize, edges, n, result)
  {
    var t := TallyOf(normalize, seed, edges);
    forall i | 0 <= i < |result| ensures AssetKey(result[i].asset) == keys[i] && VolumeReported(normalize, edges, n, result[i]) {
      assert keys[i] in keys;
      TalliedAsset(normalize, seed, edges, n, keys[i]);
    }
    forall key | Trades(normalize, edges, n, key) ensures exists i :: 0 <= i < |result| && AssetKey(result[i].asset) == key {
      TallyVolumes(normalize, seed, edges, n, key);
      assert key in keys;
      var i :| 0 <= i < |keys| && keys[i] == key;
      assert AssetKey(result[i].asset) == key;
    }
  }

  lemma SortedKeys(unordered: seq<string>)
    requires Distinct(unordered)
    ensures var keys := Sort(unordered, StringLess);
            Ascending(keys) && forall key :: key in keys <==> key in SetOf(unordered)
  {
    var keys := Sort(unordered, StringLess);
    StringLessIsOrder();
    SortSorts(unordered, StringLess);
    SortedDistinct(unordered, StringLess);
    SameMembers(keys, unordered);
    forall i, j | 0 <= i < j < |keys| ensures StringLess(keys[i], keys[j]) {
      assert AtMost(StringLess, keys[i], keys[j]);
    }
  }

  /** The node list: seed first, then by address. */
  predicate Before(a: Node, b: Node) {
    if a.isSeed != b.isSeed then a.isSeed else StringLess(a.id, b.id)
  }

  lemma BeforeOrders(nodes: seq<Node>)
    requires OneNodeEach(nodes)
    ensures Orders(Before, nodes)
  {
    StringLessIsOrder();
  }

  ghost predicate OneNodeEach(nodes: seq<Node>) {
    forall a, b :: a in nodes && b in nodes && a.id == b.id ==> a == b
  }

  /** Sorting the nodes puts the seed first and the rest in order. */
  lemma SortedNodes(seed: string, nodes: seq<Node>)
    requires OneNodeEach(nodes) && Distinct(nodes) && (forall a :: a in nodes ==> a.isSeed == (a.id == seed))
    requires exists a :: a in nodes && a.isSeed
    ensures InNodeOrder(seed, Sort(nodes, Before))
  {
    var s := Sort(nodes, Before);
    NodesInOrder(nodes);
    SameMembers(s, nodes);
    var a :| a in nodes && a.isSeed;
    SortedOrder(seed, s, a);
  }

  lemma NodesInOrder(nodes: seq<Node>)
    requires OneNodeEach(nodes) && Distinct(nodes)
    ensures Sorted(Before, Sort(nodes, Before)) && Distinct(Sort(nodes, Before))
  {
    BeforeOrders(nodes);
    SortSorts(nodes, Before);
    SortedDistinct(nodes, Before);
  }

  lemma SortedOrder(seed: string, s: seq<Node>, a: Node)
    requires OneNodeEach(s) && Distinct(s) && Sorted(Before, s)
    requires forall b :: b in s ==> b.isSeed == (b.id == seed)
    requires a in s && a.isSeed
    ensures InNodeOrder(seed, s)
  {
    assert forall i :: 0 <= i < |s| ==> s[i] in s;
    forall i, j | 0 <= i < j < |s| ensures Before(s[i], s[j]) && s[i].id != s[j].id {
      assert AtMost(Before, s[i], s[j]);
    }
    var k :| 0 <= k < |s| && s[k] == a;
    assert k == 0 || Before(s[0], s[k]);
  }

  ghost predicate InNodeOrder(seed: string, nodes: seq<Node>) {
    && nodes != [] && nodes[0].id == seed
    && (forall i, j :: 1 <= i < j < |nodes| ==> StringLess(nodes[i].id, nodes[j].id))
    && (forall i :: 1 <= i < |nodes| ==> nodes[i].id != seed)
  }

  method TallyEdges(normalize: string -> string, seed: string, edges: seq<Edge>) returns (t: Tally)
    ensures t == TallyOf(normalize, seed, edges)
  {
    var nodes := map[seed := true];
    var ins: map<string, nat>, outs: map<string, nat>, volumes: map<string, map<string, int>> := map[], map[], map[];
    var assets: map<string, Asset> := map[];
    for i := 0 to |edges|
      invariant Tally(nodes, ins, outs, volumes, assets) == TallyOf(normalize, seed, edges[..i])
    {
      TallyStep(normalize, seed, edges, i);
      var from, to := normalize(edges[i].source), normalize(edges[i].target);
      if from !in nodes {
        nodes := nodes[from := from == seed];
      }
      if to !in nodes {
        nodes := nodes[to := to == seed];
      }
      outs := outs[from := CountOf(outs, from) + 1];
      ins := ins[to := CountOf(ins, to) + 1];
      var amount := ParseAmount(edges[i].amount);
      if amount.Some? {
        var key := AssetKey(edges[i].asset);
        assets := assets[key := edges[i].asset];
        volumes := AddAssetVolume(volumes, from, key, amount.value);
        volumes := AddAssetVolume(volumes, to, key, amount.value);
      }
    }
    assert edges[..|edges|] == edges;
    t := Tally(nodes, ins, outs, volumes, assets);
  }

  /** The nodes of the result, and its edges in the order of their IDs. */
  method GraphFromEdges(normalize: string -> string, address: string, edges: seq<Edge>) returns (nodes: seq<Node>, sorted: seq<Edge>)
    ensures Reported(normalize, edges, normalize(address), nodes)
    ensures sorted == Sort(edges, EarlierId)
    ensures multiset(sorted) == multiset(edges) && forall i, j :: 0 <= i < j < |sorted| ==> !StringLess(sorted[j].id, sorted[i].id)
  {
    EdgesAscend(edges);
    var seed := normalize(address);
    var t := TallyEdges(normalize, seed, edges);
    nodes := NodesOf(normalize, seed, edges, t);
    sorted := Sort(edges, EarlierId);
  }

  lemma EdgesAscend(edges: seq<Edge>)
    ensures var s := Sort(edges, EarlierId); forall i, j :: 0 <= i < j < |s| ==> !StringLess(s[j].id, s[i].id)
  {
    StringLessIsOrder();
    SortAscends(edges, EarlierId);
    var s := Sort(edges, EarlierId);
    forall i, j | 0 <= i < j < |s| ensures !StringLess(s[j].id, s[i].id) {
      assert !EarlierId(s[j], s[i]);
    }
  }

  predicate EarlierId(a: Edge, b: Edge) {
    StringLess(a.id, b.id)
  }

  lemma TallyStep(normalize: string -> string, seed: string, edges: seq<Edge>, i: nat)
    requires i < |edges|
    ensures TallyOf(normalize, seed, edges[..i + 1]) == AddEdge(normalize, seed, TallyOf(normalize, seed, edges[..i]), edges[i])
  {
    assert edges[..i + 1][..i] == edges[..i];
  }

  method NodesOf(normalize: string -> string, seed: string, ghost edges: seq<Edge>, t: Tally) returns (nodes: seq<Node>)
    requires t == TallyOf(normalize, seed, edges)
    ensures Reported(normalize, edges, seed, nodes)
  {
    var ids := InAnyOrder(t.nodes.Keys);
    nodes := [];
    for i := 0 to |ids|
      invariant |nodes| == i && forall j :: 0 <= j < i ==> nodes[j].id == ids[j] && NodeReported(normalize, edges, seed, nodes[j])
    {
      assert ids[i] in SetOf(ids);
      TalliedAssets(normalize, seed, edges, ids[i]);
      TallyCounts(normalize, seed, edges, ids[i]);
      var listed := SortedAssetVolumes(VolumesOf(t.volumes, ids[i]), t.assets);
      ghost var keys :| Lists(VolumesOf(t.volumes, ids[i]), t.assets, keys, listed);
      ListedIsReported(normalize, seed, edges, ids[i], keys, listed);
      nodes := nodes + [Node(ids[i], t.nodes[ids[i]], CountOf(t.ins, ids[i]), CountOf(t.outs, ids[i]), listed)];
    }
    AllReported(normalize, seed, edges, ids, nodes);
    nodes := Sort(nodes, Before);
  }

  lemma TalliedAssets(normalize: string -> string, seed: string, edges: seq<Edge>, n: string)
    ensures var t := TallyOf(normalize, seed, edges); VolumesOf(t.volumes, n).Keys <= t.assets.Keys
  {
    var t := TallyOf(normalize, seed, edges);
    forall key | key in VolumesOf(t.volumes, n) ensures key in t.assets {
      TalliedAsset(normalize, seed, edges, n, key);
    }
  }

  lemma AllReported(normalize: string -> string, seed: string, edges: seq<Edge>, ids: seq<string>, nodes: seq<Node>)
    requires Distinct(ids) && SetOf(ids) == TallyOf(normalize, seed, edges).nodes.Keys && |nodes| == |ids|
    requires forall i :: 0 <= i < |ids| ==> nodes[i].id == ids[i] && NodeReported(normalize, edges, seed, nodes[i])
    ensures Reported(normalize, edges, seed, Sort(nodes, Before))
  {
    var s := Sort(nodes, Before);
    SameMembers(s, nodes);
    forall n ensures n in ids <==> IsNode(normalize, edges, seed, n) {
      TallyCounts(normalize, seed, edges, n);
      assert n in ids <==> n in SetOf(ids);
    }
    forall n | IsNode(normalize, edges, seed, n) ensures exists a :: a in nodes && a.id == n {
      var i :| 0 <= i < |ids| && ids[i] == n;
      assert nodes[i] in nodes;
    }
    forall i, j | 0 <= i < j < |nodes| ensures nodes[i].id != nodes[j].id {
    }
    assert OneNodeEach(nodes);
    assert IsNode(normalize, edges, seed, seed);
    SortedNodes(seed, nodes);
    forall i | 0 <= i < |s| ensures NodeReported(normalize, edges, seed, s[i]) && IsNode(normalize, edges, seed, s[i].id) {
      assert s[i] in s;
    }
  }

  // ----- nothing is lost between the edges and the nodes

  function IncomingAt(normalize: string -> string, edges: seq<Edge>): string -> int {
    n => Incoming(normalize, edges, n)
  }

  function OutgoingAt(normalize: string -> string, edges: seq<Edge>): string -> int {
    n => Outgoing(normalize, edges, n)
  }

  function VolumeAt(normalize: string -> string, edges: seq<Edge>, key: string): string -> int {
    n => Volume(normalize, edges, n, key)
  }

  ghost predicate Covers(normalize: string -> string, edges: seq<Edge>, ids: seq<string>) {
    Distinct(ids) && forall e :: e in edges ==> normalize(e.source) in ids && normalize(e.target) in ids
  }

  lemma {:induction false} CountsAddUp(normalize: string -> string, edges: seq<Edge>, ids: seq<string>)
    requires Covers(normalize, edges, ids)
    ensures SumOver(ids, IncomingAt(normalize, edges)) == |edges| == SumOver(ids, OutgoingAt(normalize, edges))
  {
    if edges == [] {
      SumZero(ids, IncomingAt(normalize, edges));
      SumZero(ids, OutgoingAt(normalize, edges));
    } else {
      var k := |edges| - 1;
      CountsAddUp(normalize, edges[..k], ids);
      SumBump(ids, IncomingAt(normalize, edges[..k]), IncomingAt(normalize, edges), normalize(edges[k].target), 1);
      SumBump(ids, OutgoingAt(normalize, edges[..k]), OutgoingAt(normalize, edges), normalize(edges[k].source), 1);
    }
  }

  function HalfStep(normalize: string -> string, edges: seq<Edge>, key: string): string -> int
    requires edges != []
  {
    var k := |edges| - 1;
    n => Volume(normalize, edges[..k], n, key) + if normalize(edges[k].source) == n then Moved(edges[k], key) else 0
  }

  /** Both ends of every edge are credited, so the volumes come to twice what was moved. */
  lemma {:induction false} VolumesAddUp(normalize: string -> string, edges: seq<Edge>, ids: seq<string>, key: string)
    requires Covers(normalize, edges, ids)
    ensures SumOver(ids, VolumeAt(normalize, edges, key)) == 2 * TotalMoved(edges, key)
  {
    if edges == [] {
      SumZero(ids, VolumeAt(normalize, edges, key));
    } else {
      var k := |edges| - 1;
      VolumesAddUp(normalize, edges[..k], ids, key);
      var half := HalfStep(normalize, edges, key);
      SumBump(ids, VolumeAt(normalize, edges[..k], key), half, normalize(edges[k].source), Moved(edges[k], key));
      SumBump(ids, half, VolumeAt(normalize, edges, key), normalize(edges[k].target), Moved(edges[k], key));
    }
  }

  // ----- the same for the reported nodes

  function IdsOf(nodes: seq<Node>): (ids: seq<string>)
    ensures |ids| == |nodes| && forall i :: 0 <= i < |nodes| ==> ids[i] == nodes[i].id
  {
    seq(|nodes|, i requires 0 <= i < |nodes| => nodes[i].id)
  }

  function TotalIn(nodes: seq<Node>): nat {
    if nodes == [] then 0 else TotalIn(nodes[..|nodes| - 1]) + nodes[|nodes| - 1].inCount
  }

  function TotalOut(nodes: seq<Node>): nat {
    if nodes == [] then 0 else TotalOut(nodes[..|nodes| - 1]) + nodes[|nodes| - 1].outCount
  }

  predicate IsUnder(v: AssetVolume, key: string) {
    AssetKey(v.asset) == key
  }

  function Listing(volumes: seq<AssetVolume>, key: string): int {
    if volumes == [] then 0
    else
      var k := |volumes| - 1;
      Listing(volumes[..k], key) + if IsUnder(volumes[k], key) then volumes[k].amount else 0
  }

  function TotalListed(nodes: seq<Node>, key: string): int {
    if nodes == [] then 0 else TotalListed(nodes[..|nodes| - 1], key) + Listing(nodes[|nodes| - 1].volumes, key)
  }

  lemma {:induction false} NotListed(volumes: seq<AssetVolume>, key: string)
    requires forall v :: v in volumes ==> !IsUnder(v, key)
    ensures Listing(volumes, key) == 0
  {
    if volumes != [] {
      NotListed(volumes[..|volumes| - 1], key);
    }
  }

  lemma {:induction false} ListedOnce(volumes: seq<AssetVolume>, i: nat, key: string)
    requires i < |volumes|
    requires forall j :: 0 <= j < |volumes| ==> (IsUnder(volumes[j], key) <==> j == i)
    ensures Listing(volumes, key) == volumes[i].amount
  {
    var k := |volumes| - 1;
    if i == k {
      NotListed(volumes[..k], key);
    } else {
      ListedOnce(volumes[..k], i, key);
    }
  }

  lemma {:induction false} UntradedIsZero(normalize: string -> string, edges: seq<Edge>, n: string, key: string)
    requires !Trades(normalize, edges, n, key)
    ensures Volume(normalize, edges, n, key) == 0
  {
    if edges != [] {
      TradesStep(normalize, edges, n, key);
      UntradedIsZero(normalize, edges[..|edges| - 1], n, key);
    }
  }

  lemma ListingIsVolume(normalize: string -> string, edges: seq<Edge>, n: string, volumes: seq<AssetVolume>, key: string)
    requires VolumesReported(normalize, edges, n, volumes)
    ensures Listing(volumes, key) == Volume(normalize, edges, n, key)
  {
    if i :| 0 <= i < |volumes| && IsUnder(volumes[i], key) {
      StringLessIsOrder();
      ListedOnce(volumes, i, key);
      assert VolumeReported(normalize, edges, n, volumes[i]);
    } else {
      NotListed(volumes, key);
      UntradedIsZero(normalize, edges, n, key);
    }
  }

  lemma {:induction false} TotalsAreSums(normalize: string -> string, edges: seq<Edge>, seed: string, nodes: seq<Node>, key: string)
    requires forall a :: a in nodes ==> NodeReported(normalize, edges, seed, a)
    ensures TotalIn(nodes) == SumOver(IdsOf(nodes), IncomingAt(normalize, edges))
    ensures TotalOut(nodes) == SumOver(IdsOf(nodes), OutgoingAt(normalize, edges))
    ensures TotalListed(nodes, key) == SumOver(IdsOf(nodes), VolumeAt(normalize, edges, key))
  {
    if nodes != [] {
      var k := |nodes| - 1;
      TotalsAreSums(normalize, edges, seed, nodes[..k], key);
      assert IdsOf(nodes)[..k] == IdsOf(nodes[..k]);
      assert nodes[k] in nodes;
      ListingIsVolume(normalize, edges, nodes[k].id, nodes[k].volumes, key);
    }
  }

  lemma ReportedCovers(normalize: string -> string, edges: seq<Edge>, seed: string, nodes: seq<Node>)
    requires Reported(normalize, edges, seed, nodes)
    ensures Covers(normalize, edges, IdsOf(nodes))
  {
    var ids := IdsOf(nodes);
    StringLessIsOrder();
    forall i, j | 0 <= i < j < |ids| ensures ids[i] != ids[j] {
      if i > 0 {
        assert StringLess(ids[i], ids[j]);
      }
    }
    forall n | IsNode(normalize, edges, seed, n) ensures n in ids {
      var a :| a in nodes && a.id == n;
      var i :| 0 <= i < |nodes| && nodes[i] == a;
      assert ids[i] == n;
    }
    forall e | e in edges ensures normalize(e.source) in ids && normalize(e.target) in ids {
      assert Ends(normalize, e, normalize(e.source)) && Ends(normalize, e, normalize(e.target));
      assert IsNode(normalize, edges, seed, normalize(e.source)) && IsNode(normalize, edges, seed, normalize(e.target));
    }
  }

  /** Every edge is counted once in and once out, and every readable amount is credited twice. */
  lemma ReportConserves(normalize: string -> string, edges: seq<Edge>, seed: string, nodes: seq<Node>, key: string)
    requires Reported(normalize, edges, seed, nodes)
    ensures TotalIn(nodes) == |edges| == TotalOut(nodes)
    ensures TotalListed(nodes, key) == 2 * TotalMoved(edges, key)
  {
    ReportedCovers(normalize, edges, seed, nodes);
    CountsAddUp(normalize, edges, IdsOf(nodes));
    VolumesAddUp(normalize, edges, IdsOf(nodes), key);
    TotalsAreSums(normalize, edges, seed, nodes, key);
  }
}
