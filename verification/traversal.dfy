/** The bounded breadth-first traversal over stored transfers. */
module Traversal {
  import opened Options
  import opened Ordering
  import opened Text
  import opened Transfers
  import opened Selection
  import opened Balls

  const DEFAULT_DEPTH: nat := 1
  const MAX_DEPTH: nat := 3
  const MAX_NODES: nat := 100
  const MAX_EDGES: nat := 250
  const MAX_NEIGHBOURS: nat := 50

  function GraphDepth(depth: nat): (d: nat)
    ensures 1 <= d <= MAX_DEPTH
  {
    if depth == 0 then DEFAULT_DEPTH else if depth > MAX_DEPTH then MAX_DEPTH else depth
  }

  datatype Direction = Both | Inbound | Outbound

  /** A stored transfer under its key. */
  datatype Stored = Stored(id: string, item: TransferItem)

  function TransferId(network: string, t: TransferItem): string {
    network + ":" + t.hash + ":" + t.eventId
  }

  /** What the traversal reads: the store's answers, the address codec and the label registry.
      None is a failed query. */
  datatype Env = Env(network: string, direction: Direction, rows: set<Stored>, neighbours: string -> Option<seq<Stored>>,
                     normalize: string -> string, requested: nat, ranking: Ranking, labelled: set<string>)

  predicate Incident(direction: Direction, t: TransferItem, u: string) {
    match direction
    case Inbound => t.to == u
    case Outbound => t.from == u
    case Both => t.from == u || t.to == u
  }

  predicate RowValid(env: Env, r: Stored) {
    r.id == TransferId(env.network, r.item) && env.normalize(r.item.from) == r.item.from && env.normalize(r.item.to) == r.item.to
  }

  ghost predicate UniqueKeys(rows: set<Stored>) {
    forall r, s :: r in rows && s in rows && r.id == s.id ==> r == s
  }

  /** The store as the writer leaves it: keys name their transfers, addresses are normalized, and
      a query returns at most fifty incident rows. */
  ghost predicate StoreValid(env: Env) {
    && (forall r :: r in env.rows ==> RowValid(env, r))
    && UniqueKeys(env.rows)
    && (forall u :: env.neighbours(u).Some? ==> |env.neighbours(u).value| <= MAX_NEIGHBOURS)
    && (forall u, r :: env.neighbours(u).Some? && r in env.neighbours(u).value ==> r in env.rows && Incident(env.direction, r.item, u))
  }

  // ----- one node

  function Items(rows: seq<Stored>): (items: seq<TransferItem>)
    ensures |items| == |rows| && forall i :: 0 <= i < |rows| ==> items[i] == rows[i].item
  {
    seq(|rows|, i requires 0 <= i < |rows| => rows[i].item)
  }

  function FilterTransfers(ts: seq<TransferItem>, address: string, direction: Direction): (r: seq<TransferItem>)
    ensures forall t :: t in r <==> t in ts && (direction.Inbound? ==> t.to == address) && (direction.Outbound? ==> t.from == address)
  {
    if ts == [] then []
    else
      var k := |ts| - 1;
      assert ts == ts[..k] + [ts[k]];
      FilterTransfers(ts[..k], address, direction) +
        if (direction.Inbound? && ts[k].to != address) || (direction.Outbound? && ts[k].from != address) then [] else [ts[k]]
  }

  function Known(env: Env): set<string> {
    if env.ranking.KnownEntity? then env.labelled else {}
  }

  ghost function SelectedItems(env: Env, u: string, rows: seq<Stored>): seq<TransferItem> {
    Selected(FilterTransfers(Items(rows), u, env.direction), u, env.requested, env.ranking, Known(env))
  }

  function Ids(network: string, ts: seq<TransferItem>): set<string> {
    set t | t in ts :: TransferId(network, t)
  }

  /** The rows a node contributes. */
  ghost function SelectedAt(env: Env, u: string): set<Stored> {
    if env.neighbours(u).None? then {}
    else
      RowsIn(env.neighbours(u).value, Ids(env.network, SelectedItems(env, u, env.neighbours(u).value)))
  }

  /** The end of the transfer that is not u. */
  function Other(t: TransferItem, u: string): string {
    if SameFold(t.to, u) then t.from else t.to
  }

  /** Some transfer selected at u leads to v. */
  ghost predicate LeadsTo(env: Env, u: string, v: string) {
    exists r :: r in SelectedAt(env, u) && Other(r.item, u) == v
  }

  /** The transfer leads from u to v: against its direction for inbound, along it for outbound,
      either way for both. */
  predicate Links(direction: Direction, u: string, t: TransferItem, v: string) {
    && ((t.from == u && t.to == v) || (t.to == u && t.from == v))
    && (direction.Inbound? ==> t.to == u && t.from == v)
    && (direction.Outbound? ==> t.from == u && t.to == v)
  }

  lemma SelectedItemIsEligible(env: Env, u: string, rows: seq<Stored>, t: TransferItem)
    requires t in SelectedItems(env, u, rows)
    ensures t in Items(rows) && Eligible(Counterparty(t, u), u)
  {
    var filtered := FilterTransfers(Items(rows), u, env.direction);
    var chosen := Chosen(StatsOf(filtered, u, Known(env)), Limit(env.requested), env.ranking);
    KeepsExactly(filtered, u, chosen);
    ChosenAreEligible(filtered, u, Known(env), Limit(env.requested), env.ranking);
  }

  lemma SelectedRowIsEligible(env: Env, u: string, r: Stored)
    requires StoreValid(env) && r in SelectedAt(env, u)
    ensures r in env.rows && RowValid(env, r) && Incident(env.direction, r.item, u) && Eligible(Counterparty(r.item, u), u)
  {
    var rows := env.neighbours(u).value;
    var t :| t in SelectedItems(env, u, rows) && TransferId(env.network, t) == r.id;
    SelectedItemIsEligible(env, u, rows, t);
    var i :| 0 <= i < |rows| && rows[i].item == t;
    assert rows[i] in rows && rows[i] in env.rows && r in rows;
    assert RowValid(env, rows[i]) && RowValid(env, r);
  }

  lemma SelectedAtLinks(env: Env, u: string, r: Stored)
    requires StoreValid(env) && r in SelectedAt(env, u)
    ensures r in env.rows && Links(env.direction, u, r.item, Other(r.item, u))
    ensures Other(r.item, u) != u && env.normalize(Other(r.item, u)) == Other(r.item, u)
  {
    SelectedRowIsEligible(env, u, r);
  }

  // ----- walks

  /** Addresses and stored transfers from the seed, each transfer leading to the next address. */
  ghost predicate IsWalk(env: Env, seed: string, nodes: seq<string>, rows: seq<Stored>) {
    && |nodes| == |rows| + 1 && nodes[0] == seed
    && forall i :: 0 <= i < |rows| ==> rows[i] in env.rows && Links(env.direction, nodes[i], rows[i].item, nodes[i + 1])
  }

  /** A walk goes against the transfers for inbound, along them for outbound, and either way for both. */
  lemma WalkFollows(env: Env, seed: string, nodes: seq<string>, rows: seq<Stored>, i: nat)
    requires IsWalk(env, seed, nodes, rows) && i < |rows|
    ensures var t := rows[i].item;
            match env.direction
            case Inbound => t.to == nodes[i] && t.from == nodes[i + 1]
            case Outbound => t.from == nodes[i] && t.to == nodes[i + 1]
            case Both => (t.from, t.to) == (nodes[i], nodes[i + 1]) || (t.to, t.from) == (nodes[i], nodes[i + 1])
  {
    assert Links(env.direction, nodes[i], rows[i].item, nodes[i + 1]);
  }

  ghost predicate Reaches(env: Env, seed: string, v: string, steps: nat) {
    exists nodes, rows :: IsWalk(env, seed, nodes, rows) && |rows| <= steps && nodes[|rows|] == v
  }

  /** The transfer is the last one of a walk of at most `steps` transfers from the seed. */
  ghost predicate OnWalk(env: Env, seed: string, r: Stored, steps: nat) {
    exists nodes, rows :: IsWalk(env, seed, nodes, rows) && 0 < |rows| <= steps && rows[|rows| - 1] == r
  }

  lemma SeedReaches(env: Env, seed: string, steps: nat)
    ensures Reaches(env, seed, seed, steps)
  {
    assert IsWalk(env, seed, [seed], []);
  }

  lemma AppendWalk(env: Env, seed: string, nodes: seq<string>, rows: seq<Stored>, r: Stored, v: string)
    requires IsWalk(env, seed, nodes, rows) && r in env.rows && Links(env.direction, nodes[|rows|], r.item, v)
    ensures IsWalk(env, seed, nodes + [v], rows + [r])
  {
    var nodes', rows' := nodes + [v], rows + [r];
    forall i | 0 <= i < |rows'| ensures rows'[i] in env.rows && Links(env.direction, nodes'[i], rows'[i].item, nodes'[i + 1]) {
      if i < |rows| {
        assert rows'[i] == rows[i] && nodes'[i] == nodes[i] && nodes'[i + 1] == nodes[i + 1];
      }
    }
  }

  lemma ExtendWalk(env: Env, seed: string, u: string, r: Stored, v: string, steps: nat)
    requires Reaches(env, seed, u, steps) && r in env.rows && Links(env.direction, u, r.item, v)
    ensures OnWalk(env, seed, r, steps + 1) && Reaches(env, seed, v, steps + 1)
  {
    var nodes, rows :| IsWalk(env, seed, nodes, rows) && |rows| <= steps && nodes[|rows|] == u;
    AppendWalk(env, seed, nodes, rows, r, v);
    var nodes', rows' := nodes + [v], rows + [r];
    assert rows'[|rows'| - 1] == r && nodes'[|rows'|] == v;
  }

  // ----- the unbounded search, level by level

  /** The selected steps and rows, as a space to be searched. */
  ghost function SpaceOf(env: Env, seed: string): Space<Stored> {
    Space((u, v) => LeadsTo(env, u, v), (u, r) => r in SelectedAt(env, u), seed)
  }

  /** The caps are out of reach: fewer than 100 addresses lie within the depth, and fewer than 250
      rows are selected closer than it. */
  ghost predicate Uncapped(env: Env, seed: string, depth: nat)
    requires depth > 0
  {
    Roomy(SpaceOf(env, seed), depth, MAX_NODES, MAX_EDGES)
  }

  // ----- merging the rows of one address

  /** Collected rows under their own keys. */
  ghost predicate Keyed(env: Env, stored: map<string, Stored>) {
    forall id :: id in stored ==> stored[id].id == id && stored[id] in env.rows
  }

  predicate Has(stored: map<string, Stored>, r: Stored) {
    r.id in stored && stored[r.id] == r
  }

  ghost function RowsUnder(stored: map<string, Stored>, ids: set<string>): set<Stored>
    requires ids <= stored.Keys
  {
    set id | id in ids :: stored[id]
  }

  lemma {:induction false} RowsUnderSize(env: Env, stored: map<string, Stored>, ids: set<string>)
    requires Keyed(env, stored) && ids <= stored.Keys
    ensures |ids| == |RowsUnder(stored, ids)|
  {
    if ids != {} {
      var id :| id in ids;
      RowsUnderSize(env, stored, ids - {id});
      assert RowsUnder(stored, ids) == RowsUnder(stored, ids - {id}) + {stored[id]};
    }
  }

  /** `added` was stored and nothing was lost. */
  ghost predicate StoredMerged(env: Env, added: set<Stored>, stored0: map<string, Stored>, stored: map<string, Stored>) {
    Keyed(env, stored) && forall r :: Has(stored, r) <==> Has(stored0, r) || r in added
  }

  /** The addresses `others` were offered: as many are marked and queued as the node cap allows. */
  ghost predicate VisitedMerged(others: set<string>, visited0: set<string>, next0: seq<string>, visited: set<string>, next: seq<string>) {
    && |visited| <= MAX_NODES
    && (forall v :: v in visited0 ==> v in visited)
    && (forall v :: v in visited ==> v in visited0 || v in others)
    && (|visited| < MAX_NODES ==> forall v :: v in others ==> v in visited)
    && (forall v :: v in next <==> v in next0 || (v in visited && v !in visited0))
  }

  ghost function Others(rows: set<Stored>, u: string): set<string> {
    set r | r in rows :: Other(r.item, u)
  }

  lemma OthersAdd(rows: set<Stored>, r: Stored, u: string)
    ensures Others(rows + {r}, u) == Others(rows, u) + {Other(r.item, u)}
  {
  }

  datatype Search = Search(stored: map<string, Stored>, visited: set<string>, next: seq<string>)

  /** Merge one selected row. */
  function MergeRow(env: Env, u: string, s: Search, r: Stored): Search {
    var v := env.normalize(Other(r.item, u));
    var mark := v !in s.visited && |s.visited| < MAX_NODES;
    Search(s.stored[r.id := r], if mark then s.visited + {v} else s.visited, if mark then s.next + [v] else s.next)
  }

  /** Merge the rows whose key was selected, in order. */
  function MergeRows(env: Env, u: string, s: Search, rows: seq<Stored>, ids: set<string>): Search {
    if rows == [] then s
    else
      var k := |rows| - 1;
      var front := MergeRows(env, u, s, rows[..k], ids);
      if rows[k].id in ids then MergeRow(env, u, front, rows[k]) else front
  }

  lemma PutRow(env: Env, added: set<Stored>, stored0: map<string, Stored>, stored: map<string, Stored>, r: Stored)
    requires UniqueKeys(env.rows) && r in env.rows && StoredMerged(env, added, stored0, stored)
    ensures StoredMerged(env, added + {r}, stored0, stored[r.id := r]) && |stored[r.id := r]| <= |stored| + 1
  {
    assert r.id in stored ==> stored[r.id] == r;
    forall x ensures Has(stored[r.id := r], x) <==> Has(stored, x) || x == r {
    }
  }

  lemma {:induction false} MergeRowsStores(env: Env, u: string, s: Search, rows: seq<Stored>, ids: set<string>)
    requires UniqueKeys(env.rows) && Keyed(env, s.stored)
    requires forall r :: r in RowsIn(rows, ids) ==> r in env.rows
    ensures var m := MergeRows(env, u, s, rows, ids);
            StoredMerged(env, RowsIn(rows, ids), s.stored, m.stored) && |m.stored| <= |s.stored| + |rows|
  {
    if rows != [] {
      var k := |rows| - 1;
      assert rows == rows[..k] + [rows[k]];
      RowsInAppend(rows[..k], rows[k], ids);
      MergeRowsStores(env, u, s, rows[..k], ids);
      if rows[k].id in ids {
        var front := MergeRows(env, u, s, rows[..k], ids);
        assert rows[k] in RowsIn(rows, ids);
        PutRow(env, RowsIn(rows[..k], ids), s.stored, front.stored, rows[k]);
      }
    }
  }

  lemma VisitOne(others: set<string>, visited0: set<string>, next0: seq<string>, visited: set<string>, next: seq<string>, v: string)
    requires VisitedMerged(others, visited0, next0, visited, next)
    ensures var mark := v !in visited && |visited| < MAX_NODES;
            VisitedMerged(others + {v}, visited0, next0, if mark then visited + {v} else visited, if mark then next + [v] else next)
  {
  }

  lemma {:induction false} MergeRowsVisits(env: Env, u: string, s: Search, rows: seq<Stored>, ids: set<string>)
    requires |s.visited| <= MAX_NODES
    requires forall r :: r in RowsIn(rows, ids) ==> env.normalize(Other(r.item, u)) == Other(r.item, u)
    ensures var m := MergeRows(env, u, s, rows, ids);
            VisitedMerged(Others(RowsIn(rows, ids), u), s.visited, s.next, m.visited, m.next)
  {
    if rows != [] {
      var k := |rows| - 1;
      assert rows == rows[..k] + [rows[k]];
      RowsInAppend(rows[..k], rows[k], ids);
      MergeRowsVisits(env, u, s, rows[..k], ids);
      if rows[k].id in ids {
        var front := MergeRows(env, u, s, rows[..k], ids);
        assert rows[k] in RowsIn(rows, ids);
        assert MergeRows(env, u, s, rows, ids) == MergeRow(env, u, front, rows[k]);
        OthersAdd(RowsIn(rows[..k], ids), rows[k], u);
        VisitOne(Others(RowsIn(rows[..k], ids), u), s.visited, s.next, front.visited, front.next, Other(rows[k].item, u));
      }
    }
  }

  /** The loop over the rows of one address. */
  method MergeLoop(env: Env, current: string, search0: Search, neighbours: seq<Stored>, ids: set<string>) returns (search: Search)
    ensures search == MergeRows(env, current, search0, neighbours, ids)
  {
    var stored, visited, next := search0.stored, search0.visited, search0.next;
    for i := 0 to |neighbours|
      invariant Search(stored, visited, next) == MergeRows(env, current, search0, neighbours[..i], ids)
    {
      var transfer := neighbours[i];
      assert neighbours[..i + 1][..i] == neighbours[..i];
      if transfer.id !in ids {
        continue;
      }
      stored := stored[transfer.id := transfer];
      var neighbour := transfer.item.to;
      if SameFold(neighbour, current) {
        neighbour := transfer.item.from;
      }
      neighbour := env.normalize(neighbour);
      if neighbour !in visited && |visited| < MAX_NODES {
        visited := visited + {neighbour};
        next := next + [neighbour];
      }
    }
    assert neighbours[..|neighbours|] == neighbours;
    return Search(stored, visited, next);
  }

  /** What Expand promises about one address. */
  ghost predicate Expanded(env: Env, u: string, s0: Search, s: Search) {
    && StoredMerged(env, SelectedAt(env, u), s0.stored, s.stored) && |s.stored| <= |s0.stored| + MAX_NEIGHBOURS
    && VisitedMerged(Others(SelectedAt(env, u), u), s0.visited, s0.next, s.visited, s.next)
  }

  /** Query one address, select, and merge what it contributes. */
  method Expand(env: Env, current: string, search0: Search) returns (ok: bool, search: Search)
    requires StoreValid(env) && Keyed(env, search0.stored) && |search0.visited| <= MAX_NODES
    ensures ok <==> env.neighbours(current).Some?
    ensures if ok then Expanded(env, current, search0, search) && search == Contribution(env, current, search0) else search == search0
  {
    search := search0;
    var rows := env.neighbours(current);
    if rows.None? {
      return false, search;
    }
    var neighbours := rows.value;
    var items := FilterTransfers(Items(neighbours), current, env.direction);
    var selected := SelectCounterpartyTransfers(items, current, env.requested, env.ranking, Known(env));
    var ids := Ids(env.network, selected);
    search := MergeLoop(env, current, search0, neighbours, ids);
    forall r | r in SelectedAt(env, current)
      ensures r in env.rows && env.normalize(Other(r.item, current)) == Other(r.item, current)
    {
      SelectedAtLinks(env, current, r);
    }
    MergeRowsStores(env, current, search0, neighbours, ids);
    MergeRowsVisits(env, current, search0, neighbours, ids);
    return true, search;
  }

  // ----- the search as a function: what is expanded, and in which order

  /** What an address adds to the search. */
  ghost function Contribution(env: Env, u: string, s: Search): Search
    requires env.neighbours(u).Some?
  {
    var rows := env.neighbours(u).value;
    MergeRows(env, u, s, rows, Ids(env.network, SelectedItems(env, u, rows)))
  }

  predicate Capped(s: Search) {
    |s.stored| >= MAX_EDGES || |s.visited| >= MAX_NODES
  }

  /** How far a frontier is expanded: `count` of its addresses; not ok if a query fails. */
  datatype Expansion = Expansion(search: Search, count: nat, ok: bool)

  ghost function ExpandAll(env: Env, s: Search, frontier: seq<string>): (x: Expansion)
    ensures x.count <= |frontier|
    decreases |frontier|
  {
    if frontier == [] || Capped(s) then Expansion(s, 0, true)
    else if env.neighbours(frontier[0]).None? then Expansion(s, 0, false)
    else
      var x := ExpandAll(env, Contribution(env, frontier[0], s), frontier[1..]);
      Expansion(x.search, x.count + 1, x.ok)
  }

  /** The search, the frontier of each hop, and how much of it was expanded. */
  datatype Trail = Trail(search: Search, frontiers: seq<seq<string>>, expanded: seq<seq<string>>, ok: bool)

  ghost function SearchFrom(env: Env, hop: nat, depth: nat, s: Search): Trail
    decreases depth - hop
  {
    if hop >= depth || s.next == [] || |s.stored| >= MAX_EDGES then Trail(s, [], [], true)
    else
      var x := ExpandAll(env, s.(next := []), s.next);
      if !x.ok then Trail(x.search, [s.next], [s.next[..x.count]], false)
      else
        var rest := SearchFrom(env, hop + 1, depth, x.search.(next := Sort(x.search.next, StringLess)));
        Trail(rest.search, [s.next] + rest.frontiers, [s.next[..x.count]] + rest.expanded, rest.ok)
  }

  ghost function TrailOf(env: Env, seed: string, depth: nat): Trail {
    SearchFrom(env, 0, depth, Search(map[], {seed}, [seed]))
  }

  /** The same outcome from here as from there. */
  ghost predicate SameOutcome(x: Expansion, y: Expansion) {
    x.search == y.search && x.ok == y.ok
  }

  // ----- one hop: what it reaches

  /** Everything collected so far lies on short walks. */
  ghost predicate Grounded(env: Env, seed: string, stored: map<string, Stored>, steps: nat) {
    forall id :: id in stored ==> OnWalk(env, seed, stored[id], steps)
  }

  ghost predicate AllReached(env: Env, seed: string, nodes: seq<string>, steps: nat) {
    forall v :: v in nodes ==> Reaches(env, seed, v, steps)
  }

  lemma GroundedMore(env: Env, seed: string, stored: map<string, Stored>, steps: nat)
    requires Grounded(env, seed, stored, steps)
    ensures Grounded(env, seed, stored, steps + 1)
  {
    forall id | id in stored ensures OnWalk(env, seed, stored[id], steps + 1) {
      assert OnWalk(env, seed, stored[id], steps);
    }
  }

  lemma ExpandGrounded(env: Env, seed: string, u: string, steps: nat, s0: Search, s: Search)
    requires StoreValid(env) && Reaches(env, seed, u, steps) && Keyed(env, s0.stored) && Expanded(env, u, s0, s)
    requires Grounded(env, seed, s0.stored, steps + 1) && AllReached(env, seed, s0.next, steps + 1)
    ensures Grounded(env, seed, s.stored, steps + 1) && AllReached(env, seed, s.next, steps + 1)
  {
    forall id | id in s.stored ensures OnWalk(env, seed, s.stored[id], steps + 1) {
      var r := s.stored[id];
      assert Has(s.stored, r);
      if r in SelectedAt(env, u) {
        SelectedAtLinks(env, u, r);
        ExtendWalk(env, seed, u, r, Other(r.item, u), steps);
      } else {
        assert OnWalk(env, seed, s0.stored[r.id], steps + 1);
      }
    }
    forall v | v in s.next ensures Reaches(env, seed, v, steps + 1) {
      if v !in s0.next {
        var r :| r in SelectedAt(env, u) && Other(r.item, u) == v;
        SelectedAtLinks(env, u, r);
        ExtendWalk(env, seed, u, r, v, steps);
      }
    }
  }

  // ----- one hop: which addresses it visits

  /** The row was selected at one of these addresses. */
  ghost predicate SelectedFrom(env: Env, nodes: set<string>, r: Stored) {
    exists u :: u in nodes && r in SelectedAt(env, u)
  }

  predicate EndOf(stored: map<string, Stored>, v: string) {
    exists id :: id in stored && (stored[id].item.from == v || stored[id].item.to == v)
  }

  ghost predicate MarksReached(env: Env, seed: string, steps: nat, s: Search) {
    forall v :: v in s.visited ==> Reaches(env, seed, v, steps) && (v == seed || EndOf(s.stored, v))
  }

  ghost predicate RowsSourced(env: Env, s: Search) {
    forall id :: id in s.stored ==> SelectedFrom(env, s.visited, s.stored[id])
  }

  predicate EndsMarked(s: Search) {
    |s.visited| < MAX_NODES ==> forall id :: id in s.stored ==> s.stored[id].item.from in s.visited && s.stored[id].item.to in s.visited
  }

  /** The visited addresses: the seed and ends of collected rows, all of them within reach; every collected row was selected
      at one of them, and unless the cap is reached both its ends are among them. */
  ghost predicate Visits(env: Env, seed: string, steps: nat, s: Search) {
    && seed in s.visited && (forall v :: v in s.next ==> v in s.visited)
    && MarksReached(env, seed, steps, s) && RowsSourced(env, s) && EndsMarked(s)
  }

  predicate AllMarked(nodes: seq<string>, marked: set<string>) {
    forall i :: 0 <= i < |nodes| ==> nodes[i] in marked
  }

  lemma VisitsMore(env: Env, seed: string, steps: nat, more: nat, s: Search)
    requires Visits(env, seed, steps, s) && steps <= more
    ensures Visits(env, seed, more, s)
  {
    forall v | v in s.visited ensures Reaches(env, seed, v, more) {
      ReachesLonger(env, seed, v, steps, more);
    }
  }

  /** A row is kept, or it was selected now and runs between the address and the end it leads to. */
  lemma ExpandedRow(env: Env, u: string, s0: Search, s: Search, id: string)
    requires StoreValid(env) && Keyed(env, s0.stored) && Expanded(env, u, s0, s) && id in s.stored
    ensures (id in s0.stored && s.stored[id] == s0.stored[id]) || s.stored[id] in SelectedAt(env, u)
    ensures s.stored[id] in SelectedAt(env, u) ==> Links(env.direction, u, s.stored[id].item, Other(s.stored[id].item, u))
  {
    var r := s.stored[id];
    assert Has(s.stored, r);
    if r in SelectedAt(env, u) {
      SelectedAtLinks(env, u, r);
    }
  }

  lemma ExpandedMark(env: Env, seed: string, u: string, steps: nat, s0: Search, s: Search, v: string)
    requires StoreValid(env) && Reaches(env, seed, u, steps) && Keyed(env, s0.stored) && Expanded(env, u, s0, s)
    requires v in s.visited && v !in s0.visited
    ensures Reaches(env, seed, v, steps + 1) && EndOf(s.stored, v)
  {
    var r :| r in SelectedAt(env, u) && Other(r.item, u) == v;
    SelectedAtLinks(env, u, r);
    ExtendWalk(env, seed, u, r, v, steps);
    assert Has(s.stored, r);
  }

  lemma EndsStay(env: Env, u: string, s0: Search, s: Search, v: string)
    requires Keyed(env, s0.stored) && Expanded(env, u, s0, s) && EndOf(s0.stored, v)
    ensures EndOf(s.stored, v)
  {
    var id :| id in s0.stored && (s0.stored[id].item.from == v || s0.stored[id].item.to == v);
    assert Has(s0.stored, s0.stored[id]) && Has(s.stored, s0.stored[id]);
  }

  lemma ExpandMarks(env: Env, seed: string, u: string, steps: nat, s0: Search, s: Search)
    requires StoreValid(env) && Reaches(env, seed, u, steps) && Keyed(env, s0.stored) && Expanded(env, u, s0, s)
    requires MarksReached(env, seed, steps + 1, s0)
    ensures MarksReached(env, seed, steps + 1, s)
  {
    forall v | v in s.visited ensures Reaches(env, seed, v, steps + 1) && (v == seed || EndOf(s.stored, v)) {
      if v !in s0.visited {
        ExpandedMark(env, seed, u, steps, s0, s, v);
      } else if v != seed {
        EndsStay(env, u, s0, s, v);
      }
    }
  }

  lemma StillSelected(env: Env, nodes: set<string>, more: set<string>, r: Stored)
    requires SelectedFrom(env, nodes, r) && forall v :: v in nodes ==> v in more
    ensures SelectedFrom(env, more, r)
  {
    var w :| w in nodes && r in SelectedAt(env, w);
    assert w in more;
  }

  lemma ExpandSources(env: Env, u: string, s0: Search, s: Search)
    requires StoreValid(env) && Keyed(env, s0.stored) && Expanded(env, u, s0, s) && RowsSourced(env, s0) && u in s0.visited
    ensures RowsSourced(env, s)
  {
    forall id | id in s.stored ensures SelectedFrom(env, s.visited, s.stored[id]) {
      ExpandedRow(env, u, s0, s, id);
      if s.stored[id] in SelectedAt(env, u) {
        assert u in s.visited;
      } else {
        StillSelected(env, s0.visited, s.visited, s.stored[id]);
      }
    }
  }

  lemma ExpandEnds(env: Env, u: string, s0: Search, s: Search)
    requires StoreValid(env) && Keyed(env, s0.stored) && Expanded(env, u, s0, s) && EndsMarked(s0) && u in s0.visited
    ensures EndsMarked(s)
  {
    SubsetSize(s0.visited, s.visited);
    forall id | id in s.stored && |s.visited| < MAX_NODES ensures s.stored[id].item.from in s.visited && s.stored[id].item.to in s.visited {
      ExpandedRow(env, u, s0, s, id);
      if s.stored[id] in SelectedAt(env, u) {
        assert Other(s.stored[id].item, u) in Others(SelectedAt(env, u), u);
      }
    }
  }

  lemma ExpandVisits(env: Env, seed: string, u: string, steps: nat, s0: Search, s: Search)
    requires StoreValid(env) && Reaches(env, seed, u, steps) && Keyed(env, s0.stored) && Expanded(env, u, s0, s)
    requires Visits(env, seed, steps + 1, s0) && u in s0.visited
    ensures Visits(env, seed, steps + 1, s)
  {
    ExpandMarks(env, seed, u, steps, s0, s);
    ExpandSources(env, u, s0, s);
    ExpandEnds(env, u, s0, s);
  }

  // ----- one hop: with the caps out of reach it misses nothing

  ghost function FoundOf(s: Search): Found<Stored> {
    Found((iset r | Has(s.stored, r)), s.visited, SetOf(s.next))
  }

  lemma ExpandAdds(env: Env, seed: string, u: string, s0: Search, s: Search)
    requires Expanded(env, u, s0, s) && |s.visited| < MAX_NODES
    ensures Adds(SpaceOf(env, seed), u, FoundOf(s0), FoundOf(s))
  {
    assert forall v :: v in Others(SelectedAt(env, u), u) <==> LeadsTo(env, u, v);
  }

  lemma StoredSize(env: Env, stored: map<string, Stored>) returns (rows: set<Stored>)
    requires Keyed(env, stored)
    ensures |stored| == |rows| && forall r :: r in rows ==> Has(stored, r)
  {
    rows := RowsUnder(stored, stored.Keys);
    RowsUnderSize(env, stored, stored.Keys);
    assert |stored| == |stored.Keys|;
  }

  // ----- the frontier

  ghost predicate SearchValid(env: Env, seed: string, steps: nat, s: Search) {
    && Keyed(env, s.stored) && |s.visited| <= MAX_NODES && |s.stored| < MAX_EDGES + MAX_NEIGHBOURS
    && AllReached(env, seed, s.next, steps) && Grounded(env, seed, s.stored, steps) && Visits(env, seed, steps, s)
  }

  /** What a hop keeps while it expands the frontier; with room, `done` has been expanded on top of
      the marked nodes `base`. */
  ghost predicate Progress(env: Env, space: Space<Stored>, depth: nat, hop: nat, s: Search,
                           roomy: bool, base: set<string>, done: set<string>)
  {
    && SearchValid(env, space.seed, hop + 1, s)
    && (roomy ==> hop < depth && Roomy(space, depth, MAX_NODES, MAX_EDGES)
                  && Near(space, hop, base) && done <= base && Complete(space, done, base, FoundOf(s)))
  }

  lemma ProgressRoom(env: Env, space: Space<Stored>, depth: nat, hop: nat, s: Search, base: set<string>, done: set<string>)
    requires Progress(env, space, depth, hop, s, true, base, done)
    ensures |s.stored| < MAX_EDGES && |s.visited| < MAX_NODES
  {
    var rows := StoredSize(env, s.stored);
    Balls.RoomLeft(space, depth, MAX_NODES, MAX_EDGES, hop, done, base, FoundOf(s), rows);
  }

  lemma ExpandFits(env: Env, seed: string, depth: nat, hop: nat, u: string, base: set<string>, done: set<string>, s0: Search, s: Search)
    requires Progress(env, SpaceOf(env, seed), depth, hop, s0, true, base, done) && u in base && Expanded(env, u, s0, s)
    ensures |s.visited| < MAX_NODES
  {
    assert forall v :: v in Others(SelectedAt(env, u), u) ==> LeadsTo(env, u, v);
    MarksFit(SpaceOf(env, seed), depth, MAX_NODES, MAX_EDGES, hop, done, base, FoundOf(s0), u, s.visited);
  }

  lemma ProgressStep(env: Env, seed: string, depth: nat, hop: nat, u: string, s0: Search, s: Search,
                     roomy: bool, base: set<string>, done: set<string>)
    requires StoreValid(env) && Reaches(env, seed, u, hop) && |s0.stored| < MAX_EDGES
    requires Progress(env, SpaceOf(env, seed), depth, hop, s0, roomy, base, done) && Expanded(env, u, s0, s)
    requires u in s0.visited && (roomy ==> u in base)
    ensures Progress(env, SpaceOf(env, seed), depth, hop, s, roomy, base, if roomy then done + {u} else done)
  {
    ExpandGrounded(env, seed, u, hop, s0, s);
    ExpandVisits(env, seed, u, hop, s0, s);
    if roomy {
      ExpandFits(env, seed, depth, hop, u, base, done, s0, s);
      ExpandAdds(env, seed, u, s0, s);
      CompleteStep(SpaceOf(env, seed), u, done, base, FoundOf(s0), FoundOf(s));
    }
  }

  /** Expand one node of the frontier. */
  method Visit(env: Env, seed: string, depth: nat, hop: nat, u: string, search0: Search,
               ghost roomy: bool, ghost base: set<string>, ghost done: set<string>) returns (ok: bool, search: Search)
    requires StoreValid(env) && Reaches(env, seed, u, hop) && |search0.stored| < MAX_EDGES
    requires Progress(env, SpaceOf(env, seed), depth, hop, search0, roomy, base, done)
    requires u in search0.visited && (roomy ==> u in base)
    ensures ok ==> Progress(env, SpaceOf(env, seed), depth, hop, search, roomy, base, if roomy then done + {u} else done)
    ensures ok ==> search0.visited <= search.visited
    ensures !ok ==> SearchValid(env, seed, hop + 1, search) && QueryFails(env, search.visited)
    ensures ok <==> env.neighbours(u).Some?
    ensures search == if ok then Contribution(env, u, search0) else search0
  {
    ok, search := Expand(env, u, search0);
    if ok {
      ProgressStep(env, seed, depth, hop, u, search0, search, roomy, base, done);
    }
  }

  /** One node of the frontier, unless a cap is exhausted; with room, none is. */
  method HopStep(env: Env, seed: string, depth: nat, hop: nat, frontier: seq<string>, i: nat, search0: Search,
                 ghost roomy: bool, ghost base: set<string>, ghost done: set<string>) returns (capped: bool, ok: bool, search: Search)
    requires StoreValid(env) && i < |frontier| && Reaches(env, seed, frontier[i], hop) && frontier[i] in search0.visited
    requires Progress(env, SpaceOf(env, seed), depth, hop, search0, roomy, base, ExpandedSoFar(roomy, done, frontier[..i]))
    requires roomy ==> base == done + SetOf(frontier)
    ensures capped ==> ok && !roomy && search == search0
    ensures capped <==> Capped(search0)
    ensures !capped ==> (ok <==> env.neighbours(frontier[i]).Some?)
    ensures !capped ==> search == if ok then Contribution(env, frontier[i], search0) else search0
    ensures ok && !capped ==>
              Progress(env, SpaceOf(env, seed), depth, hop, search, roomy, base, ExpandedSoFar(roomy, done, frontier[..i + 1]))
              && search0.visited <= search.visited
    ensures !ok ==> SearchValid(env, seed, hop + 1, search) && QueryFails(env, search.visited)
  {
    ghost var reached := ExpandedSoFar(roomy, done, frontier[..i]);
    if roomy {
      ProgressRoom(env, SpaceOf(env, seed), depth, hop, search0, base, reached);
    }
    if |search0.stored| >= MAX_EDGES || |search0.visited| >= MAX_NODES {
      return true, true, search0;
    }
    assert frontier[i] in SetOf(frontier);
    FrontierStep(frontier, i, done);
    capped := false;
    ok, search := Visit(env, seed, depth, hop, frontier[i], search0, roomy, base, reached);
  }

  function ExpandedSoFar(roomy: bool, done: set<string>, frontier: seq<string>): set<string> {
    if roomy then done + SetOf(frontier) else done
  }

  /** Expand the frontier, node by node, until it or a cap is exhausted. With room for the whole
      frontier, all of it is expanded. */
  method Hop(env: Env, seed: string, depth: nat, hop: nat, frontier: seq<string>, search0: Search,
             ghost roomy: bool, ghost base: set<string>, ghost done: set<string>)
    returns (ok: bool, search: Search)
    requires StoreValid(env) && AllReached(env, seed, frontier, hop) && AllMarked(frontier, search0.visited)
    requires Progress(env, SpaceOf(env, seed), depth, hop, search0, roomy, base, done) && (roomy ==> base == done + SetOf(frontier))
    ensures ok ==> Progress(env, SpaceOf(env, seed), depth, hop, search, roomy, base, if roomy then base else done)
    ensures !ok ==> SearchValid(env, seed, hop + 1, search) && QueryFails(env, search.visited)
    ensures search == ExpandAll(env, search0, frontier).search && ok == ExpandAll(env, search0, frontier).ok
  {
    search := search0;
    assert frontier[..0] == [] && done + SetOf(frontier[..0]) == done;
    assert frontier[0..] == frontier;
    for i := 0 to |frontier|
      invariant Progress(env, SpaceOf(env, seed), depth, hop, search, roomy, base, ExpandedSoFar(roomy, done, frontier[..i]))
      invariant AllMarked(frontier, search.visited)
      invariant SameOutcome(ExpandAll(env, search0, frontier), ExpandAll(env, search, frontier[i..]))
    {
      assert frontier[i] in frontier;
      ExpandAllStep(env, search, frontier, i);
      var capped;
      capped, ok, search := HopStep(env, seed, depth, hop, frontier, i, search, roomy, base, done);
      if capped || !ok {
        return;
      }
    }
    assert frontier[..|frontier|] == frontier;
    ok := true;
  }

  lemma ExpandAllStep(env: Env, s: Search, frontier: seq<string>, i: nat)
    requires i < |frontier|
    ensures SameOutcome(ExpandAll(env, s, frontier[i..]),
                        if Capped(s) then Expansion(s, 0, true)
                        else if env.neighbours(frontier[i]).None? then Expansion(s, 0, false)
                        else ExpandAll(env, Contribution(env, frontier[i], s), frontier[i + 1..]))
  {
    assert frontier[i..][1..] == frontier[i + 1..];
  }

  lemma FrontierStep(frontier: seq<string>, i: nat, done: set<string>)
    requires i < |frontier|
    ensures done + SetOf(frontier[..i + 1]) == (done + SetOf(frontier[..i])) + {frontier[i]}
  {
    assert frontier[..i + 1] == frontier[..i] + [frontier[i]];
  }

  // ----- the result

  function ById(): (Stored, Stored) -> bool {
    (a: Stored, b: Stored) => StringLess(a.id, b.id)
  }

  /** Ascending keys, none twice. */
  ghost predicate InKeyOrder(rows: seq<Stored>) {
    forall i, j :: 0 <= i < j < |rows| ==> StringLess(rows[i].id, rows[j].id)
  }

  lemma SortedByKey(env: Env, rows: seq<Stored>)
    requires UniqueKeys(env.rows) && Distinct(rows) && forall r :: r in rows ==> r in env.rows
    ensures InKeyOrder(Sort(rows, ById())) && SetOf(Sort(rows, ById())) == SetOf(rows)
  {
    StringLessIsOrder();
    assert Orders(ById(), rows);
    var s := Sort(rows, ById());
    SortSorts(rows, ById());
    SameMembers(s, rows);
    SortedDistinct(rows, ById());
    forall i, j | 0 <= i < j < |s| ensures StringLess(s[i].id, s[j].id) {
      assert AtMost(ById(), s[i], s[j]);
    }
  }

  method Collect(env: Env, stored: map<string, Stored>) returns (result: seq<Stored>)
    requires UniqueKeys(env.rows) && Keyed(env, stored)
    ensures InKeyOrder(result) && |result| == |stored| && forall r :: r in result <==> Has(stored, r)
  {
    var keys := InAnyOrder(stored.Keys);
    assert forall k :: k in keys <==> k in SetOf(keys);
    var rows := seq(|keys|, i requires 0 <= i < |keys| => stored[keys[i]]);
    assert Distinct(rows) by {
      forall i, j | 0 <= i < j < |rows| ensures rows[i] != rows[j] {
        assert rows[i].id == keys[i] && rows[j].id == keys[j];
      }
    }
    forall r ensures r in rows <==> Has(stored, r) {
      if Has(stored, r) {
        var i :| 0 <= i < |keys| && keys[i] == r.id;
        assert rows[i] == r;
      }
    }
    DistinctSize(keys);
    assert |stored| == |stored.Keys|;
    SortedByKey(env, rows);
    result := Sort(rows, ById());
    SameMembers(result, rows);
  }

  // ----- all levels

  lemma StartLevel(env: Env, seed: string)
    ensures AllReached(env, seed, [seed], 0)
    ensures LevelReached(SpaceOf(env, seed), 0, FoundOf(Search(map[], {seed}, [seed])))
  {
    SeedReaches(env, seed, 0);
  }

  lemma ResultOnWalks(env: Env, seed: string, hop: nat, depth: nat, stored: map<string, Stored>, result: seq<Stored>)
    requires hop <= depth && Grounded(env, seed, stored, hop) && forall r :: r in result ==> Has(stored, r)
    ensures forall t :: t in result ==> OnWalk(env, seed, t, depth)
  {
    forall t | t in result ensures OnWalk(env, seed, t, depth) {
      assert OnWalk(env, seed, stored[t.id], hop);
    }
  }

  /** At most 100 addresses are visited, all of them within the depth, the seed among them. */
  ghost predicate VisitedWithin(env: Env, seed: string, depth: nat, visited: set<string>) {
    |visited| <= MAX_NODES && seed in visited && forall v :: v in visited ==> Reaches(env, seed, v, depth)
  }

  /** The query for one of the visited addresses fails. */
  ghost predicate QueryFails(env: Env, visited: set<string>) {
    exists u :: u in visited && env.neighbours(u).None?
  }

  lemma ReachesLonger(env: Env, seed: string, u: string, steps: nat, more: nat)
    requires Reaches(env, seed, u, steps) && steps <= more
    ensures Reaches(env, seed, u, more)
  {
  }

  /** The search between two hops; its queue is the next frontier. */
  ghost predicate BetweenHops(env: Env, space: Space<Stored>, depth: nat, hop: nat, s: Search, roomy: bool) {
    exists found :: found == FoundOf(s) && HasFound(env, space, depth, hop, s, found, roomy)
  }

  ghost predicate HasFound(env: Env, space: Space<Stored>, depth: nat, hop: nat, s: Search, found: Found<Stored>, roomy: bool) {
    && hop <= depth && Keyed(env, s.stored) && |s.visited| <= MAX_NODES && |s.stored| < MAX_EDGES + MAX_NEIGHBOURS
    && Grounded(env, space.seed, s.stored, hop) && AllReached(env, space.seed, s.next, hop) && Visits(env, space.seed, hop, s)
    && (roomy ==> depth > 0 && Roomy(space, depth, MAX_NODES, MAX_EDGES) && LevelReached(space, hop, found))
  }

  lemma SearchStarts(env: Env, space: Space<Stored>, depth: nat, hop: nat, s: Search, roomy: bool)
    requires space == SpaceOf(env, space.seed) && s == Search(map[], {space.seed}, [space.seed])
    requires depth > 0 && hop == 0 && roomy == Roomy(space, depth, MAX_NODES, MAX_EDGES)
    ensures BetweenHops(env, space, depth, hop, s, roomy)
  {
    StartLevel(env, space.seed);
    assert HasFound(env, space, depth, hop, s, FoundOf(s), roomy);
  }

  lemma HopStarts(env: Env, seed: string, depth: nat, hop: nat, s: Search, roomy: bool)
    requires hop < depth && BetweenHops(env, SpaceOf(env, seed), depth, hop, s, roomy)
    ensures Progress(env, SpaceOf(env, seed), depth, hop, s.(next := []), roomy, s.visited, s.visited - SetOf(s.next))
    ensures AllReached(env, seed, s.next, hop) && AllMarked(s.next, s.visited)
    ensures roomy ==> s.visited == (s.visited - SetOf(s.next)) + SetOf(s.next)
  {
    GroundedMore(env, seed, s.stored, hop);
    VisitsMore(env, seed, hop, hop + 1, s);
    if roomy {
      LevelStarts(SpaceOf(env, seed), hop, FoundOf(s));
      var f, g := FoundOf(s).(queued := {}), FoundOf(s.(next := []));
      assert forall r :: r in f.rows <==> r in g.rows;
      assert g.queued == {};
    }
  }

  lemma HopEnds(env: Env, seed: string, depth: nat, hop: nat, s0: Search, s: Search, roomy: bool)
    requires hop < depth && BetweenHops(env, SpaceOf(env, seed), depth, hop, s0, roomy)
    requires Progress(env, SpaceOf(env, seed), depth, hop, s, roomy, s0.visited, if roomy then s0.visited else s0.visited - SetOf(s0.next))
    ensures BetweenHops(env, SpaceOf(env, seed), depth, hop + 1, s, roomy)
  {
    if roomy {
      LevelEnds(SpaceOf(env, seed), hop, s0.visited, FoundOf(s));
    }
    assert HasFound(env, SpaceOf(env, seed), depth, hop + 1, s, FoundOf(s), roomy);
  }

  lemma SortQueue(env: Env, space: Space<Stored>, depth: nat, hop: nat, s: Search, roomy: bool)
    requires BetweenHops(env, space, depth, hop, s, roomy)
    ensures BetweenHops(env, space, depth, hop, s.(next := Sort(s.next, StringLess)), roomy)
  {
    var next := Sort(s.next, StringLess);
    SameMembers(next, s.next);
    assert SetOf(next) == SetOf(s.next);
    if roomy {
      var f, g := FoundOf(s), FoundOf(s.(next := next));
      assert f.queued == g.queued && f.rows == g.rows;
    }
    assert HasFound(env, space, depth, hop, s.(next := next), FoundOf(s.(next := next)), roomy);
  }

  /** With the caps out of reach, the rows found at the end are those selected closer than `depth`. */
  lemma SearchEnds(env: Env, seed: string, depth: nat, hop: nat, s: Search)
    requires BetweenHops(env, SpaceOf(env, seed), depth, hop, s, true)
    requires hop == depth || s.next == [] || |s.stored| >= MAX_EDGES
    ensures forall r :: Has(s.stored, r) <==> CarriedWithin(SpaceOf(env, seed), depth - 1, r)
  {
    if hop < depth {
      HopStarts(env, seed, depth, hop, s, true);
      ProgressRoom(env, SpaceOf(env, seed), depth, hop, s.(next := []), s.visited, s.visited - SetOf(s.next));
    }
    forall r ensures Has(s.stored, r) <==> CarriedWithin(SpaceOf(env, seed), depth - 1, r) {
      LevelsDone(SpaceOf(env, seed), depth, hop, FoundOf(s), r);
    }
  }

  lemma FailureWithin(env: Env, seed: string, steps: nat, depth: nat, s: Search)
    requires SearchValid(env, seed, steps, s) && steps <= depth
    ensures VisitedWithin(env, seed, depth, s.visited)
  {
    VisitsMore(env, seed, steps, depth, s);
  }

  /** One level: expand the queue, then queue what it led to, in order. */
  method Level(env: Env, seed: string, ghost space: Space<Stored>, depth: nat, hop: nat, search0: Search, ghost roomy: bool) returns (ok: bool, search: Search)
    requires StoreValid(env) && space == SpaceOf(env, seed) && hop < depth && BetweenHops(env, space, depth, hop, search0, roomy)
    ensures ok ==> BetweenHops(env, space, depth, hop + 1, search, roomy)
    ensures !ok ==> VisitedWithin(env, seed, depth, search.visited) && QueryFails(env, search.visited)
    ensures var x := ExpandAll(env, search0.(next := []), search0.next);
            ok == x.ok && search == if ok then x.search.(next := Sort(x.search.next, StringLess)) else x.search
  {
    HopStarts(env, seed, depth, hop, search0, roomy);
    ok, search := Hop(env, seed, depth, hop, search0.next, search0.(next := []), roomy,
                      search0.visited, search0.visited - SetOf(search0.next));
    if !ok {
      FailureWithin(env, seed, hop + 1, depth, search);
      return;
    }
    HopEnds(env, seed, depth, hop, search0, search, roomy);
    SortQueue(env, space, depth, hop + 1, search, roomy);
    search := search.(next := Sort(search.next, StringLess));
  }

  /** What the traversal promises of the rows it returns. */
  ghost predicate Traversed(env: Env, seed: string, depth: nat, result: seq<Stored>)
    requires depth > 0
  {
    // ascending keys, at most 249 transfers plus one answer of fifty
    && InKeyOrder(result) && |result| <= MAX_EDGES - 1 + MAX_NEIGHBOURS
    // every transfer ends a walk of at most `depth` transfers from the seed
    && (forall t :: t in result ==> OnWalk(env, seed, t, depth))
    // with the caps out of reach: exactly what is selected at addresses closer than `depth`
    && (Uncapped(env, seed, depth) ==> forall t :: t in result <==> CarriedWithin(SpaceOf(env, seed), depth - 1, t))
  }

  /** The rows account for the visited addresses: every row was selected at one of them, and they are the seed and ends of
      rows; below the cap, all ends of rows. */
  ghost predicate Accounts(env: Env, seed: string, visited: set<string>, result: seq<Stored>) {
    && (forall t :: t in result ==> SelectedFrom(env, visited, t))
    && (forall v :: v in visited ==> v == seed || exists t :: t in result && (t.item.from == v || t.item.to == v))
    && (|visited| < MAX_NODES ==> forall t :: t in result ==> t.item.from in visited && t.item.to in visited)
  }

  lemma AccountsAtEnd(env: Env, seed: string, depth: nat, hop: nat, s: Search, result: seq<Stored>)
    requires Keyed(env, s.stored) && Visits(env, seed, hop, s) && hop <= depth && |s.visited| <= MAX_NODES
    requires forall r :: r in result <==> Has(s.stored, r)
    ensures VisitedWithin(env, seed, depth, s.visited) && Accounts(env, seed, s.visited, result)
  {
    VisitsMore(env, seed, hop, depth, s);
    forall v | v in s.visited && v != seed ensures exists t :: t in result && (t.item.from == v || t.item.to == v) {
      var id :| id in s.stored && (s.stored[id].item.from == v || s.stored[id].item.to == v);
      assert Has(s.stored, s.stored[id]);
    }
  }

  lemma TraversedAtEnd(env: Env, seed: string, depth: nat, hop: nat, s: Search, roomy: bool, result: seq<Stored>)
    requires depth > 0 && BetweenHops(env, SpaceOf(env, seed), depth, hop, s, roomy) && roomy == Uncapped(env, seed, depth)
    requires hop == depth || s.next == [] || |s.stored| >= MAX_EDGES
    requires InKeyOrder(result) && |result| == |s.stored| && forall r :: r in result <==> Has(s.stored, r)
    ensures Traversed(env, seed, depth, result)
  {
    ResultOnWalks(env, seed, hop, depth, s.stored, result);
    if roomy {
      SearchEnds(env, seed, depth, hop, s);
    }
  }

  ghost predicate SameEnd(t: Trail, u: Trail) {
    t.search == u.search && t.ok == u.ok
  }

  /** All levels, until the depth, the frontier or the edge cap is exhausted. */
  method SearchLevels(env: Env, seed: string, depth: nat, start: Search, ghost space: Space<Stored>, ghost roomy: bool)
    returns (ok: bool, search: Search, hop: nat)
    requires StoreValid(env) && space == SpaceOf(env, seed) && BetweenHops(env, space, depth, 0, start, roomy)
    ensures ok ==> BetweenHops(env, space, depth, hop, search, roomy)
    ensures ok ==> hop == depth || search.next == [] || |search.stored| >= MAX_EDGES
    ensures !ok ==> VisitedWithin(env, seed, depth, search.visited) && QueryFails(env, search.visited)
    ensures SameEnd(SearchFrom(env, 0, depth, start), Trail(search, [], [], ok))
  {
    ok, search, hop := true, start, 0;
    while hop < depth && search.next != [] && |search.stored| < MAX_EDGES
      invariant hop <= depth && ok && BetweenHops(env, space, depth, hop, search, roomy)
      invariant SameEnd(SearchFrom(env, 0, depth, start), SearchFrom(env, hop, depth, search))
      decreases depth - hop
    {
      ok, search := Level(env, seed, space, depth, hop, search, roomy);
      if !ok {
        return;
      }
      hop := hop + 1;
    }
  }

  /** The bounded traversal. Some: the stored transfers found. None: a query failed. One hop unless the caller asks for more,
      and at most three. */
  method TraverseStoredGraph(env: Env, address: string, maxDepth: nat) returns (r: Option<seq<Stored>>, ghost visited: set<string>)
    requires StoreValid(env)
    ensures VisitedWithin(env, env.normalize(address), GraphDepth(maxDepth), visited)
    ensures r.Some? && maxDepth == 0 ==> Traversed(env, env.normalize(address), 1, r.value)
    ensures r.Some? && 1 <= maxDepth <= 3 ==> Traversed(env, env.normalize(address), maxDepth, r.value)
    ensures r.Some? && maxDepth > 3 ==> Traversed(env, env.normalize(address), 3, r.value)
    ensures var t := TrailOf(env, env.normalize(address), GraphDepth(maxDepth));
            (r.Some? <==> t.ok) && visited == t.search.visited && (r.Some? ==> forall x :: x in r.value <==> Has(t.search.stored, x))
    ensures r.Some? ==> Accounts(env, env.normalize(address), visited, r.value)
    ensures r.None? ==> QueryFails(env, visited)
  {
    var seed := env.normalize(address);
    var depth := GraphDepth(maxDepth);
    ghost var space := SpaceOf(env, seed);
    ghost var roomy := Roomy(space, depth, MAX_NODES, MAX_EDGES);
    var start := Search(map[], {seed}, [seed]);
    SearchStarts(env, space, depth, 0, start, roomy);
    var ok, search, hop := SearchLevels(env, seed, depth, start, space, roomy);
    visited := search.visited;
    if !ok {
      return None, visited;
    }
    var result := Collect(env, search.stored);
    TraversedAtEnd(env, seed, depth, hop, search, roomy, result);
    AccountsAtEnd(env, seed, depth, hop, search, result);
    r := Some(result);
  }

  function RowsIn(rows: seq<Stored>, ids: set<string>): set<Stored> {
    set r | r in rows && r.id in ids
  }

  lemma RowsInAppend(rows: seq<Stored>, r: Stored, ids: set<string>)
    ensures RowsIn(rows + [r], ids) == if r.id in ids then RowsIn(rows, ids) + {r} else RowsIn(rows, ids)
  {
  }
}
