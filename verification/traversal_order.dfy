/** Which addresses the bounded traversal expands, in which order, and what that makes of its result, capped or not. */
module TraversalOrder {
  import opened Options
  import opened Ordering
  import opened Text
  import opened Transfers
  import opened Selection
  import opened Traversal

  // ----- which rows an address contributes

  /** A transfer of the store's answer that runs in the asked direction and is with one of the counterparties chosen
      among all such transfers. */
  ghost predicate Qualifies(env: Env, u: string, rows: seq<Stored>, t: TransferItem) {
    var candidates := Asked(env, u, rows);
    var known := if env.ranking == KnownEntity then env.labelled else {};
    t in candidates && exists c :: IsWith(t, u, c) && c in Chosen(StatsOf(candidates, u, known), Limit(env.requested), env.ranking)
  }

  ghost function InDirection(direction: Direction, u: string): TransferItem -> bool {
    (t: TransferItem) => match direction case Inbound => t.to == u case Outbound => t.from == u case Both => true
  }

  /** The transfers of the answer in the asked direction, in its order. */
  ghost function Asked(env: Env, u: string, rows: seq<Stored>): seq<TransferItem> {
    Filter(Items(rows), InDirection(env.direction, u))
  }

  lemma {:induction false} FilterIsAsked(ts: seq<TransferItem>, u: string, direction: Direction)
    ensures FilterTransfers(ts, u, direction) == Filter(ts, InDirection(direction, u))
  {
    if ts != [] {
      FilterIsAsked(ts[..|ts| - 1], u, direction);
    }
  }

  lemma SelectedItemExactly(env: Env, u: string, rows: seq<Stored>, t: TransferItem)
    ensures t in SelectedItems(env, u, rows) <==> Qualifies(env, u, rows, t)
  {
    FilterIsAsked(Items(rows), u, env.direction);
    SelectedExactly(FilterTransfers(Items(rows), u, env.direction), u, env.requested, env.ranking, Known(env), t);
  }

  lemma RowOfItem(env: Env, u: string, r: Stored, t: TransferItem)
    requires StoreValid(env) && env.neighbours(u).Some? && r in env.neighbours(u).value && t in Items(env.neighbours(u).value)
    requires TransferId(env.network, t) == r.id
    ensures t == r.item
  {
    var rows := env.neighbours(u).value;
    var i :| 0 <= i < |rows| && rows[i].item == t;
    assert rows[i] in rows && RowValid(env, rows[i]) && rows[i].id == r.id && rows[i] in env.rows && r in env.rows;
  }

  /** An address contributes exactly the rows of the store's answer whose transfers qualify. */
  lemma SelectedAtExactly(env: Env, u: string, r: Stored)
    requires StoreValid(env)
    ensures r in SelectedAt(env, u) <==>
            env.neighbours(u).Some? && r in env.neighbours(u).value && Qualifies(env, u, env.neighbours(u).value, r.item)
  {
    if env.neighbours(u).Some? && r in env.neighbours(u).value {
      var rows := env.neighbours(u).value;
      assert RowValid(env, r);
      SelectedItemExactly(env, u, rows, r.item);
      if t :| t in SelectedItems(env, u, rows) && TransferId(env.network, t) == r.id {
        SelectedItemExactly(env, u, rows, t);
        AskedAreItems(env, u, rows, t);
        RowOfItem(env, u, r, t);
      }
    }
  }

  lemma AskedAreItems(env: Env, u: string, rows: seq<Stored>, t: TransferItem)
    requires t in Asked(env, u, rows)
    ensures t in Items(rows)
  {
    FilterExactly(Items(rows), InDirection(env.direction, u));
  }

  // ----- keys

  predicate NoColon(t: TransferItem) {
    ':' !in t.hash
  }

  /** Two transfers of a network have the same key if and only if they are the same event of the same transaction. */
  lemma TransferIdExactly(network: string, t: TransferItem, u: TransferItem)
    requires NoColon(t) && NoColon(u)
    ensures TransferId(network, t) == TransferId(network, u) <==> t.hash == u.hash && t.eventId == u.eventId
  {
    var s, v := t.hash + ":" + t.eventId, u.hash + ":" + u.eventId;
    assert TransferId(network, t) == network + ":" + s && TransferId(network, u) == network + ":" + v;
    if TransferId(network, t) == TransferId(network, u) {
      assert s == TransferId(network, t)[|network| + 1..] && v == TransferId(network, u)[|network| + 1..];
      SplitAt(':', t.hash, t.eventId, u.hash, u.eventId);
    }
  }

  // ----- merging

  /** What a search looks like between two expansions: its queue holds newly visited addresses, each once. */
  ghost predicate Tidy(env: Env, s: Search) {
    && Keyed(env, s.stored) && |s.visited| <= MAX_NODES && Distinct(s.next) && forall v :: v in s.next ==> v in s.visited
  }

  lemma {:induction false} MergeQueuesOnce(env: Env, u: string, s: Search, rows: seq<Stored>, ids: set<string>)
    requires Distinct(s.next) && forall v :: v in s.next ==> v in s.visited
    ensures var m := MergeRows(env, u, s, rows, ids); Distinct(m.next) && forall v :: v in m.next ==> v in m.visited
  {
    if rows != [] {
      var k := |rows| - 1;
      MergeQueuesOnce(env, u, s, rows[..k], ids);
      var front := MergeRows(env, u, s, rows[..k], ids);
      if rows[k].id in ids {
        QueueOnce(env, u, front, rows[k]);
      }
    }
  }

  lemma QueueOnce(env: Env, u: string, s: Search, r: Stored)
    requires Distinct(s.next) && forall v :: v in s.next ==> v in s.visited
    ensures var m := MergeRow(env, u, s, r); Distinct(m.next) && forall v :: v in m.next ==> v in m.visited
  {
  }

  lemma ContributionExpands(env: Env, u: string, s: Search)
    requires StoreValid(env) && Tidy(env, s) && env.neighbours(u).Some?
    ensures Expanded(env, u, s, Contribution(env, u, s)) && Tidy(env, Contribution(env, u, s))
  {
    var rows := env.neighbours(u).value;
    var ids := Ids(env.network, SelectedItems(env, u, rows));
    forall r | r in SelectedAt(env, u) ensures r in env.rows && env.normalize(Other(r.item, u)) == Other(r.item, u) {
      SelectedAtLinks(env, u, r);
    }
    MergeRowsStores(env, u, s, rows, ids);
    MergeRowsVisits(env, u, s, rows, ids);
    MergeQueuesOnce(env, u, s, rows, ids);
  }

  // ----- one frontier

  ghost predicate SelectedAmong(env: Env, nodes: seq<string>, r: Stored) {
    exists u :: u in nodes && r in SelectedAt(env, u)
  }

  ghost predicate LedTo(env: Env, nodes: seq<string>, v: string) {
    exists u :: u in nodes && LeadsTo(env, u, v)
  }

  /** The search grew by what these addresses contribute: their rows, and of the addresses they lead to as many as the cap
      allows. */
  ghost predicate GrewBy(env: Env, nodes: seq<string>, s: Search, t: Search) {
    && Tidy(env, t) && s.visited <= t.visited && |s.stored| <= |t.stored|
    && (forall r :: Has(t.stored, r) <==> Has(s.stored, r) || SelectedAmong(env, nodes, r))
    && (forall v :: v in t.visited ==> v in s.visited || LedTo(env, nodes, v))
    && (|t.visited| < MAX_NODES ==> forall v :: LedTo(env, nodes, v) ==> v in t.visited)
    && (forall v :: v in t.next <==> v in s.next || (v in t.visited && v !in s.visited))
  }

  lemma GrewByNone(env: Env, s: Search)
    requires Tidy(env, s)
    ensures GrewBy(env, [], s, s)
  {
  }

  lemma LedToOne(env: Env, u: string, v: string)
    ensures LedTo(env, [u], v) <==> LeadsTo(env, u, v)
  {
    assert u in [u];
  }

  lemma LedToMore(env: Env, nodes: seq<string>, more: seq<string>, v: string)
    ensures LedTo(env, nodes + more, v) <==> LedTo(env, nodes, v) || LedTo(env, more, v)
  {
    if u :| u in nodes && LeadsTo(env, u, v) {
      assert u in nodes + more;
    }
    if u :| u in more && LeadsTo(env, u, v) {
      assert u in nodes + more;
    }
  }

  lemma SelectedMore(env: Env, nodes: seq<string>, more: seq<string>, r: Stored)
    ensures SelectedAmong(env, nodes + more, r) <==> SelectedAmong(env, nodes, r) || SelectedAmong(env, more, r)
  {
    if u :| u in nodes && r in SelectedAt(env, u) {
      assert u in nodes + more;
    }
    if u :| u in more && r in SelectedAt(env, u) {
      assert u in nodes + more;
    }
  }

  lemma StoredGrows(env: Env, s: map<string, Stored>, t: map<string, Stored>)
    requires Keyed(env, s) && forall r :: Has(s, r) ==> Has(t, r)
    ensures |s| <= |t|
  {
    forall id | id in s ensures id in t {
      assert Has(s, s[id]);
    }
    assert s.Keys <= t.Keys;
    SubsetSize(s.Keys, t.Keys);
    assert |s| == |s.Keys| && |t| == |t.Keys|;
  }

  lemma GrewByOne(env: Env, u: string, s: Search, t: Search)
    requires StoreValid(env) && Tidy(env, s) && Tidy(env, t) && Expanded(env, u, s, t)
    ensures GrewBy(env, [u], s, t)
  {
    forall v ensures v in Others(SelectedAt(env, u), u) <==> LedTo(env, [u], v) {
      LedToOne(env, u, v);
    }
    assert u in [u];
    assert forall r :: SelectedAmong(env, [u], r) <==> r in SelectedAt(env, u);
    StoredGrows(env, s.stored, t.stored);
  }

  lemma GrewTwice(env: Env, nodes: seq<string>, more: seq<string>, s: Search, t: Search, w: Search)
    requires GrewBy(env, nodes, s, t) && GrewBy(env, more, t, w)
    ensures GrewBy(env, nodes + more, s, w)
  {
    SubsetSize(t.visited, w.visited);
    forall r ensures Has(w.stored, r) <==> Has(s.stored, r) || SelectedAmong(env, nodes + more, r) {
      SelectedMore(env, nodes, more, r);
    }
    forall v ensures LedTo(env, nodes + more, v) <==> LedTo(env, nodes, v) || LedTo(env, more, v) {
      LedToMore(env, nodes, more, v);
    }
  }

  /** As much of the frontier as was expanded: all of it, unless a cap or a failed query stopped it. */
  ghost predicate ExpandedTo(env: Env, s: Search, frontier: seq<string>, x: Expansion) {
    && x.count <= |frontier| && GrewBy(env, frontier[..x.count], s, x.search)
    && (x.ok && x.count < |frontier| ==> Capped(x.search))
    && (!x.ok ==> x.count < |frontier| && env.neighbours(frontier[x.count]).None?)
  }

  lemma OneMoreExpanded(env: Env, s: Search, frontier: seq<string>, t: Search, y: Expansion)
    requires frontier != [] && GrewBy(env, [frontier[0]], s, t) && ExpandedTo(env, t, frontier[1..], y)
    ensures ExpandedTo(env, s, frontier, Expansion(y.search, y.count + 1, y.ok))
  {
    GrewTwice(env, [frontier[0]], frontier[1..][..y.count], s, t, y.search);
    assert [frontier[0]] + frontier[1..][..y.count] == frontier[..y.count + 1];
  }

  lemma NoneExpanded(env: Env, s: Search, frontier: seq<string>, ok: bool)
    requires Tidy(env, s) && (if ok then frontier == [] || Capped(s) else frontier != [] && env.neighbours(frontier[0]).None?)
    ensures ExpandedTo(env, s, frontier, Expansion(s, 0, ok))
  {
    GrewByNone(env, s);
    assert frontier[..0] == [];
  }

  lemma {:induction false} FrontierExpands(env: Env, s: Search, frontier: seq<string>)
    requires StoreValid(env) && Tidy(env, s)
    ensures ExpandedTo(env, s, frontier, ExpandAll(env, s, frontier))
    decreases |frontier|
  {
    if frontier == [] || Capped(s) {
      NoneExpanded(env, s, frontier, true);
    } else if env.neighbours(frontier[0]).None? {
      NoneExpanded(env, s, frontier, false);
    } else {
      var t := Contribution(env, frontier[0], s);
      ContributionExpands(env, frontier[0], s);
      GrewByOne(env, frontier[0], s, t);
      FrontierExpands(env, t, frontier[1..]);
      OneMoreExpanded(env, s, frontier, t, ExpandAll(env, t, frontier[1..]));
    }
  }

  // ----- all frontiers

  ghost predicate InOrder(xs: seq<string>) {
    forall i, j :: 0 <= i < j < |xs| ==> StringLess(xs[i], xs[j])
  }

  lemma SortIsInOrder(xs: seq<string>)
    requires Distinct(xs)
    ensures InOrder(Sort(xs, StringLess)) && forall x :: x in Sort(xs, StringLess) <==> x in xs
  {
    StringLessIsOrder();
    SortSorts(xs, StringLess);
    SameMembers(Sort(xs, StringLess), xs);
    SortedDistinct(xs, StringLess);
    var s := Sort(xs, StringLess);
    forall i, j | 0 <= i < j < |s| ensures StringLess(s[i], s[j]) {
      assert AtMost(StringLess, s[i], s[j]);
    }
  }

  /** Every hop expands its frontier in dictionary order: all of it, unless a cap is reached or a query fails. */
  ghost predicate ExpandsInOrder(env: Env, t: Trail) {
    && |t.frontiers| == |t.expanded|
    && (forall h :: 0 <= h < |t.frontiers| ==> InOrder(t.frontiers[h]) && t.expanded[h] <= t.frontiers[h])
    && (forall h :: 0 <= h < |t.frontiers| && t.expanded[h] != t.frontiers[h] ==> Capped(t.search) || !t.ok)
  }

  /** The rows of the search are those of the addresses it expanded. */
  ghost predicate RowsOfExpanded(env: Env, s: Search, t: Trail) {
    forall r :: Has(t.search.stored, r) <==> Has(s.stored, r) || SelectedInSome(env, t.expanded, r)
  }

  ghost predicate SelectedInSome(env: Env, levels: seq<seq<string>>, r: Stored) {
    exists h :: 0 <= h < |levels| && SelectedAmong(env, levels[h], r)
  }

  lemma SelectedInFront(env: Env, level: seq<string>, levels: seq<seq<string>>, r: Stored)
    ensures SelectedInSome(env, [level] + levels, r) <==> SelectedAmong(env, level, r) || SelectedInSome(env, levels, r)
  {
    var all := [level] + levels;
    assert all[0] == level;
    if h :| 0 <= h < |levels| && SelectedAmong(env, levels[h], r) {
      assert all[h + 1] == levels[h];
    }
    if h :| 0 <= h < |all| && SelectedAmong(env, all[h], r) {
      assert h > 0 ==> levels[h - 1] == all[h];
    }
  }

  /** The next frontier is what the expanded addresses lead to and nobody visited before. */
  ghost predicate FrontiersAreNew(env: Env, visited: set<string>, t: Trail) {
    && |t.frontiers| == |t.expanded|
    && (forall h, v :: 0 < h < |t.frontiers| && v in t.frontiers[h] ==> LedTo(env, t.expanded[h - 1], v) && v !in visited)
    && (forall g, h, v :: 0 <= g < h < |t.frontiers| && v in t.frontiers[g] ==> v !in t.frontiers[h])
  }

  ghost predicate InSomeFrontier(t: Trail, last: nat, v: string) {
    exists g :: 0 < g <= last && g < |t.frontiers| && v in t.frontiers[g]
  }

  /** And it misses none of them, up to the depth, unless a cap is reached. */
  ghost predicate FrontiersAreWhole(env: Env, hops: nat, visited: set<string>, t: Trail) {
    t.ok && !Capped(t.search) ==>
      forall h, v :: 0 <= h < |t.expanded| && h + 1 < hops && LedTo(env, t.expanded[h], v) ==>
        v in visited || InSomeFrontier(t, h + 1, v)
  }

  ghost predicate IsTrail(env: Env, hops: nat, s: Search, t: Trail) {
    && |t.frontiers| <= hops && (t.frontiers != [] ==> t.frontiers[0] == s.next)
    && |s.stored| <= |t.search.stored| && s.visited <= t.search.visited
    && ExpandsInOrder(env, t) && RowsOfExpanded(env, s, t) && FrontiersAreNew(env, s.visited, t) && FrontiersAreWhole(env, hops, s.visited, t)
  }

  lemma CappedStays(s: Search, t: Search)
    requires Capped(s) && |s.stored| <= |t.stored| && s.visited <= t.visited
    ensures Capped(t)
  {
    SubsetSize(s.visited, t.visited);
  }

  lemma LastFrontier(env: Env, hops: nat, s: Search, x: Expansion)
    requires hops > 0 && Tidy(env, s) && InOrder(s.next) && x.count < |s.next| && !x.ok && GrewBy(env, s.next[..x.count], s.(next := []), x.search)
    ensures IsTrail(env, hops, s, Trail(x.search, [s.next], [s.next[..x.count]], false))
  {
    var t := Trail(x.search, [s.next], [s.next[..x.count]], false);
    assert RowsOfExpanded(env, s, t) by {
      forall r ensures Has(t.search.stored, r) <==> Has(s.stored, r) || SelectedInSome(env, t.expanded, r) {
        SelectedInFront(env, s.next[..x.count], [], r);
        assert [s.next[..x.count]] + [] == t.expanded;
      }
    }
  }

  /** Putting one hop in front of the rest. */
  lemma OneMoreHop(env: Env, hops: nat, s: Search, level: seq<string>, m: Search, rest: Trail)
    requires hops > 0 && s.next != [] && Tidy(env, s) && InOrder(s.next) && level <= s.next && GrewBy(env, level, s.(next := []), m)
    requires level != s.next ==> Capped(m)
    requires IsTrail(env, hops - 1, m, rest) && (rest.frontiers == [] && rest.ok && !Capped(rest.search) && hops > 1 ==> m.next == [])
    ensures IsTrail(env, hops, s, Trail(rest.search, [s.next] + rest.frontiers, [level] + rest.expanded, rest.ok))
  {
    var t := Trail(rest.search, [s.next] + rest.frontiers, [level] + rest.expanded, rest.ok);
    RestInOrder(env, s, level, m, rest, t);
    RestRows(env, s, level, m, rest, t);
    RestIsNew(env, s, level, m, rest, t);
    RestIsWhole(env, hops, s, level, m, rest, t);
  }

  lemma RestInOrder(env: Env, s: Search, level: seq<string>, m: Search, rest: Trail, t: Trail)
    requires t == Trail(rest.search, [s.next] + rest.frontiers, [level] + rest.expanded, rest.ok)
    requires InOrder(s.next) && level <= s.next && (level != s.next ==> Capped(m))
    requires ExpandsInOrder(env, rest) && |m.stored| <= |rest.search.stored| && m.visited <= rest.search.visited
    ensures ExpandsInOrder(env, t)
  {
    if Capped(m) {
      CappedStays(m, rest.search);
    }
    forall h | 0 <= h < |t.frontiers| ensures InOrder(t.frontiers[h]) && t.expanded[h] <= t.frontiers[h]
      ensures t.expanded[h] != t.frontiers[h] ==> Capped(t.search) || !t.ok {
      if h > 0 {
        assert t.frontiers[h] == rest.frontiers[h - 1] && t.expanded[h] == rest.expanded[h - 1];
      }
    }
  }

  lemma RestRows(env: Env, s: Search, level: seq<string>, m: Search, rest: Trail, t: Trail)
    requires t == Trail(rest.search, [s.next] + rest.frontiers, [level] + rest.expanded, rest.ok)
    requires forall r :: Has(m.stored, r) <==> Has(s.stored, r) || SelectedAmong(env, level, r)
    requires RowsOfExpanded(env, m, rest)
    ensures RowsOfExpanded(env, s, t)
  {
    forall r ensures Has(t.search.stored, r) <==> Has(s.stored, r) || SelectedInSome(env, t.expanded, r) {
      SelectedInFront(env, level, rest.expanded, r);
    }
  }

  lemma RestIsNew(env: Env, s: Search, level: seq<string>, m: Search, rest: Trail, t: Trail)
    requires t == Trail(rest.search, [s.next] + rest.frontiers, [level] + rest.expanded, rest.ok)
    requires Tidy(env, s) && GrewBy(env, level, s.(next := []), m) && |rest.frontiers| == |rest.expanded|
    requires FrontiersAreNew(env, m.visited, rest) && (rest.frontiers != [] ==> rest.frontiers[0] == m.next)
    ensures FrontiersAreNew(env, s.visited, t)
  {
    forall h, v | 0 < h < |t.frontiers| && v in t.frontiers[h] ensures LedTo(env, t.expanded[h - 1], v) && v !in s.visited {
      assert t.frontiers[h] == rest.frontiers[h - 1];
      RestIsLedTo(env, s, level, m, rest, h, v);
    }
    forall g, h, v | 0 <= g < h < |t.frontiers| && v in t.frontiers[g] ensures v !in t.frontiers[h] {
      RestIsApart(env, s, level, m, rest, g, h, v);
      assert t.frontiers[h] == rest.frontiers[h - 1] && t.frontiers[g] == ([s.next] + rest.frontiers)[g];
    }
  }

  lemma RestIsLedTo(env: Env, s: Search, level: seq<string>, m: Search, rest: Trail, h: nat, v: string)
    requires GrewBy(env, level, s.(next := []), m) && FrontiersAreNew(env, m.visited, rest)
    requires (rest.frontiers != [] ==> rest.frontiers[0] == m.next) && 0 < h <= |rest.frontiers| && v in rest.frontiers[h - 1]
    ensures LedTo(env, ([level] + rest.expanded)[h - 1], v) && v !in s.visited
  {
    if h == 1 {
      assert v in m.next && v in m.visited && v !in s.visited;
    } else {
      assert ([level] + rest.expanded)[h - 1] == rest.expanded[h - 2];
    }
  }

  lemma RestIsApart(env: Env, s: Search, level: seq<string>, m: Search, rest: Trail, g: nat, h: nat, v: string)
    requires Tidy(env, s) && GrewBy(env, level, s.(next := []), m) && FrontiersAreNew(env, m.visited, rest)
    requires (rest.frontiers != [] ==> rest.frontiers[0] == m.next) && g < h <= |rest.frontiers| && v in ([s.next] + rest.frontiers)[g]
    ensures v !in rest.frontiers[h - 1]
  {
    if g == 0 {
      assert v in s.visited;
    } else {
      assert v in rest.frontiers[g - 1];
    }
  }

  lemma RestIsWhole(env: Env, hops: nat, s: Search, level: seq<string>, m: Search, rest: Trail, t: Trail)
    requires hops > 0 && t == Trail(rest.search, [s.next] + rest.frontiers, [level] + rest.expanded, rest.ok)
    requires GrewBy(env, level, s.(next := []), m) && |rest.frontiers| == |rest.expanded|
    requires |m.stored| <= |rest.search.stored| && m.visited <= rest.search.visited
    requires FrontiersAreWhole(env, hops - 1, m.visited, rest) && (rest.frontiers != [] ==> rest.frontiers[0] == m.next)
    requires rest.frontiers == [] && rest.ok && !Capped(rest.search) && hops > 1 ==> m.next == []
    ensures FrontiersAreWhole(env, hops, s.visited, t)
  {
    if t.ok && !Capped(t.search) {
      if Capped(m) {
        CappedStays(m, rest.search);
      }
      forall h, v | 0 <= h < |t.expanded| && h + 1 < hops && LedTo(env, t.expanded[h], v) && v !in s.visited
        ensures InSomeFrontier(t, h + 1, v) {
        if v in m.visited {
          assert v in m.next && rest.frontiers != [] && t.frontiers[1] == m.next;
        } else {
          assert h > 0 && t.expanded[h] == rest.expanded[h - 1];
          LaterFrontier(rest, t, s.next, h, v);
        }
      }
    }
  }

  lemma LaterFrontier(rest: Trail, t: Trail, next: seq<string>, last: nat, v: string)
    requires t.frontiers == [next] + rest.frontiers && InSomeFrontier(rest, last, v)
    ensures InSomeFrontier(t, last + 1, v)
  {
    var g :| 0 < g <= last && g < |rest.frontiers| && v in rest.frontiers[g];
    assert t.frontiers[g + 1] == rest.frontiers[g];
  }

  lemma QueueIsSorted(env: Env, level: seq<string>, s: Search, t: Search)
    requires GrewBy(env, level, s, t)
    ensures var m := t.(next := Sort(t.next, StringLess)); InOrder(m.next) && GrewBy(env, level, s, m)
  {
    SortIsInOrder(t.next);
    SortedDistinct(t.next, StringLess);
  }

  function Queued(s: Search): Search {
    s.(next := Sort(s.next, StringLess))
  }

  lemma TrailStep(env: Env, hops: nat, s: Search, x: Expansion, rest: Trail)
    requires hops > 0 && s.next != [] && Tidy(env, s) && InOrder(s.next) && ExpandedTo(env, s.(next := []), s.next, x) && x.ok
    requires IsTrail(env, hops - 1, Queued(x.search), rest)
    requires rest.frontiers == [] && rest.ok && !Capped(rest.search) && hops > 1 ==> Queued(x.search).next == []
    ensures IsTrail(env, hops, s, Trail(rest.search, [s.next] + rest.frontiers, [s.next[..x.count]] + rest.expanded, rest.ok))
  {
    QueueIsSorted(env, s.next[..x.count], s.(next := []), x.search);
    OneMoreHop(env, hops, s, s.next[..x.count], Queued(x.search), rest);
  }

  lemma NoFrontierLeft(env: Env, hop: nat, depth: nat, s: Search)
    ensures var t := SearchFrom(env, hop, depth, s); t.frontiers == [] && t.ok && !Capped(t.search) && hop < depth ==> s.next == []
  {
  }

  lemma SearchStep(env: Env, hop: nat, depth: nat, s: Search, x: Expansion)
    requires hop < depth && s.next != [] && |s.stored| < MAX_EDGES && x == ExpandAll(env, s.(next := []), s.next)
    ensures SearchFrom(env, hop, depth, s) ==
            if !x.ok then Trail(x.search, [s.next], [s.next[..x.count]], false)
            else
              var rest := SearchFrom(env, hop + 1, depth, Queued(x.search));
              Trail(rest.search, [s.next] + rest.frontiers, [s.next[..x.count]] + rest.expanded, rest.ok)
  {
  }

  ghost predicate LeavesTrail(env: Env, hop: nat, depth: nat, s: Search) {
    exists t :: IsTrailFrom(env, hop, depth, s, t)
  }

  ghost predicate IsTrailFrom(env: Env, hop: nat, depth: nat, s: Search, t: Trail) {
    t == SearchFrom(env, hop, depth, s) && hop <= depth && IsTrail(env, depth - hop, s, t)
  }

  lemma HopIsTrail(env: Env, hop: nat, depth: nat, s: Search, x: Expansion)
    requires StoreValid(env) && Tidy(env, s) && InOrder(s.next) && hop < depth && s.next != [] && |s.stored| < MAX_EDGES
    requires x == ExpandAll(env, s.(next := []), s.next) && x.ok
    requires LeavesTrail(env, hop + 1, depth, Queued(x.search))
    ensures LeavesTrail(env, hop, depth, s)
  {
    var rest := SearchFrom(env, hop + 1, depth, Queued(x.search));
    FrontierExpands(env, s.(next := []), s.next);
    NoFrontierLeft(env, hop + 1, depth, Queued(x.search));
    TrailStep(env, depth - hop, s, x, rest);
    SearchStep(env, hop, depth, s, x);
    assert IsTrailFrom(env, hop, depth, s, SearchFrom(env, hop, depth, s));
  }

  lemma FailureIsTrail(env: Env, hop: nat, depth: nat, s: Search, x: Expansion)
    requires StoreValid(env) && Tidy(env, s) && InOrder(s.next) && hop < depth && s.next != [] && |s.stored| < MAX_EDGES
    requires x == ExpandAll(env, s.(next := []), s.next) && !x.ok
    ensures LeavesTrail(env, hop, depth, s)
  {
    FrontierExpands(env, s.(next := []), s.next);
    LastFrontier(env, depth - hop, s, x);
    SearchStep(env, hop, depth, s, x);
    assert IsTrailFrom(env, hop, depth, s, SearchFrom(env, hop, depth, s));
  }

  lemma NextIsTidy(env: Env, s: Search, x: Expansion)
    requires StoreValid(env) && Tidy(env, s) && x == ExpandAll(env, s.(next := []), s.next)
    ensures Tidy(env, Queued(x.search)) && InOrder(Queued(x.search).next)
  {
    FrontierExpands(env, s.(next := []), s.next);
    QueueIsSorted(env, s.next[..x.count], s.(next := []), x.search);
  }

  lemma {:induction false} SearchIsTrail(env: Env, hop: nat, depth: nat, s: Search)
    requires StoreValid(env) && Tidy(env, s) && InOrder(s.next) && hop <= depth
    ensures LeavesTrail(env, hop, depth, s)
    decreases depth - hop
  {
    if hop < depth && s.next != [] && |s.stored| < MAX_EDGES {
      var x := ExpandAll(env, s.(next := []), s.next);
      if x.ok {
        NextIsTidy(env, s, x);
        SearchIsTrail(env, hop + 1, depth, Queued(x.search));
        HopIsTrail(env, hop, depth, s, x);
      } else {
        FailureIsTrail(env, hop, depth, s, x);
      }
    } else {
      EmptyTrail(env, hop, depth, s);
    }
  }

  lemma EmptyTrail(env: Env, hop: nat, depth: nat, s: Search)
    requires hop <= depth && (hop == depth || s.next == [] || |s.stored| >= MAX_EDGES)
    ensures LeavesTrail(env, hop, depth, s)
  {
    assert IsTrailFrom(env, hop, depth, s, Trail(s, [], [], true));
  }

  /** The traversal expands the seed and then, hop by hop and each hop in dictionary order, whatever the hop before leads to
      and was not visited; its rows are those of the addresses it expanded. It stops short only at a cap, or where a query
      fails. */
  lemma TraversalInOrder(env: Env, seed: string, depth: nat)
    requires StoreValid(env)
    ensures var t := TrailOf(env, seed, depth);
            && |t.frontiers| <= depth && (t.frontiers != [] ==> t.frontiers[0] == [seed])
            && ExpandsInOrder(env, t) && FrontiersAreNew(env, {seed}, t) && FrontiersAreWhole(env, depth, {seed}, t)
            && forall r :: Has(t.search.stored, r) <==> SelectedInSome(env, t.expanded, r)
  {
    var start := Search(map[], {seed}, [seed]);
    SearchIsTrail(env, 0, depth, start);
    assert forall r :: !Has(start.stored, r);
  }
}
