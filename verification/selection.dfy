/** Counterparty selection: aggregate the transfers by counterparty, rank, keep the top ones. */
module Selection {
  import opened Options
  import opened Transfers
  import opened Ordering
  import opened Sums
  import opened Text

  datatype Ranking = MostRecent | TotalRawAmount | MostActive | KnownEntity | Unknown

  const DEFAULT_LIMIT: nat := 10
  const MAX_LIMIT: nat := 25

  function Limit(requested: nat): (limit: nat)
    ensures 1 <= limit <= MAX_LIMIT
  {
    if requested == 0 then DEFAULT_LIMIT else if requested > MAX_LIMIT then MAX_LIMIT else requested
  }

  // ----- aggregation

  datatype Stats = Stats(count: nat, latest: int, totals: map<string, int>, known: bool)

  function Counterparty(t: TransferItem, seed: string): string {
    if SameFold(t.from, seed) then t.to else t.from
  }

  predicate Eligible(c: string, seed: string) {
    c != "" && !SameFold(c, seed)
  }

  function Bump(s: Stats, t: TransferItem): Stats {
    var amount := ParseAmount(t.amount);
    var key := AssetKey(t.asset);
    Stats(s.count + 1, if t.timestamp > s.latest then t.timestamp else s.latest,
          if amount.None? then s.totals
          else s.totals[key := (if key in s.totals then s.totals[key] else 0) + amount.value],
          s.known)
  }

  function AddTransfer(stats: map<string, Stats>, t: TransferItem, seed: string, known: set<string>): map<string, Stats> {
    var c := Counterparty(t, seed);
    if !Eligible(c, seed) then stats
    else stats[c := Bump(if c in stats then stats[c] else Stats(0, ZERO_TIME, map[], c in known), t)]
  }

  function StatsOf(ts: seq<TransferItem>, seed: string, known: set<string>): (stats: map<string, Stats>)
    ensures forall c :: c in stats ==> Eligible(c, seed)
  {
    if ts == [] then map[] else AddTransfer(StatsOf(ts[..|ts| - 1], seed, known), ts[|ts| - 1], seed, known)
  }

  /** The transfers whose counterparty is in the set, in input order. */
  function Keep(ts: seq<TransferItem>, seed: string, chosen: set<string>): seq<TransferItem> {
    if ts == [] then []
    else
      var t := ts[|ts| - 1];
      Keep(ts[..|ts| - 1], seed, chosen) + if Counterparty(t, seed) in chosen then [t] else []
  }

  // ----- ranking

  predicate Recent(stats: map<string, Stats>, a: string, b: string)
    requires a in stats && b in stats
  {
    stats[a].latest > stats[b].latest || (stats[a].latest == stats[b].latest && StringLess(a, b))
  }

  /** The comparison of the sort: by the ranking, then by recency, then by address. */
  predicate Outranks(ranking: Ranking, stats: map<string, Stats>, a: string, b: string) {
    && a in stats && b in stats
    && if ranking.MostActive? && stats[a].count != stats[b].count then stats[a].count > stats[b].count
       else if ranking.KnownEntity? && stats[a].known != stats[b].known then stats[a].known
       else Recent(stats, a, b)
  }

  /** The comparison for one asset: by its total, then by recency, then by address. */
  predicate OutranksFor(key: string, stats: map<string, Stats>, a: string, b: string) {
    && a in stats && b in stats && key in stats[a].totals && key in stats[b].totals
    && if stats[a].totals[key] != stats[b].totals[key] then stats[a].totals[key] > stats[b].totals[key]
       else Recent(stats, a, b)
  }

  /** The members of `all` that fewer than k others outrank. */
  ghost function Top(all: set<string>, k: nat, less: (string, string) -> bool): set<string> {
    set c | c in all && |set u | u in all && less(u, c)| < k
  }

  function Holders(stats: map<string, Stats>, key: string): set<string> {
    set c | c in stats && key in stats[c].totals
  }

  function AssetKeys(stats: map<string, Stats>): set<string> {
    set c, key | c in stats && key in stats[c].totals :: key
  }

  function Ranked(ranking: Ranking, stats: map<string, Stats>): (string, string) -> bool {
    (a, b) => Outranks(ranking, stats, a, b)
  }

  function RankedFor(key: string, stats: map<string, Stats>): (string, string) -> bool {
    (a, b) => OutranksFor(key, stats, a, b)
  }

  /** Who is chosen, without reference to any order of evaluation. */
  ghost function Chosen(stats: map<string, Stats>, limit: nat, ranking: Ranking): set<string> {
    if ranking.TotalRawAmount?
    then set c, key | key in AssetKeys(stats) && c in Top(Holders(stats, key), limit, RankedFor(key, stats)) :: c
    else Top(stats.Keys, limit, Ranked(ranking, stats))
  }

  ghost function Selected(ts: seq<TransferItem>, seed: string, requested: nat, ranking: Ranking, known: set<string>): seq<TransferItem> {
    Keep(ts, seed, Chosen(StatsOf(ts, seed, known), Limit(requested), ranking))
  }

  lemma OutranksIsOrder(ranking: Ranking, stats: map<string, Stats>)
    ensures OrdersSet(Ranked(ranking, stats), stats.Keys)
  {
    StringLessIsOrder();
  }

  lemma OutranksForIsOrder(key: string, stats: map<string, Stats>)
    ensures OrdersSet(RankedFor(key, stats), Holders(stats, key))
  {
    StringLessIsOrder();
  }

  // ----- the top k and the prefix of a sorted sequence

  /** In a sorted sequence exactly the elements before a position outrank the one at it. */
  lemma Outrankers(xs: seq<string>, less: (string, string) -> bool, i: nat)
    requires Orders(less, xs) && Sorted(less, xs) && Distinct(xs) && i < |xs|
    ensures (set u | u in SetOf(xs) && less(u, xs[i])) == SetOf(xs[..i])
    ensures |set u | u in SetOf(xs) && less(u, xs[i])| == i
  {
    forall u ensures u in xs && less(u, xs[i]) <==> u in xs[..i] {
      if u in xs[..i] {
        var j :| 0 <= j < i && xs[j] == u;
        assert AtMost(less, xs[j], xs[i]);
      }
      if u in xs && less(u, xs[i]) {
        var j :| 0 <= j < |xs| && xs[j] == u;
        if j > i {
          assert AtMost(less, xs[i], xs[j]);
        }
      }
    }
    DistinctSize(xs[..i]);
    assert (set u | u in SetOf(xs) && less(u, xs[i])) == SetOf(xs[..i]);
  }

  /** Sorting and cutting gives the top k, whatever order the elements came in. */
  lemma PrefixIsTop(xs: seq<string>, less: (string, string) -> bool, k: nat)
    requires Orders(less, xs) && Distinct(xs)
    ensures var s := Sort(xs, less); SetOf(s[..Min(k, |s|)]) == Top(SetOf(xs), k, less)
  {
    var s := Sort(xs, less);
    SortSorts(xs, less);
    SameMembers(s, xs);
    SortedDistinct(xs, less);
    assert SetOf(s) == SetOf(xs);
    assert Orders(less, s);
    forall c ensures c in s[..Min(k, |s|)] <==> c in Top(SetOf(xs), k, less) {
      PlaceIsTop(s, less, k, c);
    }
  }

  lemma PlaceIsTop(s: seq<string>, less: (string, string) -> bool, k: nat, c: string)
    requires Orders(less, s) && Distinct(s) && Sorted(less, s)
    ensures c in s[..Min(k, |s|)] <==> c in Top(SetOf(s), k, less)
  {
    if c in s {
      var i :| 0 <= i < |s| && s[i] == c;
      Outrankers(s, less, i);
    }
  }

  // ----- the selection itself

  method SelectCounterpartyTransfers(ts: seq<TransferItem>, seed: string, requested: nat, ranking: Ranking, known: set<string>)
    returns (result: seq<TransferItem>)
    ensures result == Selected(ts, seed, requested, ranking, known)
  {
    var limit := Limit(requested);
    var stats := CollectStats(ts, seed, known);
    var selected: set<string>;
    if ranking.TotalRawAmount? {
      selected := SelectByAsset(stats, limit);
    } else {
      selected := TopOverall(stats, limit, ranking);
    }
    result := KeepSelected(ts, seed, selected);
  }

  method CollectStats(ts: seq<TransferItem>, seed: string, known: set<string>) returns (stats: map<string, Stats>)
    ensures stats == StatsOf(ts, seed, known)
  {
    stats := map[];
    for i := 0 to |ts|
      invariant stats == StatsOf(ts[..i], seed, known)
    {
      assert ts[..i + 1][..i] == ts[..i];
      stats := AddTransfer(stats, ts[i], seed, known);
    }
    assert ts[..|ts|] == ts;
  }

  method KeepSelected(ts: seq<TransferItem>, seed: string, selected: set<string>) returns (result: seq<TransferItem>)
    ensures result == Keep(ts, seed, selected)
  {
    result := [];
    for i := 0 to |ts|
      invariant result == Keep(ts[..i], seed, selected)
    {
      assert ts[..i + 1][..i] == ts[..i];
      if Counterparty(ts[i], seed) in selected {
        result := result + [ts[i]];
      }
    }
    assert ts[..|ts|] == ts;
  }

  ghost function Tops(stats: map<string, Stats>, limit: nat, keys: seq<string>): set<string> {
    if keys == [] then {}
    else
      var key := keys[|keys| - 1];
      Tops(stats, limit, keys[..|keys| - 1]) + Top(Holders(stats, key), limit, RankedFor(key, stats))
  }

  lemma {:induction false} InTops(stats: map<string, Stats>, limit: nat, keys: seq<string>, c: string)
    ensures c in Tops(stats, limit, keys) <==>
            exists key :: key in keys && c in Top(Holders(stats, key), limit, RankedFor(key, stats))
  {
    if keys != [] {
      var k := |keys| - 1;
      InTops(stats, limit, keys[..k], c);
      assert keys == keys[..k] + [keys[k]];
    }
  }

  method SelectByAsset(stats: map<string, Stats>, limit: nat) returns (selected: set<string>)
    ensures selected == Chosen(stats, limit, TotalRawAmount)
  {
    var unordered := InAnyOrder(AssetKeys(stats));
    var keys := Sort(unordered, StringLess);
    SameMembers(keys, unordered);
    selected := {};
    for i := 0 to |keys|
      invariant selected == Tops(stats, limit, keys[..i])
    {
      var items := TopForAsset(stats, limit, keys[i]);
      assert keys[..i + 1][..i] == keys[..i];
      selected := selected + items;
    }
    assert keys[..|keys|] == keys;
    assert forall key :: key in keys <==> key in SetOf(unordered);
    forall c ensures c in selected <==> c in Chosen(stats, limit, TotalRawAmount) {
      InTops(stats, limit, keys, c);
    }
  }

  method TopForAsset(stats: map<string, Stats>, limit: nat, key: string) returns (top: set<string>)
    ensures top == Top(Holders(stats, key), limit, RankedFor(key, stats))
  {
    var items := InAnyOrder(Holders(stats, key));
    assert forall x :: x in items ==> x in SetOf(items);
    OutranksForIsOrder(key, stats);
    OrdersMembers(RankedFor(key, stats), Holders(stats, key), items);
    PrefixIsTop(items, RankedFor(key, stats), limit);
    items := Sort(items, RankedFor(key, stats));
    top := SetOf(items[..Min(limit, |items|)]);
  }

  method TopOverall(stats: map<string, Stats>, limit: nat, ranking: Ranking) returns (top: set<string>)
    ensures top == Top(stats.Keys, limit, Ranked(ranking, stats))
  {
    var items := InAnyOrder(stats.Keys);
    assert forall x :: x in items ==> x in SetOf(items);
    OutranksIsOrder(ranking, stats);
    OrdersMembers(Ranked(ranking, stats), stats.Keys, items);
    PrefixIsTop(items, Ranked(ranking, stats), limit);
    items := Sort(items, Ranked(ranking, stats));
    top := SetOf(items[..Min(limit, |items|)]);
  }

  // ----- what selection promises

  /** A transfer is kept if and only if its counterparty is chosen. */
  lemma {:induction false} KeepsExactly(ts: seq<TransferItem>, seed: string, chosen: set<string>)
    ensures forall t :: t in Keep(ts, seed, chosen) <==> t in ts && Counterparty(t, seed) in chosen
    ensures |Keep(ts, seed, chosen)| <= |ts|
  {
    if ts != [] {
      var k := |ts| - 1;
      assert ts == ts[..k] + [ts[k]];
      KeepsExactly(ts[..k], seed, chosen);
    }
  }

  function Keeps(seed: string, chosen: set<string>): TransferItem -> bool {
    t => Counterparty(t, seed) in chosen
  }

  lemma {:induction false} KeepIsFilter(ts: seq<TransferItem>, seed: string, chosen: set<string>)
    ensures Keep(ts, seed, chosen) == Filter(ts, Keeps(seed, chosen))
  {
    if ts != [] {
      KeepIsFilter(ts[..|ts| - 1], seed, chosen);
    }
  }

  /** What is kept is a subsequence of the input: the transfers at the ascending positions whose counterparty is chosen,
      each as often as it came. */
  lemma KeepsInOrder(ts: seq<TransferItem>, seed: string, chosen: set<string>)
    ensures exists picks :: PicksAll(ts, Keeps(seed, chosen), picks) && Picked(ts, picks, Keep(ts, seed, chosen))
    ensures forall t :: multiset(Keep(ts, seed, chosen))[t] == if Counterparty(t, seed) in chosen then multiset(ts)[t] else 0
  {
    KeepIsFilter(ts, seed, chosen);
    FilterInOrder(ts, Keeps(seed, chosen));
    forall t ensures multiset(Filter(ts, Keeps(seed, chosen)))[t] == if Counterparty(t, seed) in chosen then multiset(ts)[t] else 0 {
      FilterCounts(ts, Keeps(seed, chosen), t);
    }
  }

  lemma {:induction false} KeepAgain(ts: seq<TransferItem>, seed: string, chosen: set<string>)
    ensures Keep(Keep(ts, seed, chosen), seed, chosen) == Keep(ts, seed, chosen)
  {
    if ts != [] {
      var k := |ts| - 1;
      var front := Keep(ts[..k], seed, chosen);
      KeepAgain(ts[..k], seed, chosen);
      KeepAppend(front, ts[k], seed, chosen);
      assert Keep(ts, seed, chosen) == if Counterparty(ts[k], seed) in chosen then front + [ts[k]] else front;
    }
  }

  lemma KeepAppend(ts: seq<TransferItem>, t: TransferItem, seed: string, chosen: set<string>)
    ensures Keep(ts + [t], seed, chosen) == Keep(ts, seed, chosen) + if Counterparty(t, seed) in chosen then [t] else []
  {
    assert (ts + [t])[..|ts|] == ts;
  }

  /** The statistics of the kept transfers are those of the chosen counterparties. */
  lemma {:induction false} StatsOfKept(ts: seq<TransferItem>, seed: string, known: set<string>, chosen: set<string>)
    requires forall c :: c in chosen ==> Eligible(c, seed)
    ensures var all, kept := StatsOf(ts, seed, known), StatsOf(Keep(ts, seed, chosen), seed, known);
            && (forall c :: c in kept <==> c in all && c in chosen)
            && (forall c :: c in kept ==> kept[c] == all[c])
  {
    if ts != [] {
      var k := |ts| - 1;
      StatsOfKept(ts[..k], seed, known, chosen);
      var front := Keep(ts[..k], seed, chosen);
      assert (front + [ts[k]])[..|front|] == front;
      assert Keep(ts, seed, chosen) == if Counterparty(ts[k], seed) in chosen then front + [ts[k]] else front;
    }
  }

  lemma TopAgain(all: set<string>, chosen: set<string>, k: nat, less: (string, string) -> bool, less': (string, string) -> bool, c: string)
    requires c in Top(all, k, less) && c in chosen
    requires forall u :: u in all && u in chosen ==> (less'(u, c) <==> less(u, c))
    ensures c in Top(all * chosen, k, less')
  {
    SubsetSize(set u | u in all * chosen && less'(u, c), set u | u in all && less(u, c));
  }

  /** `kept` is what remains of `all` when only `chosen` is kept. */
  ghost predicate Restricts(all: map<string, Stats>, kept: map<string, Stats>, chosen: set<string>) {
    (forall c :: c in kept <==> c in chosen) && forall c :: c in kept ==> c in all && kept[c] == all[c]
  }

  lemma ChosenByAssetAgain(all: map<string, Stats>, kept: map<string, Stats>, chosen: set<string>, limit: nat, key: string, c: string)
    requires Restricts(all, kept, chosen) && c in chosen && c in Top(Holders(all, key), limit, RankedFor(key, all))
    ensures c in Chosen(kept, limit, TotalRawAmount)
  {
    TopAgain(Holders(all, key), chosen, limit, RankedFor(key, all), RankedFor(key, kept), c);
    assert Holders(all, key) * chosen == Holders(kept, key);
    assert key in kept[c].totals && key in AssetKeys(kept);
  }

  lemma ChosenOverallAgain(all: map<string, Stats>, kept: map<string, Stats>, chosen: set<string>, limit: nat, ranking: Ranking, c: string)
    requires Restricts(all, kept, chosen) && c in chosen && c in Top(all.Keys, limit, Ranked(ranking, all))
    ensures c in Top(kept.Keys, limit, Ranked(ranking, kept))
  {
    TopAgain(all.Keys, chosen, limit, Ranked(ranking, all), Ranked(ranking, kept), c);
    assert all.Keys * chosen == kept.Keys;
  }

  /** Whoever is chosen is chosen again from the chosen alone. */
  lemma ChosenAgain(all: map<string, Stats>, kept: map<string, Stats>, limit: nat, ranking: Ranking)
    requires Restricts(all, kept, Chosen(all, limit, ranking))
    ensures Chosen(kept, limit, ranking) == kept.Keys
  {
    var chosen := Chosen(all, limit, ranking);
    forall c | c in kept ensures c in Chosen(kept, limit, ranking) {
      if ranking.TotalRawAmount? {
        var key :| key in AssetKeys(all) && c in Top(Holders(all, key), limit, RankedFor(key, all));
        ChosenByAssetAgain(all, kept, chosen, limit, key, c);
      } else {
        ChosenOverallAgain(all, kept, chosen, limit, ranking, c);
      }
    }
  }

  lemma ChosenAreEligible(ts: seq<TransferItem>, seed: string, known: set<string>, limit: nat, ranking: Ranking)
    ensures forall c :: c in Chosen(StatsOf(ts, seed, known), limit, ranking) ==> c in StatsOf(ts, seed, known) && Eligible(c, seed)
  {
  }

  /** Selecting again with the same parameters changes nothing. */
  lemma SelectionIsStable(ts: seq<TransferItem>, seed: string, requested: nat, ranking: Ranking, known: set<string>)
    ensures var once := Selected(ts, seed, requested, ranking, known); Selected(once, seed, requested, ranking, known) == once
  {
    var all := StatsOf(ts, seed, known);
    var chosen := Chosen(all, Limit(requested), ranking);
    var once := Keep(ts, seed, chosen);
    ChosenAreEligible(ts, seed, known, Limit(requested), ranking);
    StatsOfKept(ts, seed, known, chosen);
    var kept := StatsOf(once, seed, known);
    ChosenAgain(all, kept, Limit(requested), ranking);
    assert kept.Keys == chosen;
    KeepAgain(ts, seed, chosen);
  }

  /** The top k has min(k, n) members and every one of them outranks everybody left out. */
  lemma TopIsTop(xs: seq<string>, k: nat, less: (string, string) -> bool)
    requires Distinct(xs) && Orders(less, xs)
    ensures |Top(SetOf(xs), k, less)| == Min(k, |xs|)
    ensures forall c, u :: c in Top(SetOf(xs), k, less) && u in xs && u !in Top(SetOf(xs), k, less) ==> less(c, u)
  {
    var s := Sort(xs, less);
    SortSorts(xs, less);
    SameMembers(s, xs);
    PrefixIsTop(xs, less, k);
    SortedDistinct(xs, less);
    DistinctSize(s[..Min(k, |s|)]);
    forall c, u | c in Top(SetOf(xs), k, less) && u in xs && u !in Top(SetOf(xs), k, less) ensures less(c, u) {
      assert c in s[..Min(k, |s|)];
      var i :| 0 <= i < Min(k, |s|) && s[i] == c;
      var j :| 0 <= j < |s| && s[j] == u;
      var cut := s[..Min(k, |s|)];
      assert u !in SetOf(cut) && forall i :: 0 <= i < |cut| ==> cut[i] == s[i];
      assert AtMost(less, s[i], s[j]);
    }
  }

  lemma {:induction false} Enumerate(s: set<string>) returns (xs: seq<string>)
    ensures Distinct(xs) && SetOf(xs) == s && |xs| == |s|
    ensures forall x :: x in xs <==> x in s
  {
    if s == {} {
      xs := [];
    } else {
      var x :| x in s;
      var rest := Enumerate(s - {x});
      xs := rest + [x];
    }
  }

  /** `top` is min(k, n) of `all`, and every one of them comes before everybody left out. */
  ghost predicate IsTop(all: set<string>, top: set<string>, k: nat, less: (string, string) -> bool) {
    && top <= all && |top| == Min(k, |all|)
    && forall c, u :: c in top && u in all && u !in top ==> less(c, u)
  }

  lemma TopOfSet(all: set<string>, k: nat, less: (string, string) -> bool)
    requires OrdersSet(less, all)
    ensures IsTop(all, Top(all, k, less), k, less)
  {
    var xs := Enumerate(all);
    OrdersMembers(less, all, xs);
    TopIsTop(xs, k, less);
  }

  // ----- who is chosen, in terms of the transfers

  /** The counterparty of a transfer is its sender, unless that is the seed; then its recipient. The seed is none. */
  ghost predicate IsWith(t: TransferItem, seed: string, c: string) {
    c != "" && !SameFold(c, seed) && (c == t.from || (c == t.to && SameFold(t.from, seed)))
  }

  ghost function WithTest(seed: string, c: string): TransferItem -> bool {
    t => IsWith(t, seed, c)
  }

  /** The transfers with a counterparty. */
  ghost function With(ts: seq<TransferItem>, seed: string, c: string): seq<TransferItem> {
    Filter(ts, WithTest(seed, c))
  }

  predicate Readable(t: TransferItem, key: string) {
    AssetKey(t.asset) == key && ParseAmount(t.amount).Some?
  }

  ghost function AmountOf(key: string): TransferItem -> int {
    t => if Readable(t, key) then ParseAmount(t.amount).value else 0
  }

  /** What is known of a counterparty: how many transfers, the time of the latest, the sum of the readable amounts of each
      asset, and whether it is a known entity. */
  ghost predicate Summarizes(s: Stats, mine: seq<TransferItem>, isKnown: bool) {
    && s.count == |mine| && s.known == isKnown
    && (forall t :: t in mine ==> t.timestamp <= s.latest)
    && ZERO_TIME <= s.latest && (s.latest == ZERO_TIME || exists t :: t in mine && t.timestamp == s.latest)
    && (forall key :: key in s.totals <==> exists t :: t in mine && Readable(t, key))
    && (forall key :: key in s.totals ==> s.totals[key] == SumOver(mine, AmountOf(key)))
  }

  lemma SummaryOfNone(isKnown: bool)
    ensures Summarizes(Stats(0, ZERO_TIME, map[], isKnown), [], isKnown)
  {
  }

  lemma SummaryGrows(s: Stats, mine: seq<TransferItem>, isKnown: bool, t: TransferItem)
    requires Summarizes(s, mine, isKnown)
    ensures Summarizes(Bump(s, t), mine + [t], isKnown)
  {
    var r, all := Bump(s, t), mine + [t];
    assert forall x :: x in all <==> x in mine || x == t;
    assert t in all;
    forall key ensures key in r.totals <==> exists x :: x in all && Readable(x, key) {
      HeldGrows(s, mine, t, key);
    }
    forall key | key in r.totals ensures r.totals[key] == SumOver(all, AmountOf(key)) {
      TotalGrows(s, mine, t, key);
    }
  }

  lemma HeldGrows(s: Stats, mine: seq<TransferItem>, t: TransferItem, key: string)
    requires key in s.totals <==> exists x :: x in mine && Readable(x, key)
    ensures key in Bump(s, t).totals <==> exists x :: x in mine + [t] && Readable(x, key)
  {
    if x :| x in mine && Readable(x, key) {
      assert x in mine + [t];
    }
    if Readable(t, key) {
      assert t in mine + [t];
    }
  }

  lemma TotalGrows(s: Stats, mine: seq<TransferItem>, t: TransferItem, key: string)
    requires if key in s.totals then s.totals[key] == SumOver(mine, AmountOf(key)) else forall x :: x in mine ==> !Readable(x, key)
    requires key in Bump(s, t).totals
    ensures Bump(s, t).totals[key] == SumOver(mine + [t], AmountOf(key))
  {
    SumAppend(mine, t, AmountOf(key));
    if key !in s.totals {
      NoneReadable(mine, key);
    }
  }

  lemma {:induction false} NoneReadable(mine: seq<TransferItem>, key: string)
    requires forall t :: t in mine ==> !Readable(t, key)
    ensures SumOver(mine, AmountOf(key)) == 0
  {
    if mine != [] {
      NoneReadable(mine[..|mine| - 1], key);
    }
  }

  /** The statistics cover exactly the counterparties of the transfers, and sum up each one's own. */
  lemma {:induction false} StatsExactly(ts: seq<TransferItem>, seed: string, known: set<string>, c: string)
    ensures var stats, mine := StatsOf(ts, seed, known), With(ts, seed, c);
            (c in stats <==> mine != []) && (c in stats ==> Summarizes(stats[c], mine, c in known))
  {
    if ts != [] {
      var k := |ts| - 1;
      var before, mine := StatsOf(ts[..k], seed, known), With(ts[..k], seed, c);
      StatsExactly(ts[..k], seed, known, c);
      if IsWith(ts[k], seed, c) {
        SummaryOfNone(c in known);
        SummaryGrows(if c in before then before[c] else Stats(0, ZERO_TIME, map[], c in known), mine, c in known, ts[k]);
      }
    }
  }

  /** The number the ranking compares first. */
  ghost function Score(ranking: Ranking, s: Stats): int {
    match ranking
    case MostActive => s.count
    case KnownEntity => if s.known then 1 else 0
    case _ => 0
  }

  /** The higher score first, then the later transfer, then the address that comes first in the dictionary. */
  ghost predicate Before(score: Stats -> int, stats: map<string, Stats>, c: string, u: string)
    requires c in stats && u in stats
  {
    || score(stats[c]) > score(stats[u])
    || (score(stats[c]) == score(stats[u]) && stats[c].latest > stats[u].latest)
    || (score(stats[c]) == score(stats[u]) && stats[c].latest == stats[u].latest && StringLess(c, u))
  }

  /** min(k, n) of them, everybody before whoever is left out. */
  ghost predicate AreFirst(all: set<string>, top: set<string>, k: nat, score: Stats -> int, stats: map<string, Stats>)
    requires all <= stats.Keys
  {
    && top <= all && |top| == Min(k, |all|)
    && forall c, u :: c in top && u in all && u !in top ==> Before(score, stats, c, u)
  }

  lemma TopIsFirst(all: set<string>, top: set<string>, k: nat, less: (string, string) -> bool, score: Stats -> int, stats: map<string, Stats>)
    requires all <= stats.Keys && IsTop(all, top, k, less)
    requires forall c, u :: c in all && u in all && less(c, u) ==> Before(score, stats, c, u)
    ensures AreFirst(all, top, k, score, stats)
  {
  }

  ghost function ScoreBy(ranking: Ranking): Stats -> int {
    s => Score(ranking, s)
  }

  lemma OutranksIsBefore(ranking: Ranking, stats: map<string, Stats>, c: string, u: string)
    requires c in stats && u in stats && Outranks(ranking, stats, c, u)
    ensures Before(ScoreBy(ranking), stats, c, u)
  {
  }

  /** For an overall ranking the chosen counterparties are the first by score, recency and address. */
  lemma ChosenAreTop(stats: map<string, Stats>, limit: nat, ranking: Ranking)
    requires !ranking.TotalRawAmount?
    ensures AreFirst(stats.Keys, Chosen(stats, limit, ranking), limit, ScoreBy(ranking), stats)
  {
    OutranksIsOrder(ranking, stats);
    TopOfSet(stats.Keys, limit, Ranked(ranking, stats));
    forall c, u | c in stats && u in stats && Ranked(ranking, stats)(c, u) ensures Before(ScoreBy(ranking), stats, c, u) {
      OutranksIsBefore(ranking, stats, c, u);
    }
    TopIsFirst(stats.Keys, Chosen(stats, limit, ranking), limit, Ranked(ranking, stats), ScoreBy(ranking), stats);
  }

  ghost function TotalOf(key: string): Stats -> int {
    (s: Stats) => if key in s.totals then s.totals[key] else 0
  }

  lemma OutranksForIsBefore(key: string, stats: map<string, Stats>, c: string, u: string)
    requires c in stats && u in stats && OutranksFor(key, stats, c, u)
    ensures Before(TotalOf(key), stats, c, u)
  {
  }

  ghost function HoldersOf(stats: map<string, Stats>, key: string): set<string> {
    set c | c in stats && key in stats[c].totals
  }

  lemma TopHoldersAreFirst(stats: map<string, Stats>, limit: nat, key: string)
    ensures AreFirst(HoldersOf(stats, key), Top(Holders(stats, key), limit, RankedFor(key, stats)), limit, TotalOf(key), stats)
  {
    var all, less := Holders(stats, key), RankedFor(key, stats);
    OutranksForIsOrder(key, stats);
    TopOfSet(all, limit, less);
    forall c, u | c in all && u in all && less(c, u) ensures Before(TotalOf(key), stats, c, u) {
      OutranksForIsBefore(key, stats, c, u);
    }
    TopIsFirst(all, Top(all, limit, less), limit, less, TotalOf(key), stats);
    assert all == HoldersOf(stats, key);
  }

  /** For total amounts the chosen ones are those who are, for some asset, among the first of its holders by their total. */
  lemma ChosenAreTopByAsset(stats: map<string, Stats>, limit: nat) returns (tops: map<string, set<string>>)
    ensures forall key :: key in tops <==> HoldersOf(stats, key) != {}
    ensures forall key :: key in tops ==> AreFirst(HoldersOf(stats, key), tops[key], limit, TotalOf(key), stats)
    ensures forall c :: c in Chosen(stats, limit, TotalRawAmount) <==> exists key :: key in tops && c in tops[key]
  {
    tops := map key | key in AssetKeys(stats) :: Top(Holders(stats, key), limit, RankedFor(key, stats));
    forall key ensures key in tops <==> HoldersOf(stats, key) != {} {
      if key in tops {
        var c :| c in stats && key in stats[c].totals;
        assert c in HoldersOf(stats, key);
      }
      if HoldersOf(stats, key) != {} {
        var c :| c in HoldersOf(stats, key);
        assert key in AssetKeys(stats);
      }
    }
    forall key | key in tops ensures AreFirst(HoldersOf(stats, key), tops[key], limit, TotalOf(key), stats) {
      TopHoldersAreFirst(stats, limit, key);
    }
    forall c ensures c in Chosen(stats, limit, TotalRawAmount) <==> exists key :: key in tops && c in tops[key] {
      if c in Chosen(stats, limit, TotalRawAmount) {
        var key :| key in AssetKeys(stats) && c in Top(Holders(stats, key), limit, RankedFor(key, stats));
        assert key in tops && c in tops[key];
      }
    }
  }

  /** How many are chosen: ten unless the caller says otherwise, and at most twenty-five. */
  lemma LimitExactly(requested: nat)
    ensures Limit(0) == 10 && (1 <= requested <= 25 ==> Limit(requested) == requested) && (requested > 25 ==> Limit(requested) == 25)
  {
  }

  /** A transfer is kept if and only if it is with one of the chosen counterparties. */
  lemma SelectedExactly(ts: seq<TransferItem>, seed: string, requested: nat, ranking: Ranking, known: set<string>, t: TransferItem)
    ensures t in Selected(ts, seed, requested, ranking, known) <==>
            t in ts && exists c :: IsWith(t, seed, c) && c in Chosen(StatsOf(ts, seed, known), Limit(requested), ranking)
  {
    var chosen := Chosen(StatsOf(ts, seed, known), Limit(requested), ranking);
    KeepsExactly(ts, seed, chosen);
    ChosenAreEligible(ts, seed, known, Limit(requested), ranking);
    if Counterparty(t, seed) in chosen {
      assert IsWith(t, seed, Counterparty(t, seed));
    }
  }
}
