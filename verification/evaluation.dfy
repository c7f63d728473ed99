/** Evaluating all rules: what they report, and that nothing but the set of backed transfers matters. */
module Evaluation {
  import opened Options
  import opened Ordering
  import opened Text
  import opened Transfers
  import opened RuleWindows
  import opened Rules

  /** Confirmed and dated. */
  predicate Counts(t: Transfer) {
    !t.provisional && t.time != ZERO_TIME
  }

  function Counted(ts: seq<Transfer>): (r: seq<Transfer>)
    ensures forall t :: t in r <==> t in ts && Counts(t)
  {
    if ts == [] then []
    else
      var k := |ts| - 1;
      assert ts == ts[..k] + [ts[k]];
      Counted(ts[..k]) + if Counts(ts[k]) then [ts[k]] else []
  }

  function Backed(ts: seq<Transfer>): seq<Transfer> {
    Sort(Counted(ts), Earlier)
  }

  method ConfirmationBacked(ts: seq<Transfer>) returns (r: seq<Transfer>)
    ensures r == Backed(ts)
  {
    r := [];
    for i := 0 to |ts|
      invariant r == Counted(ts[..i])
    {
      assert ts[..i + 1][..i] == ts[..i];
      if Counts(ts[i]) {
        r := r + [ts[i]];
      }
    }
    assert ts[..|ts|] == ts;
    r := Sort(r, Earlier);
  }

  // ----- leads in the order of their IDs

  predicate ById(a: Lead, b: Lead) {
    StringLess(a.id, b.id)
  }

  /** Equal IDs among these leads stand for the same rule, subject and transfers: no two of their digests collide. */
  ghost predicate NoCollision(leads: seq<Lead>) {
    forall a, b :: a in leads && b in leads && a.id == b.id ==> SameMaterial(a, b)
  }

  predicate SameMaterial(a: Lead, b: Lead) {
    a.definition.rule == b.definition.rule && a.subject == b.subject && a.ids == b.ids
  }

  /** The rest of the lead follows from its rule, subject and transfers. */
  predicate Formed(h: LeadId, l: Lead) {
    && l.id == h(l.definition.rule, l.subject, l.ids) && l.observed == |l.ids|
    && l.distinct as int == if IsDispersal(l.definition.rule) then l.definition.minimum else 0
  }

  ghost predicate OneDefinitionEach(ds: seq<Definition>) {
    forall d, e :: d in ds && e in ds && d.rule == e.rule ==> d == e
  }

  lemma CatalogDefinesOnce()
    ensures OneDefinitionEach(CATALOG)
  {
  }

  lemma FormedOrders(h: LeadId, ds: seq<Definition>, leads: seq<Lead>)
    requires NoCollision(leads) && OneDefinitionEach(ds)
    requires forall l :: l in leads ==> Formed(h, l) && l.definition in ds
    ensures Orders(ById, leads)
  {
    StringLessIsOrder();
    forall a, b | a in leads && b in leads && a != b ensures ById(a, b) || ById(b, a) {
      assert a.id == b.id ==> a == b;
    }
  }

  lemma GroupLeadIsFormed(h: LeadId, d: Definition, k: Key, group: seq<Transfer>)
    requires InTime(group) && GroupLead(h, d, k, group).Some?
    ensures Formed(h, GroupLead(h, d, k, group).value) && GroupLead(h, d, k, group).value.definition == d
  {
    if IsDispersal(d.rule) {
      var start, end := WindowIsTight(group, d.rule.FanIn?, d.minimum, d.window);
    }
  }

  lemma {:induction false} GatherIsFormed(h: LeadId, d: Definition, ts: seq<Transfer>, keys: seq<Key>)
    requires UniqueIds(ts)
    ensures forall l :: l in Gather(keys, KeyLeads(h, d, Groups(d.rule, ts))) ==> Formed(h, l) && l.definition == d
  {
    if keys != [] {
      var n := |keys| - 1;
      GatherIsFormed(h, d, ts, keys[..n]);
      var group := GroupOf(Groups(d.rule, ts), keys[n]);
      GroupIds(d.rule, ts, keys[n]);
      SortedInTime(group);
      var r := GroupLead(h, d, keys[n], Sort(group, Earlier));
      if r.Some? {
        GroupLeadIsFormed(h, d, keys[n], Sort(group, Earlier));
      }
    }
  }

  ghost predicate IsChainLead(h: LeadId, d: Definition, ts: seq<Transfer>, a: Transfer, b: Transfer, l: Lead) {
    a in ts && b in ts && Starts(a) && l in ChainLead(h, d, ts, a, b)
  }

  ghost predicate StartsChainLead(h: LeadId, d: Definition, ts: seq<Transfer>, a: Transfer, l: Lead) {
    exists b :: IsChainLead(h, d, ts, a, b, l)
  }

  lemma InStartLeads(h: LeadId, d: Definition, ts: seq<Transfer>, a: Transfer, l: Lead)
    ensures a in ts && l in StartLeads(h, d, ts)(a) <==> StartsChainLead(h, d, ts, a, l)
  {
    var f := ChainLeads(h, d, ts, a);
    Gathered(ts, f, l);
    if a in ts && l in StartLeads(h, d, ts)(a) {
      var b :| b in ts && l in f(b);
      assert IsChainLead(h, d, ts, a, b, l);
    }
    if StartsChainLead(h, d, ts, a, l) {
      var b :| IsChainLead(h, d, ts, a, b, l);
      assert b in ts && l in f(b);
    }
  }

  /** Sequential leads are those of two hops. */
  lemma InSequential(h: LeadId, d: Definition, ts: seq<Transfer>, l: Lead)
    ensures l in SequentialLeads(h, d, ts) <==> d.window > 0 && d.minimum == 3 && exists a :: StartsChainLead(h, d, ts, a, l)
  {
    var f := StartLeads(h, d, ts);
    Gathered(ts, f, l);
    forall a ensures a in ts && l in f(a) <==> StartsChainLead(h, d, ts, a, l) {
      InStartLeads(h, d, ts, a, l);
    }
  }

  lemma SequentialIsFormed(h: LeadId, d: Definition, ts: seq<Transfer>)
    requires d.rule.SequentialDecreasing?
    ensures forall l :: l in SequentialLeads(h, d, ts) ==> Formed(h, l) && l.definition == d
  {
    forall l | l in SequentialLeads(h, d, ts) ensures Formed(h, l) && l.definition == d {
      InSequential(h, d, ts, l);
      var a :| StartsChainLead(h, d, ts, a, l);
      var b :| IsChainLead(h, d, ts, a, b, l);
      ChainLeadIsFormed(h, d, ts, a, b, l);
    }
  }

  lemma ChainLeadIsFormed(h: LeadId, d: Definition, ts: seq<Transfer>, a: Transfer, b: Transfer, l: Lead)
    requires d.rule.SequentialDecreasing? && l in ChainLead(h, d, ts, a, b)
    ensures Formed(h, l) && l.definition == d
  {
  }

  // ----- the order in which a map is walked does not matter

  ghost function Enumerate(s: set<Key>): (xs: seq<Key>)
    ensures Distinct(xs) && SetOf(xs) == s
  {
    if s == {} then []
    else
      var x :| x in s;
      var rest := Enumerate(s - {x});
      assert SetOf(rest + [x]) == SetOf(rest) + {x};
      rest + [x]
  }

  lemma {:induction false} GatherConcat(keys: seq<Key>, more: seq<Key>, f: Key -> seq<Lead>)
    ensures Gather(keys + more, f) == Gather(keys, f) + Gather(more, f)
  {
    if more == [] {
      assert keys + more == keys;
    } else {
      var n := |more| - 1;
      GatherConcat(keys, more[..n], f);
      assert (keys + more)[..|keys| + n] == keys + more[..n];
    }
  }

  lemma GatherWithout(keys: seq<Key>, f: Key -> seq<Lead>, p: nat)
    requires p < |keys|
    ensures multiset(Gather(keys, f)) == multiset(Gather(keys[..p] + keys[p + 1..], f)) + multiset(f(keys[p]))
  {
    GatherConcat(keys[..p + 1], keys[p + 1..], f);
    GatherConcat(keys[..p], keys[p + 1..], f);
    assert keys == keys[..p + 1] + keys[p + 1..] && keys[..p + 1][..p] == keys[..p];
  }

  lemma {:induction false} GatherForgetsOrder(keys: seq<Key>, others: seq<Key>, f: Key -> seq<Lead>)
    requires Distinct(keys) && Distinct(others) && SetOf(keys) == SetOf(others)
    ensures multiset(Gather(keys, f)) == multiset(Gather(others, f))
  {
    if keys == [] {
      DistinctSize(keys);
      DistinctSize(others);
    } else {
      var n := |keys| - 1;
      assert keys[n] in SetOf(keys) && keys[n] in others;
      var p :| 0 <= p < |others| && others[p] == keys[n];
      var rest := others[..p] + others[p + 1..];
      assert SetOf(keys[..n]) == SetOf(keys) - {keys[n]};
      assert SetOf(rest) == SetOf(others) - {others[p]};
      GatherForgetsOrder(keys[..n], rest, f);
      GatherWithout(others, f, p);
    }
  }

  // ----- one rule

  ghost function Unsorted(h: LeadId, d: Definition, ts: seq<Transfer>): seq<Lead> {
    if d.rule.SequentialDecreasing? then SequentialLeads(h, d, ts)
    else Gather(Enumerate(Groups(d.rule, ts).Keys), KeyLeads(h, d, Groups(d.rule, ts)))
  }

  /** What a rule reports. */
  ghost function Detected(h: LeadId, d: Definition, ts: seq<Transfer>): seq<Lead> {
    Sort(Unsorted(h, d, ts), ById)
  }

  lemma UnsortedIsFormed(h: LeadId, d: Definition, ts: seq<Transfer>)
    requires UniqueIds(ts)
    ensures forall l :: l in Unsorted(h, d, ts) ==> Formed(h, l) && l.definition == d
  {
    if d.rule.SequentialDecreasing? {
      SequentialIsFormed(h, d, ts);
    } else {
      GatherIsFormed(h, d, ts, Enumerate(Groups(d.rule, ts).Keys));
    }
  }

  lemma SortedAlike(h: LeadId, d: Definition, ts: seq<Transfer>, leads: seq<Lead>)
    requires NoCollision(Unsorted(h, d, ts)) && UniqueIds(ts) && multiset(leads) == multiset(Unsorted(h, d, ts))
    ensures Sort(leads, ById) == Detected(h, d, ts)
  {
    UnsortedIsFormed(h, d, ts);
    SameMembers(leads, Unsorted(h, d, ts));
    FormedOrders(h, [d], leads);
    SortForgetsOrder(leads, Unsorted(h, d, ts), ById);
  }

  method Detect(h: LeadId, d: Definition, ts: seq<Transfer>) returns (leads: seq<Lead>)
    ensures multiset(leads) == multiset(Unsorted(h, d, ts))
    ensures NoCollision(Unsorted(h, d, ts)) && UniqueIds(ts) ==> leads == Detected(h, d, ts)
  {
    if d.rule.SequentialDecreasing? {
      leads := DetectSequential(h, d, ts);
    } else {
      leads := DetectInGroups(h, d, ts);
      ghost var keys :| InSomeOrder(h, d, ts, keys, leads);
      GatherForgetsOrder(keys, Enumerate(Groups(d.rule, ts).Keys), KeyLeads(h, d, Groups(d.rule, ts)));
    }
    if NoCollision(Unsorted(h, d, ts)) && UniqueIds(ts) {
      SortedAlike(h, d, ts, leads);
    }
    leads := Sort(leads, ById);
  }

  // ----- all rules

  datatype Run = Run(definition: Definition, inputs: seq<string>, result: seq<Lead>)

  ghost function RunsOf(h: LeadId, ds: seq<Definition>, ts: seq<Transfer>): seq<Run> {
    if ds == [] then []
    else
      var k := |ds| - 1;
      RunsOf(h, ds[..k], ts) + [Run(ds[k], TransferIds(ts), Detected(h, ds[k], ts))]
  }

  ghost function AllDetected(h: LeadId, ds: seq<Definition>, ts: seq<Transfer>): seq<Lead> {
    if ds == [] then []
    else
      var k := |ds| - 1;
      AllDetected(h, ds[..k], ts) + Detected(h, ds[k], ts)
  }

  /** The leads and runs of a list of transfers. */
  ghost function Evaluated(h: LeadId, ds: seq<Definition>, ts: seq<Transfer>): (seq<Lead>, seq<Run>) {
    (Sort(AllDetected(h, ds, Backed(ts)), ById), RunsOf(h, ds, Backed(ts)))
  }

  lemma BackedMembers(ts: seq<Transfer>)
    requires UniqueIds(ts)
    ensures UniqueIds(Backed(ts)) && forall t :: t in Backed(ts) <==> t in ts && Counts(t)
  {
    SameMembers(Backed(ts), Counted(ts));
  }

  lemma {:induction false} InAllDetected(h: LeadId, ds: seq<Definition>, ts: seq<Transfer>, d: Definition)
    requires d in ds
    ensures forall l :: l in Unsorted(h, d, ts) ==> l in AllDetected(h, ds, ts)
  {
    var k := |ds| - 1;
    if d == ds[k] {
      SameMembers(Detected(h, d, ts), Unsorted(h, d, ts));
    } else {
      assert ds == ds[..k] + [ds[k]];
      InAllDetected(h, ds[..k], ts, d);
    }
  }

  lemma NoCollisionInside(h: LeadId, ds: seq<Definition>, ts: seq<Transfer>, d: Definition)
    requires d in ds && NoCollision(AllDetected(h, ds, ts))
    ensures NoCollision(Unsorted(h, d, ts))
  {
    InAllDetected(h, ds, ts, d);
  }

  /** Whatever digests collide, the leads are those of the rules; if none of them collide, in the one order there is. */
  method Evaluate(h: LeadId, ds: seq<Definition>, ts: seq<Transfer>) returns (leads: seq<Lead>, runs: seq<Run>)
    ensures multiset(leads) == multiset(AllDetected(h, ds, Backed(ts)))
    ensures NoCollision(AllDetected(h, ds, Backed(ts))) && UniqueIds(ts) ==> (leads, runs) == Evaluated(h, ds, ts)
  {
    var backed := ConfirmationBacked(ts);
    ghost var settled := NoCollision(AllDetected(h, ds, backed)) && UniqueIds(ts);
    if UniqueIds(ts) {
      BackedMembers(ts);
    }
    leads, runs := [], [];
    for i := 0 to |ds|
      invariant multiset(leads) == multiset(AllDetected(h, ds[..i], backed))
      invariant settled ==> leads == AllDetected(h, ds[..i], backed) && runs == RunsOf(h, ds[..i], backed)
    {
      assert ds[..i + 1][..i] == ds[..i];
      assert ds[i] in ds;
      if settled {
        NoCollisionInside(h, ds, backed, ds[i]);
      }
      var detected := Detect(h, ds[i], backed);
      runs := runs + [Run(ds[i], TransferIds(backed), detected)];
      leads := leads + detected;
    }
    assert ds[..|ds|] == ds;
    leads := Sort(leads, ById);
  }

  lemma {:induction false} CountedIsDistinct(ts: seq<Transfer>)
    requires Distinct(ts)
    ensures Distinct(Counted(ts))
  {
    if ts != [] {
      var k := |ts| - 1;
      CountedIsDistinct(ts[..k]);
      assert forall t :: t in Counted(ts[..k]) ==> t in ts[..k];
    }
  }

  lemma {:induction false} SameSetSameMultiset(xs: seq<Transfer>, ys: seq<Transfer>)
    requires Distinct(xs) && Distinct(ys) && forall t :: t in xs <==> t in ys
    ensures multiset(xs) == multiset(ys)
  {
    DistinctCounts(xs);
    DistinctCounts(ys);
    assert forall t :: t in multiset(xs) <==> t in xs;
    assert forall t :: t in multiset(ys) <==> t in ys;
  }

  /** The evaluation depends on nothing but the set of backed transfers: not on the order of the input, and not on
      provisional or undated transfers. */
  lemma EvaluationForgets(h: LeadId, ds: seq<Definition>, ts: seq<Transfer>, us: seq<Transfer>)
    requires Distinct(ts) && Distinct(us) && UniqueIds(ts)
    requires forall t :: Counts(t) ==> (t in ts <==> t in us)
    ensures Evaluated(h, ds, ts) == Evaluated(h, ds, us)
  {
    CountedIsDistinct(ts);
    CountedIsDistinct(us);
    SameSetSameMultiset(Counted(ts), Counted(us));
    EarlierOrders(Counted(ts));
    SortForgetsOrder(Counted(ts), Counted(us), Earlier);
  }

  lemma {:induction false} AllDetectedIsFormed(h: LeadId, ds: seq<Definition>, ts: seq<Transfer>)
    requires UniqueIds(ts)
    ensures forall l :: l in AllDetected(h, ds, ts) ==> Formed(h, l) && l.definition in ds
  {
    if ds != [] {
      var k := |ds| - 1;
      AllDetectedIsFormed(h, ds[..k], ts);
      UnsortedIsFormed(h, ds[k], ts);
      SameMembers(Detected(h, ds[k], ts), Unsorted(h, ds[k], ts));
    }
  }

  /** The leads come in the order of their IDs, and there is only one such order. */
  lemma LeadsAreOrdered(h: LeadId, ds: seq<Definition>, ts: seq<Transfer>)
    requires NoCollision(AllDetected(h, ds, Backed(ts))) && UniqueIds(ts) && OneDefinitionEach(ds)
    ensures Sorted(ById, Evaluated(h, ds, ts).0) && Orders(ById, Evaluated(h, ds, ts).0)
    ensures multiset(Evaluated(h, ds, ts).0) == multiset(AllDetected(h, ds, Backed(ts)))
  {
    BackedMembers(ts);
    var all := AllDetected(h, ds, Backed(ts));
    AllDetectedIsFormed(h, ds, Backed(ts));
    FormedOrders(h, ds, all);
    SortSorts(all, ById);
    SameMembers(Sort(all, ById), all);
  }

  /** For the rules of the catalog that holds as they stand. */
  lemma CatalogLeadsAreOrdered(h: LeadId, ts: seq<Transfer>)
    requires NoCollision(AllDetected(h, CATALOG, Backed(ts))) && UniqueIds(ts)
    ensures Sorted(ById, Evaluated(h, CATALOG, ts).0) && Orders(ById, Evaluated(h, CATALOG, ts).0)
    ensures multiset(Evaluated(h, CATALOG, ts).0) == multiset(AllDetected(h, CATALOG, Backed(ts)))
  {
    CatalogDefinesOnce();
    LeadsAreOrdered(h, CATALOG, ts);
  }

  // ----- what each rule reports, exactly

  /** The transfers of a group, in time order. */
  function SortedGroup(rule: Rule, ts: seq<Transfer>, k: Key): seq<Transfer> {
    Sort(GroupOf(Groups(rule, ts), k), Earlier)
  }

  function LeadAt(h: LeadId, d: Definition, ts: seq<Transfer>, k: Key): Option<Lead> {
    GroupLead(h, d, k, SortedGroup(d.rule, ts, k))
  }

  lemma SortedGroupExactly(rule: Rule, ts: seq<Transfer>, k: Key)
    ensures forall t :: t in SortedGroup(rule, ts, k) <==> t in ts && k in KeysFor(rule, t)
    ensures UniqueIds(ts) ==> InTime(SortedGroup(rule, ts, k))
  {
    var group := GroupOf(Groups(rule, ts), k);
    SameMembers(Sort(group, Earlier), group);
    forall t ensures t in group <==> t in ts && k in KeysFor(rule, t) {
      GroupMembers(rule, ts, k, t);
    }
    if UniqueIds(ts) {
      GroupIds(rule, ts, k);
      SortedInTime(group);
    }
  }

  lemma KeyLeadsAt(h: LeadId, d: Definition, ts: seq<Transfer>, k: Key, l: Lead)
    ensures l in KeyLeads(h, d, Groups(d.rule, ts))(k) <==> LeadAt(h, d, ts, k) == Some(l)
  {
  }

  /** A grouping rule reports what its groups lead to. */
  lemma DetectedInGroups(h: LeadId, d: Definition, ts: seq<Transfer>, l: Lead)
    requires !d.rule.SequentialDecreasing?
    ensures l in Detected(h, d, ts) <==> exists k :: k in Groups(d.rule, ts) && LeadAt(h, d, ts, k) == Some(l)
  {
    var groups := Groups(d.rule, ts);
    var keys, f := Enumerate(groups.Keys), KeyLeads(h, d, groups);
    SameMembers(Detected(h, d, ts), Unsorted(h, d, ts));
    Gathered(keys, f, l);
    forall k ensures k in keys && l in f(k) <==> k in groups && LeadAt(h, d, ts, k) == Some(l) {
      assert k in keys <==> k in SetOf(keys);
      KeyLeadsAt(h, d, ts, k, l);
    }
  }

  /** Transfers of the subject and asset (and amount) with enough different counterparties in one window. */
  ghost predicate DispersesFrom(d: Definition, ts: seq<Transfer>, k: Key, some: set<Transfer>) {
    && (forall t :: t in some ==> t in ts && k in KeysFor(d.rule, t))
    && |set t | t in some :: Partner(t, d.rule.FanIn?)| >= d.minimum
    && (forall a, b :: a in some && b in some ==> a.time - b.time <= d.window)
  }

  /** A dispersal rule leads somewhere for a subject and asset if and only if some of its transfers qualify. */
  lemma DispersalExactly(h: LeadId, d: Definition, ts: seq<Transfer>, k: Key)
    requires IsDispersal(d.rule) && d.minimum >= 2 && d.window > 0 && UniqueIds(ts)
    ensures LeadAt(h, d, ts, k).Some? <==> exists some :: DispersesFrom(d, ts, k, some)
  {
    var sorted := SortedGroup(d.rule, ts, k);
    SortedGroupExactly(d.rule, ts, k);
    WindowExactly(sorted, d.rule.FanIn?, d.minimum, d.window);
    forall some ensures DispersesFrom(d, ts, k, some) <==> Disperses(sorted, some, d.rule.FanIn?, d.minimum, d.window) {
    }
  }

  /** Its subject is the address of the group, and its counterparties are the least number that is asked for. */
  lemma DispersalSubject(h: LeadId, d: Definition, ts: seq<Transfer>, k: Key)
    requires IsDispersal(d.rule) && UniqueIds(ts) && LeadAt(h, d, ts, k).Some?
    ensures LeadAt(h, d, ts, k).value.subject == k.address && LeadAt(h, d, ts, k).value.distinct == d.minimum
  {
    var sorted := SortedGroup(d.rule, ts, k);
    SortedGroupExactly(d.rule, ts, k);
    var start, end := WindowIsTight(sorted, d.rule.FanIn?, d.minimum, d.window);
    var first := sorted[start];
    assert first in sorted;
    KeyNamesSubject(d.rule, first, k);
  }

  lemma KeyNamesSubject(rule: Rule, t: Transfer, k: Key)
    requires IsDispersal(rule) && k in KeysFor(rule, t)
    ensures Partner(t, !rule.FanIn?) == k.address
  {
  }

  ghost predicate SomeOnward(group: seq<Transfer>, middle: string, window: int) {
    exists i, o :: i in group && o in group && Onward(middle, window, i, o)
  }

  lemma FirstOnwardExactly(group: seq<Transfer>, middle: string, window: int)
    ensures FirstOnward(group, 0, middle, window).Some? <==> SomeOnward(group, middle, window)
  {
    if i, o :| i in group && o in group && Onward(middle, window, i, o) {
      var m :| 0 <= m < |group| && group[m] == i;
      var n :| 0 <= n < |group| && group[n] == o;
      assert Onward(middle, window, group[m], group[n]);
    }
  }

  /** An address leads to a rapid onward transfer if and only if some pair of one asset passes through it. */
  lemma RapidExactly(h: LeadId, d: Definition, ts: seq<Transfer>, address: string, asset: AssetId)
    requires d.rule.RapidOnward? && d.window > 0 && address != ""
    ensures LeadAt(h, d, ts, Key(address, Some(asset), None)).Some? <==>
            exists i, o :: i in ts && o in ts && AssetOf(i) == asset && AssetOf(o) == asset && Onward(address, d.window, i, o)
  {
    var k := Key(address, Some(asset), None);
    var sorted := SortedGroup(d.rule, ts, k);
    SortedGroupExactly(d.rule, ts, k);
    FirstOnwardExactly(sorted, address, d.window);
    forall i, o | Onward(address, d.window, i, o)
      ensures i in sorted && o in sorted <==> i in ts && o in ts && AssetOf(i) == asset && AssetOf(o) == asset
    {
      RapidKeys(i, address, asset);
      RapidKeys(o, address, asset);
    }
  }

  lemma RapidKeys(t: Transfer, address: string, asset: AssetId)
    requires address != ""
    ensures Key(address, Some(asset), None) in KeysFor(RapidOnward, t) <==> AssetOf(t) == asset && (t.from == address || t.to == address)
  {
  }

  /** The two transfers are all that is observed at the address. */
  ghost predicate OnlyThese(ts: seq<Transfer>, address: string, i: Transfer, o: Transfer) {
    forall t :: t in ts && (t.from == address || t.to == address) ==> t == i || t == o
  }

  /** One transfer in and then one out, of one asset and amount, and nothing else, is observed at the address. */
  ghost predicate Intermediary(ts: seq<Transfer>, address: string, window: int, i: Transfer, o: Transfer) {
    i in ts && o in ts && Earlier(i, o) && OnlyThese(ts, address, i, o) && PassesThrough(address, window, [i, o])
  }

  lemma BriefMembers(ts: seq<Transfer>, address: string)
    requires address != "" && UniqueIds(ts) && Distinct(ts)
    ensures var sorted := SortedGroup(BriefIntermediary, ts, Key(address, None, None));
            && (forall t :: t in sorted <==> t in ts && (t.from == address || t.to == address))
            && Distinct(sorted) && Sorted(Earlier, sorted)
  {
    var k := Key(address, None, None);
    SortedGroupExactly(BriefIntermediary, ts, k);
    forall t ensures k in KeysFor(BriefIntermediary, t) <==> t.from == address || t.to == address {
      BriefKeys(t, address);
    }
    BriefIsDistinct(ts, k);
    BriefIsSorted(ts, k);
  }

  lemma PairIsIntermediary(ts: seq<Transfer>, address: string, window: int, s: seq<Transfer>)
    requires Distinct(s) && Sorted(Earlier, s) && forall t :: t in s <==> t in ts && (t.from == address || t.to == address)
    requires PassesThrough(address, window, s)
    ensures Intermediary(ts, address, window, s[0], s[1])
  {
    assert s == [s[0], s[1]];
    assert s[0] in s && s[1] in s && AtMost(Earlier, s[0], s[1]);
    assert forall t :: t in s ==> t == s[0] || t == s[1];
  }

  /** An address leads to a brief intermediary if and only if it is one. */
  lemma BriefExactly(h: LeadId, d: Definition, ts: seq<Transfer>, address: string)
    requires d.rule.BriefIntermediary? && d.window > 0 && address != "" && UniqueIds(ts) && Distinct(ts)
    ensures LeadAt(h, d, ts, Key(address, None, None)).Some? <==> exists i, o :: Intermediary(ts, address, d.window, i, o)
  {
    BriefMembers(ts, address);
    BriefIsIntermediary(ts, address, d.window, SortedGroup(d.rule, ts, Key(address, None, None)));
  }

  lemma BriefIsIntermediary(ts: seq<Transfer>, address: string, window: int, s: seq<Transfer>)
    requires Distinct(s) && Sorted(Earlier, s) && forall t :: t in s <==> t in ts && (t.from == address || t.to == address)
    ensures PassesThrough(address, window, s) <==> exists i, o :: Intermediary(ts, address, window, i, o)
  {
    if PassesThrough(address, window, s) {
      PairIsIntermediary(ts, address, window, s);
    }
    if i, o :| Intermediary(ts, address, window, i, o) {
      TwoInOrder(s, i, o);
    }
  }

  lemma BriefKeys(t: Transfer, address: string)
    requires address != ""
    ensures Key(address, None, None) in KeysFor(BriefIntermediary, t) <==> t.from == address || t.to == address
  {
  }

  lemma TwoInOrder(s: seq<Transfer>, i: Transfer, o: Transfer)
    requires Distinct(s) && Sorted(Earlier, s) && Earlier(i, o) && i in s && o in s && forall t :: t in s ==> t == i || t == o
    ensures s == [i, o]
  {
    StringLessIsOrder();
    DistinctSize(s);
    assert SetOf(s) == {i, o};
    assert s[0] in s && s[1] in s && AtMost(Earlier, s[0], s[1]);
  }

  lemma BriefIsSorted(ts: seq<Transfer>, k: Key)
    requires UniqueIds(ts)
    ensures Sorted(Earlier, SortedGroup(BriefIntermediary, ts, k))
  {
    var group := GroupOf(Groups(BriefIntermediary, ts), k);
    GroupIds(BriefIntermediary, ts, k);
    EarlierOrders(group);
    SortSorts(group, Earlier);
  }

  lemma {:induction false} BriefGroupIsDistinct(ts: seq<Transfer>, k: Key)
    requires Distinct(ts)
    ensures Distinct(GroupOf(Groups(BriefIntermediary, ts), k))
  {
    if ts != [] {
      var n := |ts| - 1;
      var front, keys := Groups(BriefIntermediary, ts[..n]), KeysFor(BriefIntermediary, ts[n]);
      BriefGroupIsDistinct(ts[..n], k);
      GroupMembers(BriefIntermediary, ts[..n], k, ts[n]);
      PutAllOnce(front, keys, ts[n], k);
    }
  }

  lemma {:induction false} PutAllOnce(groups: map<Key, seq<Transfer>>, keys: seq<Key>, t: Transfer, k: Key)
    requires Distinct(keys)
    ensures GroupOf(PutAll(groups, keys, t), k) == GroupOf(groups, k) + if k in keys then [t] else []
  {
    if keys != [] {
      var n := |keys| - 1;
      PutAllOnce(groups, keys[..n], t, k);
      assert keys == keys[..n] + [keys[n]];
    }
  }

  lemma BriefIsDistinct(ts: seq<Transfer>, k: Key)
    requires Distinct(ts)
    ensures Distinct(SortedGroup(BriefIntermediary, ts, k))
  {
    BriefGroupIsDistinct(ts, k);
    SortedDistinct(GroupOf(Groups(BriefIntermediary, ts), k), Earlier);
  }

  ghost predicate IsChain(window: int, ts: seq<Transfer>, a: Transfer, b: Transfer, c: Transfer) {
    a in ts && b in ts && c in ts && Starts(a) && SecondHop(window, a, b) && ThirdHop(window, a, b, c)
  }

  /** Every sequential lead names a chain of three. */
  lemma SequentialSound(h: LeadId, d: Definition, ts: seq<Transfer>, l: Lead)
    requires d.rule.SequentialDecreasing? && l in Detected(h, d, ts)
    ensures exists a, b, c :: IsChain(d.window, ts, a, b, c) && l == MakeLead(h, d, a.from, [a, b, c], 0)
  {
    SameMembers(Detected(h, d, ts), Unsorted(h, d, ts));
    InSequential(h, d, ts, l);
    var a :| StartsChainLead(h, d, ts, a, l);
    var b :| IsChainLead(h, d, ts, a, b, l);
    var c := FirstThird(ts, 0, d.window, a, b).value;
    assert IsChain(d.window, ts, a, b, c);
  }

  /** And the first two hops of every chain are reported, with some third. */
  lemma SequentialComplete(h: LeadId, d: Definition, ts: seq<Transfer>, a: Transfer, b: Transfer, c: Transfer) returns (third: Transfer)
    requires d.rule.SequentialDecreasing? && d.window > 0 && d.minimum == 3 && IsChain(d.window, ts, a, b, c)
    ensures IsChain(d.window, ts, a, b, third) && MakeLead(h, d, a.from, [a, b, third], 0) in Detected(h, d, ts)
  {
    SameMembers(Detected(h, d, ts), Unsorted(h, d, ts));
    var n :| 0 <= n < |ts| && ts[n] == c;
    third := FirstThird(ts, 0, d.window, a, b).value;
    var l := MakeLead(h, d, a.from, [a, b, third], 0);
    assert IsChainLead(h, d, ts, a, b, l) && StartsChainLead(h, d, ts, a, l);
    InSequential(h, d, ts, l);
  }
}
