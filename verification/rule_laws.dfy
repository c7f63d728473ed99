/** What the six rules of the catalog report, in terms of the fields of the transfers alone. */
module RuleLaws {
  import opened Options
  import opened Ordering
  import opened Text
  import opened Transfers
  import opened RuleWindows
  import opened Rules
  import opened Evaluation

  // ----- fields

  predicate Moves(t: Transfer, asset: AssetId) {
    t.kind == asset.kind && t.contract == asset.contract && t.symbol == asset.symbol
  }

  predicate BetweenTwo(t: Transfer) {
    t.from != "" && t.to != "" && t.from != t.to
  }

  /** The transfer counts for the subject: with FanIn it comes to it, else it goes out from it, and for equal amounts it
      moves that amount. */
  predicate CountsFor(rule: Rule, t: Transfer, subject: string, asset: AssetId, amount: Option<nat>) {
    && BetweenTwo(t) && Moves(t, asset) && (if rule.FanIn? then t.to == subject else t.from == subject)
    && (if rule.RepeatedEqualAmount? then amount.Some? && ParseAmount(t.amount) == Some(amount.value as int) else amount == None)
  }

  predicate WithinWindow(a: Transfer, b: Transfer, window: int) {
    a.time <= b.time && b.time <= a.time + window
  }

  lemma DispersalKey(rule: Rule, t: Transfer, k: Key)
    requires IsDispersal(rule)
    ensures k in KeysFor(rule, t) <==> k.asset.Some? && CountsFor(rule, t, k.address, k.asset.value, k.amount)
  {
  }

  // ----- dispersal: fan-in, fan-out, repeated equal amounts

  /** Transfers that count for the subject, to or from enough others, all within the window. */
  ghost predicate Scatters(d: Definition, ts: seq<Transfer>, subject: string, asset: AssetId, amount: Option<nat>, some: set<Transfer>) {
    && (forall t :: t in some ==> t in ts && CountsFor(d.rule, t, subject, asset, amount))
    && (if d.rule.FanIn? then |set t | t in some :: t.from| >= d.minimum else |set t | t in some :: t.to| >= d.minimum)
    && (forall a, b :: a in some && b in some ==> a.time - b.time <= d.window)
  }

  lemma ScattersIsDisperses(d: Definition, ts: seq<Transfer>, k: Key, asset: AssetId, some: set<Transfer>)
    requires IsDispersal(d.rule) && k.asset == Some(asset)
    ensures Scatters(d, ts, k.address, asset, k.amount, some) <==> DispersesFrom(d, ts, k, some)
  {
    forall t ensures k in KeysFor(d.rule, t) <==> CountsFor(d.rule, t, k.address, asset, k.amount) {
      DispersalKey(d.rule, t, k);
    }
    if d.rule.FanIn? {
      assert (set t | t in some :: Partner(t, true)) == (set t | t in some :: t.from);
    } else {
      assert (set t | t in some :: Partner(t, false)) == (set t | t in some :: t.to);
    }
  }

  lemma KeyIsGroup(rule: Rule, ts: seq<Transfer>, k: Key, t: Transfer)
    requires t in ts && k in KeysFor(rule, t)
    ensures k in Groups(rule, ts)
  {
    GroupMembers(rule, ts, k, t);
  }

  lemma NobodyHasNoPartner(some: set<Transfer>, inbound: bool)
    ensures some == {} ==> |set t | t in some :: Partner(t, inbound)| == 0
  {
  }

  lemma SomeScattered(d: Definition, ts: seq<Transfer>, k: Key, some: set<Transfer>) returns (t: Transfer)
    requires d.minimum > 0 && DispersesFrom(d, ts, k, some)
    ensures t in some && t in ts && k in KeysFor(d.rule, t)
  {
    NobodyHasNoPartner(some, d.rule.FanIn?);
    t :| t in some;
  }

  lemma DispersedIsReported(h: LeadId, d: Definition, ts: seq<Transfer>, k: Key) returns (l: Lead)
    requires IsDispersal(d.rule) && d.minimum >= 2 && d.window > 0 && UniqueIds(ts)
    requires k in Groups(d.rule, ts) && exists some :: DispersesFrom(d, ts, k, some)
    ensures l in Detected(h, d, ts) && l.subject == k.address
  {
    DispersalExactly(h, d, ts, k);
    DispersalSubject(h, d, ts, k);
    l := LeadAt(h, d, ts, k).value;
    DetectedInGroups(h, d, ts, l);
  }

  lemma ReportedIsDispersed(h: LeadId, d: Definition, ts: seq<Transfer>, l: Lead) returns (k: Key)
    requires IsDispersal(d.rule) && d.minimum >= 2 && d.window > 0 && UniqueIds(ts) && l in Detected(h, d, ts)
    ensures l.subject == k.address && exists some :: DispersesFrom(d, ts, k, some)
  {
    DetectedInGroups(h, d, ts, l);
    k :| k in Groups(d.rule, ts) && LeadAt(h, d, ts, k) == Some(l);
    DispersalExactly(h, d, ts, k);
    DispersalSubject(h, d, ts, k);
  }

  lemma ScatteredIsReported(h: LeadId, d: Definition, ts: seq<Transfer>, subject: string, asset: AssetId, amount: Option<nat>, some: set<Transfer>)
    returns (l: Lead)
    requires IsDispersal(d.rule) && d.minimum >= 2 && d.window > 0 && UniqueIds(ts)
    requires Scatters(d, ts, subject, asset, amount, some)
    ensures l in Detected(h, d, ts) && l.subject == subject
  {
    var k := Key(subject, Some(asset), amount);
    ScattersIsDisperses(d, ts, k, asset, some);
    var t := SomeScattered(d, ts, k, some);
    KeyIsGroup(d.rule, ts, k, t);
    l := DispersedIsReported(h, d, ts, k);
  }

  lemma ReportedIsScattered(h: LeadId, d: Definition, ts: seq<Transfer>, l: Lead)
    returns (asset: AssetId, amount: Option<nat>, some: set<Transfer>)
    requires IsDispersal(d.rule) && d.minimum >= 2 && d.window > 0 && UniqueIds(ts) && l in Detected(h, d, ts)
    ensures Scatters(d, ts, l.subject, asset, amount, some)
  {
    var k := ReportedIsDispersed(h, d, ts, l);
    some :| DispersesFrom(d, ts, k, some);
    var t := SomeScattered(d, ts, k, some);
    DispersalKey(d.rule, t, k);
    asset, amount := k.asset.value, k.amount;
    ScattersIsDisperses(d, ts, k, asset, some);
  }

  /** A subject has a dispersal lead if and only if some of its transfers scatter. */
  lemma ScattersExactly(h: LeadId, d: Definition, ts: seq<Transfer>, subject: string)
    requires IsDispersal(d.rule) && d.minimum >= 2 && d.window > 0 && UniqueIds(ts)
    ensures (exists l :: l in Detected(h, d, ts) && l.subject == subject) <==>
            exists asset, amount, some :: Scatters(d, ts, subject, asset, amount, some)
  {
    if l :| l in Detected(h, d, ts) && l.subject == subject {
      var asset, amount, some := ReportedIsScattered(h, d, ts, l);
    }
    if asset, amount, some :| Scatters(d, ts, subject, asset, amount, some) {
      var l := ScatteredIsReported(h, d, ts, subject, asset, amount, some);
    }
  }

  /** The transfers a lead names: in ID order. */
  ghost predicate Names(l: Lead, matches: seq<Transfer>) {
    && multiset(l.ids) == multiset(IdsOf(matches)) && |l.ids| == |matches|
    && forall i, j :: 0 <= i < j < |l.ids| ==> l.ids[i] == l.ids[j] || StringLess(l.ids[i], l.ids[j])
  }

  lemma LeadNames(h: LeadId, d: Definition, subject: string, matches: seq<Transfer>, distinct: nat)
    ensures Names(MakeLead(h, d, subject, matches, distinct), matches)
  {
    StringLessIsOrder();
    SortSorts(IdsOf(matches), StringLess);
    forall i, j | 0 <= i < j < |matches|
      ensures TransferIds(matches)[i] == TransferIds(matches)[j] || StringLess(TransferIds(matches)[i], TransferIds(matches)[j]) {
      assert AtMost(StringLess, TransferIds(matches)[i], TransferIds(matches)[j]);
    }
  }

  /** The transfers of a dispersal lead: they count for its subject, have exactly the least number of others, and lie within
      the window. */
  lemma DispersalNames(h: LeadId, d: Definition, ts: seq<Transfer>, l: Lead) returns (asset: AssetId, amount: Option<nat>, matches: seq<Transfer>)
    requires IsDispersal(d.rule) && UniqueIds(ts) && l in Detected(h, d, ts)
    ensures Names(l, matches) && matches != []
    ensures forall t :: t in matches ==> t in ts && CountsFor(d.rule, t, l.subject, asset, amount)
    ensures if d.rule.FanIn? then |set t | t in matches :: t.from| == d.minimum else |set t | t in matches :: t.to| == d.minimum
    ensures forall i, j :: 0 <= i <= j < |matches| ==> matches[i].time <= matches[j].time <= matches[i].time + d.window
  {
    DetectedInGroups(h, d, ts, l);
    var k :| k in Groups(d.rule, ts) && LeadAt(h, d, ts, k) == Some(l);
    var sorted := SortedGroup(d.rule, ts, k);
    SortedGroupExactly(d.rule, ts, k);
    DispersalSubject(h, d, ts, k);
    var start, end := WindowIsTight(sorted, d.rule.FanIn?, d.minimum, d.window);
    matches := FirstWindow(sorted, d.rule.FanIn?, d.minimum, d.window).0;
    StretchMembers(d, ts, k, sorted, matches, start, end);
    DispersalKey(d.rule, matches[0], k);
    asset, amount := k.asset.value, k.amount;
    forall t | t in matches ensures t in ts && CountsFor(d.rule, t, l.subject, asset, amount) {
      DispersalKey(d.rule, t, k);
    }
    StretchPartners(matches, d.rule.FanIn?);
    LeadNames(h, d, l.subject, matches, l.distinct);
  }

  lemma StretchMembers(d: Definition, ts: seq<Transfer>, k: Key, group: seq<Transfer>, matches: seq<Transfer>, start: nat, end: nat)
    requires forall t :: t in group <==> t in ts && k in KeysFor(d.rule, t)
    requires InTime(group) && IsStretch(group, matches, start, end)
    requires d.minimum >= 0 && Fits(group, start, end, d.rule.FanIn?, d.minimum, d.window)
    ensures matches != [] && forall t :: t in matches ==> t in ts && k in KeysFor(d.rule, t)
    ensures forall i, j :: 0 <= i <= j < |matches| ==> matches[i].time <= matches[j].time <= matches[i].time + d.window
  {
    forall i, j | 0 <= i <= j < |matches| ensures matches[i].time <= matches[j].time <= matches[i].time + d.window {
      assert group[start].time <= group[start + i].time <= group[start + j].time <= group[end].time;
    }
  }

  lemma StretchPartners(matches: seq<Transfer>, inbound: bool)
    ensures Partners(matches, inbound) == if inbound then set t | t in matches :: t.from else set t | t in matches :: t.to
  {
  }

  // ----- rapid onward transfers

  /** The asset comes to the middle, and within the window goes on to somebody else than it came from. */
  predicate PassesOn(i: Transfer, o: Transfer, middle: string, asset: AssetId, window: int) {
    Moves(i, asset) && Moves(o, asset) && i.to == middle && o.from == middle && o.to != i.from && WithinWindow(i, o, window)
  }

  lemma RapidKey(t: Transfer, k: Key)
    ensures k in KeysFor(RapidOnward, t) <==>
            k.address != "" && k.amount == None && k.asset == Some(AssetId(t.kind, t.contract, t.symbol)) && (t.from == k.address || t.to == k.address)
  {
  }

  lemma RapidSubject(h: LeadId, d: Definition, ts: seq<Transfer>, l: Lead) returns (i: Transfer, o: Transfer, asset: AssetId)
    requires d.rule.RapidOnward? && l in Detected(h, d, ts)
    ensures d.window > 0 && l.subject != "" && i in ts && o in ts && PassesOn(i, o, l.subject, asset, d.window) && Names(l, [i, o])
  {
    DetectedInGroups(h, d, ts, l);
    var k :| k in Groups(d.rule, ts) && LeadAt(h, d, ts, k) == Some(l);
    SortedGroupExactly(d.rule, ts, k);
    i, o := RapidLead(h, d, k, SortedGroup(d.rule, ts, k), l);
    RapidKey(i, k);
    RapidKey(o, k);
    asset := k.asset.value;
  }

  lemma RapidLead(h: LeadId, d: Definition, k: Key, group: seq<Transfer>, l: Lead) returns (i: Transfer, o: Transfer)
    requires d.rule.RapidOnward? && GroupLead(h, d, k, group) == Some(l)
    ensures d.window > 0 && l.subject == k.address && i in group && o in group && Onward(k.address, d.window, i, o) && Names(l, [i, o])
  {
    var pair := FirstOnward(group, 0, k.address, d.window).value;
    i, o := pair.0, pair.1;
    LeadNames(h, d, k.address, [i, o], 0);
  }

  /** An address has a rapid onward lead if and only if some asset passes on through it. */
  lemma PassesOnExactly(h: LeadId, d: Definition, ts: seq<Transfer>, address: string)
    requires d.rule.RapidOnward? && d.window > 0
    ensures (exists l :: l in Detected(h, d, ts) && l.subject == address) <==>
            address != "" && exists i, o, asset :: i in ts && o in ts && PassesOn(i, o, address, asset, d.window)
  {
    if l :| l in Detected(h, d, ts) && l.subject == address {
      var i, o, asset := RapidSubject(h, d, ts, l);
    }
    if i, o, asset :| address != "" && i in ts && o in ts && PassesOn(i, o, address, asset, d.window) {
      var l := PassedOnIsReported(h, d, ts, address, i, o, asset);
    }
  }

  lemma PassedOnIsReported(h: LeadId, d: Definition, ts: seq<Transfer>, address: string, i: Transfer, o: Transfer, asset: AssetId) returns (l: Lead)
    requires d.rule.RapidOnward? && d.window > 0 && address != "" && i in ts && o in ts && PassesOn(i, o, address, asset, d.window)
    ensures l in Detected(h, d, ts) && l.subject == address
  {
    var k := PassedOnKey(d, ts, address, i, o, asset);
    RapidExactly(h, d, ts, address, asset);
    l := LeadAt(h, d, ts, k).value;
    DetectedInGroups(h, d, ts, l);
    var i', o' := RapidLead(h, d, k, SortedGroup(d.rule, ts, k), l);
  }

  lemma PassedOnKey(d: Definition, ts: seq<Transfer>, address: string, i: Transfer, o: Transfer, asset: AssetId) returns (k: Key)
    requires d.rule.RapidOnward? && address != "" && i in ts && o in ts && PassesOn(i, o, address, asset, d.window)
    ensures k == Key(address, Some(asset), None) && k in Groups(d.rule, ts)
    ensures AssetOf(i) == asset && AssetOf(o) == asset && Onward(address, d.window, i, o)
  {
    k := Key(address, Some(asset), None);
    RapidKey(i, k);
    KeyIsGroup(d.rule, ts, k, i);
  }

  // ----- brief intermediaries

  /** All that is observed at the address: it gets an amount of an asset, and within the window passes the same amount on. */
  ghost predicate OnlyPasses(ts: seq<Transfer>, address: string, window: int, i: Transfer, o: Transfer, asset: AssetId, amount: nat) {
    && i in ts && o in ts && i != o && PassesOn(i, o, address, asset, window)
    && (forall t :: t in ts && (t.from == address || t.to == address) ==> t == i || t == o)
    && ParseAmount(i.amount) == Some(amount as int) && ParseAmount(o.amount) == Some(amount as int)
    && (i.time == o.time ==> StringLess(i.id, o.id))
  }

  lemma OnlyPassesIsIntermediary(ts: seq<Transfer>, address: string, window: int, i: Transfer, o: Transfer)
    requires Intermediary(ts, address, window, i, o)
    ensures OnlyPasses(ts, address, window, i, o, AssetOf(i), Amount(i).value)
  {
    StringLessIsOrder();
  }

  lemma IntermediaryIsOnlyPasses(ts: seq<Transfer>, address: string, window: int, i: Transfer, o: Transfer, asset: AssetId, amount: nat)
    requires OnlyPasses(ts, address, window, i, o, asset, amount)
    ensures Intermediary(ts, address, window, i, o)
  {
  }

  lemma BriefKey(t: Transfer, k: Key)
    ensures k in KeysFor(BriefIntermediary, t) <==> k.address != "" && k.asset == None && k.amount == None && (t.from == k.address || t.to == k.address)
  {
  }

  /** An address has a brief-intermediary lead if and only if nothing but such a pair is observed at it. */
  lemma OnlyPassesExactly(h: LeadId, d: Definition, ts: seq<Transfer>, address: string)
    requires d.rule.BriefIntermediary? && d.window > 0 && UniqueIds(ts) && Distinct(ts)
    ensures (exists l :: l in Detected(h, d, ts) && l.subject == address) <==>
            address != "" && exists i, o, asset, amount :: OnlyPasses(ts, address, d.window, i, o, asset, amount)
  {
    if l :| l in Detected(h, d, ts) && l.subject == address {
      var i, o := BriefNames(h, d, ts, l);
      OnlyPassesIsIntermediary(ts, address, d.window, i, o);
    }
    if i, o, asset, amount :| address != "" && OnlyPasses(ts, address, d.window, i, o, asset, amount) {
      IntermediaryIsOnlyPasses(ts, address, d.window, i, o, asset, amount);
      var l := BriefIsReported(h, d, ts, address, i, o);
    }
  }

  lemma BriefIsReported(h: LeadId, d: Definition, ts: seq<Transfer>, address: string, i: Transfer, o: Transfer) returns (l: Lead)
    requires d.rule.BriefIntermediary? && d.window > 0 && address != "" && UniqueIds(ts) && Distinct(ts)
    requires Intermediary(ts, address, d.window, i, o)
    ensures l in Detected(h, d, ts) && l.subject == address
  {
    var k := Key(address, None, None);
    BriefInGroups(ts, address, i);
    BriefExactly(h, d, ts, address);
    var group := SortedGroup(d.rule, ts, k);
    assert GroupLead(h, d, k, group).Some?;
    BriefLead(h, d, k, group, GroupLead(h, d, k, group).value);
    l := GroupLead(h, d, k, group).value;
    DetectedInGroups(h, d, ts, l);
  }

  lemma BriefInGroups(ts: seq<Transfer>, address: string, i: Transfer)
    requires address != "" && i in ts && i.to == address
    ensures Key(address, None, None) in Groups(BriefIntermediary, ts)
  {
    BriefKey(i, Key(address, None, None));
    KeyIsGroup(BriefIntermediary, ts, Key(address, None, None), i);
  }

  /** And what such a lead names is that pair. */
  lemma BriefNames(h: LeadId, d: Definition, ts: seq<Transfer>, l: Lead) returns (i: Transfer, o: Transfer)
    requires d.rule.BriefIntermediary? && d.window > 0 && UniqueIds(ts) && Distinct(ts) && l in Detected(h, d, ts)
    ensures l.subject != "" && Intermediary(ts, l.subject, d.window, i, o) && Names(l, [i, o])
  {
    var group := BriefGroup(h, d, ts, l);
    BriefMembers(ts, l.subject);
    PairIsIntermediary(ts, l.subject, d.window, group);
    i, o := group[0], group[1];
    assert group == [i, o];
  }

  lemma BriefGroup(h: LeadId, d: Definition, ts: seq<Transfer>, l: Lead) returns (group: seq<Transfer>)
    requires d.rule.BriefIntermediary? && d.window > 0 && l in Detected(h, d, ts)
    ensures l.subject != "" && group == SortedGroup(BriefIntermediary, ts, Key(l.subject, None, None))
    ensures PassesThrough(l.subject, d.window, group) && Names(l, group)
  {
    DetectedInGroups(h, d, ts, l);
    var k :| k in Groups(d.rule, ts) && LeadAt(h, d, ts, k) == Some(l);
    group := SortedGroup(d.rule, ts, k);
    BriefLead(h, d, k, group, l);
    SortedGroupExactly(d.rule, ts, k);
    assert group[0] in group;
    BriefKey(group[0], k);
  }

  lemma BriefLead(h: LeadId, d: Definition, k: Key, group: seq<Transfer>, l: Lead)
    requires d.rule.BriefIntermediary? && GroupLead(h, d, k, group) == Some(l)
    ensures PassesThrough(k.address, d.window, group) && l.subject == k.address && Names(l, group)
  {
    LeadNames(h, d, k.address, group, 0);
  }

  // ----- chains of three

  /** The second moves less of the asset on from where the first went, and not to itself. */
  predicate Continues(a: Transfer, b: Transfer, window: int) {
    && b.from == a.to && b.to != b.from && b.kind == a.kind && b.contract == a.contract && b.symbol == a.symbol
    && WithinWindow(a, b, window)
    && ParseAmount(a.amount).Some? && ParseAmount(b.amount).Some? && 0 <= ParseAmount(b.amount).value < ParseAmount(a.amount).value
  }

  /** Three hops of decreasing amounts that come back neither to the start nor to the first stop. */
  ghost predicate Chains(ts: seq<Transfer>, window: int, a: Transfer, b: Transfer, c: Transfer) {
    && a in ts && b in ts && c in ts && BetweenTwo(a) && Continues(a, b, window) && Continues(b, c, window)
    && b.to != a.from && c.to != a.from && c.to != a.to
  }

  lemma ChainsIsChain(ts: seq<Transfer>, window: int, a: Transfer, b: Transfer, c: Transfer)
    ensures Chains(ts, window, a, b, c) <==> IsChain(window, ts, a, b, c)
  {
  }

  /** An address has a sequential lead if and only if some chain starts at it; and what a lead names is such a chain. */
  lemma ChainsExactly(h: LeadId, d: Definition, ts: seq<Transfer>, address: string)
    requires d.rule.SequentialDecreasing? && d.window > 0 && d.minimum == 3
    ensures (exists l :: l in Detected(h, d, ts) && l.subject == address) <==>
            exists a, b, c :: Chains(ts, d.window, a, b, c) && a.from == address
  {
    if l :| l in Detected(h, d, ts) && l.subject == address {
      var a, b, c := ChainNames(h, d, ts, l);
    }
    if a, b, c :| Chains(ts, d.window, a, b, c) && a.from == address {
      ChainsIsChain(ts, d.window, a, b, c);
      var third := SequentialComplete(h, d, ts, a, b, c);
    }
  }

  lemma ChainNames(h: LeadId, d: Definition, ts: seq<Transfer>, l: Lead) returns (a: Transfer, b: Transfer, c: Transfer)
    requires d.rule.SequentialDecreasing? && l in Detected(h, d, ts)
    ensures Chains(ts, d.window, a, b, c) && l.subject == a.from && Names(l, [a, b, c])
  {
    SequentialSound(h, d, ts, l);
    a, b, c :| IsChain(d.window, ts, a, b, c) && l == MakeLead(h, d, a.from, [a, b, c], 0);
    ChainsIsChain(ts, d.window, a, b, c);
    LeadNames(h, d, a.from, [a, b, c], 0);
  }

  // ----- the catalog

  /** The rules see the confirmed and dated transfers. */
  lemma BackedExactly(ts: seq<Transfer>, t: Transfer)
    ensures t in Backed(ts) <==> t in ts && !t.provisional && t.time != ZERO_TIME
  {
    SameMembers(Backed(ts), Counted(ts));
  }

  lemma DetectedIsDefined(h: LeadId, d: Definition, ts: seq<Transfer>, l: Lead)
    requires UniqueIds(ts)
    ensures l in Detected(h, d, ts) ==> l.definition == d
  {
    UnsortedIsFormed(h, d, ts);
    SameMembers(Detected(h, d, ts), Unsorted(h, d, ts));
  }

  ghost function Flat(ds: seq<Definition>, f: Definition -> seq<Lead>): seq<Lead> {
    if ds == [] then [] else Flat(ds[..|ds| - 1], f) + f(ds[|ds| - 1])
  }

  lemma {:induction false} FlatExactly(ds: seq<Definition>, f: Definition -> seq<Lead>, l: Lead)
    ensures l in Flat(ds, f) <==> exists d :: d in ds && l in f(d)
  {
    if ds != [] {
      var k := |ds| - 1;
      FlatExactly(ds[..k], f, l);
      assert ds == ds[..k] + [ds[k]];
    }
  }

  ghost function Detecting(h: LeadId, ts: seq<Transfer>): Definition -> seq<Lead> {
    d => Detected(h, d, ts)
  }

  lemma {:induction false} AllDetectedIsFlat(h: LeadId, ds: seq<Definition>, ts: seq<Transfer>)
    ensures AllDetected(h, ds, ts) == Flat(ds, Detecting(h, ts))
  {
    if ds != [] {
      AllDetectedIsFlat(h, ds[..|ds| - 1], ts);
    }
  }

  /** The evaluation reports what its rules detect, under their own definitions. */
  lemma ReportedExactly(h: LeadId, ds: seq<Definition>, ts: seq<Transfer>, l: Lead)
    requires UniqueIds(ts)
    ensures l in AllDetected(h, ds, ts) <==> l.definition in ds && l in Detected(h, l.definition, ts)
  {
    AllDetectedIsFlat(h, ds, ts);
    FlatExactly(ds, Detecting(h, ts), l);
    if d :| d in ds && l in Detecting(h, ts)(d) {
      DetectedIsDefined(h, d, ts, l);
    }
  }

  ghost predicate HasLead(h: LeadId, ts: seq<Transfer>, d: Definition, subject: string) {
    exists l :: l in AllDetected(h, CATALOG, Backed(ts)) && l.definition == d && l.subject == subject
  }

  lemma HasLeadExactly(h: LeadId, ts: seq<Transfer>, d: Definition, subject: string)
    requires UniqueIds(ts) && d in CATALOG
    ensures HasLead(h, ts, d, subject) <==> exists l :: l in Detected(h, d, Backed(ts)) && l.subject == subject
  {
    BackedMembers(ts);
    if l :| l in AllDetected(h, CATALOG, Backed(ts)) && l.definition == d && l.subject == subject {
      ReportedExactly(h, CATALOG, Backed(ts), l);
    }
    if l :| l in Detected(h, d, Backed(ts)) && l.subject == subject {
      DetectedIsDefined(h, d, Backed(ts), l);
      ReportedExactly(h, CATALOG, Backed(ts), l);
    }
  }

  /** Fan-in, fan-out and repeated equal amounts: three counterparties within a day. */
  lemma CatalogDispersal(h: LeadId, ts: seq<Transfer>, rule: Rule, subject: string)
    requires UniqueIds(ts) && (rule.FanIn? || rule.FanOut? || rule.RepeatedEqualAmount?)
    ensures HasLead(h, ts, Definition(rule, 86400, 3), subject) <==>
            exists asset, amount, some :: Scatters(Definition(rule, 86400, 3), Backed(ts), subject, asset, amount, some)
  {
    var d := Definition(rule, 86400, 3);
    assert d == CATALOG[0] || d == CATALOG[1] || d == CATALOG[3];
    BackedMembers(ts);
    HasLeadExactly(h, ts, d, subject);
    ScattersExactly(h, d, Backed(ts), subject);
  }

  /** Rapid onward transfers: within an hour. */
  lemma CatalogRapid(h: LeadId, ts: seq<Transfer>, address: string)
    requires UniqueIds(ts)
    ensures HasLead(h, ts, Definition(RapidOnward, 3600, 0), address) <==>
            address != "" && exists i, o, asset :: i in Backed(ts) && o in Backed(ts) && PassesOn(i, o, address, asset, 3600)
  {
    var d := Definition(RapidOnward, 3600, 0);
    assert d == CATALOG[2];
    HasLeadExactly(h, ts, d, address);
    PassesOnExactly(h, d, Backed(ts), address);
  }

  /** Sequential decreasing transfers: three hops, each within an hour of the one before. */
  lemma CatalogSequential(h: LeadId, ts: seq<Transfer>, address: string)
    requires UniqueIds(ts)
    ensures HasLead(h, ts, Definition(SequentialDecreasing, 3600, 3), address) <==>
            exists a, b, c :: Chains(Backed(ts), 3600, a, b, c) && a.from == address
  {
    var d := Definition(SequentialDecreasing, 3600, 3);
    assert d == CATALOG[4];
    HasLeadExactly(h, ts, d, address);
    ChainsExactly(h, d, Backed(ts), address);
  }

  /** Brief intermediaries: in and out within an hour, and nothing else observed. */
  lemma CatalogBrief(h: LeadId, ts: seq<Transfer>, address: string)
    requires UniqueIds(ts) && Distinct(ts)
    ensures HasLead(h, ts, Definition(BriefIntermediary, 3600, 0), address) <==>
            address != "" && exists i, o, asset, amount :: OnlyPasses(Backed(ts), address, 3600, i, o, asset, amount)
  {
    var d := Definition(BriefIntermediary, 3600, 0);
    assert d == CATALOG[5];
    BackedMembers(ts);
    BackedIsDistinct(ts);
    HasLeadExactly(h, ts, d, address);
    OnlyPassesExactly(h, d, Backed(ts), address);
  }

  lemma BackedIsDistinct(ts: seq<Transfer>)
    requires Distinct(ts)
    ensures Distinct(Backed(ts))
  {
    CountedIsDistinct(ts);
    SortedDistinct(Counted(ts), Earlier);
  }

  /** What the evaluation returns comes by ascending lead ID. */
  lemma LeadsAscend(h: LeadId, ds: seq<Definition>, ts: seq<Transfer>)
    ensures LeadsInOrder(Evaluated(h, ds, ts).0)
  {
    LeadIdsAscend(AllDetected(h, ds, Backed(ts)));
  }

  ghost predicate LeadsInOrder(leads: seq<Lead>) {
    forall i, j :: 0 <= i < j < |leads| ==> !StringLess(leads[j].id, leads[i].id)
  }

  lemma LeadIdsAscend(all: seq<Lead>)
    ensures LeadsInOrder(Sort(all, ById))
  {
    StringLessIsOrder();
    SortAscends(all, ById);
    var s := Sort(all, ById);
    forall i, j | 0 <= i < j < |s| ensures !StringLess(s[j].id, s[i].id) {
      assert !ById(s[j], s[i]);
    }
  }

  /** The rules see the transfers by time, and those of one time by ID. */
  lemma BackedInOrder(ts: seq<Transfer>)
    ensures var s := Backed(ts);
            forall i, j :: 0 <= i < j < |s| ==> s[i].time < s[j].time || (s[i].time == s[j].time && !StringLess(s[j].id, s[i].id))
  {
    StringLessIsOrder();
    SortAscends(Counted(ts), Earlier);
    var s := Backed(ts);
    forall i, j | 0 <= i < j < |s| ensures s[i].time < s[j].time || (s[i].time == s[j].time && !StringLess(s[j].id, s[i].id)) {
      assert !Earlier(s[j], s[i]);
    }
  }

  /** A rule without a window, or with a number it does not work for, reports nothing. */
  lemma NothingWithout(h: LeadId, d: Definition, ts: seq<Transfer>, l: Lead)
    requires d.window <= 0 || (IsDispersal(d.rule) && d.minimum < 2) || (d.rule.SequentialDecreasing? && d.minimum != 3)
    ensures l !in Detected(h, d, ts)
  {
    if l in Detected(h, d, ts) {
      if d.rule.SequentialDecreasing? {
        SameMembers(Detected(h, d, ts), Unsorted(h, d, ts));
        InSequential(h, d, ts, l);
      } else {
        DetectedInGroups(h, d, ts, l);
        var k :| k in Groups(d.rule, ts) && LeadAt(h, d, ts, k) == Some(l);
        NoGroupLead(h, d, k, SortedGroup(d.rule, ts, k));
      }
    }
  }

  lemma NoGroupLead(h: LeadId, d: Definition, k: Key, group: seq<Transfer>)
    requires !d.rule.SequentialDecreasing? && (d.window <= 0 || (IsDispersal(d.rule) && d.minimum < 2))
    ensures GroupLead(h, d, k, group).None?
  {
  }

  // ----- lead IDs

  predicate SameDigest(h: LeadId, a: Lead, b: Lead) {
    h(a.definition.rule, a.subject, a.ids) == h(b.definition.rule, b.subject, b.ids)
  }

  /** Lead IDs collide exactly when two digests of different rules, subjects or transfers do: with a digest that tells
      those apart no ID is shared. */
  lemma CollidesExactly(h: LeadId, ds: seq<Definition>, ts: seq<Transfer>)
    requires forall t, u :: t in ts && u in ts && t.id == u.id ==> t == u
    ensures var leads := AllDetected(h, ds, ts);
            NoCollision(leads) <==> forall a, b :: a in leads && b in leads && SameDigest(h, a, b) ==>
                                      a.definition.rule == b.definition.rule && a.subject == b.subject && a.ids == b.ids
  {
    AllDetectedIsFormed(h, ds, ts);
    CollisionIsShared(h, AllDetected(h, ds, ts));
  }

  lemma CollisionIsShared(h: LeadId, leads: seq<Lead>)
    requires forall l :: l in leads ==> Formed(h, l)
    ensures NoCollision(leads) <==> forall a, b :: a in leads && b in leads && SameDigest(h, a, b) ==>
                                      a.definition.rule == b.definition.rule && a.subject == b.subject && a.ids == b.ids
  {
    forall a, b | a in leads && b in leads ensures a.id == b.id <==> SameDigest(h, a, b) {
    }
  }
}
