/** The detection rules over confirmation-backed transfers. */
module Rules {
  import opened Options
  import opened Ordering
  import opened Text
  import opened Transfers
  import opened RuleWindows

  datatype Rule = FanIn | FanOut | RapidOnward | RepeatedEqualAmount | SequentialDecreasing | BriefIntermediary

  /** A rule with its window in seconds and, where it has one, its least number of counterparties or hops. */
  datatype Definition = Definition(rule: Rule, window: int, minimum: int)

  const CATALOG: seq<Definition> :=
    [Definition(FanIn, 86400, 3), Definition(FanOut, 86400, 3), Definition(RapidOnward, 3600, 0),
     Definition(RepeatedEqualAmount, 86400, 3), Definition(SequentialDecreasing, 3600, 3), Definition(BriefIntermediary, 3600, 0)]

  /** The two numbers are those of the rationale text; the other texts depend on the definition alone. */
  datatype Lead = Lead(id: string, definition: Definition, subject: string, ids: seq<string>, observed: nat, distinct: nat)

  /** The shortened digest of rule, subject and transfer IDs. */
  type LeadId = (Rule, string, seq<string>) -> string

  function IdsOf(ts: seq<Transfer>): (ids: seq<string>)
    ensures |ids| == |ts| && forall i :: 0 <= i < |ts| ==> ids[i] == ts[i].id
  {
    seq(|ts|, i requires 0 <= i < |ts| => ts[i].id)
  }

  function TransferIds(ts: seq<Transfer>): seq<string> {
    Sort(IdsOf(ts), StringLess)
  }

  function MakeLead(h: LeadId, d: Definition, subject: string, ts: seq<Transfer>, distinct: nat): Lead {
    Lead(h(d.rule, subject, TransferIds(ts)), d, subject, TransferIds(ts), |TransferIds(ts)|, distinct)
  }

  // ----- amounts and groups

  function Amount(t: Transfer): Option<nat> {
    var amount := ParseAmount(t.amount);
    if amount.None? || amount.value < 0 then None else Some(amount.value)
  }

  datatype AssetId = AssetId(kind: string, contract: string, symbol: string)

  function AssetOf(t: Transfer): AssetId {
    AssetId(t.kind, t.contract, t.symbol)
  }

  datatype Key = Key(address: string, asset: Option<AssetId>, amount: Option<nat>)

  /** The groups a transfer is put into. */
  function KeysFor(rule: Rule, t: Transfer): seq<Key> {
    match rule
    case FanIn => if t.from == "" || t.to == "" || t.from == t.to then [] else [Key(t.to, Some(AssetOf(t)), None)]
    case FanOut => if t.from == "" || t.to == "" || t.from == t.to then [] else [Key(t.from, Some(AssetOf(t)), None)]
    case RapidOnward =>
      (if t.from != "" then [Key(t.from, Some(AssetOf(t)), None)] else []) + (if t.to != "" then [Key(t.to, Some(AssetOf(t)), None)] else [])
    case RepeatedEqualAmount =>
      if Amount(t).None? || t.from == "" || t.to == "" || t.from == t.to then [] else [Key(t.from, Some(AssetOf(t)), Amount(t))]
    case BriefIntermediary =>
      (if t.from != "" then [Key(t.from, None, None)] else []) + (if t.to != "" && t.to != t.from then [Key(t.to, None, None)] else [])
    case SequentialDecreasing => []
  }

  function Put(groups: map<Key, seq<Transfer>>, k: Key, t: Transfer): map<Key, seq<Transfer>> {
    groups[k := (if k in groups then groups[k] else []) + [t]]
  }

  function PutAll(groups: map<Key, seq<Transfer>>, keys: seq<Key>, t: Transfer): map<Key, seq<Transfer>> {
    if keys == [] then groups else Put(PutAll(groups, keys[..|keys| - 1], t), keys[|keys| - 1], t)
  }

  function GroupsBy(keysFor: Transfer -> seq<Key>, ts: seq<Transfer>): map<Key, seq<Transfer>> {
    if ts == [] then map[]
    else
      var k := |ts| - 1;
      PutAll(GroupsBy(keysFor, ts[..k]), keysFor(ts[k]), ts[k])
  }

  function Keying(rule: Rule): Transfer -> seq<Key> {
    t => KeysFor(rule, t)
  }

  function Groups(rule: Rule, ts: seq<Transfer>): map<Key, seq<Transfer>> {
    GroupsBy(Keying(rule), ts)
  }

  method GroupTransfers(keysFor: Transfer -> seq<Key>, ts: seq<Transfer>) returns (groups: map<Key, seq<Transfer>>)
    ensures groups == GroupsBy(keysFor, ts)
  {
    groups := map[];
    for i := 0 to |ts|
      invariant groups == GroupsBy(keysFor, ts[..i])
    {
      assert ts[..i + 1][..i] == ts[..i];
      groups := PutInGroups(groups, keysFor(ts[i]), ts[i]);
    }
    assert ts[..|ts|] == ts;
  }

  method PutInGroups(before: map<Key, seq<Transfer>>, keys: seq<Key>, t: Transfer) returns (groups: map<Key, seq<Transfer>>)
    ensures groups == PutAll(before, keys, t)
  {
    groups := before;
    for j := 0 to |keys|
      invariant groups == PutAll(before, keys[..j], t)
    {
      assert keys[..j + 1][..j] == keys[..j];
      groups := Put(groups, keys[j], t);
    }
    assert keys[..|keys|] == keys;
  }

  function GroupOf(groups: map<Key, seq<Transfer>>, k: Key): seq<Transfer> {
    if k in groups then groups[k] else []
  }

  lemma {:induction false} PutAllMembers(groups: map<Key, seq<Transfer>>, keys: seq<Key>, t: Transfer, k: Key, x: Transfer)
    ensures x in GroupOf(PutAll(groups, keys, t), k) <==> x in GroupOf(groups, k) || (x == t && k in keys)
    ensures k in PutAll(groups, keys, t) <==> k in groups || k in keys
  {
    if keys != [] {
      var n := |keys| - 1;
      PutAllMembers(groups, keys[..n], t, k, x);
      assert keys == keys[..n] + [keys[n]];
    }
  }

  lemma {:induction false} GroupMembersBy(keysFor: Transfer -> seq<Key>, ts: seq<Transfer>, k: Key, x: Transfer)
    ensures x in GroupOf(GroupsBy(keysFor, ts), k) <==> x in ts && k in keysFor(x)
  {
    if ts != [] {
      var n := |ts| - 1;
      GroupMembersBy(keysFor, ts[..n], k, x);
      PutAllMembers(GroupsBy(keysFor, ts[..n]), keysFor(ts[n]), ts[n], k, x);
      assert ts == ts[..n] + [ts[n]];
    }
  }

  /** A group holds exactly the transfers with its key. */
  lemma GroupMembers(rule: Rule, ts: seq<Transfer>, k: Key, x: Transfer)
    ensures x in GroupOf(Groups(rule, ts), k) <==> x in ts && k in KeysFor(rule, x)
  {
    GroupMembersBy(Keying(rule), ts, k, x);
  }

  lemma GroupIds(rule: Rule, ts: seq<Transfer>, k: Key)
    requires UniqueIds(ts)
    ensures UniqueIds(GroupOf(Groups(rule, ts), k))
  {
    var group := GroupOf(Groups(rule, ts), k);
    forall a, b | a in group && b in group && a.id == b.id ensures a == b {
      GroupMembers(rule, ts, k, a);
      GroupMembers(rule, ts, k, b);
    }
  }

  // ----- the lead of one group

  predicate IsDispersal(rule: Rule) {
    rule.FanIn? || rule.FanOut? || rule.RepeatedEqualAmount?
  }

  /** An inbound transfer to the middle, and a later outbound one that does not go back, within the window. */
  predicate Onward(middle: string, window: int, i: Transfer, o: Transfer) {
    && i.to == middle && o.from == middle && o.to != i.from && i.time <= o.time && o.time - i.time <= window
  }

  function FirstOnwardOf(group: seq<Transfer>, from: nat, middle: string, window: int, i: Transfer): (r: Option<Transfer>)
    requires from <= |group|
    ensures r.Some? ==> r.value in group && Onward(middle, window, i, r.value)
    ensures r.None? ==> forall k :: from <= k < |group| ==> !Onward(middle, window, i, group[k])
    decreases |group| - from
  {
    if from == |group| then None
    else if Onward(middle, window, i, group[from]) then Some(group[from])
    else FirstOnwardOf(group, from + 1, middle, window, i)
  }

  function FirstOnward(group: seq<Transfer>, from: nat, middle: string, window: int): (r: Option<(Transfer, Transfer)>)
    requires from <= |group|
    ensures r.Some? ==> r.value.0 in group && r.value.1 in group && Onward(middle, window, r.value.0, r.value.1)
    ensures r.None? ==> forall k, n :: from <= k < |group| && 0 <= n < |group| ==> !Onward(middle, window, group[k], group[n])
    decreases |group| - from
  {
    if from == |group| then None
    else
      var o := FirstOnwardOf(group, 0, middle, window, group[from]);
      if o.Some? then Some((group[from], o.value)) else FirstOnward(group, from + 1, middle, window)
  }

  method FindOnward(group: seq<Transfer>, middle: string, window: int) returns (r: Option<(Transfer, Transfer)>)
    ensures r == FirstOnward(group, 0, middle, window)
  {
    for i := 0 to |group|
      invariant FirstOnward(group, 0, middle, window) == FirstOnward(group, i, middle, window)
    {
      var o := FindOnwardOf(group, middle, window, group[i]);
      if o.Some? {
        return Some((group[i], o.value));
      }
    }
    return None;
  }

  method FindOnwardOf(group: seq<Transfer>, middle: string, window: int, i: Transfer) returns (r: Option<Transfer>)
    ensures r == FirstOnwardOf(group, 0, middle, window, i)
  {
    for k := 0 to |group|
      invariant FirstOnwardOf(group, 0, middle, window, i) == FirstOnwardOf(group, k, middle, window, i)
    {
      if Onward(middle, window, i, group[k]) {
        return Some(group[k]);
      }
    }
    return None;
  }

  /** The only two transfers at an address pass the same amount of one asset on. */
  predicate PassesThrough(address: string, window: int, group: seq<Transfer>) {
    && |group| == 2 && Onward(address, window, group[0], group[1])
    && AssetOf(group[0]) == AssetOf(group[1]) && Amount(group[0]).Some? && Amount(group[0]) == Amount(group[1])
  }

  /** The lead of a group in time order. */
  function GroupLead(h: LeadId, d: Definition, k: Key, group: seq<Transfer>): Option<Lead> {
    if IsDispersal(d.rule) then
      if d.minimum < 2 || d.window <= 0 then None
      else
        var (matches, distinct) := FirstWindow(group, d.rule.FanIn?, d.minimum, d.window);
        if matches == [] then None
        else Some(MakeLead(h, d, Partner(matches[0], !d.rule.FanIn?), matches, distinct))
    else if d.window <= 0 then None
    else if d.rule.RapidOnward? then
      var pair := FirstOnward(group, 0, k.address, d.window);
      if pair.None? then None else Some(MakeLead(h, d, k.address, [pair.value.0, pair.value.1], 0))
    else if d.rule.BriefIntermediary? && PassesThrough(k.address, d.window, group) then Some(MakeLead(h, d, k.address, group, 0))
    else None
  }

  method FindLead(h: LeadId, d: Definition, k: Key, group: seq<Transfer>) returns (r: Option<Lead>)
    ensures r == GroupLead(h, d, k, group)
  {
    if IsDispersal(d.rule) {
      if d.minimum < 2 || d.window <= 0 {
        return None;
      }
      var matches, distinct := FirstDistinctWindow(group, d.rule.FanIn?, d.minimum, d.window);
      if matches == [] {
        return None;
      }
      return Some(MakeLead(h, d, Partner(matches[0], !d.rule.FanIn?), matches, distinct));
    }
    if d.window <= 0 {
      return None;
    }
    if d.rule.RapidOnward? {
      var pair := FindOnward(group, k.address, d.window);
      return if pair.None? then None else Some(MakeLead(h, d, k.address, [pair.value.0, pair.value.1], 0));
    }
    return if d.rule.BriefIntermediary? && PassesThrough(k.address, d.window, group) then Some(MakeLead(h, d, k.address, group, 0)) else None;
  }

  // ----- all groups, in whatever order the map hands them out

  /** The lead a key leads to, if any. */
  function KeyLeads(h: LeadId, d: Definition, groups: map<Key, seq<Transfer>>): Key -> seq<Lead> {
    k => var r := GroupLead(h, d, k, Sort(GroupOf(groups, k), Earlier)); if r.None? then [] else [r.value]
  }

  function Gather<T>(xs: seq<T>, f: T -> seq<Lead>): seq<Lead> {
    if xs == [] then [] else Gather(xs[..|xs| - 1], f) + f(xs[|xs| - 1])
  }

  method LeadsAt(h: LeadId, d: Definition, groups: map<Key, seq<Transfer>>, k: Key) returns (leads: seq<Lead>)
    ensures leads == KeyLeads(h, d, groups)(k)
  {
    var lead := FindLead(h, d, k, Sort(GroupOf(groups, k), Earlier));
    leads := if lead.None? then [] else [lead.value];
  }

  /** The leads of all groups, in some order of the keys. */
  ghost predicate InSomeOrder(h: LeadId, d: Definition, ts: seq<Transfer>, keys: seq<Key>, leads: seq<Lead>) {
    Distinct(keys) && SetOf(keys) == Groups(d.rule, ts).Keys && leads == Gather(keys, KeyLeads(h, d, Groups(d.rule, ts)))
  }

  method DetectInGroups(h: LeadId, d: Definition, ts: seq<Transfer>) returns (leads: seq<Lead>)
    ensures exists keys :: InSomeOrder(h, d, ts, keys, leads)
  {
    var groups := GroupTransfers(Keying(d.rule), ts);
    var order := InAnyOrder(groups.Keys);
    leads := LeadsInOrder(h, d, groups, order);
    assert InSomeOrder(h, d, ts, order, leads);
  }

  method LeadsInOrder(h: LeadId, d: Definition, groups: map<Key, seq<Transfer>>, order: seq<Key>) returns (leads: seq<Lead>)
    ensures leads == Gather(order, KeyLeads(h, d, groups))
  {
    leads := [];
    for i := 0 to |order|
      invariant leads == Gather(order[..i], KeyLeads(h, d, groups))
    {
      assert order[..i + 1][..i] == order[..i];
      var found := LeadsAt(h, d, groups, order[i]);
      leads := leads + found;
    }
    assert order[..|order|] == order;
  }

  // ----- sequential decreasing transfers

  predicate Starts(t: Transfer) {
    Amount(t).Some? && t.from != "" && t.to != "" && t.from != t.to
  }

  /** b carries less of the asset on from where a went, within the window, and not to itself. */
  predicate Decreases(window: int, asset: AssetId, a: Transfer, b: Transfer) {
    && Amount(a).Some? && Amount(b).Some? && b.from == a.to && AssetOf(b) == asset
    && a.time <= b.time && b.time - a.time <= window && Amount(b).value < Amount(a).value && b.to != b.from
  }

  predicate SecondHop(window: int, a: Transfer, b: Transfer) {
    Decreases(window, AssetOf(a), a, b) && b.to != a.from
  }

  predicate ThirdHop(window: int, a: Transfer, b: Transfer, c: Transfer) {
    Decreases(window, AssetOf(a), b, c) && c.to != a.from && c.to != a.to
  }

  function FirstThird(ts: seq<Transfer>, from: nat, window: int, a: Transfer, b: Transfer): (r: Option<Transfer>)
    requires from <= |ts|
    ensures r.Some? ==> r.value in ts && ThirdHop(window, a, b, r.value)
    ensures r.None? ==> forall k :: from <= k < |ts| ==> !ThirdHop(window, a, b, ts[k])
    decreases |ts| - from
  {
    if from == |ts| then None
    else if ThirdHop(window, a, b, ts[from]) then Some(ts[from])
    else FirstThird(ts, from + 1, window, a, b)
  }

  function ChainLead(h: LeadId, d: Definition, ts: seq<Transfer>, a: Transfer, b: Transfer): seq<Lead> {
    if !SecondHop(d.window, a, b) then []
    else
      var c := FirstThird(ts, 0, d.window, a, b);
      if c.None? then [] else [MakeLead(h, d, a.from, [a, b, c.value], 0)]
  }

  function ChainLeads(h: LeadId, d: Definition, ts: seq<Transfer>, a: Transfer): Transfer -> seq<Lead> {
    b => ChainLead(h, d, ts, a, b)
  }

  function StartLeads(h: LeadId, d: Definition, ts: seq<Transfer>): Transfer -> seq<Lead> {
    a => if Starts(a) then Gather(ts, ChainLeads(h, d, ts, a)) else []
  }

  function SequentialLeads(h: LeadId, d: Definition, ts: seq<Transfer>): seq<Lead> {
    if d.window <= 0 || d.minimum != 3 then [] else Gather(ts, StartLeads(h, d, ts))
  }

  method FindThird(ts: seq<Transfer>, window: int, a: Transfer, b: Transfer) returns (r: Option<Transfer>)
    ensures r == FirstThird(ts, 0, window, a, b)
  {
    for k := 0 to |ts|
      invariant FirstThird(ts, 0, window, a, b) == FirstThird(ts, k, window, a, b)
    {
      if ThirdHop(window, a, b, ts[k]) {
        return Some(ts[k]);
      }
    }
    return None;
  }

  method FindChains(h: LeadId, d: Definition, ts: seq<Transfer>, a: Transfer) returns (leads: seq<Lead>)
    ensures leads == Gather(ts, ChainLeads(h, d, ts, a))
  {
    leads := [];
    for j := 0 to |ts|
      invariant leads == Gather(ts[..j], ChainLeads(h, d, ts, a))
    {
      assert ts[..j + 1][..j] == ts[..j];
      if SecondHop(d.window, a, ts[j]) {
        var c := FindThird(ts, d.window, a, ts[j]);
        if c.Some? {
          leads := leads + [MakeLead(h, d, a.from, [a, ts[j], c.value], 0)];
        }
      }
    }
    assert ts[..|ts|] == ts;
  }

  method DetectSequential(h: LeadId, d: Definition, ts: seq<Transfer>) returns (leads: seq<Lead>)
    ensures leads == SequentialLeads(h, d, ts)
  {
    if d.window <= 0 || d.minimum != 3 {
      return [];
    }
    leads := [];
    for i := 0 to |ts|
      invariant leads == Gather(ts[..i], StartLeads(h, d, ts))
    {
      assert ts[..i + 1][..i] == ts[..i];
      if Starts(ts[i]) {
        var chains := FindChains(h, d, ts, ts[i]);
        leads := leads + chains;
      }
    }
    assert ts[..|ts|] == ts;
  }

  lemma {:induction false} Gathered<T(!new)>(xs: seq<T>, f: T -> seq<Lead>, l: Lead)
    ensures l in Gather(xs, f) <==> exists x :: x in xs && l in f(x)
  {
    if xs != [] {
      var n := |xs| - 1;
      Gathered(xs[..n], f, l);
      assert xs == xs[..n] + [xs[n]];
    }
  }
}
