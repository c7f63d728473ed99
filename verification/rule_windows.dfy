/** Observed transfers in time order, and the sliding window the dispersion rules share. */
module RuleWindows {
  import opened Options
  import opened Ordering
  import opened Text

  datatype Transfer = Transfer(id: string, from: string, to: string, kind: string, contract: string, symbol: string,
                               amount: string, time: int, provisional: bool)

  /** By time, then by ID. */
  predicate Earlier(a: Transfer, b: Transfer) {
    a.time < b.time || (a.time == b.time && StringLess(a.id, b.id))
  }

  ghost predicate UniqueIds(ts: seq<Transfer>) {
    forall a, b :: a in ts && b in ts && a.id == b.id ==> a == b
  }

  lemma EarlierOrders(ts: seq<Transfer>)
    requires UniqueIds(ts)
    ensures Orders(Earlier, ts)
  {
    StringLessIsOrder();
  }

  ghost predicate InTime(ts: seq<Transfer>) {
    forall i, j :: 0 <= i <= j < |ts| ==> ts[i].time <= ts[j].time
  }

  lemma AtMostInTime(a: Transfer, b: Transfer)
    requires AtMost(Earlier, a, b)
    ensures a.time <= b.time
  {
  }

  lemma InOrderInTime(s: seq<Transfer>)
    requires Sorted(Earlier, s)
    ensures InTime(s)
  {
    forall i, j | 0 <= i <= j < |s| ensures s[i].time <= s[j].time {
      if i < j {
        AtMostInTime(s[i], s[j]);
      }
    }
  }

  lemma SortedInTime(ts: seq<Transfer>)
    requires UniqueIds(ts)
    ensures InTime(Sort(ts, Earlier))
  {
    EarlierOrders(ts);
    SortSorts(ts, Earlier);
    InOrderInTime(Sort(ts, Earlier));
  }

  function Partner(t: Transfer, inbound: bool): string {
    if inbound then t.from else t.to
  }

  function Partners(ts: seq<Transfer>, inbound: bool): set<string> {
    set t | t in ts :: Partner(t, inbound)
  }

  // ----- the scan

  function EndFrom(group: seq<Transfer>, start: nat, end: nat, inbound: bool, minimum: nat, window: int): Option<nat>
    requires start <= end <= |group|
    decreases |group| - end
  {
    if end == |group| || group[end].time - group[start].time > window then None
    else if |Partners(group[start..end + 1], inbound)| >= minimum then Some(end)
    else EndFrom(group, start, end + 1, inbound, minimum, window)
  }

  function WindowFrom(group: seq<Transfer>, start: nat, inbound: bool, minimum: nat, window: int): (r: Option<(nat, nat)>)
    requires start <= |group|
    ensures r.Some? ==> start <= r.value.0 <= r.value.1 < |group|
    decreases |group| - start
  {
    if start == |group| then None
    else
      var end := EndFrom(group, start, start, inbound, minimum, window);
      if end.Some? then (EndInside(group, start, start, inbound, minimum, window); Some((start, end.value)))
      else WindowFrom(group, start + 1, inbound, minimum, window)
  }

  lemma EndStep(group: seq<Transfer>, start: nat, end: nat, inbound: bool, minimum: nat, window: int)
    requires start <= end < |group|
    ensures EndFrom(group, start, end, inbound, minimum, window)
            == if group[end].time - group[start].time > window then None
               else if Fits(group, start, end, inbound, minimum, window) then Some(end)
               else EndFrom(group, start, end + 1, inbound, minimum, window)
  {
  }

  lemma {:induction false} EndInside(group: seq<Transfer>, start: nat, end: nat, inbound: bool, minimum: nat, window: int)
    requires start <= end <= |group|
    ensures var r := EndFrom(group, start, end, inbound, minimum, window);
            r.Some? ==> end <= r.value < |group| && Fits(group, start, r.value, inbound, minimum, window)
                        && forall e :: end <= e < r.value ==> !Fits(group, start, e, inbound, minimum, window)
    decreases |group| - end
  {
    if end < |group| {
      EndStep(group, start, end, inbound, minimum, window);
      if group[end].time - group[start].time <= window && !Fits(group, start, end, inbound, minimum, window) {
        EndInside(group, start, end + 1, inbound, minimum, window);
      }
    }
  }

  /** The matches and the number of their counterparties; none and 0 without a window. */
  function FirstWindow(group: seq<Transfer>, inbound: bool, minimum: nat, window: int): (seq<Transfer>, nat) {
    var r := WindowFrom(group, 0, inbound, minimum, window);
    if r.None? then ([], 0)
    else
      var matches := group[r.value.0..r.value.1 + 1];
      (matches, |Partners(matches, inbound)|)
  }

  lemma PartnersStep(group: seq<Transfer>, start: nat, end: nat, inbound: bool)
    requires start <= end < |group|
    ensures Partners(group[start..end + 1], inbound) == Partners(group[start..end], inbound) + {Partner(group[end], inbound)}
  {
    assert group[start..end + 1] == group[start..end] + [group[end]];
  }

  method ScanFrom(group: seq<Transfer>, start: nat, inbound: bool, minimum: nat, window: int) returns (r: Option<nat>, distinct: nat)
    requires start < |group|
    ensures r == EndFrom(group, start, start, inbound, minimum, window)
    ensures r.Some? ==> start <= r.value < |group| && distinct == |Partners(group[start..r.value + 1], inbound)|
  {
    var seen: set<string> := {};
    var end := start;
    while end < |group| && group[end].time - group[start].time <= window
      invariant start <= end <= |group| && seen == Partners(group[start..end], inbound)
      invariant EndFrom(group, start, start, inbound, minimum, window) == EndFrom(group, start, end, inbound, minimum, window)
    {
      PartnersStep(group, start, end, inbound);
      EndStep(group, start, end, inbound, minimum, window);
      seen := seen + {Partner(group[end], inbound)};
      if |seen| >= minimum {
        return Some(end), |seen|;
      }
      end := end + 1;
    }
    return None, 0;
  }

  method FirstDistinctWindow(group: seq<Transfer>, inbound: bool, minimum: nat, window: int) returns (matches: seq<Transfer>, distinct: nat)
    ensures (matches, distinct) == FirstWindow(group, inbound, minimum, window)
  {
    for start := 0 to |group|
      invariant WindowFrom(group, 0, inbound, minimum, window) == WindowFrom(group, start, inbound, minimum, window)
    {
      var end;
      end, distinct := ScanFrom(group, start, inbound, minimum, window);
      if end.Some? {
        return group[start..end.value + 1], distinct;
      }
    }
    return [], 0;
  }

  // ----- what the scan finds

  predicate Fits(group: seq<Transfer>, start: nat, end: nat, inbound: bool, minimum: nat, window: int)
    requires start <= end < |group|
  {
    group[end].time - group[start].time <= window && |Partners(group[start..end + 1], inbound)| >= minimum
  }

  /** Transfers of the group with enough different counterparties, close together in time. */
  ghost predicate Disperses(group: seq<Transfer>, some: set<Transfer>, inbound: bool, minimum: nat, window: int) {
    && (forall t :: t in some ==> t in group)
    && |set t | t in some :: Partner(t, inbound)| >= minimum
    && (forall a, b :: a in some && b in some ==> a.time - b.time <= window)
  }

  lemma {:induction false} EndReaches(group: seq<Transfer>, start: nat, end: nat, at: nat, inbound: bool, minimum: nat, window: int)
    requires InTime(group) && start <= end <= at < |group| && Fits(group, start, at, inbound, minimum, window)
    ensures EndFrom(group, start, end, inbound, minimum, window).Some?
    decreases at - end
  {
    assert group[end].time <= group[at].time;
    if end < at {
      if |Partners(group[start..end + 1], inbound)| < minimum {
        EndReaches(group, start, end + 1, at, inbound, minimum, window);
      }
    }
  }

  lemma NoEnd(group: seq<Transfer>, start: nat, inbound: bool, minimum: nat, window: int)
    requires InTime(group) && start < |group| && EndFrom(group, start, start, inbound, minimum, window).None?
    ensures forall e :: start <= e < |group| ==> !Fits(group, start, e, inbound, minimum, window)
  {
    forall e | start <= e < |group| ensures !Fits(group, start, e, inbound, minimum, window) {
      if Fits(group, start, e, inbound, minimum, window) {
        EndReaches(group, start, start, e, inbound, minimum, window);
      }
    }
  }

  lemma {:induction false} WindowIsFirst(group: seq<Transfer>, from: nat, inbound: bool, minimum: nat, window: int)
    requires InTime(group) && from <= |group|
    ensures var r := WindowFrom(group, from, inbound, minimum, window);
            && (r.Some? ==> Fits(group, r.value.0, r.value.1, inbound, minimum, window)
                            && (forall e :: r.value.0 <= e < r.value.1 ==> !Fits(group, r.value.0, e, inbound, minimum, window)))
            && (forall s, e :: from <= s <= e < |group| && (r.Some? ==> s < r.value.0) ==> !Fits(group, s, e, inbound, minimum, window))
    decreases |group| - from
  {
    if from < |group| {
      EndInside(group, from, from, inbound, minimum, window);
      if EndFrom(group, from, from, inbound, minimum, window).None? {
        NoEnd(group, from, inbound, minimum, window);
        WindowIsFirst(group, from + 1, inbound, minimum, window);
      }
    }
  }

  lemma {:induction false} FirstMember(group: seq<Transfer>, some: set<Transfer>) returns (i: nat)
    requires exists t :: t in some && t in group
    ensures i < |group| && group[i] in some && forall k :: 0 <= k < i ==> group[k] !in some
  {
    if group[0] in some {
      i := 0;
    } else {
      assert group == [group[0]] + group[1..];
      var k := FirstMember(group[1..], some);
      i := k + 1;
      forall j | 0 <= j < i ensures group[j] !in some {
        assert j > 0 ==> group[1..][j - 1] == group[j];
      }
    }
  }

  lemma {:induction false} LastMember(group: seq<Transfer>, some: set<Transfer>) returns (i: nat)
    requires exists t :: t in some && t in group
    ensures i < |group| && group[i] in some && forall k :: i < k < |group| ==> group[k] !in some
  {
    var k := |group| - 1;
    if group[k] in some {
      i := k;
    } else {
      assert group == group[..k] + [group[k]];
      i := LastMember(group[..k], some);
    }
  }

  /** Scattered transfers that qualify lie inside a contiguous stretch that does. */
  lemma DispersalFits(group: seq<Transfer>, some: set<Transfer>, inbound: bool, minimum: nat, window: int) returns (start: nat, end: nat)
    requires minimum > 0 && Disperses(group, some, inbound, minimum, window)
    ensures start <= end < |group| && Fits(group, start, end, inbound, minimum, window)
  {
    assert some != {};
    start := FirstMember(group, some);
    end := LastMember(group, some);
    var slice := group[start..end + 1];
    forall t | t in some ensures t in slice {
      var i :| 0 <= i < |group| && group[i] == t;
      assert slice[i - start] == t;
    }
    SubsetSize(set t | t in some :: Partner(t, inbound), Partners(slice, inbound));
  }

  lemma ExactlyEnough(group: seq<Transfer>, start: nat, end: nat, inbound: bool, minimum: nat, window: int)
    requires InTime(group) && start <= end < |group| && minimum > 0 && Fits(group, start, end, inbound, minimum, window)
    requires forall e :: start <= e < end ==> !Fits(group, start, e, inbound, minimum, window)
    ensures |Partners(group[start..end + 1], inbound)| == minimum
  {
    PartnersStep(group, start, end, inbound);
    if end > start {
      assert group[end - 1].time <= group[end].time;
      assert !Fits(group, start, end - 1, inbound, minimum, window);
      assert group[start..(end - 1) + 1] == group[start..end];
    } else {
      assert group[start..end] == [];
    }
  }

  /** A window is found if and only if any transfers of the group qualify, contiguous or not. */
  lemma WindowExactly(group: seq<Transfer>, inbound: bool, minimum: nat, window: int)
    requires InTime(group) && minimum > 0
    ensures FirstWindow(group, inbound, minimum, window).0 != [] <==> exists some :: Disperses(group, some, inbound, minimum, window)
  {
    var r := WindowFrom(group, 0, inbound, minimum, window);
    WindowIsFirst(group, 0, inbound, minimum, window);
    if r.Some? {
      StretchDisperses(group, r.value.0, r.value.1, inbound, minimum, window);
    }
    if some :| Disperses(group, some, inbound, minimum, window) {
      var start, end := DispersalFits(group, some, inbound, minimum, window);
      assert Fits(group, start, end, inbound, minimum, window);
    }
  }

  /** The matches are a stretch of the group. */
  ghost predicate IsStretch(group: seq<Transfer>, matches: seq<Transfer>, start: nat, end: nat) {
    start <= end < |group| && matches == group[start..end + 1]
  }

  /** The matches are the first stretch that qualifies, cut short where it does: no stretch that starts earlier or
      ends sooner qualifies. They have exactly `minimum` counterparties. */
  lemma WindowIsTight(group: seq<Transfer>, inbound: bool, minimum: nat, window: int) returns (start: nat, end: nat)
    requires InTime(group) && minimum > 0 && FirstWindow(group, inbound, minimum, window).0 != []
    ensures var (matches, distinct) := FirstWindow(group, inbound, minimum, window);
            IsStretch(group, matches, start, end) && distinct == minimum == |Partners(matches, inbound)|
    ensures Fits(group, start, end, inbound, minimum, window)
    ensures forall s, e :: 0 <= s <= e < |group| && Fits(group, s, e, inbound, minimum, window) ==> start < s || (start == s && end <= e)
  {
    var r := WindowFrom(group, 0, inbound, minimum, window);
    WindowIsFirst(group, 0, inbound, minimum, window);
    start, end := r.value.0, r.value.1;
    ExactlyEnough(group, start, end, inbound, minimum, window);
  }

  lemma StretchDisperses(group: seq<Transfer>, start: nat, end: nat, inbound: bool, minimum: nat, window: int)
    requires InTime(group) && start <= end < |group| && Fits(group, start, end, inbound, minimum, window)
    ensures exists some :: Disperses(group, some, inbound, minimum, window)
  {
    var slice := group[start..end + 1];
    var some := SetOf(slice);
    forall a, b | a in some && b in some ensures a.time - b.time <= window {
      var i :| 0 <= i < |slice| && slice[i] == a;
      var j :| 0 <= j < |slice| && slice[j] == b;
      assert group[start + i].time <= group[end].time && group[start].time <= group[start + j].time;
    }
    assert (set t | t in some :: Partner(t, inbound)) == Partners(slice, inbound);
    assert Disperses(group, some, inbound, minimum, window);
  }
}
