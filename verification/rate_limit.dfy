/** The fixed-window request limiter, with every admission it ever made kept as history. */
module RateLimit {

  const MAX_TRACKED_CLIENTS: nat := 10_000
  const MINUTE: int := 60_000_000_000

  datatype Window = Window(started: int, requests: int)

  type Windows = map<string, Window>

  predicate Live(w: Window, now: int) { now - w.started < MINUTE }

  function LiveOnly(windows: Windows, now: int): Windows {
    map k | k in windows && Live(windows[k], now) :: windows[k]
  }

  /** One call: the new table and whether the request is admitted. */
  function Allowed(windows: Windows, limit: int, client: string, now: int): (Windows, bool) {
    var swept := if client !in windows && |windows| >= MAX_TRACKED_CLIENTS then LiveOnly(windows, now) else windows;
    if client !in windows && |swept| >= MAX_TRACKED_CLIENTS then (swept, false)
    else if client !in windows || !Live(windows[client], now) then (swept[client := Window(now, 1)], true)
    else if windows[client].requests >= limit then (swept, false)
    else (swept[client := Window(windows[client].started, windows[client].requests + 1)], true)
  }

  class RequestLimiter {
    const limit: int
    var windows: Windows

    constructor (limit: int)
      ensures this.limit == limit && windows == map[]
    {
      this.limit := limit;
      windows := map[];
    }

    method Allow(client: string, now: int) returns (ok: bool)
      modifies this
      ensures (windows, ok) == Allowed(old(windows), limit, client, now)
    {
      var tracked := client in windows;
      if !tracked && |windows| >= MAX_TRACKED_CLIENTS {
        var keys := windows.Keys;
        while keys != {}
          invariant keys <= old(windows).Keys
          invariant windows == map k | k in old(windows) && (k in keys || Live(old(windows)[k], now)) :: old(windows)[k]
          decreases keys
        {
          var key :| key in keys;
          if !Live(windows[key], now) {
            windows := windows - {key};
          }
          keys := keys - {key};
        }
        assert windows == LiveOnly(old(windows), now);
        if |windows| >= MAX_TRACKED_CLIENTS {
          return false;
        }
      }
      if !tracked || !Live(windows[client], now) {
        windows := windows[client := Window(now, 1)];
        return true;
      }
      var window := windows[client];
      if window.requests >= limit {
        return false;
      }
      windows := windows[client := Window(window.started, window.requests + 1)];
      return true;
    }
  }

  // ----- what one call promises

  lemma LiveOnlySize(windows: Windows, now: int)
    ensures LiveOnly(windows, now).Keys <= windows.Keys && |LiveOnly(windows, now)| <= |windows|
  {
    var live := LiveOnly(windows, now);
    assert windows.Keys == live.Keys + (windows.Keys - live.Keys);
    assert |live.Keys| == |live| && |windows.Keys| == |windows|;
  }

  /** The clients whose windows are less than a minute old. */
  ghost function Busy(windows: Windows, now: int): set<string> {
    set k | k in windows && now - windows[k].started < 60 * 1_000_000_000
  }

  /** A request is refused exactly when its window is less than a minute old and used up, or when it has no window and
      10,000 others have such young ones; a tracked client is never refused for want of space. */
  lemma RefusedExactly(windows: Windows, limit: int, client: string, now: int)
    ensures !Allowed(windows, limit, client, now).1 <==>
              (client in Busy(windows, now) && windows[client].requests >= limit)
              || (client !in windows && |Busy(windows, now)| >= 10_000)
  {
    LiveOnlySize(windows, now);
    assert LiveOnly(windows, now).Keys == Busy(windows, now);
    assert |LiveOnly(windows, now).Keys| == |LiveOnly(windows, now)|;
  }

  /** A call changes the window of its client alone, and drops others only when an untracked client meets a full table: then
      exactly those that are a minute old. */
  lemma TableExactly(windows: Windows, limit: int, client: string, now: int, k: string)
    requires k != client
    ensures var w := Allowed(windows, limit, client, now).0;
            && (k in w <==> k in windows && !(client !in windows && |windows| >= 10_000 && now - windows[k].started >= 60 * 1_000_000_000))
            && (k in w ==> w[k] == windows[k])
  {
  }

  /** A run keeps the table its calls leave. */
  lemma RunKeepsTable(limit: int, calls: seq<Call>, call: Call)
    ensures Run(limit, calls + [call]).windows == Allowed(Run(limit, calls).windows, limit, call.client, call.now).0
  {
    RunAppend(limit, calls, call);
  }

  /** No call evicts a live window or touches the window of another live client. */
  lemma LiveWindowsSurvive(windows: Windows, limit: int, client: string, now: int, k: string)
    requires k in windows && Live(windows[k], now)
    ensures var w := Allowed(windows, limit, client, now).0;
            k in w && w[k].started == windows[k].started && (k != client ==> w[k] == windows[k])
  {
  }

  // ----- whole runs

  datatype Call = Call(client: string, now: int)
  datatype Admission = Admission(client: string, at: int)

  /** The table, then history: all admissions, and when each client's last window started. */
  datatype System = System(windows: Windows, clock: int, admitted: seq<Admission>, starts: map<string, int>)

  function Step(s: System, limit: int, call: Call): System {
    var (w, ok) := Allowed(s.windows, limit, call.client, call.now);
    if !ok then s.(windows := w, clock := call.now)
    else s.(windows := w, clock := call.now, admitted := s.admitted + [Admission(call.client, call.now)],
            starts := s.starts[call.client := w[call.client].started])
  }

  function Run(limit: int, calls: seq<Call>): System {
    if calls == [] then System(map[], 0, [], map[])
    else Step(Run(limit, calls[..|calls| - 1]), limit, calls[|calls| - 1])
  }

  predicate ClockMonotone(calls: seq<Call>) {
    (forall i :: 0 <= i < |calls| ==> 0 <= calls[i].now)
    && forall i, j :: 0 <= i < j < |calls| ==> calls[i].now <= calls[j].now
  }

  /** Admissions of the client at a time in [from, until). */
  function Count(h: seq<Admission>, client: string, from: int, until: int): nat {
    if h == [] then 0
    else
      var last := h[|h| - 1];
      Count(h[..|h| - 1], client, from, until) + if last.client == client && from <= last.at < until then 1 else 0
  }

  lemma {:induction false} CountSplits(h: seq<Admission>, client: string, from: int, mid: int, until: int)
    requires from <= mid <= until
    ensures Count(h, client, from, until) == Count(h, client, from, mid) + Count(h, client, mid, until)
  {
    if h != [] {
      CountSplits(h[..|h| - 1], client, from, mid, until);
    }
  }

  lemma {:induction false} CountNone(h: seq<Admission>, client: string, from: int, until: int)
    requires forall i :: 0 <= i < |h| && h[i].client == client ==> !(from <= h[i].at < until)
    ensures Count(h, client, from, until) == 0
  {
    if h != [] {
      CountNone(h[..|h| - 1], client, from, until);
    }
  }

  lemma CountAppend(h: seq<Admission>, a: Admission, client: string, from: int, until: int)
    ensures Count(h + [a], client, from, until) ==
            Count(h, client, from, until) + if a.client == client && from <= a.at < until then 1 else 0
  {
    assert (h + [a])[..|h|] == h;
  }

  function InMinute(h: seq<Admission>, client: string, from: int): nat {
    Count(h, client, from, from + MINUTE)
  }

  function Budget(limit: int): nat { if limit > 1 then limit else 1 }

  /** What a run keeps for one client. */
  ghost predicate ClientValid(s: System, limit: int, c: string) {
    && (c in s.windows ==> c in s.starts && s.starts[c] == s.windows[c].started)
    && (c in s.starts && c !in s.windows ==> s.clock - s.starts[c] >= MINUTE)
    && (forall i :: 0 <= i < |s.admitted| && s.admitted[i].client == c ==>
          c in s.starts && s.admitted[i].at <= s.clock && s.admitted[i].at < s.starts[c] + MINUTE)
    && (c in s.starts ==>
          var start := s.starts[c];
          && start <= s.clock
          && InMinute(s.admitted, c, start) <= Budget(limit)
          && (c in s.windows ==> InMinute(s.admitted, c, start) == s.windows[c].requests)
          // the request that opened the window
          && Count(s.admitted, c, start, start + 1) >= 1
          // the minute before the window held no opening request
          && Count(s.admitted, c, start - MINUTE + 1, start) < Budget(limit))
    && (forall t :: InMinute(s.admitted, c, t) < 2 * Budget(limit))
  }

  /** A step that admits nothing of the client keeps what is known about it. */
  lemma OtherClientStep(s: System, limit: int, call: Call, c: string)
    requires ClientValid(s, limit, c) && s.clock <= call.now
    requires c != call.client || !Allowed(s.windows, limit, call.client, call.now).1
    ensures ClientValid(Step(s, limit, call), limit, c)
  {
    var s' := Step(s, limit, call);
    if s'.admitted != s.admitted {
      forall from ensures InMinute(s'.admitted, c, from) == InMinute(s.admitted, c, from) {
        CountAppend(s.admitted, Admission(call.client, call.now), c, from, from + MINUTE);
      }
    }
  }

  /** Before a new window, the last minute holds only requests of the old one, without its opening. */
  lemma MinuteBefore(s: System, limit: int, c: string, now: int)
    requires ClientValid(s, limit, c) && (c in s.starts ==> s.starts[c] + MINUTE <= now)
    ensures Count(s.admitted, c, now - MINUTE + 1, now) < Budget(limit)
  {
    var h, from := s.admitted, now - MINUTE + 1;
    if c in s.starts && from < s.starts[c] + MINUTE {
      var start, end := s.starts[c], s.starts[c] + MINUTE;
      CountSplits(h, c, from, end, now);
      CountSplits(h, c, start, start + 1, end);
      CountSplits(h, c, start + 1, from, end);
      CountNone(h, c, end, now);
    } else {
      CountNone(h, c, from, now);
    }
  }

  lemma NewWindowStep(s: System, limit: int, call: Call)
    requires ClientValid(s, limit, call.client) && s.clock <= call.now
    requires Allowed(s.windows, limit, call.client, call.now).1
    requires call.client !in s.windows || !Live(s.windows[call.client], call.now)
    ensures ClientValid(Step(s, limit, call), limit, call.client)
  {
    var s' := Step(s, limit, call);
    var c, now, h, a := call.client, call.now, s.admitted, Admission(call.client, call.now);
    assert c in s.starts ==> s.starts[c] + MINUTE <= now;
    CountNone(h, c, now, now + MINUTE);
    CountNone(h, c, now, now + 1);
    CountAppend(h, a, c, now, now + MINUTE);
    CountAppend(h, a, c, now, now + 1);
    CountAppend(h, a, c, now - MINUTE + 1, now);
    MinuteBefore(s, limit, c, now);
    forall t ensures InMinute(s'.admitted, c, t) < 2 * Budget(limit) {
      CountAppend(h, a, c, t, t + MINUTE);
      assert InMinute(h, c, t) < 2 * Budget(limit);
      if t <= now < t + MINUTE {
        CountSplits(h, c, t, now, t + MINUTE);
        CountSplits(h, c, now - MINUTE + 1, t, now);
        CountNone(h, c, now, t + MINUTE);
      }
    }
  }

  lemma SameWindowStep(s: System, limit: int, call: Call)
    requires ClientValid(s, limit, call.client) && s.clock <= call.now
    requires Allowed(s.windows, limit, call.client, call.now).1
    requires call.client in s.windows && Live(s.windows[call.client], call.now)
    ensures ClientValid(Step(s, limit, call), limit, call.client)
  {
    var s' := Step(s, limit, call);
    var c, now, h, a := call.client, call.now, s.admitted, Admission(call.client, call.now);
    var start := s.starts[c];
    CountAppend(h, a, c, start, start + MINUTE);
    CountAppend(h, a, c, start, start + 1);
    CountAppend(h, a, c, start - MINUTE + 1, start);
    forall t ensures InMinute(s'.admitted, c, t) < 2 * Budget(limit) {
      MinuteAround(s, limit, c, now, t);
    }
  }

  /** One more admission in a live window that still has budget. */
  lemma MinuteAround(s: System, limit: int, c: string, now: int, t: int)
    requires ClientValid(s, limit, c) && s.clock <= now
    requires c in s.windows && Live(s.windows[c], now) && s.windows[c].requests < limit
    ensures InMinute(s.admitted + [Admission(c, now)], c, t) < 2 * Budget(limit)
  {
    var h, start := s.admitted, s.starts[c];
    CountAppend(h, Admission(c, now), c, t, t + MINUTE);
    assert InMinute(h, c, t) < 2 * Budget(limit);
    if t <= start && now < t + MINUTE {
      CountSplits(h, c, t, start, t + MINUTE);
      CountSplits(h, c, start - MINUTE + 1, t, start);
      CountSplits(h, c, start, t + MINUTE, start + MINUTE);
    } else if start < t <= now {
      CountSplits(h, c, t, start + MINUTE, t + MINUTE);
      CountSplits(h, c, start, t, start + MINUTE);
      CountNone(h, c, start + MINUTE, t + MINUTE);
    }
  }

  lemma StepKeepsClient(s: System, limit: int, call: Call, c: string)
    requires ClientValid(s, limit, c) && s.clock <= call.now
    ensures ClientValid(Step(s, limit, call), limit, c)
  {
    if c != call.client || !Allowed(s.windows, limit, call.client, call.now).1 {
      OtherClientStep(s, limit, call, c);
    } else if c !in s.windows || !Live(s.windows[c], call.now) {
      NewWindowStep(s, limit, call);
    } else {
      SameWindowStep(s, limit, call);
    }
  }

  lemma {:induction false} RunKeepsClient(limit: int, calls: seq<Call>, c: string)
    requires ClockMonotone(calls)
    ensures ClientValid(Run(limit, calls), limit, c)
    ensures Run(limit, calls).clock == if calls == [] then 0 else calls[|calls| - 1].now
  {
    if calls != [] {
      RunKeepsClient(limit, calls[..|calls| - 1], c);
      StepKeepsClient(Run(limit, calls[..|calls| - 1]), limit, calls[|calls| - 1], c);
    }
  }

  /** Over every call sequence a client is admitted fewer than twice its limit (at
      least one) in any half-open minute. */
  lemma BelowTwiceTheLimit(limit: int, calls: seq<Call>, client: string, from: int)
    requires ClockMonotone(calls)
    ensures InMinute(Run(limit, calls).admitted, client, from) < 2 * if limit >= 1 then limit else 1
  {
    RunKeepsClient(limit, calls, client);
  }

  /** Over every call sequence: the next request of a client is refused if and only if it has been admitted its limit in the
      current window, opened less than a minute ago by its last request to find none, or it has no window and the table
      is full. */
  lemma RefusedOverRuns(limit: int, calls: seq<Call>, client: string, now: int)
    requires ClockMonotone(calls)
    ensures RefusalIsDue(Run(limit, calls), limit, client, now)
  {
    RunKeepsClient(limit, calls, client);
    RefusalFollows(Run(limit, calls), limit, client, now);
  }

  ghost predicate RefusalIsDue(s: System, limit: int, client: string, now: int) {
    && (client in s.windows ==> client in s.starts && s.starts[client] == s.windows[client].started)
    && (!Allowed(s.windows, limit, client, now).1 <==>
          || (client in s.windows && now < s.starts[client] + 60 * 1_000_000_000
              && Count(s.admitted, client, s.starts[client], s.starts[client] + 60 * 1_000_000_000) >= limit)
          || (client !in s.windows && |Busy(s.windows, now)| >= 10_000))
  }

  lemma RefusalFollows(s: System, limit: int, client: string, now: int)
    requires ClientValid(s, limit, client)
    ensures RefusalIsDue(s, limit, client, now)
  {
    RefusedExactly(s.windows, limit, client, now);
  }

  /** A window opens with the request that finds none that is less than a minute old, and stays while it is. */
  lemma WindowOpensExactly(s: System, limit: int, client: string, now: int)
    requires Allowed(s.windows, limit, client, now).1
    ensures var s' := Step(s, limit, Call(client, now));
            && client in s'.starts && client in s'.windows && s'.admitted == s.admitted + [Admission(client, now)]
            && s'.starts[client] == s'.windows[client].started
                 == if client in s.windows && now < s.windows[client].started + 60 * 1_000_000_000 then s.windows[client].started else now
  {
  }

  // ----- the bound is attained

  function Repeat(client: string, now: int, n: nat): (calls: seq<Call>)
    ensures |calls| == n && forall i :: 0 <= i < n ==> calls[i] == Call(client, now)
  {
    seq(n, _ => Call(client, now))
  }

  /** The client's window and its admissions in [from, until), all that the construction looks at. */
  ghost predicate Shows(s: System, c: string, w: Window, from: int, until: int, count: nat) {
    c in s.windows && s.windows[c] == w && Count(s.admitted, c, from, until) == count
  }

  lemma RunAppend(limit: int, calls: seq<Call>, call: Call)
    ensures Run(limit, calls + [call]) == Step(Run(limit, calls), limit, call)
  {
    assert (calls + [call])[..|calls|] == calls;
  }

  lemma CallInWindow(s: System, limit: int, c: string, now: int, w: Window, from: int, until: int, count: nat)
    requires Shows(s, c, w, from, until, count) && Live(w, now) && w.requests < limit
    ensures Shows(Step(s, limit, Call(c, now)), c, Window(w.started, w.requests + 1), from, until,
                  count + if from <= now < until then 1 else 0)
  {
    CountAppend(s.admitted, Admission(c, now), c, from, until);
  }

  lemma CallOpensWindow(s: System, limit: int, c: string, now: int, from: int, until: int)
    requires if c in s.windows then !Live(s.windows[c], now) else |s.windows| < MAX_TRACKED_CLIENTS
    ensures Shows(Step(s, limit, Call(c, now)), c, Window(now, 1), from, until,
                  Count(s.admitted, c, from, until) + if from <= now < until then 1 else 0)
  {
    CountAppend(s.admitted, Admission(c, now), c, from, until);
  }

  /** n more calls at one instant within a window's budget are all admitted. */
  lemma {:induction false} Fill(limit: int, calls: seq<Call>, c: string, now: int, n: nat, w: Window,
                                from: int, until: int, count: nat)
    requires Shows(Run(limit, calls), c, w, from, until, count) && Live(w, now) && w.requests + n <= limit
    ensures Shows(Run(limit, calls + Repeat(c, now, n)), c, Window(w.started, w.requests + n), from, until,
                  count + if from <= now < until then n else 0)
  {
    if n == 0 {
      assert calls + Repeat(c, now, n) == calls;
    } else {
      var most := calls + Repeat(c, now, n - 1);
      Fill(limit, calls, c, now, n - 1, w, from, until, count);
      assert calls + Repeat(c, now, n) == most + [Call(c, now)];
      RunAppend(limit, most, Call(c, now));
      CallInWindow(Run(limit, most), limit, c, now, Window(w.started, w.requests + n - 1), from, until,
                   count + if from <= now < until then n - 1 else 0);
    }
  }

  lemma FirstCall(limit: int, c: string)
    ensures Shows(Run(limit, [Call(c, 0)]), c, Window(0, 1), 1, 1 + MINUTE, 0)
  {
    var s := System(map[], 0, [], map[]);
    assert [Call(c, 0)][..0] == [];
    assert Run(limit, [Call(c, 0)]) == Step(s, limit, Call(c, 0));
    CallOpensWindow(s, limit, c, 0, 1, 1 + MINUTE);
  }

  lemma FirstBurst(limit: int, c: string)
    requires limit >= 1
    ensures Shows(Run(limit, [Call(c, 0)] + Repeat(c, MINUTE - 1, limit - 1)), c, Window(0, limit), 1, 1 + MINUTE, limit - 1)
  {
    FirstCall(limit, c);
    Fill(limit, [Call(c, 0)], c, MINUTE - 1, limit - 1, Window(0, 1), 1, 1 + MINUTE, 0);
  }

  lemma SecondBurst(limit: int, calls: seq<Call>, c: string)
    requires limit >= 1
    requires Shows(Run(limit, calls), c, Window(0, limit), 1, 1 + MINUTE, limit - 1)
    ensures Shows(Run(limit, calls + [Call(c, MINUTE)] + Repeat(c, MINUTE, limit - 1)), c, Window(MINUTE, limit), 1, 1 + MINUTE,
                  2 * limit - 1)
  {
    RunAppend(limit, calls, Call(c, MINUTE));
    CallOpensWindow(Run(limit, calls), limit, c, MINUTE, 1, 1 + MINUTE);
    Fill(limit, calls + [Call(c, MINUTE)], c, MINUTE, limit - 1, Window(MINUTE, 1), 1, 1 + MINUTE, limit);
  }

  /** Open a window, wait, and spend two budgets around its end. */
  function Bursts(limit: int, c: string): (calls: seq<Call>)
    requires limit >= 1
    ensures ClockMonotone(calls)
  {
    [Call(c, 0)] + Repeat(c, MINUTE - 1, limit - 1) + [Call(c, MINUTE)] + Repeat(c, MINUTE, limit - 1)
  }

  /** For every limit some client is admitted one less than twice its limit within one minute. */
  lemma BoundIsAttained(limit: int, c: string)
    requires limit >= 1
    ensures InMinute(Run(limit, Bursts(limit, c)).admitted, c, 1) == 2 * limit - 1
  {
    FirstBurst(limit, c);
    SecondBurst(limit, [Call(c, 0)] + Repeat(c, MINUTE - 1, limit - 1), c);
  }

  lemma OneMoreKey(w: Windows, base: Windows, client: string)
    requires w.Keys <= base.Keys + {client}
    ensures |w| <= |base| + 1
    ensures client in base ==> |w| <= |base|
  {
    var all := base.Keys + {client};
    assert all == w.Keys + (all - w.Keys);
    assert |w| == |w.Keys| && |base| == |base.Keys|;
    assert client in base ==> all == base.Keys;
  }

  /** The table never tracks more than its bound. */
  lemma {:induction false} TableBounded(limit: int, calls: seq<Call>)
    ensures |Run(limit, calls).windows| <= MAX_TRACKED_CLIENTS
  {
    if calls != [] {
      var s, call := Run(limit, calls[..|calls| - 1]), calls[|calls| - 1];
      TableBounded(limit, calls[..|calls| - 1]);
      LiveOnlySize(s.windows, call.now);
      var w := Allowed(s.windows, limit, call.client, call.now).0;
      if call.client !in s.windows && |s.windows| >= MAX_TRACKED_CLIENTS {
        OneMoreKey(w, LiveOnly(s.windows, call.now), call.client);
      } else {
        OneMoreKey(w, s.windows, call.client);
      }
    }
  }
}
