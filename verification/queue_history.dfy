/** What runs of the queue say about a row: where its result, its failure, its age and its place come from. */
module TraceHistory {
  import opened Options
  import opened TraceJobs
  import opened TraceQueue

  // ----- the clock and the steps of a run

  ghost predicate RunFromStart(states: seq<System>, events: seq<Event>, limits: Limits) {
    IsRun(states, events, limits) && states[0] == Initial()
  }

  lemma StepFollows(states: seq<System>, events: seq<Event>, limits: Limits, i: nat)
    requires IsRun(states, events, limits) && i < |events|
    ensures Enabled(states[i], events[i]) && states[i + 1] == Step(states[i], events[i], limits)
  {
    assert Follows(states, events, limits, i);
  }

  lemma {:induction false} ClockRises(states: seq<System>, events: seq<Event>, limits: Limits, i: nat, j: nat)
    requires IsRun(states, events, limits) && i < j < |events|
    ensures events[i].now <= events[j].now
  {
    StepFollows(states, events, limits, j - 1);
    StepFollows(states, events, limits, j);
    if i < j - 1 {
      ClockRises(states, events, limits, i, j - 1);
    }
  }

  // ----- queries

  /** A query that leaves a choice open asks for the same job as one that names the default, and other queries for
      themselves. */
  lemma DefaultsExactly(q: Key)
    ensures Normalize(q.(counterpartyLimit := 0)) == Normalize(q.(counterpartyLimit := 10))
    ensures Normalize(q.(ranking := "")) == Normalize(q.(ranking := "most_recent"))
    ensures Normalize(q.(maxDepth := 0)) == Normalize(q.(maxDepth := 1))
    ensures q.counterpartyLimit > 0 && q.ranking != "" && q.maxDepth > 0 ==> Normalize(q) == q
  {
  }

  // ----- one statement, row by row

  /** How a row gets finished: by a write to it while it runs. */
  ghost predicate FinishedBy(s: System, e: Event, k: Key, row: Row)
    requires Enabled(s, e)
  {
    && e.Write? && k in s.table.rows && s.table.rows[k].status.Running?
    && row.id == s.table.rows[k].id == s.claims[e.claim].jobId && row.completedAt == Some(e.now) && row.lease == None
    && ((row.status.Succeeded? && row.result.Some? && e.outcome == Complete(row.result.value) && row.error == None)
        || (row.status.Failed? && row.error.Some? && e.outcome == Fail(row.error.value) && row.result == None))
  }

  predicate Finished(row: Row) {
    row.status.Succeeded? || row.status.Failed?
  }

  /** A finished row was so before, or has just been written. */
  lemma FinishedStep(s: System, e: Event, limits: Limits, k: Key)
    requires TableValid(s.table) && Enabled(s, e)
    requires k in Step(s, e, limits).table.rows && Finished(Step(s, e, limits).table.rows[k])
    ensures var row := Step(s, e, limits).table.rows[k];
            RowValid(row) && ((k in s.table.rows && s.table.rows[k] == row) || FinishedBy(s, e, k, row))
  {
    match e
    case EnqueueJob(now, query, client, retry) =>
    case Recover(now, network) =>
    case TakeClaim(now, key, claim) =>
    case Write(now, claim, outcome) => WrittenStep(s.table, s.claims[claim].jobId, outcome, now, k);
    case Prune(now, network) =>
  }

  lemma WrittenStep(t: Table, id: nat, outcome: Outcome, now: int, k: Key)
    requires RowsValid(t) && k in Written(t, id, outcome, now).rows && Finished(Written(t, id, outcome, now).rows[k])
    ensures var row := Written(t, id, outcome, now).rows[k];
            && k in t.rows && RowValid(row)
            && (t.rows[k] == row
                || (t.rows[k].status.Running? && row.id == t.rows[k].id == id && row.completedAt == Some(now) && row.lease == None
                    && ((row.status.Succeeded? && outcome == Complete(row.result.value) && row.error == None)
                        || (row.status.Failed? && outcome == Fail(row.error.value) && row.result == None))))
  {
  }

  /** What takes a finished row away: pruning after a day, asking for a result after five minutes, asking for a failure
      with a retry. */
  predicate TakesAway(e: Event, k: Key, row: Row, completedAt: int) {
    match e
    case Prune(now, network) => network == k.network && now - completedAt > 24 * 60 * 60 * 1_000_000
    case EnqueueJob(now, query, _, retry) =>
      Normalize(query) == k && if row.status.Succeeded? then now - completedAt > 5 * 60 * 1_000_000 else retry
    case _ => false
  }

  /** Nothing else touches it. */
  lemma FinishedStaysExactly(s: System, e: Event, limits: Limits, k: Key)
    requires TableValid(s.table) && Enabled(s, e) && k in s.table.rows && Finished(s.table.rows[k])
    ensures var row, rows := s.table.rows[k], Step(s, e, limits).table.rows;
            && row.completedAt.Some?
            && (k in rows && rows[k] == row <==> !TakesAway(e, k, row, row.completedAt.value))
            && (k in rows && rows[k] != row ==> rows[k] == row.(status := Queued, result := None, error := None, completedAt := None))
            && (k !in rows ==> e.Prune?)
  {
  }

  // ----- finished rows over a run

  /** The write that finished the row. */
  lemma {:induction false} FinishedIsWritten(states: seq<System>, events: seq<Event>, limits: Limits, n: nat, k: Key) returns (m: nat)
    requires RunFromStart(states, events, limits) && n < |states| && k in states[n].table.rows && Finished(states[n].table.rows[k])
    ensures m < n && Enabled(states[m], events[m]) && FinishedBy(states[m], events[m], k, states[n].table.rows[k])
  {
    assert n > 0;
    RunKeepsInvariants(states, events, limits, n - 1);
    StepFollows(states, events, limits, n - 1);
    FinishedStep(states[n - 1], events[n - 1], limits, k);
    if FinishedBy(states[n - 1], events[n - 1], k, states[n].table.rows[k]) {
      m := n - 1;
    } else {
      m := FinishedIsWritten(states, events, limits, n - 1, k);
    }
  }

  /** From the write on, the row stays as long as nothing takes it away. */
  lemma {:induction false} FinishedStays(states: seq<System>, events: seq<Event>, limits: Limits, m: nat, n: nat, k: Key, row: Row, completedAt: int)
    requires RunFromStart(states, events, limits) && m <= n < |states|
    requires k in states[m].table.rows && states[m].table.rows[k] == row && Finished(row) && row.completedAt == Some(completedAt)
    requires forall i :: m <= i < n ==> !TakesAway(events[i], k, row, completedAt)
    ensures k in states[n].table.rows && states[n].table.rows[k] == row
  {
    if m < n {
      FinishedStays(states, events, limits, m, n - 1, k, row, completedAt);
      RunKeepsInvariants(states, events, limits, n - 1);
      StepFollows(states, events, limits, n - 1);
      FinishedStaysExactly(states[n - 1], events[n - 1], limits, k);
    }
  }

  /** What the caller of the n-th event, an Enqueue, gets. */
  ghost function Answer(states: seq<System>, events: seq<Event>, limits: Limits, n: nat): EnqueueResult
    requires n < |events| <= |states| && events[n].EnqueueJob?
  {
    var e := events[n];
    Enqueued(states[n].table, e.query, e.client, e.retry, e.now, limits.maxQueued, limits.maxPerClient).1
  }

  /** A result that Enqueue returns was written for this very job within the last five minutes. */
  lemma ReturnedIsFresh(states: seq<System>, events: seq<Event>, limits: Limits, n: nat) returns (m: nat)
    requires RunFromStart(states, events, limits) && n < |events| && events[n].EnqueueJob?
    requires var r := Answer(states, events, limits, n); r.Accepted? && r.row.status.Succeeded?
    ensures m < n && events[m].Write? && Enabled(states[m], events[m])
    ensures var r := Answer(states, events, limits, n);
            && r.key == Normalize(events[n].query) && r.row.result.Some? && events[m].outcome == Complete(r.row.result.value)
            && states[m].claims[events[m].claim].jobId == r.row.id
            && 0 <= events[n].now - events[m].now <= 5 * 60 * 1_000_000
  {
    RunKeepsInvariants(states, events, limits, n);
    var r := Answer(states, events, limits, n);
    assert r.row == states[n].table.rows[r.key];
    m := FinishedIsWritten(states, events, limits, n, r.key);
    ClockRises(states, events, limits, m, n);
  }

  lemma KeptForMinutes(states: seq<System>, events: seq<Event>, limits: Limits, m: nat, n: nat, k: Key, row: Row)
    requires RunFromStart(states, events, limits) && m < n < |events| && row.status.Succeeded?
    requires events[n].now - events[m].now <= 5 * 60 * 1_000_000
    ensures forall i :: m < i < n ==> !TakesAway(events[i], k, row, events[m].now)
  {
    forall i | m < i < n ensures !TakesAway(events[i], k, row, events[m].now) {
      ClockRises(states, events, limits, i, n);
    }
  }

  /** And every result is returned for five minutes: whatever else happens in between, whoever asks for the job within
      that time gets it. */
  lemma ResultIsReturned(states: seq<System>, events: seq<Event>, limits: Limits, m: nat, n: nat, k: Key)
    requires RunFromStart(states, events, limits) && m < n < |events| && events[m].Write? && events[m].outcome.Complete?
    requires k in states[m].table.rows && states[m].table.rows[k].status.Running?
    requires Enabled(states[m], events[m]) && states[m].table.rows[k].id == states[m].claims[events[m].claim].jobId
    requires events[n].EnqueueJob? && Normalize(events[n].query) == k && events[n].now - events[m].now <= 5 * 60 * 1_000_000
    ensures var r := Answer(states, events, limits, n);
            r.Accepted? && r.key == k && r.row.status.Succeeded? && r.row.result == Some(events[m].outcome.result)
            && r.row.completedAt == Some(events[m].now)
  {
    StepFollows(states, events, limits, m);
    RunKeepsInvariants(states, events, limits, m + 1);
    var row := states[m + 1].table.rows[k];
    KeptForMinutes(states, events, limits, m, n, k, row);
    FinishedStays(states, events, limits, m + 1, n, k, row, events[m].now);
  }

  /** A finished row is pruned only after a day, and then it is. */
  lemma PrunedExactly(states: seq<System>, events: seq<Event>, limits: Limits, n: nat, k: Key) returns (m: nat)
    requires RunFromStart(states, events, limits) && n < |events| && events[n].Prune?
    requires k in states[n].table.rows && Finished(states[n].table.rows[k])
    ensures m < n && events[m].Write? && states[n].table.rows[k].completedAt == Some(events[m].now)
    ensures k !in states[n + 1].table.rows <==>
            events[n].network == k.network && events[n].now - events[m].now > 24 * 60 * 60 * 1_000_000
  {
    m := FinishedIsWritten(states, events, limits, n, k);
    RunKeepsInvariants(states, events, limits, n);
    StepFollows(states, events, limits, n);
    FinishedStaysExactly(states[n], events[n], limits, k);
  }

  /** Unfinished rows are never pruned. */
  lemma UnfinishedIsKept(states: seq<System>, events: seq<Event>, limits: Limits, n: nat, k: Key)
    requires IsRun(states, events, limits) && n < |events| && events[n].Prune?
    requires k in states[n].table.rows && !Finished(states[n].table.rows[k])
    ensures k in states[n + 1].table.rows && states[n + 1].table.rows[k] == states[n].table.rows[k]
  {
    StepFollows(states, events, limits, n);
  }

  /** A write changes the running row of its job, whatever claim holds it, and no other: it is finished with the result or
      the message, or waits again. */
  lemma WrittenExactly(s: System, e: Event, limits: Limits, k: Key)
    requires Enabled(s, e) && e.Write?
    ensures var rows := Step(s, e, limits).table.rows;
            && (k in rows <==> k in s.table.rows)
            && (k in rows ==>
                  var row := s.table.rows[k];
                  rows[k] ==
                    if !row.status.Running? || row.id != s.claims[e.claim].jobId then row
                    else match e.outcome
                      case Complete(result) => Row(row.id, row.clientKey, Succeeded, Some(result), None, None, row.createdAt, Some(e.now))
                      case Fail(message) => Row(row.id, row.clientKey, Failed, row.result, Some(message), None, row.createdAt, Some(e.now))
                      case Requeue => Row(row.id, row.clientKey, Queued, row.result, row.error, None, row.createdAt, row.completedAt))
  {
  }

  // ----- insertion and order

  /** The row came into the table with this query, of this client, at this time. */
  ghost predicate InsertedBy(s: System, e: Event, k: Key, row: Row) {
    && e.EnqueueJob? && Normalize(e.query) == k && k !in s.table.rows
    && row.clientKey == e.client && row.createdAt == e.now && row.id == s.table.nextId
  }

  lemma RowStep(s: System, e: Event, limits: Limits, k: Key)
    requires Enabled(s, e) && k in Step(s, e, limits).table.rows
    ensures var row := Step(s, e, limits).table.rows[k];
            || InsertedBy(s, e, k, row)
            || (k in s.table.rows && s.table.rows[k].id == row.id && s.table.rows[k].clientKey == row.clientKey
                && s.table.rows[k].createdAt == row.createdAt)
  {
  }

  lemma {:induction false} RowIsInserted(states: seq<System>, events: seq<Event>, limits: Limits, n: nat, k: Key) returns (m: nat)
    requires RunFromStart(states, events, limits) && n < |states| && k in states[n].table.rows
    ensures m < n && InsertedBy(states[m], events[m], k, states[n].table.rows[k])
  {
    assert n > 0;
    StepFollows(states, events, limits, n - 1);
    RowStep(states[n - 1], events[n - 1], limits, k);
    if InsertedBy(states[n - 1], events[n - 1], k, states[n].table.rows[k]) {
      m := n - 1;
    } else {
      m := RowIsInserted(states, events, limits, n - 1, k);
    }
  }

  /** First come, first served: no row that waits on the network was asked for before the one that is claimed. */
  lemma ClaimsInOrder(states: seq<System>, events: seq<Event>, limits: Limits, n: nat, k: Key) returns (i: nat, j: nat)
    requires RunFromStart(states, events, limits) && n < |events| && events[n].TakeClaim?
    requires k in states[n].table.rows && states[n].table.rows[k].status.Queued? && k.network == events[n].key.network
    ensures Enabled(states[n], events[n]) && events[n].key in states[n].table.rows && states[n].table.rows[events[n].key].status.Queued?
    ensures i < n && InsertedBy(states[i], events[i], events[n].key, states[n].table.rows[events[n].key])
    ensures j < n && InsertedBy(states[j], events[j], k, states[n].table.rows[k])
    ensures events[i].now <= events[j].now
  {
    StepFollows(states, events, limits, n);
    assert k in QueuedOn(states[n].table, k.network);
    i := RowIsInserted(states, events, limits, n, events[n].key);
    j := RowIsInserted(states, events, limits, n, k);
  }

  // ----- leases

  /** The claim that set the row running. */
  ghost predicate ClaimedBy(s: System, e: Event, k: Key, row: Row) {
    && e.TakeClaim? && e.key == k && row.lease == Some(e.now + 120 * 1_000_000)
    && k in s.table.rows && s.table.rows[k].status.Queued? && s.table.rows[k].id == row.id
    // nothing else runs on the network
    && forall j :: j in s.table.rows && j.network == k.network ==> !s.table.rows[j].status.Running?
  }

  lemma RunningStep(s: System, e: Event, limits: Limits, k: Key)
    requires TableValid(s.table) && Enabled(s, e)
    requires k in Step(s, e, limits).table.rows && Step(s, e, limits).table.rows[k].status.Running?
    ensures var row := Step(s, e, limits).table.rows[k];
            ClaimedBy(s, e, k, row) || (k in s.table.rows && s.table.rows[k] == row)
  {
    if e.TakeClaim? {
      NothingRuns(s.table, e.key.network);
      ClaimedRow(s.table, e.key, e.now, k);
    } else {
      StepIsQuiet(s, e, limits);
    }
  }

  lemma ClaimedRow(t: Table, key: Key, now: int, k: Key)
    requires key in t.rows && k in Claimed(t, key, JOB_LEASE, now).rows && !HasRunning(t, key.network)
    ensures k in t.rows
    ensures Claimed(t, key, JOB_LEASE, now).rows[k]
            == if k == key then t.rows[k].(status := Running, lease := Some(now + 120 * 1_000_000)) else t.rows[k]
  {
  }

  lemma NothingRuns(t: Table, network: string)
    requires !HasRunning(t, network)
    ensures forall j :: j in t.rows && j.network == network ==> !t.rows[j].status.Running?
  {
    forall j | j in t.rows && j.network == network ensures !t.rows[j].status.Running? {
      assert !RunsOn(t, j, network);
    }
  }

  /** A running row was claimed, and its lease lasts two minutes from then. */
  lemma {:induction false} RunningIsClaimed(states: seq<System>, events: seq<Event>, limits: Limits, n: nat, k: Key) returns (m: nat)
    requires RunFromStart(states, events, limits) && n < |states|
    requires k in states[n].table.rows && states[n].table.rows[k].status.Running?
    ensures m < n && ClaimedBy(states[m], events[m], k, states[n].table.rows[k])
  {
    assert n > 0;
    RunKeepsInvariants(states, events, limits, n - 1);
    StepFollows(states, events, limits, n - 1);
    RunningStep(states[n - 1], events[n - 1], limits, k);
    if ClaimedBy(states[n - 1], events[n - 1], k, states[n].table.rows[k]) {
      m := n - 1;
    } else {
      m := RunningIsClaimed(states, events, limits, n - 1, k);
    }
  }

  /** Recovery puts a running row of the network back if and only if its claim is more than two minutes old; it changes
      no other row. */
  lemma RecoveredExactly(states: seq<System>, events: seq<Event>, limits: Limits, n: nat, k: Key) returns (m: nat)
    requires RunFromStart(states, events, limits) && n < |events| && events[n].Recover?
    requires k in states[n].table.rows && states[n].table.rows[k].status.Running?
    ensures m < n && ClaimedBy(states[m], events[m], k, states[n].table.rows[k])
    ensures k in states[n + 1].table.rows
    ensures var row := states[n].table.rows[k];
            states[n + 1].table.rows[k] ==
              if events[n].network == k.network && events[n].now - events[m].now > 120 * 1_000_000
              then row.(status := Queued, lease := None) else row
  {
    m := RunningIsClaimed(states, events, limits, n, k);
    StepFollows(states, events, limits, n);
  }

  lemma RecoveryKeepsOthers(s: System, e: Event, limits: Limits, k: Key)
    requires Enabled(s, e) && e.Recover?
    ensures var rows := Step(s, e, limits).table.rows;
            (k in rows <==> k in s.table.rows) && (k in rows && !s.table.rows[k].status.Running? ==> rows[k] == s.table.rows[k])
  {
  }

  // ----- refusals

  /** A query is refused if and only if it has no row and its network's queue is full, or else its client's share of it. */
  lemma RefusedExactly(t: Table, query: Key, client: string, retry: bool, now: int, maxQueued: int, maxPerClient: int)
    ensures var r := Enqueued(t, query, client, retry, now, maxQueued, maxPerClient).1;
            var waiting := set k | k in t.rows && k.network == query.network && t.rows[k].status == Queued;
            var own := set k | k in waiting && t.rows[k].clientKey == client;
            && (r.QueueFull? <==> Normalize(query) !in t.rows && |waiting| >= maxQueued)
            && (r.ClientQueueFull? <==> Normalize(query) !in t.rows && |waiting| < maxQueued && |own| >= maxPerClient)
  {
    var waiting := set k | k in t.rows && k.network == query.network && t.rows[k].status == Queued;
    assert waiting == QueuedOn(t, query.network);
    assert (set k | k in waiting && t.rows[k].clientKey == client) == QueuedFor(t, query.network, client);
  }

  /** Whoever is accepted finds a row under the normalized query: a new one waits its turn, and one that is there is put
      back only if it went stale, or failed and is retried. */
  lemma AcceptedExactly(s: System, e: Event, limits: Limits)
    requires TableValid(s.table) && e.EnqueueJob? && Enabled(s, e)
    requires Enqueued(s.table, e.query, e.client, e.retry, e.now, limits.maxQueued, limits.maxPerClient).1.Accepted?
    ensures var r := Enqueued(s.table, e.query, e.client, e.retry, e.now, limits.maxQueued, limits.maxPerClient).1;
            var rows, k := Step(s, e, limits).table.rows, Normalize(e.query);
            && r.key == k && k in rows && r.row == rows[k] && (forall j :: j != k ==> (j in rows <==> j in s.table.rows))
            && (forall j :: j != k && j in rows ==> rows[j] == s.table.rows[j])
            && (k !in s.table.rows ==> InsertedBy(s, e, k, rows[k]) && rows[k].status.Queued?)
            && (k in s.table.rows && !Finished(s.table.rows[k]) ==> rows[k] == s.table.rows[k])
  {
  }
}
