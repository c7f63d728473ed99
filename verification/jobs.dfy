/** The durable trace_jobs table: every SQL statement is one atomic step on a map from the
    unique query key to its row. Times are microseconds of the database clock. */
module TraceJobs {
  import opened Options

  datatype Status = Queued | Running | Succeeded | Failed

  /** The columns of the table's UNIQUE constraint. */
  datatype Key = Key(network: string, address: string, direction: string, cursor: string,
                     limit: nat, counterpartyLimit: nat, ranking: string, maxDepth: nat)

  datatype Row = Row(id: nat, clientKey: string, status: Status, result: Option<string>, error: Option<string>,
                     lease: Option<int>, createdAt: int, completedAt: Option<int>)

  /** The rows, and the next value of the id sequence. */
  datatype Table = Table(rows: map<Key, Row>, nextId: nat)

  datatype EnqueueResult = Accepted(key: Key, row: Row) | QueueFull | ClientQueueFull

  /** What a worker writes about the job it claimed. */
  datatype Outcome = Complete(result: string) | Fail(message: string) | Requeue

  const SECOND: int := 1_000_000
  const RESULT_CACHE_TTL: int := 5 * 60 * SECOND

  function Normalize(key: Key): (r: Key)
    ensures r.counterpartyLimit > 0 && r.ranking != "" && r.maxDepth > 0
  {
    key.(counterpartyLimit := if key.counterpartyLimit == 0 then 10 else key.counterpartyLimit,
         ranking := if key.ranking == "" then "most_recent" else key.ranking,
         maxDepth := if key.maxDepth == 0 then 1 else key.maxDepth)
  }

  // ----- what every row and the table keep

  predicate RowValid(row: Row) {
    && (row.lease.Some? <==> row.status.Running?)
    && (row.result.Some? <==> row.status.Succeeded?)
    && (row.error.Some? <==> row.status.Failed?)
    && (row.completedAt.Some? <==> row.status.Succeeded? || row.status.Failed?)
  }

  ghost predicate RowsValid(t: Table) {
    forall k :: k in t.rows ==> RowValid(t.rows[k]) && t.rows[k].id < t.nextId
  }

  ghost predicate UniqueIds(t: Table) {
    forall j, k :: j in t.rows && k in t.rows && t.rows[j].id == t.rows[k].id ==> j == k
  }

  predicate RunsOn(t: Table, k: Key, network: string) {
    k in t.rows && t.rows[k].status.Running? && k.network == network
  }

  /** The partial unique index trace_jobs_one_running_per_network_idx. */
  ghost predicate OneRunning(t: Table) {
    forall j, k, n :: RunsOn(t, j, n) && RunsOn(t, k, n) ==> j == k
  }

  ghost predicate TableValid(t: Table) {
    RowsValid(t) && UniqueIds(t) && OneRunning(t)
  }

  // ----- the statements

  function QueuedOn(t: Table, network: string): set<Key> {
    set k | k in t.rows && k.network == network && t.rows[k].status.Queued?
  }

  function QueuedFor(t: Table, network: string, client: string): set<Key> {
    set k | k in t.rows && k.network == network && t.rows[k].status.Queued? && t.rows[k].clientKey == client
  }

  /** The condition of the upsert's four CASE expressions. */
  predicate Refreshes(row: Row, retry: bool, now: int) {
    (retry && row.status.Failed?)
    || (row.status.Succeeded? && row.completedAt.Some? && row.completedAt.value < now - RESULT_CACHE_TTL)
  }

  function Enqueued(t: Table, query: Key, client: string, retry: bool, now: int, maxQueued: int, maxPerClient: int)
    : (Table, EnqueueResult)
  {
    var key := Normalize(query);
    if key in t.rows then
      var prior := t.rows[key];
      var row := if Refreshes(prior, retry, now)
                 then prior.(status := Queued, result := None, error := None, completedAt := None) else prior;
      (Table(t.rows[key := row], t.nextId + 1), Accepted(key, row))
    else if |QueuedOn(t, key.network)| >= maxQueued then
      (t, QueueFull)
    else if |QueuedFor(t, key.network, client)| >= maxPerClient then
      (t, ClientQueueFull)
    else
      var row := Row(t.nextId, client, Queued, None, None, None, now, None);
      (Table(t.rows[key := row], t.nextId + 1), Accepted(key, row))
  }

  predicate Expired(key: Key, row: Row, network: string, now: int) {
    key.network == network && row.status.Running? && row.lease.Some? && row.lease.value < now
  }

  function Recovered(t: Table, network: string, now: int): Table {
    t.(rows := map k | k in t.rows ::
                 if Expired(k, t.rows[k], network, now) then t.rows[k].(status := Queued, lease := None) else t.rows[k])
  }

  predicate HasRunning(t: Table, network: string) {
    exists k :: k in t.rows && RunsOn(t, k, network)
  }

  /** `k` is what ORDER BY created_at LIMIT 1 may return. */
  predicate Oldest(t: Table, network: string, k: Key) {
    && k in QueuedOn(t, network)
    && forall j :: j in QueuedOn(t, network) ==> t.rows[k].createdAt <= t.rows[j].createdAt
  }

  /** Claiming `k`: the unique index turns the update into a no-op while the network has a running row. */
  function Claimed(t: Table, k: Key, lease: int, now: int): Table
    requires k in t.rows
  {
    if HasRunning(t, k.network) then t
    else t.(rows := t.rows[k := t.rows[k].(status := Running, lease := Some(now + lease))])
  }

  function Settle(row: Row, outcome: Outcome, now: int): Row {
    match outcome
    case Complete(result) =>
      row.(status := Succeeded, result := Some(result), error := None, lease := None, completedAt := Some(now))
    case Fail(message) =>
      row.(status := Failed, error := Some(message), lease := None, completedAt := Some(now))
    case Requeue =>
      row.(status := Queued, lease := None)
  }

  /** UPDATE ... WHERE id = $1 AND status = 'running'. */
  function Written(t: Table, id: nat, outcome: Outcome, now: int): Table {
    t.(rows := map k | k in t.rows ::
                 if t.rows[k].id == id && t.rows[k].status.Running? then Settle(t.rows[k], outcome, now) else t.rows[k])
  }

  predicate Prunable(key: Key, row: Row, network: string, retention: int, now: int) {
    key.network == network && (row.status.Succeeded? || row.status.Failed?)
    && row.completedAt.Some? && row.completedAt.value < now - retention
  }

  function Pruned(t: Table, network: string, retention: int, now: int): Table {
    t.(rows := map k | k in t.rows && !Prunable(k, t.rows[k], network, retention, now) :: t.rows[k])
  }

  predicate IsOldest(rows: map<Key, Row>, s: set<Key>, k: Key)
    requires s <= rows.Keys
  {
    k in s && forall j :: j in s ==> rows[k].createdAt <= rows[j].createdAt
  }

  lemma OlderOf(rows: map<Key, Row>, s: set<Key>, x: Key, k: Key)
    requires s <= rows.Keys && x in s && IsOldest(rows, s - {x}, k)
    ensures if rows[x].createdAt < rows[k].createdAt then IsOldest(rows, s, x) else IsOldest(rows, s, k)
  {
  }

  lemma {:induction false} OldestExists(rows: map<Key, Row>, s: set<Key>)
    requires s != {} && s <= rows.Keys
    ensures exists k :: IsOldest(rows, s, k)
  {
    var x :| x in s;
    if s == {x} {
      assert IsOldest(rows, s, x);
    } else {
      OldestExists(rows, s - {x});
      var k :| IsOldest(rows, s - {x}, k);
      OlderOf(rows, s, x, k);
    }
  }

  // ----- the database object

  class TraceJobStore {
    var rows: map<Key, Row>
    var nextId: nat

    ghost predicate Valid() reads this { TableValid(Contents()) }

    function Contents(): Table reads this { Table(rows, nextId) }

    constructor ()
      ensures Valid() && Contents() == Table(map[], 0)
    {
      rows, nextId := map[], 0;
    }

    method EnqueueTraceJob(query: Key, client: string, retry: bool, now: int, maxQueued: int, maxPerClient: int)
      returns (r: EnqueueResult)
      requires Valid()
      modifies this
      ensures Valid()
      ensures (Contents(), r) == Enqueued(old(Contents()), query, client, retry, now, maxQueued, maxPerClient)
      // no stale result is handed out, and no failure to a caller who asked to retry
      ensures r.Accepted? && r.row.status.Succeeded? ==>
                r.row.completedAt.Some? && now - r.row.completedAt.value <= RESULT_CACHE_TTL
      ensures r.Accepted? && r.row.status.Failed? ==> !retry
    {
      EnqueueReturnsFresh(Contents(), query, client, retry, now, maxQueued, maxPerClient);
      EnqueueKeepsTable(Contents(), query, client, retry, now, maxQueued, maxPerClient);
      var key := Normalize(query);
      if key !in rows {
        if |QueuedOn(Contents(), key.network)| >= maxQueued {
          return QueueFull;
        }
        if |QueuedFor(Contents(), key.network, client)| >= maxPerClient {
          return ClientQueueFull;
        }
        rows := rows[key := Row(nextId, client, Queued, None, None, None, now, None)];
      } else if Refreshes(rows[key], retry, now) {
        rows := rows[key := rows[key].(status := Queued, result := None, error := None, completedAt := None)];
      } else {
        rows := rows[key := rows[key]];
      }
      nextId := nextId + 1;
      r := Accepted(key, rows[key]);
    }

    method RecoverExpiredTraceJobs(network: string, now: int)
      requires Valid()
      modifies this
      ensures Valid() && Contents() == Recovered(old(Contents()), network, now)
    {
      RecoverKeepsTable(Contents(), network, now);
      rows := Recovered(Contents(), network, now).rows;
    }

    method ClaimTraceJob(network: string, lease: int, now: int) returns (job: Option<Key>)
      requires Valid()
      modifies this
      ensures Valid()
      ensures job.None? <==> QueuedOn(old(Contents()), network) == {} || HasRunning(old(Contents()), network)
      ensures job.None? ==> Contents() == old(Contents())
      ensures job.Some? ==> Oldest(old(Contents()), network, job.value)
                            && Contents() == Claimed(old(Contents()), job.value, lease, now)
    {
      var queued := QueuedOn(Contents(), network);
      if queued == {} || HasRunning(Contents(), network) {
        return None;
      }
      OldestExists(rows, queued);
      var k :| IsOldest(rows, queued, k);
      ClaimKeepsTable(Contents(), k, lease, now);
      rows := rows[k := rows[k].(status := Running, lease := Some(now + lease))];
      return Some(k);
    }

    method CompleteTraceJob(id: nat, result: string, now: int)
      requires Valid()
      modifies this
      ensures Valid() && Contents() == Written(old(Contents()), id, Complete(result), now)
    {
      WriteKeepsTable(Contents(), id, Complete(result), now);
      rows := Written(Contents(), id, Complete(result), now).rows;
    }

    method FailTraceJob(id: nat, message: string, now: int)
      requires Valid()
      modifies this
      ensures Valid() && Contents() == Written(old(Contents()), id, Fail(message), now)
    {
      WriteKeepsTable(Contents(), id, Fail(message), now);
      rows := Written(Contents(), id, Fail(message), now).rows;
    }

    method RequeueTraceJob(id: nat, now: int)
      requires Valid()
      modifies this
      ensures Valid() && Contents() == Written(old(Contents()), id, Requeue, now)
    {
      WriteKeepsTable(Contents(), id, Requeue, now);
      rows := Written(Contents(), id, Requeue, now).rows;
    }

    method PruneFinishedTraceJobs(network: string, retention: int, now: int)
      requires Valid()
      modifies this
      ensures Valid() && Contents() == Pruned(old(Contents()), network, retention, now)
    {
      PruneKeepsTable(Contents(), network, retention, now);
      rows := Pruned(Contents(), network, retention, now).rows;
    }
  }

  // ----- every statement keeps the table

  lemma PutKeepsTable(t: Table, key: Key, row: Row)
    requires TableValid(t) && RowValid(row)
    requires key in t.rows ==> row.id == t.rows[key].id
    requires key !in t.rows ==> row.id == t.nextId
    requires row.status.Running? ==> key in t.rows && t.rows[key].status.Running?
    ensures TableValid(Table(t.rows[key := row], t.nextId + 1))
  {
    var t' := Table(t.rows[key := row], t.nextId + 1);
    assert forall j :: j in t'.rows && j != key ==> t'.rows[j] == t.rows[j];
    assert UniqueIds(t');
    assert OneRunning(t') by {
      assert forall j, n :: RunsOn(t', j, n) ==> RunsOn(t, j, n);
    }
  }

  lemma EnqueueKeepsTable(t: Table, query: Key, client: string, retry: bool, now: int, maxQueued: int, maxPerClient: int)
    requires TableValid(t)
    ensures TableValid(Enqueued(t, query, client, retry, now, maxQueued, maxPerClient).0)
  {
    var (t', r) := Enqueued(t, query, client, retry, now, maxQueued, maxPerClient);
    if r.Accepted? {
      PutKeepsTable(t, r.key, r.row);
    }
  }

  lemma RecoverKeepsTable(t: Table, network: string, now: int)
    requires TableValid(t)
    ensures TableValid(Recovered(t, network, now))
  {
    var t' := Recovered(t, network, now);
    assert forall j, n :: RunsOn(t', j, n) ==> RunsOn(t, j, n);
  }

  lemma ClaimKeepsTable(t: Table, k: Key, lease: int, now: int)
    requires TableValid(t) && k in QueuedOn(t, k.network)
    ensures TableValid(Claimed(t, k, lease, now))
  {
    var t' := Claimed(t, k, lease, now);
    assert forall j, n :: RunsOn(t', j, n) ==> RunsOn(t, j, n) || (j == k && !HasRunning(t, n));
  }

  lemma WriteKeepsTable(t: Table, id: nat, outcome: Outcome, now: int)
    requires TableValid(t)
    ensures TableValid(Written(t, id, outcome, now))
  {
    var t' := Written(t, id, outcome, now);
    assert forall j, n :: RunsOn(t', j, n) ==> RunsOn(t, j, n);
  }

  lemma PruneKeepsTable(t: Table, network: string, retention: int, now: int)
    requires TableValid(t)
    ensures TableValid(Pruned(t, network, retention, now))
  {
    var t' := Pruned(t, network, retention, now);
    assert forall j, n :: RunsOn(t', j, n) ==> RunsOn(t, j, n);
  }

  // ----- what one statement promises

  /** A succeeded row that Enqueue hands back was completed within the last five minutes; a
      failed one is handed back only when no retry was asked for. */
  lemma EnqueueReturnsFresh(t: Table, query: Key, client: string, retry: bool, now: int, maxQueued: int, maxPerClient: int)
    requires TableValid(t)
    ensures var r := Enqueued(t, query, client, retry, now, maxQueued, maxPerClient).1;
            r.Accepted? ==>
              && (r.row.status.Succeeded? ==> r.row.completedAt.Some? && now - r.row.completedAt.value <= RESULT_CACHE_TTL)
              && (r.row.status.Failed? ==> !retry)
  {
  }

  /** A full queue that Enqueue lengthens anyway: it puts an existing finished row back. */
  predicate Overfills(t: Table, query: Key, retry: bool, now: int, maxQueued: int) {
    var key := Normalize(query);
    key in t.rows && Refreshes(t.rows[key], retry, now) && |QueuedOn(t, key.network)| == maxQueued
  }

  /** The capacity promise and where it breaks: from a queue within its capacity, Enqueue
      leaves the network within it unless it puts an existing finished row back on a full queue. */
  lemma EnqueueCapacityExactly(t: Table, query: Key, client: string, retry: bool, now: int, maxQueued: int, maxPerClient: int)
    requires TableValid(t)
    requires |QueuedOn(t, query.network)| <= maxQueued
    ensures var t' := Enqueued(t, query, client, retry, now, maxQueued, maxPerClient).0;
            |QueuedOn(t', query.network)| <= maxQueued <==> !Overfills(t, query, retry, now, maxQueued)
  {
    var key := Normalize(query);
    var (t', r) := Enqueued(t, query, client, retry, now, maxQueued, maxPerClient);
    if r.Accepted? {
      PutQueues(t, key, r.row);
      if key in t.rows && !Refreshes(t.rows[key], retry, now) {
        assert QueuedOn(t', key.network) == QueuedOn(t, key.network);
      }
    }
  }

  lemma PutQueues(t: Table, key: Key, row: Row)
    ensures var t' := Table(t.rows[key := row], t.nextId + 1);
            key !in QueuedOn(t, key.network) && row.status.Queued? ==>
              |QueuedOn(t', key.network)| == |QueuedOn(t, key.network)| + 1
  {
    var t' := Table(t.rows[key := row], t.nextId + 1);
    if key !in QueuedOn(t, key.network) && row.status.Queued? {
      assert QueuedOn(t', key.network) == QueuedOn(t, key.network) + {key};
    }
  }
}
