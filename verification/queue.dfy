/** Workers over the trace_jobs table: any number of them, interleaved statement by statement.
    A row carries no claim token, so who holds a row is history that no statement can read. */
module TraceQueue {
  import opened Options
  import opened TraceJobs
  import opened Ordering

  const JOB_TIMEOUT: int := 60 * SECOND
  const JOB_LEASE: int := 120 * SECOND
  const MAX_ATTEMPTS: nat := 3
  const JOB_RETENTION: int := 24 * 60 * 60 * SECOND

  /** One successful ClaimTraceJob call. */
  datatype Claim = Claim(key: Key, jobId: nat, claimedAt: int, written: bool)

  /** The table and its clock, then history: the claims made so far, the claim that last set a
      row running, and the rows that have been queued ever since they were inserted. */
  datatype System = System(table: Table, clock: int, claims: map<nat, Claim>, holder: map<nat, nat>, firstSpell: set<nat>)

  datatype Limits = Limits(maxQueued: int, maxPerClient: int)

  datatype Event =
    | EnqueueJob(now: int, query: Key, client: string, retry: bool)
    | Recover(now: int, network: string)
    | TakeClaim(now: int, key: Key, claim: nat)
    | Write(now: int, claim: nat, outcome: Outcome)
    | Prune(now: int, network: string)

  function Initial(): System {
    System(Table(map[], 0), 0, map[], map[], {})
  }

  function Expires(c: Claim): int { c.claimedAt + JOB_LEASE }

  /** Claims get fresh names, a worker writes once, and the clock does not run backwards. */
  ghost predicate Enabled(s: System, e: Event) {
    && s.clock <= e.now
    && match e
       case TakeClaim(_, key, claim) =>
         claim !in s.claims && Oldest(s.table, key.network, key) && !HasRunning(s.table, key.network)
       case Write(_, claim, _) => claim in s.claims && !s.claims[claim].written
       case _ => true
  }

  function Step(s: System, e: Event, limits: Limits): System
    requires Enabled(s, e)
  {
    match e
    case EnqueueJob(now, query, client, retry) =>
      var (t, r) := Enqueued(s.table, query, client, retry, now, limits.maxQueued, limits.maxPerClient);
      var inserted := r.Accepted? && r.key !in s.table.rows;
      s.(table := t, clock := now, firstSpell := s.firstSpell + if inserted then {r.row.id} else {})
    case Recover(now, network) =>
      s.(table := Recovered(s.table, network, now), clock := now)
    case TakeClaim(now, key, claim) =>
      var id := s.table.rows[key].id;
      s.(table := Claimed(s.table, key, JOB_LEASE, now), clock := now, claims := s.claims[claim := Claim(key, id, now, false)],
         holder := s.holder[id := claim], firstSpell := s.firstSpell - {id})
    case Write(now, claim, outcome) =>
      s.(table := Written(s.table, s.claims[claim].jobId, outcome, now), clock := now,
         claims := s.claims[claim := s.claims[claim].(written := true)])
    case Prune(now, network) =>
      s.(table := Pruned(s.table, network, JOB_RETENTION, now), clock := now)
  }

  ghost predicate Follows(states: seq<System>, events: seq<Event>, limits: Limits, i: nat)
    requires i + 1 < |states| && i < |events|
  {
    Enabled(states[i], events[i]) && states[i + 1] == Step(states[i], events[i], limits)
  }

  /** `states` is a run from `states[0]` that takes the events one by one. */
  ghost predicate IsRun(states: seq<System>, events: seq<Event>, limits: Limits) {
    && |states| == |events| + 1
    && forall i :: 0 <= i < |events| ==> Follows(states, events, limits, i)
  }

  // ----- what every run keeps

  /** Rows of the network that are in their first queued spell. */
  ghost function FirstSpellOn(s: System, network: string): set<Key> {
    set k | k in s.table.rows && k.network == network && s.table.rows[k].id in s.firstSpell
  }

  ghost function FirstSpellOf(s: System, network: string, client: string): set<Key> {
    set k | k in s.table.rows && k.network == network && s.table.rows[k].id in s.firstSpell
            && s.table.rows[k].clientKey == client
  }

  function AtLeastZero(n: int): nat { if n > 0 then n else 0 }

  ghost predicate SpellsBounded(s: System, limits: Limits) {
    && (forall id :: id in s.firstSpell ==> id < s.table.nextId)
    && (forall k :: k in s.table.rows && s.table.rows[k].id in s.firstSpell ==> s.table.rows[k].status.Queued?)
    && (forall network :: |FirstSpellOn(s, network)| <= AtLeastZero(limits.maxQueued))
    && (forall network, client :: |FirstSpellOf(s, network, client)| <= AtLeastZero(limits.maxPerClient))
  }

  /** Claim `c` still holds its row: it runs under c's own lease, and c set it running last. */
  ghost predicate Holds(s: System, c: nat)
    requires c in s.claims
  {
    var claim := s.claims[c];
    && claim.key in s.table.rows
    && s.table.rows[claim.key].id == claim.jobId
    && s.table.rows[claim.key].status.Running?
    && s.table.rows[claim.key].lease == Some(Expires(claim))
    && claim.jobId in s.holder && s.holder[claim.jobId] == c
  }

  ghost predicate HolderKnown(s: System, id: nat)
    requires id in s.holder
  {
    id < s.table.nextId && s.holder[id] in s.claims && s.claims[s.holder[id]].jobId == id
  }

  ghost predicate RowHeld(s: System, k: Key)
    requires k in s.table.rows
  {
    var id := s.table.rows[k].id;
    && id in s.holder && s.holder[id] in s.claims
    && s.claims[s.holder[id]].key == k
    && s.table.rows[k].lease == Some(Expires(s.claims[s.holder[id]]))
  }

  /** Bookkeeping of the history itself: every running row is held by the claim that set it running. */
  ghost predicate HistoryValid(s: System) {
    && (forall id :: id in s.holder ==> HolderKnown(s, id))
    && (forall k :: k in s.table.rows && s.table.rows[k].status.Running? ==> RowHeld(s, k))
    && (forall c :: c in s.claims ==> s.claims[c].jobId < s.table.nextId)
  }

  ghost predicate Valid(s: System, limits: Limits) {
    TableValid(s.table) && HistoryValid(s) && SpellsBounded(s, limits)
  }

  lemma StepKeepsTable(s: System, e: Event, limits: Limits)
    requires TableValid(s.table) && Enabled(s, e)
    ensures TableValid(Step(s, e, limits).table)
  {
    match e
    case EnqueueJob(now, query, client, retry) =>
      EnqueueKeepsTable(s.table, query, client, retry, now, limits.maxQueued, limits.maxPerClient);
    case Recover(now, network) => RecoverKeepsTable(s.table, network, now);
    case TakeClaim(now, key, _) => ClaimKeepsTable(s.table, key, JOB_LEASE, now);
    case Write(now, claim, outcome) => WriteKeepsTable(s.table, s.claims[claim].jobId, outcome, now);
    case Prune(now, network) => PruneKeepsTable(s.table, network, JOB_RETENTION, now);
  }

  /** The same claim, except that it may have written in between. */
  ghost predicate SameClaim(a: Claim, b: Claim) {
    a == b || a.(written := true) == b
  }

  /** From s to s' no row was set running and no holder changed. */
  ghost predicate Quiet(s: System, s': System) {
    && s'.holder == s.holder && s'.table.nextId >= s.table.nextId
    && s'.claims.Keys == s.claims.Keys
    && (forall c :: c in s.claims ==> SameClaim(s.claims[c], s'.claims[c]))
    && (forall k :: k in s'.table.rows && s'.table.rows[k].status.Running? ==>
          k in s.table.rows && s'.table.rows[k] == s.table.rows[k])
  }

  lemma StepIsQuiet(s: System, e: Event, limits: Limits)
    requires Enabled(s, e) && !e.TakeClaim?
    ensures Quiet(s, Step(s, e, limits))
  {
    match e
    case EnqueueJob(now, query, client, retry) => assert Quiet(s, Step(s, e, limits));
    case Recover(now, network) => assert Quiet(s, Step(s, e, limits));
    case Write(now, claim, outcome) => assert Quiet(s, Step(s, e, limits));
    case Prune(now, network) => assert Quiet(s, Step(s, e, limits));
  }

  lemma QuietStepKeepsHistory(s: System, s': System)
    requires HistoryValid(s) && Quiet(s, s')
    ensures HistoryValid(s')
  {
    forall id | id in s'.holder ensures HolderKnown(s', id) {
      assert HolderKnown(s, id);
    }
    forall k | k in s'.table.rows && s'.table.rows[k].status.Running? ensures RowHeld(s', k) {
      assert RowHeld(s, k);
    }
  }

  lemma ClaimKeepsHistory(s: System, e: Event, limits: Limits)
    requires TableValid(s.table) && HistoryValid(s) && Enabled(s, e) && e.TakeClaim?
    ensures HistoryValid(Step(s, e, limits))
  {
    var s' := Step(s, e, limits);
    forall id | id in s'.holder ensures HolderKnown(s', id) {
      assert id != s.table.rows[e.key].id ==> HolderKnown(s, id);
    }
    forall k | k in s'.table.rows && s'.table.rows[k].status.Running? ensures RowHeld(s', k) {
      if k != e.key {
        assert RowHeld(s, k) && HolderKnown(s, s.table.rows[k].id);
      }
    }
  }

  lemma StepKeepsHistory(s: System, e: Event, limits: Limits)
    requires TableValid(s.table) && HistoryValid(s) && Enabled(s, e)
    ensures HistoryValid(Step(s, e, limits))
  {
    if e.TakeClaim? {
      ClaimKeepsHistory(s, e, limits);
    } else {
      StepIsQuiet(s, e, limits);
      QuietStepKeepsHistory(s, Step(s, e, limits));
    }
  }

  /** No statement but an insertion puts a row into its first spell. */
  lemma SpellsShrink(s: System, s': System, limits: Limits)
    requires SpellsBounded(s, limits)
    requires s'.firstSpell <= s.firstSpell
    requires s.table.nextId <= s'.table.nextId
    requires forall k :: k in s'.table.rows && s'.table.rows[k].id in s'.firstSpell ==>
               k in s.table.rows && s'.table.rows[k] == s.table.rows[k]
    ensures SpellsBounded(s', limits)
  {
    forall network ensures |FirstSpellOn(s', network)| <= AtLeastZero(limits.maxQueued) {
      SubsetSize(FirstSpellOn(s', network), FirstSpellOn(s, network));
    }
    forall network, client ensures |FirstSpellOf(s', network, client)| <= AtLeastZero(limits.maxPerClient) {
      SubsetSize(FirstSpellOf(s', network, client), FirstSpellOf(s, network, client));
    }
  }

  ghost predicate Inserts(s: System, s': System, key: Key, row: Row) {
    && key !in s.table.rows && s'.table.rows == s.table.rows[key := row]
    && row.id == s.table.nextId && s'.firstSpell == s.firstSpell + {row.id}
    && (forall id :: id in s.firstSpell ==> id < s.table.nextId)
    && (forall k :: k in s.table.rows && s.table.rows[k].id in s.firstSpell ==> s.table.rows[k].status.Queued?)
    && (forall k :: k in s.table.rows ==> s.table.rows[k].id < s.table.nextId)
  }

  lemma InsertGrowsNetwork(s: System, s': System, key: Key, row: Row, network: string)
    requires Inserts(s, s', key, row)
    ensures |FirstSpellOn(s', network)| <= |FirstSpellOn(s, network)| + if network == key.network then 1 else 0
    ensures |FirstSpellOn(s, network)| <= |QueuedOn(s.table, network)|
  {
    SubsetSize(FirstSpellOn(s, network), QueuedOn(s.table, network));
    forall k | k in FirstSpellOn(s', network) ensures k in FirstSpellOn(s, network) || (k == key && network == key.network) {
    }
    if network == key.network {
      SubsetSize(FirstSpellOn(s', network), FirstSpellOn(s, network) + {key});
    } else {
      SubsetSize(FirstSpellOn(s', network), FirstSpellOn(s, network));
    }
  }

  lemma InsertGrowsClient(s: System, s': System, key: Key, row: Row, network: string, client: string)
    requires Inserts(s, s', key, row)
    ensures |FirstSpellOf(s', network, client)| <=
            |FirstSpellOf(s, network, client)| + if network == key.network && client == row.clientKey then 1 else 0
    ensures |FirstSpellOf(s, network, client)| <= |QueuedFor(s.table, network, client)|
  {
    SubsetSize(FirstSpellOf(s, network, client), QueuedFor(s.table, network, client));
    if network == key.network && client == row.clientKey {
      SubsetSize(FirstSpellOf(s', network, client), FirstSpellOf(s, network, client) + {key});
    } else {
      SubsetSize(FirstSpellOf(s', network, client), FirstSpellOf(s, network, client));
    }
  }

  lemma AcceptedInserts(s: System, e: Event, limits: Limits)
    requires TableValid(s.table) && SpellsBounded(s, limits) && e.EnqueueJob? && Enabled(s, e)
    requires Normalize(e.query) !in s.table.rows
    ensures var r := Enqueued(s.table, e.query, e.client, e.retry, e.now, limits.maxQueued, limits.maxPerClient).1;
            r.Accepted? ==>
              && Inserts(s, Step(s, e, limits), r.key, r.row)
              && r.row.status.Queued? && Step(s, e, limits).table.nextId == s.table.nextId + 1
              && |QueuedOn(s.table, r.key.network)| < limits.maxQueued
              && |QueuedFor(s.table, r.key.network, r.row.clientKey)| < limits.maxPerClient
  {
  }

  lemma InsertStaysBounded(s: System, s': System, key: Key, row: Row, limits: Limits)
    requires SpellsBounded(s, limits) && Inserts(s, s', key, row) && row.status.Queued? && s'.table.nextId == s.table.nextId + 1
    requires |QueuedOn(s.table, key.network)| < limits.maxQueued && |QueuedFor(s.table, key.network, row.clientKey)| < limits.maxPerClient
    ensures SpellsBounded(s', limits)
  {
    forall network ensures |FirstSpellOn(s', network)| <= AtLeastZero(limits.maxQueued) {
      InsertGrowsNetwork(s, s', key, row, network);
    }
    forall network, client ensures |FirstSpellOf(s', network, client)| <= AtLeastZero(limits.maxPerClient) {
      InsertGrowsClient(s, s', key, row, network, client);
    }
  }

  lemma InsertKeepsSpells(s: System, e: Event, limits: Limits)
    requires TableValid(s.table) && SpellsBounded(s, limits) && e.EnqueueJob? && Enabled(s, e)
    requires Normalize(e.query) !in s.table.rows
    ensures SpellsBounded(Step(s, e, limits), limits)
  {
    var s' := Step(s, e, limits);
    var (t, r) := Enqueued(s.table, e.query, e.client, e.retry, e.now, limits.maxQueued, limits.maxPerClient);
    if !r.Accepted? {
      SpellsShrink(s, s', limits);
    } else {
      AcceptedInserts(s, e, limits);
      InsertStaysBounded(s, s', r.key, r.row, limits);
    }
  }

  lemma StepKeepsSpells(s: System, e: Event, limits: Limits)
    requires TableValid(s.table) && SpellsBounded(s, limits) && Enabled(s, e)
    ensures SpellsBounded(Step(s, e, limits), limits)
  {
    if e.EnqueueJob? && Normalize(e.query) !in s.table.rows {
      InsertKeepsSpells(s, e, limits);
    } else {
      SpellsShrink(s, Step(s, e, limits), limits);
    }
  }

  /** Every state of every run keeps the row invariants, one running row per network, and the
      capacity bounds on rows in their first queued spell. */
  lemma {:induction false} RunKeepsInvariants(states: seq<System>, events: seq<Event>, limits: Limits, n: nat)
    requires IsRun(states, events, limits) && n < |states|
    requires states[0] == Initial()
    ensures Valid(states[n], limits)
  {
    if n == 0 {
      assert forall network :: FirstSpellOn(Initial(), network) == {};
      assert forall network, client :: FirstSpellOf(Initial(), network, client) == {};
    } else {
      RunKeepsInvariants(states, events, limits, n - 1);
      assert Follows(states, events, limits, n - 1);
      StepKeepsTable(states[n - 1], events[n - 1], limits);
      StepKeepsHistory(states[n - 1], events[n - 1], limits);
      StepKeepsSpells(states[n - 1], events[n - 1], limits);
    }
  }

  // ----- when a queue exceeds its capacity

  /** The queue of a network, or the share of one client in it. */
  datatype Pool = Pool(network: string, client: Option<string>)

  predicate InPool(pool: Pool, k: Key, row: Row) {
    k.network == pool.network && (pool.client.Some? ==> row.clientKey == pool.client.value)
  }

  function QueuedIn(t: Table, pool: Pool): set<Key> {
    set k | k in t.rows && InPool(pool, k, t.rows[k]) && t.rows[k].status.Queued?
  }

  lemma PoolsAreQueues(t: Table, network: string, client: string)
    ensures QueuedIn(t, Pool(network, None)) == QueuedOn(t, network)
    ensures QueuedIn(t, Pool(network, Some(client))) == QueuedFor(t, network, client)
  {
  }

  function Capacity(limits: Limits, pool: Pool): int {
    if pool.client.None? then limits.maxQueued else limits.maxPerClient
  }

  /** The event puts this row back into the queue: a finished row that is asked for again, a running one whose lease is
      recovered, a running one that is requeued. */
  predicate PutsBack(s: System, e: Event, k: Key)
    requires k in s.table.rows
  {
    var row := s.table.rows[k];
    match e
    case EnqueueJob(now, query, _, retry) => k == Normalize(query) && Refreshes(row, retry, now)
    case Recover(now, network) => Expired(k, row, network, now)
    case Write(_, claim, outcome) =>
      outcome.Requeue? && claim in s.claims && row.id == s.claims[claim].jobId && row.status.Running?
    case TakeClaim(_, _, _) => false
    case Prune(_, _) => false
  }

  predicate PutsBackInto(s: System, e: Event, pool: Pool, k: Key) {
    k in s.table.rows && InPool(pool, k, s.table.rows[k]) && PutsBack(s, e, k)
  }

  /** The event inserts this row, into a queue with room for it. */
  ghost predicate InsertsInto(s: System, e: Event, limits: Limits, pool: Pool, k: Key) {
    && e.EnqueueJob? && k == Normalize(e.query) && k !in s.table.rows && k.network == pool.network
    && (pool.client.Some? ==> pool.client.value == e.client)
    && |QueuedOn(s.table, k.network)| < limits.maxQueued && |QueuedFor(s.table, k.network, e.client)| < limits.maxPerClient
  }

  /** Who is queued after an event: whoever it puts back or inserts, and whoever was queued, apart from a claimed row. */
  ghost predicate QueuedNext(s: System, e: Event, limits: Limits, pool: Pool, k: Key) {
    (k in QueuedIn(s.table, pool) && !(e.TakeClaim? && e.key == k))
    || PutsBackInto(s, e, pool, k) || InsertsInto(s, e, limits, pool, k)
  }

  lemma QueuedAfterEnqueue(s: System, e: Event, limits: Limits, pool: Pool, k: Key)
    requires e.EnqueueJob? && Enabled(s, e)
    ensures k in QueuedIn(Step(s, e, limits).table, pool) <==> QueuedNext(s, e, limits, pool, k)
  {
  }

  lemma QueuedAfterWrite(s: System, e: Event, limits: Limits, pool: Pool, k: Key)
    requires (e.Write? || e.Recover?) && Enabled(s, e)
    ensures k in QueuedIn(Step(s, e, limits).table, pool) <==> QueuedNext(s, e, limits, pool, k)
  {
  }

  lemma QueuedAfter(s: System, e: Event, limits: Limits, pool: Pool, k: Key)
    requires Enabled(s, e)
    ensures k in QueuedIn(Step(s, e, limits).table, pool) <==> QueuedNext(s, e, limits, pool, k)
  {
    if e.EnqueueJob? {
      QueuedAfterEnqueue(s, e, limits, pool, k);
    } else if e.Write? || e.Recover? {
      QueuedAfterWrite(s, e, limits, pool, k);
    }
  }

  /** At most one row is put back at a time, and none that was queued. */
  lemma OnePutBack(s: System, e: Event, pool: Pool, j: Key, k: Key)
    requires TableValid(s.table) && Enabled(s, e) && PutsBackInto(s, e, pool, j) && PutsBackInto(s, e, pool, k)
    ensures j == k && k !in QueuedIn(s.table, pool)
  {
    assert !e.EnqueueJob? ==> RunsOn(s.table, j, pool.network) && RunsOn(s.table, k, pool.network);
  }

  /** The event overfills the pool: it is full, and a row of it is put back. */
  ghost predicate Overflows(s: System, e: Event, limits: Limits, pool: Pool) {
    |QueuedIn(s.table, pool)| == Capacity(limits, pool) && exists k :: PutsBackInto(s, e, pool, k)
  }

  lemma PutBackGrows(s: System, e: Event, limits: Limits, pool: Pool, k: Key)
    requires TableValid(s.table) && Enabled(s, e) && PutsBackInto(s, e, pool, k)
    ensures |QueuedIn(Step(s, e, limits).table, pool)| == |QueuedIn(s.table, pool)| + 1
  {
    var before, after := QueuedIn(s.table, pool), QueuedIn(Step(s, e, limits).table, pool);
    forall j ensures j in after <==> j in before || j == k {
      QueuedAfter(s, e, limits, pool, j);
      if PutsBackInto(s, e, pool, j) {
        OnePutBack(s, e, pool, j, k);
      }
    }
    OnePutBack(s, e, pool, k, k);
    assert after == before + {k};
  }

  lemma InsertionGrows(s: System, e: Event, limits: Limits, pool: Pool, k: Key)
    requires Enabled(s, e) && InsertsInto(s, e, limits, pool, k)
    ensures |QueuedIn(Step(s, e, limits).table, pool)| == |QueuedIn(s.table, pool)| + 1
  {
    var before, after := QueuedIn(s.table, pool), QueuedIn(Step(s, e, limits).table, pool);
    forall j ensures j in after <==> j in before || j == k {
      QueuedAfter(s, e, limits, pool, j);
    }
    assert after == before + {k};
  }

  /** From within its capacity a queue, or a client's share of it, leaves it if and only if it is full and an existing
      row is put back. */
  lemma CapacityExactly(s: System, e: Event, limits: Limits, pool: Pool)
    requires TableValid(s.table) && Enabled(s, e) && |QueuedIn(s.table, pool)| <= Capacity(limits, pool)
    ensures |QueuedIn(Step(s, e, limits).table, pool)| <= Capacity(limits, pool) <==> !Overflows(s, e, limits, pool)
  {
    if k :| PutsBackInto(s, e, pool, k) {
      PutBackGrows(s, e, limits, pool, k);
    } else if k :| InsertsInto(s, e, limits, pool, k) {
      RoomForInsertion(s, e, limits, pool, k);
      InsertionGrows(s, e, limits, pool, k);
    } else {
      var before, after := QueuedIn(s.table, pool), QueuedIn(Step(s, e, limits).table, pool);
      forall k | k in after ensures k in before {
        QueuedAfter(s, e, limits, pool, k);
      }
      SubsetSize(after, before);
    }
  }

  lemma RoomForInsertion(s: System, e: Event, limits: Limits, pool: Pool, k: Key)
    requires InsertsInto(s, e, limits, pool, k)
    ensures |QueuedIn(s.table, pool)| < Capacity(limits, pool)
  {
    PoolsAreQueues(s.table, pool.network, e.client);
  }

  /** A run that fills a queue of capacity 1 behind a running row. */
  lemma QueueFills(j: Key, k: Key, limits: Limits) returns (states: seq<System>, events: seq<Event>, s: System)
    requires j != k && j.network == k.network && Normalize(j) == j && Normalize(k) == k && limits == Limits(1, 1)
    ensures IsRun(states, events, limits) && states[0] == Initial() && s == states[|states| - 1]
    ensures s.table == Table(map[j := Row(0, "", Running, None, None, Some(1 + JOB_LEASE), 0, None),
                                 k := Row(1, "", Queued, None, None, None, 2, None)], 2)
    ensures s.clock == 2 && s.claims == map[0 := Claim(j, 0, 1, false)]
  {
    events := [EnqueueJob(0, j, "", false), TakeClaim(1, j, 0), EnqueueJob(2, k, "", false)];
    var first, second := Row(0, "", Queued, None, None, None, 0, None), Row(1, "", Queued, None, None, None, 2, None);
    var running := first.(status := Running, lease := Some(1 + JOB_LEASE));
    var s1 := System(Table(map[j := first], 1), 0, map[], map[], {0});
    var s2 := System(Table(map[j := running], 1), 1, map[0 := Claim(j, 0, 1, false)], map[0 := 0], {});
    s := s2.(table := Table(map[j := running, k := second], 2), clock := 2, firstSpell := {1});
    FirstInsertion(j, limits);
    OnlyRowIsClaimed(s1, 1, j, first, 0, limits);
    assert QueuedOn(s2.table, k.network) == {} && QueuedFor(s2.table, k.network, "") == {};
    assert Step(s2, events[2], limits).table.rows == s.table.rows;
    states := [Initial(), s1, s2, s];
    assert Follows(states, events, limits, 0) && Follows(states, events, limits, 1) && Follows(states, events, limits, 2);
  }

  /** From there all three ways of overfilling happen: the running row comes back by recovery, by requeueing, or by a
      retry after it failed. */
  lemma QueuesOverfill(j: Key, k: Key, limits: Limits) returns (states: seq<System>, events: seq<Event>, s: System, failed: System)
    requires j != k && j.network == k.network && Normalize(j) == j && Normalize(k) == k && limits == Limits(1, 1)
    ensures IsRun(states, events, limits) && states[0] == Initial() && s == states[|states| - 1]
    ensures |QueuedIn(s.table, Pool(j.network, None))| == 1 == |QueuedIn(s.table, Pool(j.network, Some("")))|
    ensures Exceeds(s, Recover(JOB_LEASE + 3, j.network), limits, j.network)
    ensures Exceeds(s, Write(3, 0, Requeue), limits, j.network)
    ensures Enabled(s, Write(3, 0, Fail(""))) && failed == Step(s, Write(3, 0, Fail("")), limits)
    ensures Exceeds(failed, EnqueueJob(4, j, "", true), limits, j.network)
  {
    states, events, s := QueueFills(j, k, limits);
    failed := Step(s, Write(3, 0, Fail("")), limits);
    OneQueued(s, j, k);
    BothQueued(s, Recover(JOB_LEASE + 3, j.network), limits, j, k);
    BothQueued(s, Write(3, 0, Requeue), limits, j, k);
    BothQueued(failed, EnqueueJob(4, j, "", true), limits, j, k);
  }

  /** Both the network and its nameless client have more queued rows than the capacity. */
  ghost predicate Exceeds(s: System, e: Event, limits: Limits, network: string) {
    Enabled(s, e)
    && |QueuedIn(Step(s, e, limits).table, Pool(network, None))| > limits.maxQueued
    && |QueuedIn(Step(s, e, limits).table, Pool(network, Some("")))| > limits.maxPerClient
  }

  lemma OneQueued(s: System, j: Key, k: Key)
    requires j != k && j.network == k.network && s.table.rows.Keys == {j, k} && !s.table.rows[j].status.Queued?
    requires s.table.rows[k].status.Queued? && s.table.rows[k].clientKey == ""
    ensures QueuedIn(s.table, Pool(j.network, None)) == {k} == QueuedIn(s.table, Pool(j.network, Some("")))
  {
  }

  lemma BothQueued(s: System, e: Event, limits: Limits, j: Key, k: Key)
    requires Enabled(s, e) && limits == Limits(1, 1) && j != k && j.network == k.network
    requires var rows := Step(s, e, limits).table.rows;
             j in rows && k in rows && rows[j].status.Queued? && rows[k].status.Queued? && rows[j].clientKey == rows[k].clientKey == ""
    ensures Exceeds(s, e, limits, j.network)
  {
    var t := Step(s, e, limits).table;
    SubsetSize({j, k}, QueuedIn(t, Pool(j.network, None)));
    SubsetSize({j, k}, QueuedIn(t, Pool(j.network, Some(""))));
  }

  // ----- leases instead of claim tokens

  ghost predicate Live(s: System, c: nat) {
    c in s.claims && !s.claims[c].written && s.clock <= Expires(s.claims[c])
  }

  /** Every claim that has not written and whose lease still runs holds its row. */
  ghost predicate LeasesHold(s: System, except: set<nat>) {
    forall c :: Live(s, c) && c !in except ==> Holds(s, c)
  }

  /** A worker's write reaches the database before its own lease expires. */
  predicate InTime(s: System, e: Event) {
    e.Write? && e.claim in s.claims ==> e.now <= Expires(s.claims[e.claim])
  }

  predicate ExpiredRecover(e: Event, c: Claim) {
    e.Recover? && e.network == c.key.network && e.now > Expires(c)
  }

  lemma HoldsClaimStep(s: System, e: Event, limits: Limits, c: nat)
    requires TableValid(s.table) && HistoryValid(s) && Enabled(s, e) && c in s.claims && e.TakeClaim?
    ensures Holds(Step(s, e, limits), c) <==> Holds(s, c)
  {
    var key := s.claims[c].key;
    assert Holds(s, c) ==> RunsOn(s.table, key, key.network);
  }

  /** The running row `k` is still there, unchanged, after a step that neither claims nor writes it. */
  predicate Keeps(s: System, s': System, k: Key) {
    k in s.table.rows && k in s'.table.rows && s'.table.rows[k] == s.table.rows[k]
  }

  lemma RunningRowStep(s: System, e: Event, limits: Limits, k: Key)
    requires TableValid(s.table) && Enabled(s, e) && !e.TakeClaim?
    requires k in s.table.rows && s.table.rows[k].status.Running?
    requires e.Write? ==> s.claims[e.claim].jobId != s.table.rows[k].id
    ensures Keeps(s, Step(s, e, limits), k) <==>
            !(e.Recover? && e.network == k.network && s.table.rows[k].lease.value < e.now)
  {
    match e
    case EnqueueJob(now, query, client, retry) =>
    case Recover(now, network) =>
    case Write(now, claim, outcome) =>
    case Prune(now, network) =>
  }

  /** One step by anyone but c: c goes on holding its row unless the step is a recovery after
      c's lease, and a row once lost is never held again. */
  lemma HoldsStep(s: System, e: Event, limits: Limits, c: nat)
    requires TableValid(s.table) && HistoryValid(s) && Enabled(s, e) && c in s.claims
    requires e.Write? ==> e.claim != c && Holds(s, e.claim)
    ensures Holds(Step(s, e, limits), c) <==> Holds(s, c) && !ExpiredRecover(e, s.claims[c])
  {
    if e.TakeClaim? {
      HoldsClaimStep(s, e, limits, c);
    } else {
      StepIsQuiet(s, e, limits);
      if Holds(s, c) {
        RunningRowStep(s, e, limits, s.claims[c].key);
      }
    }
  }

  lemma StepKeepsLeases(s: System, e: Event, limits: Limits, except: set<nat>)
    requires TableValid(s.table) && HistoryValid(s) && LeasesHold(s, except)
    requires Enabled(s, e) && InTime(s, e) && (e.Write? ==> e.claim !in except)
    ensures LeasesHold(Step(s, e, limits), except)
  {
    var s' := Step(s, e, limits);
    forall c | Live(s', c) && c !in except ensures Holds(s', c) {
      if c in s.claims {
        assert Live(s, c);
        assert e.Write? ==> Live(s, e.claim);
        HoldsStep(s, e, limits, c);
      }
    }
  }

  /** The write settles the row that claim c holds and nothing else. */
  ghost predicate LandsOnOwnRow(s: System, e: Event, limits: Limits)
    requires Enabled(s, e) && e.Write?
  {
    var key := s.claims[e.claim].key;
    && Holds(s, e.claim)
    && Step(s, e, limits).table.rows == s.table.rows[key := Settle(s.table.rows[key], e.outcome, e.now)]
  }

  lemma HolderLands(s: System, e: Event, limits: Limits)
    requires TableValid(s.table) && Enabled(s, e) && e.Write? && Holds(s, e.claim)
    ensures LandsOnOwnRow(s, e, limits)
  {
  }

  /** Mutual exclusion: while every write is in time, live claims hold their rows, no two live
      claims share a row or a network, and each write settles exactly the row of its own claim. */
  lemma {:induction false} LeaseExclusion(states: seq<System>, events: seq<Event>, limits: Limits, n: nat)
    requires IsRun(states, events, limits) && n < |states| && states[0] == Initial()
    requires forall i :: 0 <= i < n ==> InTime(states[i], events[i])
    ensures LeasesHold(states[n], {})
    ensures forall c, d :: Live(states[n], c) && Live(states[n], d) && c != d ==>
              states[n].claims[c].jobId != states[n].claims[d].jobId
              && states[n].claims[c].key.network != states[n].claims[d].key.network
    ensures n < |events| && events[n].Write? && InTime(states[n], events[n]) ==>
              Follows(states, events, limits, n) && LandsOnOwnRow(states[n], events[n], limits)
  {
    var s := states[n];
    if n > 0 {
      LeaseExclusion(states, events, limits, n - 1);
      RunKeepsInvariants(states, events, limits, n - 1);
      assert Follows(states, events, limits, n - 1);
      StepKeepsLeases(states[n - 1], events[n - 1], limits, {});
    }
    RunKeepsInvariants(states, events, limits, n);
    forall c, d | Live(s, c) && Live(s, d) && c != d
      ensures s.claims[c].jobId != s.claims[d].jobId && s.claims[c].key.network != s.claims[d].key.network
    {
      assert Holds(s, c) && Holds(s, d);
      assert RunsOn(s.table, s.claims[c].key, s.claims[c].key.network);
      assert RunsOn(s.table, s.claims[d].key, s.claims[d].key.network);
    }
    if n < |events| && events[n].Write? && InTime(s, events[n]) {
      assert Follows(states, events, limits, n);
      assert Live(s, events[n].claim);
      HolderLands(s, events[n], limits);
    }
  }

  ghost predicate NoneExpires(events: seq<Event>, c: Claim, m: nat, n: nat)
    requires m <= n <= |events|
  {
    forall i :: m <= i < n ==> !ExpiredRecover(events[i], c)
  }

  /** Exactly when a write that may be late still finds its own row: c took its claim before
      state m, everybody else writes in time, and c holds its row at n if and only if no
      recovery of its network ran after its lease had expired. */
  lemma {:induction false} LateWriteExactly(states: seq<System>, events: seq<Event>, limits: Limits, c: nat, m: nat, n: nat)
    requires IsRun(states, events, limits) && m <= n < |states| && states[0] == Initial()
    requires c in states[m].claims && Holds(states[m], c) && LeasesHold(states[m], {c})
    requires forall i :: m <= i < n ==> InTime(states[i], events[i]) && (events[i].Write? ==> events[i].claim != c)
    ensures c in states[n].claims && states[n].claims[c] == states[m].claims[c] && LeasesHold(states[n], {c})
    ensures Holds(states[n], c) <==> NoneExpires(events, states[m].claims[c], m, n)
  {
    if n > m {
      LateWriteExactly(states, events, limits, c, m, n - 1);
      RunKeepsInvariants(states, events, limits, n - 1);
      assert Follows(states, events, limits, n - 1);
      OthersStep(states[n - 1], events[n - 1], states[n], limits, c);
      assert NoneExpires(events, states[m].claims[c], m, n) <==>
             NoneExpires(events, states[m].claims[c], m, n - 1) && !ExpiredRecover(events[n - 1], states[m].claims[c]);
    }
  }

  lemma OthersStep(s: System, e: Event, s': System, limits: Limits, c: nat)
    requires TableValid(s.table) && HistoryValid(s) && c in s.claims && LeasesHold(s, {c})
    requires Enabled(s, e) && s' == Step(s, e, limits) && InTime(s, e) && (e.Write? ==> e.claim != c)
    ensures c in s'.claims && s'.claims[c] == s.claims[c] && LeasesHold(s', {c})
    ensures Holds(s', c) <==> Holds(s, c) && !ExpiredRecover(e, s.claims[c])
  {
    assert e.Write? ==> Live(s, e.claim);
    HoldsStep(s, e, limits, c);
    StepKeepsLeases(s, e, limits, {c});
  }

  /** A write by a claim that no longer holds its row either changes no row or settles the row
      of another claim that does hold it. */
  lemma LostWriteHitsAnother(s: System, e: Event, limits: Limits)
    requires TableValid(s.table) && HistoryValid(s) && Enabled(s, e) && e.Write? && !Holds(s, e.claim)
    requires Step(s, e, limits).table != s.table
    ensures exists d :: d in s.claims && d != e.claim && Holds(s, d) && !Holds(Step(s, e, limits), d)
  {
    var id := s.claims[e.claim].jobId;
    assert Step(s, e, limits).table.rows != s.table.rows;
    var k :| k in s.table.rows && s.table.rows[k].id == id && s.table.rows[k].status.Running?;
    assert RowHeld(s, k) && HolderKnown(s, id);
    var d := s.holder[id];
    assert Holds(s, d);
    assert !Holds(Step(s, e, limits), d);
  }

  /** Without the timing assumption the promise fails: after a recovery and a second claim, the
      first worker's late completion settles the second worker's row. */
  lemma LateWriteSettlesAnothersRow(key: Key, limits: Limits, result: string)
    returns (states: seq<System>, events: seq<Event>)
    requires Normalize(key) == key && limits.maxQueued >= 1 && limits.maxPerClient >= 1
    ensures IsRun(states, events, limits) && states[0] == Initial() && |events| == 5
    ensures events[4] == Write(JOB_LEASE + 3, 0, Complete(result))
    ensures 1 in states[4].claims && Live(states[4], 1) && Holds(states[4], 1)
    ensures key in states[5].table.rows && states[5].table.rows[key].result == Some(result)
  {
    events := [EnqueueJob(0, key, "", false), TakeClaim(1, key, 0), Recover(JOB_LEASE + 2, key.network),
               TakeClaim(JOB_LEASE + 2, key, 1), Write(JOB_LEASE + 3, 0, Complete(result))];
    var row := Row(0, "", Queued, None, None, None, 0, None);
    var s1 := System(Table(map[key := row], 1), 0, map[], map[], {0});
    var s2 := System(Table(map[key := row.(status := Running, lease := Some(1 + JOB_LEASE))], 1), 1,
                     map[0 := Claim(key, 0, 1, false)], map[0 := 0], {});
    var s3 := s2.(table := Table(map[key := row], 1), clock := JOB_LEASE + 2);
    var s4 := s3.(table := Table(map[key := row.(status := Running, lease := Some(2 * JOB_LEASE + 2))], 1),
                  claims := s3.claims[1 := Claim(key, 0, JOB_LEASE + 2, false)], holder := map[0 := 1]);
    var s5 := Step(s4, events[4], limits);
    FirstInsertion(key, limits);
    OnlyRowIsClaimed(s1, 1, key, row, 0, limits);
    assert Step(s2, events[2], limits).table.rows == s3.table.rows;
    OnlyRowIsClaimed(s3, JOB_LEASE + 2, key, row, 1, limits);
    states := [Initial(), s1, s2, s3, s4, s5];
    FiveFollow(states, events, limits);
  }

  lemma FiveFollow(states: seq<System>, events: seq<Event>, limits: Limits)
    requires |events| == 5 && |states| == 6
    requires Follows(states, events, limits, 0) && Follows(states, events, limits, 1) && Follows(states, events, limits, 2)
    requires Follows(states, events, limits, 3) && Follows(states, events, limits, 4)
    ensures IsRun(states, events, limits)
  {
  }

  lemma OnlyRowIsClaimed(s: System, now: int, key: Key, row: Row, claim: nat, limits: Limits)
    requires s.table == Table(map[key := row], 1) && row.status.Queued? && s.clock <= now && claim !in s.claims
    ensures Enabled(s, TakeClaim(now, key, claim))
    ensures Step(s, TakeClaim(now, key, claim), limits) ==
            System(Table(map[key := row.(status := Running, lease := Some(now + JOB_LEASE))], 1), now,
                   s.claims[claim := Claim(key, row.id, now, false)], s.holder[row.id := claim], s.firstSpell - {row.id})
  {
    assert QueuedOn(s.table, key.network) == {key};
  }

  lemma FirstInsertion(key: Key, limits: Limits)
    requires Normalize(key) == key && limits.maxQueued >= 1 && limits.maxPerClient >= 1
    ensures Step(Initial(), EnqueueJob(0, key, "", false), limits) ==
            System(Table(map[key := Row(0, "", Queued, None, None, None, 0, None)], 1), 0, map[], map[], {0})
  {
    var t := Initial().table;
    assert QueuedOn(t, key.network) == {} && QueuedFor(t, key.network, "") == {};
  }
}
