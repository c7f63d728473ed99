/** One pass of a trace worker: recover, claim, resolve with bounded retries, write the outcome. */
module TraceWorker {
  import opened Options
  import opened TraceJobs
  import TraceQueue

  datatype Failure = Provider(statusCode: nat, retryAfter: int, text: string) | Other(text: string)
  datatype Attempt = Ok(result: string) | Err(failure: Failure)
  datatype Resolution = Resolved(result: string) | Abandoned(failure: Failure) | ContextDone

  const MAX_DELAY: int := 10 * SECOND

  predicate Transient(f: Failure) {
    f.Provider? && (f.statusCode == 0 || f.statusCode == 408 || f.statusCode == 429 || f.statusCode >= 500)
  }

  function Min(a: int, b: int): int { if a < b then a else b }

  /** The delay before the next attempt: doubling from one second, at least what the provider
      asked for, never more than ten seconds. */
  function RetryDelay(f: Failure, attempt: nat): (delay: int)
    requires Transient(f)
    ensures SECOND <= delay <= MAX_DELAY
    ensures f.retryAfter <= MAX_DELAY ==> f.retryAfter <= delay
  {
    var backoff := if attempt <= 1 then SECOND else if attempt == 2 then 2 * SECOND else 4 * SECOND;
    Min(if f.retryAfter > backoff then f.retryAfter else backoff, MAX_DELAY)
  }

  /** What is worth another attempt: a provider that gave no status, timed out, throttled or failed on its own side. */
  lemma TransientExactly(f: Failure)
    ensures f.Other? ==> !Transient(f)
    ensures f.Provider? && (f.statusCode in {0, 408, 429} || 500 <= f.statusCode) ==> Transient(f)
    ensures f.Provider? && 1 <= f.statusCode < 500 && f.statusCode !in {408, 429} ==> !Transient(f)
  {
  }

  /** One second after the first attempt, two after the second, four from then on; more if the provider asks for it, and at
      most ten. */
  lemma RetryDelayExactly(f: Failure, attempt: nat)
    requires Transient(f)
    ensures f.retryAfter <= 1_000_000 && attempt <= 1 ==> RetryDelay(f, attempt) == 1_000_000
    ensures f.retryAfter <= 2_000_000 && attempt == 2 ==> RetryDelay(f, attempt) == 2_000_000
    ensures f.retryAfter <= 4_000_000 && attempt >= 3 ==> RetryDelay(f, attempt) == 4_000_000
    ensures 1_000_000 <= f.retryAfter <= 10_000_000 && (attempt > 1 ==> f.retryAfter >= 2_000_000) && (attempt > 2 ==> f.retryAfter >= 4_000_000) ==>
              RetryDelay(f, attempt) == f.retryAfter
    ensures f.retryAfter > 10_000_000 ==> RetryDelay(f, attempt) == 10_000_000
  {
  }

  /** The waits between the first n attempts, added up. */
  function Waits(outcome: nat -> Attempt, n: nat): int
    requires forall i :: 1 <= i < n ==> outcome(i).Err? && Transient(outcome(i).failure)
  {
    if n <= 1 then 0 else Waits(outcome, n - 1) + RetryDelay(outcome(n - 1).failure, n - 1)
  }

  lemma WaitsExactly(outcome: nat -> Attempt)
    requires outcome(1).Err? && Transient(outcome(1).failure) && outcome(2).Err? && Transient(outcome(2).failure)
    ensures Waits(outcome, 1) == 0 && Waits(outcome, 2) == RetryDelay(outcome(1).failure, 1)
    ensures Waits(outcome, 3) == RetryDelay(outcome(1).failure, 1) + RetryDelay(outcome(2).failure, 2)
  {
    assert Waits(outcome, 2) == Waits(outcome, 1) + RetryDelay(outcome(1).failure, 1);
  }

  /** `outcome(i)` is what attempt i returns, `done(i)` whether the job context ends in the wait after it: the first attempt
      that succeeds, cannot be retried, is the last or is not waited out decides. */
  function ResolutionFrom(outcome: nat -> Attempt, done: nat -> bool, attempt: nat): Resolution
    requires attempt <= TraceQueue.MAX_ATTEMPTS
    decreases TraceQueue.MAX_ATTEMPTS - attempt
  {
    match outcome(attempt)
    case Ok(result) => Resolved(result)
    case Err(failure) =>
      if !Transient(failure) || attempt == TraceQueue.MAX_ATTEMPTS then Abandoned(failure)
      else if done(attempt) then ContextDone
      else ResolutionFrom(outcome, done, attempt + 1)
  }

  function ResolutionOf(outcome: nat -> Attempt, done: nat -> bool): Resolution {
    ResolutionFrom(outcome, done, 1)
  }

  method ResolveWithRetry(outcome: nat -> Attempt, done: nat -> bool)
    returns (r: Resolution, attempts: nat, waited: int)
    ensures r == ResolutionOf(outcome, done)
    ensures 1 <= attempts <= TraceQueue.MAX_ATTEMPTS
    ensures forall i :: 1 <= i < attempts ==> outcome(i).Err? && Transient(outcome(i).failure) && !done(i)
    ensures outcome(attempts).Ok? <==> r.Resolved?
    ensures r.Resolved? ==> r.result == outcome(attempts).result
    ensures r.Abandoned? ==> outcome(attempts) == Err(r.failure)
                             && (attempts == TraceQueue.MAX_ATTEMPTS || !Transient(r.failure))
    ensures r.ContextDone? ==> done(attempts) && attempts < TraceQueue.MAX_ATTEMPTS && Transient(outcome(attempts).failure)
    ensures waited == Waits(outcome, attempts)
    ensures 0 <= waited <= (attempts - 1) * MAX_DELAY < TraceQueue.JOB_TIMEOUT
  {
    waited := 0;
    attempts := 1;
    while attempts <= TraceQueue.MAX_ATTEMPTS
      invariant 1 <= attempts <= TraceQueue.MAX_ATTEMPTS
      invariant ResolutionOf(outcome, done) == ResolutionFrom(outcome, done, attempts)
      invariant forall i :: 1 <= i < attempts ==> outcome(i).Err? && Transient(outcome(i).failure) && !done(i)
      invariant 0 <= waited <= (attempts - 1) * MAX_DELAY && waited == Waits(outcome, attempts)
      decreases TraceQueue.MAX_ATTEMPTS - attempts
    {
      match outcome(attempts) {
        case Ok(result) =>
          return Resolved(result), attempts, waited;
        case Err(failure) =>
          if !Transient(failure) || attempts == TraceQueue.MAX_ATTEMPTS {
            return Abandoned(failure), attempts, waited;
          }
          if done(attempts) {
            return ContextDone, attempts, waited;
          }
          waited := waited + RetryDelay(failure, attempts);
          attempts := attempts + 1;
      }
    }
  }

  /** A job is resolved if and only if some attempt succeeds after transient failures that were waited out. */
  lemma ResolvedExactly(outcome: nat -> Attempt, done: nat -> bool, result: string)
    ensures ResolutionOf(outcome, done) == Resolved(result) <==>
            exists n: nat :: 1 <= n <= 3 && outcome(n) == Ok(result) && AllWaitedOut(outcome, done, n)
  {
    assert ResolutionOf(outcome, done) == ResolutionFrom(outcome, done, 1);
    if ResolutionOf(outcome, done) == Resolved(result) {
      var n := if outcome(1).Ok? then 1 else if outcome(2).Ok? then 2 else 3;
      assert outcome(n) == Ok(result) && AllWaitedOut(outcome, done, n);
    }
  }

  predicate AllWaitedOut(outcome: nat -> Attempt, done: nat -> bool, n: nat) {
    forall i :: 1 <= i < n ==> outcome(i).Err? && Transient(outcome(i).failure) && !done(i)
  }

  const FAILURE_PREFIX: string := "Trace retrieval failed: "
  const ENCODE_FAILURE: string := "Trace retrieval did not complete. Search again to retry."

  function Truncate(message: string): string {
    if |message| > 500 then message[..500] else message
  }

  function Text(r: Resolution): string
    requires !r.Resolved?
  {
    if r.Abandoned? then r.failure.text else "context deadline exceeded"
  }

  /** What the worker writes for a resolution; `encoded` is the JSON of a result, if it has one. */
  function OutcomeOf(r: Resolution, interrupted: bool, encoded: Option<string>): Outcome {
    if !r.Resolved? then
      if interrupted then Requeue else Fail(Truncate(FAILURE_PREFIX + Text(r)))
    else if encoded.None? then Fail(ENCODE_FAILURE)
    else Complete(encoded.value)
  }

  /** What a worker writes, from the first attempt to the encoding of its result. */
  function PassOutcome(outcome: nat -> Attempt, done: nat -> bool, interrupted: bool, encode: string -> Option<string>): Outcome {
    var r := ResolutionOf(outcome, done);
    OutcomeOf(r, interrupted, if r.Resolved? then encode(r.result) else None)
  }

  /** How the outcome leaves the row. */
  lemma OutcomeExactly(row: Row, outcome: nat -> Attempt, done: nat -> bool, interrupted: bool, encode: string -> Option<string>, now: int)
    ensures var r, settled := ResolutionOf(outcome, done), Settle(row, PassOutcome(outcome, done, interrupted, encode), now);
            && (settled.status.Succeeded? <==> r.Resolved? && encode(r.result).Some?)
            && (settled.status.Succeeded? ==> settled.result == encode(r.result))
            && (settled.status.Queued? <==> !r.Resolved? && interrupted)
            && (settled.status.Failed? <==> if r.Resolved? then encode(r.result).None? else !interrupted)
            && (settled.status.Failed? ==> settled.error == Some(FailureText(r)))
            && settled.lease == None && settled.id == row.id && (!settled.status.Queued? ==> settled.completedAt == Some(now))
  {
  }

  /** What a failed job tells its callers: at most 500 characters. */
  function FailureText(r: Resolution): (text: string)
    ensures |text| <= 500
    ensures r.Resolved? ==> text == "Trace retrieval did not complete. Search again to retry."
    ensures r.Abandoned? ==> text <= "Trace retrieval failed: " + r.failure.text
    ensures r.Abandoned? ==> |text| == 500 || text == "Trace retrieval failed: " + r.failure.text
  {
    if r.Resolved? then ENCODE_FAILURE else Truncate(FAILURE_PREFIX + Text(r))
  }

  /** One worker pass with nobody else at the table in between. */
  method RunOnce(store: TraceJobStore, network: string, claimTime: int, writeTime: int,
                 outcome: nat -> Attempt, done: nat -> bool, interrupted: bool, encode: string -> Option<string>)
    returns (worked: bool, ghost key: Key)
    requires store.Valid()
    modifies store
    ensures store.Valid()
    ensures var recovered := Recovered(old(store.Contents()), network, claimTime);
            && (worked <==> QueuedOn(recovered, network) != {} && !HasRunning(recovered, network))
            && (!worked ==> store.Contents() == recovered)
            && (worked ==>
                  && Oldest(recovered, network, key)
                  && store.Contents().rows ==
                     recovered.rows[key := Settle(recovered.rows[key], PassOutcome(outcome, done, interrupted, encode), writeTime)])
    ensures worked ==> !HasRunning(store.Contents(), network)
    // the job succeeds with its result exactly if there is one and it can be encoded, goes back to the queue exactly if there
    // is none and the worker was interrupted, and fails otherwise
    ensures worked ==>
              var r, row := ResolutionOf(outcome, done), store.Contents().rows[key];
              && (row.status.Succeeded? <==> r.Resolved? && encode(r.result).Some?)
              && (row.status.Succeeded? ==> row.result == encode(r.result))
              && (row.status.Queued? <==> !r.Resolved? && interrupted)
              && (row.status.Failed? <==> if r.Resolved? then encode(r.result).None? else !interrupted)
              && (row.status.Failed? ==> row.error == Some(FailureText(r)))
              && row.lease == None && (!row.status.Queued? ==> row.completedAt == Some(writeTime))
  {
    key := Key("", "", "", "", 0, 0, "", 0);
    store.RecoverExpiredTraceJobs(network, claimTime);
    ghost var recovered := store.Contents();
    var job := store.ClaimTraceJob(network, TraceQueue.JOB_LEASE, claimTime);
    if job.None? {
      return false, key;
    }
    ghost var claimed := store.Contents();
    var id := store.rows[job.value].id;
    var r, attempts, _ := ResolveWithRetry(outcome, done);
    var encoded := if r.Resolved? then encode(r.result) else None;
    if !r.Resolved? {
      if interrupted {
        store.RequeueTraceJob(id, writeTime);
      } else {
        store.FailTraceJob(id, Truncate(FAILURE_PREFIX + Text(r)), writeTime);
      }
    } else if encoded.None? {
      store.FailTraceJob(id, ENCODE_FAILURE, writeTime);
    } else {
      store.CompleteTraceJob(id, encoded.value, writeTime);
    }
    key := job.value;
    OutcomeExactly(recovered.rows[key], outcome, done, interrupted, encode, writeTime);
    SettledAfterClaim(recovered, key, id, PassOutcome(outcome, done, interrupted, encode), claimTime, writeTime);
    return true, key;
  }

  lemma SettledAfterClaim(t: Table, key: Key, id: nat, outcome: Outcome, claimTime: int, writeTime: int)
    requires TableValid(t) && Oldest(t, key.network, key) && !HasRunning(t, key.network) && id == t.rows[key].id
    ensures var w := Written(Claimed(t, key, TraceQueue.JOB_LEASE, claimTime), id, outcome, writeTime);
            w.rows == t.rows[key := Settle(t.rows[key], outcome, writeTime)] && !HasRunning(w, key.network)
  {
    var settled := t.rows[key := Settle(t.rows[key], outcome, writeTime)];
    var w := Written(Claimed(t, key, TraceQueue.JOB_LEASE, claimTime), id, outcome, writeTime);
    forall k | k in t.rows ensures w.rows[k] == settled[k] {
      SettledRow(t, key, id, outcome, claimTime, writeTime, k);
    }
    assert w.rows == settled;
    assert forall k :: RunsOn(w, k, key.network) ==> k != key && RunsOn(t, k, key.network);
  }

  lemma SettledRow(t: Table, key: Key, id: nat, outcome: Outcome, claimTime: int, writeTime: int, k: Key)
    requires TableValid(t) && Oldest(t, key.network, key) && !HasRunning(t, key.network) && id == t.rows[key].id && k in t.rows
    ensures Written(Claimed(t, key, TraceQueue.JOB_LEASE, claimTime), id, outcome, writeTime).rows[k]
            == if k == key then Settle(t.rows[key], outcome, writeTime) else t.rows[k]
  {
  }
}
