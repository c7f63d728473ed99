# OpenChain, verified in Dafny

OpenChain is a blockchain tracing workspace: a Go backend that reads chains, keeps what it saw as evidence and
evaluates rules over it, and a web client that draws the result. Its correctness rests on a few deterministic
algorithms. This project models them and proves what they are for. `dafny verify dfyconfig.toml` checks everything.

| modules | what they model |
|---|---|
| `TraceJobs`, `TraceQueue`, `TraceHistory`, `TraceWorker` | the durable queue of trace jobs: SQL statements as atomic steps on a table, runs of many workers over it, what such runs say of every row, and one worker's retry loop |
| `BridgeCodec`, `BridgeEvents`, `BridgeEncoding`, `Bridge`, `BridgeSoundness`, `BridgeLifecycle`, `BridgeCrossing`, `BridgeLaws` | OP Stack bridge evidence: the ABI pre-image of a message, decoding and matching receipt logs, what stands behind a transition, transitions over growing chains with failing nodes, whole crossings from log to report, and the report in plain terms |
| `Transfers`, `Selection`, `Balls`, `Traversal`, `TraversalOrder`, `GraphAccounting` | the graph engine: choosing counterparties, the bounded search over stored transfers and its order, and node totals |
| `GraphScope`, `FlowLayout`, `LeafClustering`, `ClusterLaws` | the web client's depths, layout and leaf clusters |
| `RuleWindows`, `Rules`, `Evaluation`, `RuleLaws` | the detection rules, and what they report in terms of the transfers' fields |
| `Bytes`, `Base58`, `Tron`, `TonChecksum`, `TonAddress`, `AddressDetection` | address codecs of both sides |
| `RateLimit` | the fixed-window limiter |
| `EventIds`, `EventLaws` | event IDs of the token transfers on a provider page |
| `Options`, `Ordering`, `Sums`, `Text` | what the others share |

How the model reads the program:

* An operation that changes state is a method on a class or a loop over local maps; its contract names a function of
  the old state, and the lemmas are about that function. Concurrency is a run of atomic steps in any interleaving.
* The function a contract names is then pinned by lemmas that do not name it: what it means is said of the fields, the
  counts and the times of its input, or of the events of a run.
* A Go map is walked by `Ordering.InAnyOrder`, which promises no order. `sort.Slice` is `Ordering.Sort`; where the
  comparison does not tell two elements apart, the source leaves their order open and the model fixes one.
* Hash functions are parameters. Where a property needs that digests do not collide, the lemma says so of the values at
  hand: the digests are short, and no hash tells all inputs apart.
* Network, clock and other services are parameters: receipts, log queries and heads of a node, provider outcomes, the
  labels of the registry, the rows a neighbour query returns (at most fifty incident ones, under unique keys).
* Times are integers. Amounts are unbounded, as in the source.

Where the program falls short of what it promises, the model follows the program and says exactly when:

* The queue of a network, and the share of a client in it, can exceed its capacity: exactly when it is full and a
  statement puts an existing row back, be it a finished one that is asked for again, a running one whose lease expired,
  or a running one that is requeued (`TraceQueue.CapacityExactly`; `QueuesOverfill` shows all three). What never exceeds
  it are rows in their first queued spell (`RunKeepsInvariants`).
* A write names a job, not a claim. A late one can therefore settle somebody else's row
  (`LateWriteSettlesAnothersRow`); `LateWriteExactly` says when it does not.
* A client can get one less than twice its limit within a minute (`BoundIsAttained`), and never more.
* The registered Ethereum WETH address has 39 hexadecimal digits, so the two WETH routes that the bridge declares are
  never taken (`RouteExactly`).
* A failed call can take a bridge message back to an earlier stage or out of the report: exactly when the source receipt
  fails, or a log query for the message, or the receipt of its first relay, or it was finalized and a head is missing
  (`KeepsPaceExactly`; `OutagesStepBack` and `SourceReceiptHides` show each). Without a failure it never goes back
  (`NeverBackwards`, `RunAdvances`), and even with one the store keeps one row per resolved stage (`OneRowPerStage`).
* Of several transfers in one transaction, each is matched with the first message that fits and the first value the bridge
  logs. A transfer goes by its own message ID exactly when those are its own (`CrossingNamedExactly`), so of two with
  different values one does not (`OneOfTwoIsRead`, `SecondTransferMisses`), and two that log the same facts share a
  transition ID and with it one row of the store (`AlikeShareId`).
* Malformed addresses share the zero word in a message pre-image: pre-images tell two senders apart exactly when they
  stand for different bytes (`SendersCollideExactly`, `MalformedSendersCollide`).
* A raw `0:` TON address that the backend accepts is detected as no network by the web client (`TonIsDetectedExactly`,
  `RawIsUndetected`, `RawZeroIsAccepted`).
* Clustering collapses both ends of an edge exactly when the minimum is below two members and both ends are unexpanded
  leaves (`EdgeCollapsesExactly`, `LoneEdgeCollapses`); from two on it never does (`NoEdgeWithin`).

## Model

| member | source | states |
|---|---|---|
| `TraceJobs.TraceJobStore.EnqueueTraceJob` | apps/backend/internal/db/jobs.go:38-99 | the upsert as one atomic step: table and answer are those of `Enqueued`, including the full-queue errors; no succeeded row older than five minutes is returned, and no failed one to a caller who retries |
| `TraceJobs.TraceJobStore.RecoverExpiredTraceJobs` | apps/backend/internal/db/jobs.go:126-129 | exactly the network's running rows with an expired lease go back to the queue |
| `TraceJobs.TraceJobStore.ClaimTraceJob` | apps/backend/internal/db/jobs.go:131-149 | nothing is claimed exactly when the network has no queued row or already runs one; otherwise an oldest queued row runs under a fresh lease |
| `TraceJobs.TraceJobStore.CompleteTraceJob` | apps/backend/internal/db/jobs.go:151-154 | a running row with the ID succeeds; without one nothing changes |
| `TraceJobs.TraceJobStore.FailTraceJob` | apps/backend/internal/db/jobs.go:156-159 | a running row with the ID fails; without one nothing changes |
| `TraceJobs.TraceJobStore.RequeueTraceJob` | apps/backend/internal/db/jobs.go:166-169 | a running row with the ID goes back to the queue; without one nothing changes |
| `TraceJobs.TraceJobStore.PruneFinishedTraceJobs` | apps/backend/internal/db/jobs.go:161-164 | exactly the finished rows past retention disappear |
| `TraceJobs.EnqueueKeepsTable` | apps/backend/internal/db/jobs.go:38-99 | in every row: lease iff running, result iff succeeded, error iff failed, completion time iff finished; unique IDs; one running row a network |
| `TraceJobs.ClaimKeepsTable` | apps/backend/internal/db/jobs.go:131-149 | the same invariant over a claim |
| `TraceJobs.WriteKeepsTable` | apps/backend/internal/db/jobs.go:151-169 | the same invariant over completing, failing and requeueing |
| `TraceJobs.RecoverKeepsTable` | apps/backend/internal/db/jobs.go:126-129 | the same invariant over recovery |
| `TraceJobs.PruneKeepsTable` | apps/backend/internal/db/jobs.go:161-164 | the same invariant over pruning |
| `TraceJobs.EnqueueCapacityExactly` | apps/backend/internal/db/jobs.go:54-99 | enqueueing alone leaves the network within its capacity if and only if it does not put an existing finished row back into a full queue |
| `TraceQueue.CapacityExactly` | apps/backend/internal/db/jobs.go:38-169 | every statement leaves a network, and every client, within its capacity if and only if the queue is not full or no existing row is put back: by asking again for a finished one, recovering an expired one or requeueing a running one |
| `TraceQueue.QueuesOverfill` | apps/backend/internal/db/jobs.go:54-76 | a run from the empty table after which each of the three overfills a queue of capacity 1, for the network and for the client |
| `TraceQueue.RunKeepsInvariants` | apps/backend/internal/db/jobs.go:38-169 | over every run of every worker: the table invariant, and rows in their first queued spell within both capacities |
| `TraceQueue.LeaseExclusion` | apps/backend/internal/tracing/queue.go:157-206 | while writes are in time, over every interleaving: live claims hold their rows, no two hold one row, and each write settles the row of its own claim and nothing else |
| `TraceQueue.LateWriteExactly` | apps/backend/internal/tracing/queue.go:157-206 | a late write still finds its own row if and only if no recovery ran after its lease expired |
| `TraceQueue.LostWriteHitsAnother` | apps/backend/internal/db/jobs.go:151-169 | a write that changes a row its claim no longer holds settles the row of another claim |
| `TraceQueue.LateWriteSettlesAnothersRow` | apps/backend/internal/db/jobs.go:126-154 | a concrete five-step run in which a late completion settles a row that another live claim holds |
| `TraceHistory.DefaultsExactly` | apps/backend/internal/db/jobs.go:183-194 | a query that leaves ten counterparties, `most_recent` or one hop open asks for the same job as one that names them |
| `TraceHistory.RefusedExactly` | apps/backend/internal/db/jobs.go:48-76 | a query is refused if and only if it has no row and its network's waiting rows, or else its client's among them, have reached the limit |
| `TraceHistory.AcceptedExactly` | apps/backend/internal/db/jobs.go:77-99 | an accepted query finds its row: a new one waits under the caller's name, an unfinished one is unchanged, and no other row is touched |
| `TraceHistory.FinishedIsWritten` | apps/backend/internal/db/jobs.go:151-159 | over all runs, every result and every failure was written, at the time the row names, while the row ran |
| `TraceHistory.ReturnedIsFresh` | apps/backend/internal/db/jobs.go:62-83 | over all runs, a result that a query gets was written for this very job within the last five minutes |
| `TraceHistory.ResultIsReturned` | apps/backend/internal/db/jobs.go:62-99 | and whatever else happens, whoever asks for a job within five minutes of its result gets that result |
| `TraceHistory.FinishedStaysExactly` | apps/backend/internal/db/jobs.go:62-83 | a finished row goes only by pruning after a day, by a query for a result older than five minutes, or by a retry of a failure |
| `TraceHistory.PrunedExactly` | apps/backend/internal/db/jobs.go:161-164 | over all runs, pruning removes a finished row if and only if it was finished on the network more than a day ago |
| `TraceHistory.UnfinishedIsKept` | apps/backend/internal/db/jobs.go:161-164 | and it keeps every unfinished one |
| `TraceHistory.WrittenExactly` | apps/backend/internal/db/jobs.go:151-169 | a write changes the running row of its job and no other, field by field |
| `TraceHistory.RowIsInserted` | apps/backend/internal/db/jobs.go:38-99 | over all runs, every row came in with a query for it, of the client and at the time that it names |
| `TraceHistory.ClaimsInOrder` | apps/backend/internal/db/jobs.go:131-149 | first come, first served: no waiting row of the network was asked for before the one that is claimed |
| `TraceHistory.RunningIsClaimed` | apps/backend/internal/db/jobs.go:131-149 | over all runs, a running row was claimed when it waited and nothing else ran on its network, and its lease ends two minutes later |
| `TraceHistory.RecoveredExactly` | apps/backend/internal/db/jobs.go:126-129 | over all runs, recovery puts a running row back if and only if it runs on the network and was claimed more than two minutes ago |
| `TraceHistory.RecoveryKeepsOthers` | apps/backend/internal/db/jobs.go:126-129 | and it changes no row that does not run |
| `TraceWorker.RetryDelay` | apps/backend/internal/adapter/provider.go:54-70 | between one and ten seconds, and at least what the provider asks for up to that |
| `TraceWorker.TransientExactly` | apps/backend/internal/adapter/provider.go:56-60 | worth another attempt are no status, 408, 429 and 500 upwards, and nothing else |
| `TraceWorker.RetryDelayExactly` | apps/backend/internal/adapter/provider.go:61-69 | one, two, then four seconds, or what the provider asks for if that is longer, and never more than ten |
| `TraceWorker.ResolveWithRetry` | apps/backend/internal/tracing/queue.go:208-228 | the resolution of `ResolutionOf`: at most three attempts, which attempt decides, and a total wait of the delays between them, below the job timeout |
| `TraceWorker.ResolvedExactly` | apps/backend/internal/tracing/queue.go:208-228 | a job is resolved if and only if one of three attempts succeeds after transient failures that were waited out |
| `TraceWorker.WaitsExactly` | apps/backend/internal/tracing/queue.go:208-228 | before the second and third attempt a worker has waited the delays after the failures so far, and before the first not at all |
| `TraceWorker.RunOnce` | apps/backend/internal/tracing/queue.go:157-206 | one pass: recover, claim, and exactly one write to the claimed row: its result if and only if an attempt gave one that can be encoded, back to the queue if and only if none did and the worker was interrupted, else failed |
| `TraceWorker.SettledAfterClaim` | apps/backend/internal/tracing/queue.go:157-206 | the claimed row is settled as the outcome says, its lease gone, and all other rows are as before |
| `Base58.DecodeBase58` | apps/backend/internal/adapter/base58.go:11-33 | decoding with leading ones as zero bytes; none for the empty text or a foreign character |
| `Base58.EncodeBase58` | apps/backend/internal/adapter/base58.go:35-55 | encoding by repeated division and reversal in place |
| `Base58.ReverseInPlace` | apps/backend/internal/adapter/base58.go:51-53 | the array is reversed |
| `Base58.DecodeEncode` | apps/backend/internal/adapter/base58.go:11-55 | every non-empty byte string survives encoding and decoding |
| `Base58.EncodeDecode` | apps/backend/internal/adapter/base58.go:11-55 | every text over the alphabet is the encoding of what it decodes to |
| `Base58.DecodedExactly` | apps/backend/internal/adapter/base58.go:9-33 | a text decodes to bytes if and only if, by positions in the alphabet, it is the same number and has as many leading ones as they have leading zeros |
| `Base58.RebaseRoundTrip` | apps/backend/internal/adapter/base58.go:11-55 | changing the base there and back is the identity on digit strings, leading zeros included |
| `Base58.DecodedBase58Length` | apps/web/src/services/api.ts:239-246 | the web count of bytes is the length of the backend's decoding up to 64 characters, and 0 beyond or without one |
| `Tron.NormalizeExactly` | apps/backend/internal/adapter/tron.go:53-64 | accepted are exactly the texts that, trimmed, encode 0x41, twenty bytes and their checksum |
| `Tron.TwentyFiveBytes` | apps/backend/internal/adapter/tron.go:53-64 | 25 bytes that start with 0x41 always encode to 34 characters starting with T |
| `Tron.HexAddressIsCanonical` | apps/backend/internal/adapter/tron.go:337-342 | an address built from hexadecimal is normalized and a fixed point of canonicalization |
| `Tron.AddressIsInjective` | apps/backend/internal/adapter/tron.go:475-483 | different payloads have different addresses |
| `Tron.FromHexExactly` | apps/backend/internal/adapter/tron.go:475-483 | built from hexadecimal are exactly the payloads |
| `Tron.FormsAgree` | apps/backend/internal/adapter/tron.go:337-342 | the hexadecimal forms of a payload and its Base58 form are one canonical address |
| `AddressDetection.TronIsDetected` | apps/web/src/services/api.ts:248-261 | every TRON address the backend accepts is detected as TRON |
| `AddressDetection.HexTronIsDetected` | apps/web/src/services/api.ts:253-254 | so is every TRON address the backend builds |
| `AddressDetection.TonIsDetectedExactly` | apps/web/src/services/api.ts:255-256 | of the accepted TON addresses exactly the 48-character ones are detected as TON |
| `AddressDetection.RawIsUndetected` | apps/web/src/services/api.ts:248-261 | every raw one is accepted by the backend and detected as no network at all |
| `AddressDetection.RawZeroIsAccepted` | apps/web/src/services/api.ts:255-256 | and there is one: `0:` and 64 zeros |
| `AddressDetection.DetectedExactly` | apps/web/src/services/api.ts:248-254 | Ethereum is `0x` and forty hexadecimal digits, TRON is 34 characters from T that decode to 25 bytes |
| `TonChecksum.TonAddressChecksum` | apps/backend/internal/adapter/ton_cardano.go:430-443 | the register loop computes the bitwise CRC, high byte first |
| `TonChecksum.CrcLinear` | apps/backend/internal/adapter/ton_cardano.go:430-443 | the checksum of a difference is the difference of the checksums |
| `TonChecksum.CrcIsRemainder` | apps/backend/internal/adapter/ton_cardano.go:430-443 | the checksum is the one remainder of message times x^16 by x^16+x^12+x^5+1 |
| `TonChecksum.AppendedExactly` | apps/backend/internal/adapter/ton_cardano.go:51 | message and sixteen more bits have checksum zero if and only if those bits are the message's checksum |
| `TonChecksum.BurstDetected` | apps/backend/internal/adapter/ton_cardano.go:430-443 | two messages of equal checksum that differ only within sixteen bits are equal |
| `TonAddress.PassesExactly` | apps/backend/internal/adapter/ton_cardano.go:50-53 | an address passes if and only if the checksum of all its octets is zero |
| `TonAddress.PassingBurst` | apps/backend/internal/adapter/ton_cardano.go:50-53 | no two passing addresses differ only inside a span of sixteen bits |
| `TonAddress.NeighboursDetected` | apps/backend/internal/adapter/ton_cardano.go:50-53 | no two accepted 48-character addresses differ only in two neighbouring characters |
| `TonAddress.NormalizeIsStable` | apps/backend/internal/adapter/ton_cardano.go:43-56 | normalizing twice changes nothing |
| `TonAddress.AcceptedExactly` | apps/backend/internal/adapter/ton_cardano.go:43-57 | accepted are `0:` and 64 hexadecimal digits, and 48 characters from EQ or UQ of checksum zero |
| `TonAddress.IndexExactly` | apps/backend/internal/adapter/ton_cardano.go:50 | a character stands for its position in the URL-safe Base64 alphabet |
| `TonAddress.InAlphabetExactly` | apps/backend/internal/adapter/ton_cardano.go:50 | a text decodes when each character is one of the 64 |
| `TonAddress.BitsOfText` | apps/backend/internal/adapter/ton_cardano.go:50 | and gives its six bits, most significant first, at its place |
| `RateLimit.RequestLimiter.Allow` | apps/backend/internal/api/rate_limit.go:33-59 | the table and the answer are those of `Allowed` |
| `RateLimit.RefusedExactly` | apps/backend/internal/api/rate_limit.go:33-59 | refused if and only if the window is less than a minute old and used up, or an untracked client meets 10,000 such young windows |
| `RateLimit.TableExactly` | apps/backend/internal/api/rate_limit.go:38-47 | a call changes its client's window alone; others go only when an untracked client meets a full table, and then exactly those a minute old |
| `RateLimit.RunKeepsTable` | apps/backend/internal/api/rate_limit.go:33-59 | over every call sequence the table is the one its calls leave |
| `RateLimit.RefusedOverRuns` | apps/backend/internal/api/rate_limit.go:33-59 | over every call sequence: refused if and only if the client was admitted its limit since its window opened less than a minute ago, or it is untracked and the table is full |
| `RateLimit.WindowOpensExactly` | apps/backend/internal/api/rate_limit.go:48-58 | a window opens with the admitted request that finds none less than a minute old |
| `RateLimit.LiveWindowsSurvive` | apps/backend/internal/api/rate_limit.go:33-59 | no live window is evicted or changed by another client's call |
| `RateLimit.BelowTwiceTheLimit` | apps/backend/internal/api/rate_limit.go:33-59 | over every call sequence a client is admitted fewer than twice its limit in any half-open minute |
| `RateLimit.BoundIsAttained` | apps/backend/internal/api/rate_limit.go:33-59 | and that bound is attained for every limit |
| `RateLimit.TableBounded` | apps/backend/internal/api/rate_limit.go:12 | the table never tracks more than 10,000 clients |
| `GraphScope.NodeDepths` | apps/web/src/services/graph-scope.ts:3-20 | exactly the nodes reachable over edges in either direction, each with its distance |
| `GraphScope.DistancesUnique` | apps/web/src/services/graph-scope.ts:3-20 | those two facts determine the labelling |
| `GraphScope.RelaxedBoundsWalks` | apps/web/src/services/graph-scope.ts:3-20 | labels that grow by at most one along edges bound every walk |
| `FlowLayout.FlowNodePositions` | apps/web/src/components/GraphCanvas.tsx:208-266 | different nodes at different points; the column is the directed distance, left for sources and right for destinations, the shorter of both; the rows of a column in dictionary order, 110 apart and centred |
| `FlowLayout.Spread` | apps/web/src/components/GraphCanvas.tsx:242-265 | every node placed in its column, rows 110 apart and centred |
| `Selection.SelectCounterpartyTransfers` | apps/backend/internal/tracing/graph.go:251-363 | the result is the order-free `Selected`, whatever order the maps are walked in |
| `Selection.KeepsExactly` | apps/backend/internal/tracing/graph.go:310-320 | all transfers of the chosen counterparties and no others |
| `Selection.StatsExactly` | apps/backend/internal/tracing/graph.go:253-284 | the statistics cover exactly the counterparties of the transfers, with the number, the latest time and the sum per asset of each one's own |
| `Selection.LimitExactly` | apps/backend/internal/tracing/graph.go:214-220 | ten counterparties unless the caller asks for up to 25 |
| `Selection.SelectedExactly` | apps/backend/internal/tracing/graph.go:310-320 | a transfer is kept if and only if it is with a chosen counterparty |
| `Transfers.AmountExactly` | apps/backend/internal/tracing/graph.go:274 | an amount is an optional sign and decimal digits, and is that number |
| `Transfers.DecimalExactly` | apps/backend/internal/tracing/graph.go:274 | the text of a number is the one without leading zeros that is read back as it |
| `Transfers.AssetKeyExactly` | apps/backend/internal/tracing/graph.go:601-603 | assets without colons have the same key if and only if all their fields agree |
| `Selection.KeepsInOrder` | apps/backend/internal/tracing/graph.go:310-320 | a subsequence of the input: the transfers at the positions that qualify, each as often as it came |
| `Selection.PrefixIsTop` | apps/backend/internal/tracing/graph.go:289-309 | sorting and cutting gives those whom fewer than k others outrank, for every input order |
| `Selection.ChosenAreTop` | apps/backend/internal/tracing/graph.go:289-309 | the chosen are min(k, n), and each comes before everybody left out: by transfers or by being known, then by the latest transfer, then by address |
| `Selection.ChosenAreTopByAsset` | apps/backend/internal/tracing/graph.go:323-351 | for total amounts: the union over the assets of the first min(k, n) holders of each, by total, latest transfer and address |
| `Selection.SelectionIsStable` | apps/backend/internal/tracing/graph.go:251-363 | selecting again changes nothing |
| `Traversal.TraverseStoredGraph` | apps/backend/internal/tracing/graph.go:390-441 | one hop unless two or three are asked for, three beyond; ascending distinct keys, at most 249+50 rows, each on a walk of at most that many stored transfers in the asked direction; with the caps out of reach exactly the rows selected closer than the depth; at most 100 addresses visited, also when a query fails: the seed and ends of rows within the depth, one of them the source of each row |
| `TraversalOrder.TraversalInOrder` | apps/backend/internal/tracing/graph.go:394-435 | capped or not: each hop expands, in dictionary order, what the hop before leads to and nobody visited; its rows are exactly those of the addresses it expanded; it stops short only at a cap or a failed query |
| `TraversalOrder.SelectedAtExactly` | apps/backend/internal/tracing/graph.go:407-422 | an address contributes the rows of the store's answer that run in the asked direction and are with a counterparty chosen among all that do |
| `TraversalOrder.TransferIdExactly` | apps/backend/internal/tracing/graph.go:711-713 | two transfers of a network, their hashes without colons, have one key if and only if they are the same event of the same transaction |
| `Traversal.ExpandVisits` | apps/backend/internal/tracing/graph.go:423-432 | expanding a visited address keeps every row sourced at a visited address and, below the cap, both its ends visited |
| `Traversal.Hop` | apps/backend/internal/tracing/graph.go:403-434 | one level: what it stores lies on walks one step longer, and with room for the whole frontier nothing is missed |
| `Traversal.Expand` | apps/backend/internal/tracing/graph.go:404-433 | one address: its selected rows are stored, and as many of their other ends are queued as the node cap allows |
| `Traversal.SelectedAtLinks` | apps/backend/internal/tracing/graph.go:411-429 | a selected row leads to a different, normalized address in the asked direction |
| `Traversal.WalkFollows` | apps/backend/internal/tracing/graph.go:605-618 | a walk goes against the transfers for inbound, along them for outbound, either way for both |
| `Traversal.ExtendWalk` | apps/backend/internal/tracing/graph.go:403-434 | a row selected at the end of a walk extends it |
| `Traversal.SearchEnds` | apps/backend/internal/tracing/graph.go:402-435 | when depth, queue or edge cap ends the search, the rows within the depth have been found |
| `Balls.LevelsDone` | apps/backend/internal/tracing/graph.go:402-435 | when the queue or the depth runs out, the rows within the depth are found |
| `Balls.BallIsPaths` | apps/backend/internal/tracing/graph.go:402-435 | being within d steps is having a path of at most d steps |
| `GraphAccounting.GraphFromEdges` | apps/backend/internal/tracing/graph.go:515-552 | seed first, then exactly the other ends by address, each with its counts and its volume per asset; the same edges by ascending ID |
| `GraphAccounting.SortedAssetVolumes` | apps/backend/internal/tracing/graph.go:588-599 | one volume per asset key, ascending |
| `GraphAccounting.TallyCounts` | apps/backend/internal/tracing/graph.go:521-531 | the running counters of a node are its edges in and out |
| `GraphAccounting.TallyVolumes` | apps/backend/internal/tracing/graph.go:532-537 | the running volumes of a node are what its readable edges add up to, self-loops at both ends |
| `GraphAccounting.ReportConserves` | apps/backend/internal/tracing/graph.go:515-552 | in-counts and out-counts each sum to the number of edges, and per asset the volumes to twice the readable amounts |
| `BridgeCodec.PreimageExactly` | apps/backend/internal/bridge/bridge.go:557-566 | a pre-image exists exactly for whole words under a version-1 nonce |
| `BridgeCodec.PreimageLayout` | apps/backend/internal/bridge/bridge.go:566-591 | six words of head ending in the offset 0xc0, then the length and the padded bytes |
| `BridgeCodec.PreimageIsWords` | apps/backend/internal/bridge/bridge.go:566-591 | its length is a multiple of 32 |
| `BridgeCodec.PreimagesAgree` | apps/backend/internal/bridge/bridge.go:557-591 | pre-images agree if and only if the fields and the address words do |
| `BridgeCodec.PreimageIsInjective` | apps/backend/internal/bridge/bridge.go:557-591 | between well-formed addresses different messages have different pre-images |
| `BridgeCodec.MessageReadsBack` | apps/backend/internal/bridge/bridge.go:580-629 | the dynamic bytes at the encoded offset are the message if and only if it has at most 2^20 bytes |
| `BridgeCodec.AddressRoundTrip` | apps/backend/internal/bridge/bridge.go:593-640 | reading a word back undoes writing a well-formed address into it |
| `BridgeCodec.WordRoundTrip` | apps/backend/internal/bridge/bridge.go:593-640 | and the other way round for words with twelve leading zero bytes |
| `BridgeCodec.MalformedSendersCollide` | apps/backend/internal/bridge/bridge.go:593-600 | no two addresses that are not twenty hexadecimal bytes are told apart, nor any of them from the zero address |
| `BridgeCodec.SendersCollideExactly` | apps/backend/internal/bridge/bridge.go:593-600 | messages that differ in the sender alone have the same pre-image if and only if the senders stand for the same twenty bytes |
| `BridgeEvents.DecodeInitiations` | apps/backend/internal/bridge/bridge.go:416-434 | the initiations of the receipt, in log order |
| `BridgeEvents.InitiationsExactly` | apps/backend/internal/bridge/bridge.go:416-488 | an event is decoded if and only if some log of the receipt records it |
| `BridgeEvents.HasMatchingFinalization` | apps/backend/internal/bridge/bridge.go:436-458 | true if and only if some log finalizes the same transfer, tokens swapped |
| `BridgeEvents.DecodeSentMessages` | apps/backend/internal/bridge/bridge.go:496-526 | the messages of the receipt with the value of the first matching extension |
| `BridgeEvents.SentMessagesExactly` | apps/backend/internal/bridge/bridge.go:496-513 | a message is decoded if and only if some log of the receipt records it |
| `BridgeEvents.ValueIsLogged` | apps/backend/internal/bridge/bridge.go:515-526 | a value comes from an extension log of the same sender |
| `BridgeEvents.ValueIsFound` | apps/backend/internal/bridge/bridge.go:515-526 | wherever in the receipt such a log is, a value is found |
| `BridgeEvents.CallMatchesExactly` | apps/backend/internal/bridge/bridge.go:540-555 | an encoded finalization call matches an initiation of its kind if and only if the parties, the amount and the swapped tokens are the same |
| `BridgeEvents.MatchingMessage` | apps/backend/internal/bridge/bridge.go:528-538 | a message of the receipt that fits, none only if none does |
| `BridgeEvents.LogBlockExactly` | apps/backend/internal/bridge/bridge.go:370-376 | a block number is its hexadecimal number if that fits 64 bits, else block 0 |
| `BridgeEncoding.InitiationReadsBack` | apps/backend/internal/bridge/bridge.go:416-488 | an initiation that the bridge logs is read back exactly |
| `BridgeEncoding.FinalizationReadsBack` | apps/backend/internal/bridge/bridge.go:436-488 | so is a finalization, and it matches an initiation if and only if parties and amount are the same and tokens swapped |
| `BridgeEncoding.SentMessageReadsBack` | apps/backend/internal/bridge/bridge.go:496-513 | a message that the messenger logs is read back exactly |
| `Bridge.FirstRoute` | apps/backend/internal/bridge/bridge.go:237-245 | a registered route for the networks and tokens, none only if there is none |
| `Bridge.PendingTransition.ApplyConfirmations` | apps/backend/internal/bridge/bridge.go:296-317 | both flags from both heads, or the limitation alone when a head is missing |
| `Bridge.PendingTransition.CompleteDestination` | apps/backend/internal/bridge/bridge.go:247-294 | the fields become those of `Completed` |
| `Bridge.ResolveCandidate` | apps/backend/internal/bridge/bridge.go:186-235 | one transition for every initiation of the receipt |
| `Bridge.FindCandidates` | apps/backend/internal/bridge/bridge.go:162-173 | the first transfer to the bridge in each transaction |
| `Bridge.Resolve` | apps/backend/internal/bridge/bridge.go:156-184 | the transitions of all candidates, by ID |
| `BridgeSoundness.StagesExactly` | apps/backend/internal/bridge/bridge.go:247-321 | each lifecycle if and only if the destination shows what it stands for; finalized if and only if the relay is proved and both heads are as many blocks ahead as their networks ask for |
| `BridgeSoundness.FlagsExactly` | apps/backend/internal/bridge/bridge.go:301-321 | each flag if and only if the message is answered, both heads are known, its block is, and its own head is the confirmations ahead of it |
| `BridgeSoundness.ReasonsExactly` | apps/backend/internal/bridge/bridge.go:247-299 | the limitation of every state, and where its message arrived |
| `BridgeSoundness.CandidatesExactly` | apps/backend/internal/bridge/bridge.go:162-173 | each transaction with a transfer to the bridge is resolved once |
| `BridgeSoundness.EvidenceExactly` | apps/backend/internal/bridge/bridge.go:156-184 | a transition is reported if and only if a candidate resolves to it |
| `BridgeSoundness.EvidenceAscends` | apps/backend/internal/bridge/bridge.go:182 | the evidence comes by ascending transition ID |
| `BridgeSoundness.EvidenceIsSound` | apps/backend/internal/bridge/bridge.go:156-321 | behind every relayed or finalized transition stand a candidate, an initiation and an agreeing version-1 message of its receipt, a registered route, and a destination finalization of the same transfer |
| `BridgeSoundness.EvidenceIsComplete` | apps/backend/internal/bridge/bridge.go:186-235 | no initiation of an available receipt is dropped |
| `BridgeSoundness.MessageIdNamesMessage` | apps/backend/internal/bridge/bridge.go:528-570 | unless the hashes of their two pre-images collide, two used messages of the same ID agree in every field |
| `BridgeSoundness.RouteExactly` | apps/backend/internal/bridge/bridge.go:126-131 | a decoded initiation has a route if and only if it names no tokens, because the registered WETH address has 39 digits |
| `BridgeLifecycle.HitsExactly` | apps/backend/internal/bridge/bridge.go:249-250 | a query finds exactly the logs of the address under the topic and the message ID |
| `BridgeLifecycle.NeverBackwards` | apps/backend/internal/bridge/bridge.go:247-321 | on growing chains without failures a message never moves backwards, a relayed one keeps its place, and a mismatch stays |
| `BridgeLifecycle.KindsNeverBackwards` | apps/backend/internal/bridge/bridge.go:247-321 | finalized stays finalized, relayed becomes at most finalized, failed is never pending again, a mismatch stays, each at its place of arrival |
| `BridgeLifecycle.StepsBackExactly` | apps/backend/internal/bridge/bridge.go:249-312 | with the source side at hand, an answered message steps back on growing chains if and only if one of its log queries fails, or the receipt of its first relay, or it was finalized and a head is missing |
| `BridgeLifecycle.KeepsPaceExactly` | apps/backend/internal/bridge/bridge.go:186-235 | an answered message of a candidate is still reported, no further back, if and only if the source receipt can be had and none of those failures occurs |
| `BridgeLifecycle.SourceReceiptFails` | apps/backend/internal/bridge/bridge.go:190-193 | without the source receipt a candidate is reported as one unresolved transition that names no message |
| `BridgeLifecycle.FinalizedExists` | apps/backend/internal/bridge/bridge.go:247-294 | a finalized message exists for every bridge |
| `BridgeLifecycle.OutagesStepBack` | apps/backend/internal/bridge/bridge.go:253-257 | and each of these failures takes it back: a missing head to relayed, a failed query or receipt to unresolved |
| `BridgeLifecycle.CandidateAdvances` | apps/backend/internal/bridge/bridge.go:186-235 | resolving a candidate again reports the same initiations, each advanced |
| `BridgeLifecycle.RunAdvances` | apps/backend/internal/bridge/bridge.go:186-235 | the same between any two traces of a run |
| `BridgeLifecycle.BridgeStore.Insert` | apps/backend/internal/db/bridges.go:51-78 | all transitions are inserted, ignoring taken IDs, or none is |
| `BridgeLifecycle.EvidenceIsStorable` | apps/backend/internal/db/bridges.go:55-58 | no reported transition is rejected by the store |
| `BridgeLifecycle.OneRowPerStage` | apps/backend/internal/db/bridges.go:39-47 | over all runs, failures included, at most one row per message and resolved stage, and per unresolved message if nothing fails |
| `BridgeLifecycle.TwoUnresolvedRows` | apps/backend/internal/db/bridges.go:39-47 | with failures at most two unresolved rows per message |
| `BridgeCrossing.DeploymentIsWired` | apps/backend/internal/bridge/bridge.go:135-141 | both deployments serve exactly their two networks, with the endpoints, addresses and routes a crossing needs |
| `BridgeCrossing.DeployedRouteExactly` | apps/backend/internal/bridge/bridge.go:126-141 | on both an initiation has a route if and only if it names no tokens |
| `BridgeCrossing.LoneCrossingIsRead` | apps/backend/internal/bridge/bridge.go:515-538 | a receipt that holds the three logs of an ether transfer, in any order and among any others, is read as it if it holds no other value of the bridge and no other fitting message |
| `BridgeCrossing.CrossingIsReported` | apps/backend/internal/bridge/bridge.go:186-235 | a transfer that its receipt is read as is reported in the place of its initiation, with its message ID, recipient, amount, asset and block, in the state the chains give its message |
| `BridgeCrossing.CrossingNamedExactly` | apps/backend/internal/bridge/bridge.go:202-223 | whatever else is in the receipt, a transfer is reported under its own message ID if and only if the first value of the receipt is its value and the first fitting message has its fields, unless the pre-images of the two messages collide |
| `BridgeCrossing.OneOfTwoIsRead` | apps/backend/internal/bridge/bridge.go:515-538 | a receipt is not read as two transfers of different values, nor as two that log the same facts in different messages |
| `BridgeCrossing.SecondTransferMisses` | apps/backend/internal/bridge/bridge.go:199-201 | a receipt of two transfers of different amounts whose second is not reported under its message ID, unless the pre-images of its two readings collide |
| `BridgeCrossing.AlikeShareId` | apps/backend/internal/bridge/bridge.go:332-336 | two initiations of one block that log the same facts are reported under one transition ID, whatever their messages |
| `BridgeCrossing.CrossingIsFinalized` | apps/backend/internal/bridge/bridge.go:186-321 | and once the destination contracts log it too, it is reported as finalized if both heads are far enough ahead, else as relayed |
| `BridgeCrossing.FinalizedCrossing` | apps/backend/internal/bridge/bridge.go:186-321 | a crossing that is reported as finalized exists for every deployment |
| `BridgeCrossing.SourceReceiptHides` | apps/backend/internal/bridge/bridge.go:190-193 | when then only its source receipt fails, nothing but an unresolved transition without a message is reported |
| `BridgeLaws.SettledExactly` | apps/backend/internal/bridge/bridge.go:202-219 | an initiation stays without a message if and only if none of its receipt fits, and without a route if and only if one fits but no route is registered; else it is accepted under the ID of a fitting version-1 message |
| `BridgeLaws.NamedIsProved` | apps/backend/internal/bridge/bridge.go:202-233 | whatever its lifecycle, a transition that names a message has initiation, message and route behind it, and its state is what the destination answers |
| `BridgeLaws.UnnamedIsBlank` | apps/backend/internal/bridge/bridge.go:323-326 | one that names none is unresolved and says only which transaction it is about |
| `BridgeLaws.OnlyBridgeInitiates` | apps/backend/internal/bridge/bridge.go:416-488 | only logs of the bridge initiate, of its two kinds and with every field read from its place |
| `BridgeLaws.OnlyBridgeFinalizes` | apps/backend/internal/bridge/bridge.go:436-458 | only logs of the bridge finalize, of the kind that is asked for |
| `BridgeLaws.OnlyMessengerSends` | apps/backend/internal/bridge/bridge.go:496-513 | only logs of the messenger with two topics send messages |
| `BridgeLaws.OnlyMessengerValues` | apps/backend/internal/bridge/bridge.go:515-526 | and only its extension logs give values |
| `BridgeLaws.RoutesExactly` | apps/backend/internal/bridge/bridge.go:126-131 | registered are ether and wrapped ether, each in both directions |
| `BridgeLaws.RouteTakenExactly` | apps/backend/internal/bridge/bridge.go:237-244 | a route is taken if and only if it is registered for these networks and tokens |
| `BridgeLaws.AbiWordsExactly` | apps/backend/internal/bridge/bridge.go:602-618 | event data gives its words if and only if it is a positive number of whole words, at most a mebibyte |
| `BridgeLaws.CandidatesOnce` | apps/backend/internal/bridge/bridge.go:162-173 | each transaction with a transfer to the bridge, and no other, is looked at once |
| `BridgeLaws.TransitionIdExactly` | apps/backend/internal/bridge/bridge.go:332-336 | two transitions of a bridge share an ID if and only if message, lifecycle, transaction and place of arrival agree, unless their digests collide or a field holds a bar |
| `BridgeLaws.LogReferenceExactly` | apps/backend/internal/bridge/bridge.go:378-383 | a log reference names transaction and index, up to case and if the hash holds no colon |
| `BridgeLaws.NoLogReference` | apps/backend/internal/bridge/bridge.go:378-383 | without a transaction, and only then, there is none |
| `BridgeLaws.InsertedExactly` | apps/backend/internal/db/bridges.go:39-47 | the store never rewrites: the first transition of an ID stays |
| `BridgeLaws.StoredExactly` | apps/backend/internal/db/bridges.go:51-78 | over every run the store holds exactly the IDs of the transitions that were reported and linked |
| `BridgeLaws.StoredStays` | apps/backend/internal/db/bridges.go:39-47 | and what is stored under an ID stays |
| `BridgeLaws.StorableExactly` | apps/backend/internal/db/bridges.go:55-58 | refused are transitions without ID or protocol, and resolved ones without a message ID |
| `RuleWindows.FirstDistinctWindow` | apps/backend/internal/rules/detect.go:119-137 | the matches and their number of counterparties are those of `FirstWindow` |
| `RuleWindows.WindowExactly` | apps/backend/internal/rules/detect.go:119-137 | a window is found if and only if any transfers of the group, contiguous or not, have enough different counterparties within the span |
| `RuleWindows.WindowIsTight` | apps/backend/internal/rules/detect.go:119-137 | the matches have exactly `minimum` counterparties, and no qualifying stretch starts earlier or ends sooner |
| `Rules.GroupTransfers` | apps/backend/internal/rules/detect.go:89-99 | the groups of `GroupsBy` |
| `Rules.GroupMembers` | apps/backend/internal/rules/detect.go:89-99 | a group holds exactly the transfers with its key |
| `Rules.FindOnward` | apps/backend/internal/rules/detect.go:158-176 | the first inbound transfer that is passed on, with the first that passes it on |
| `Rules.DetectInGroups` | apps/backend/internal/rules/detect.go:100-116 | one lead for every group that leads to one, in any order of the map |
| `Rules.DetectSequential` | apps/backend/internal/rules/detect.go:207-236 | the chains of three in input order |
| `Evaluation.ConfirmationBacked` | apps/backend/internal/rules/detect.go:60-74 | confirmed and dated transfers by time and ID |
| `Evaluation.Detect` | apps/backend/internal/rules/detect.go:35-51 | with unique IDs and no collision among the detected leads the result does not depend on the order of the map; in any case no lead is lost or invented |
| `Evaluation.Evaluate` | apps/backend/internal/rules/detect.go:30-58 | under the same condition leads and runs are a function of the input; in any case the leads are those of the rules |
| `Evaluation.EvaluationForgets` | apps/backend/internal/rules/detect.go:30-74 | leads and runs depend on nothing but the set of backed transfers |
| `Evaluation.GatherForgetsOrder` | apps/backend/internal/rules/detect.go:100-116 | walking the groups in another order gives the same leads as often |
| `Evaluation.LeadsAreOrdered` | apps/backend/internal/rules/detect.go:56 | leads come in the only order their IDs allow, and none is lost |
| `Evaluation.CatalogLeadsAreOrdered` | apps/backend/internal/rules/detect.go:31-56 | the same for the rules of the catalog as they stand |
| `Evaluation.DetectedInGroups` | apps/backend/internal/rules/detect.go:84-117 | a grouping rule reports a lead if and only if one of its groups leads to it |
| `Evaluation.DispersalExactly` | apps/backend/internal/rules/detect.go:84-137 | a lead for a subject and asset if and only if some of its transfers have enough different counterparties within the window |
| `Evaluation.DispersalSubject` | apps/backend/internal/rules/detect.go:104-113 | its subject is the group's address and its counterparties the minimum |
| `Evaluation.RapidExactly` | apps/backend/internal/rules/detect.go:139-179 | a lead for an address and asset if and only if some pair passes through it in time and not back |
| `Evaluation.BriefExactly` | apps/backend/internal/rules/detect.go:238-265 | a lead if and only if one transfer in and one out of equal amount are all that is observed of the address |
| `Evaluation.SequentialSound` | apps/backend/internal/rules/detect.go:207-236 | every sequential lead names a chain of three |
| `Evaluation.SequentialComplete` | apps/backend/internal/rules/detect.go:219-233 | the first two hops of every chain are reported with some third |
| `RuleLaws.ReportedExactly` | apps/backend/internal/rules/detect.go:30-58 | the evaluation reports exactly what each of its rules detects |
| `RuleLaws.ScattersExactly` | apps/backend/internal/rules/detect.go:84-205 | a subject has a fan-in, fan-out or equal-amount lead if and only if enough others sent it, or got from it, one asset, and for equal amounts that amount, within the window |
| `RuleLaws.DispersalNames` | apps/backend/internal/rules/detect.go:100-137 | the lead names such transfers, with exactly the least number of others |
| `RuleLaws.PassesOnExactly` | apps/backend/internal/rules/detect.go:139-179 | an address has a rapid onward lead if and only if some asset comes in and goes on within the window to somebody else |
| `RuleLaws.OnlyPassesExactly` | apps/backend/internal/rules/detect.go:238-265 | an address has a brief-intermediary lead if and only if one such pair of equal amounts is all that is observed at it |
| `RuleLaws.BriefNames` | apps/backend/internal/rules/detect.go:247-263 | and the lead names that pair |
| `RuleLaws.ChainsExactly` | apps/backend/internal/rules/detect.go:207-236 | an address has a sequential lead if and only if a chain of three falling amounts starts at it, each hop within the window and none going back |
| `RuleLaws.ChainNames` | apps/backend/internal/rules/detect.go:219-233 | and what the lead names is such a chain |
| `RuleLaws.CatalogDispersal` | apps/backend/internal/rules/catalog.go:20-55 | in the catalog: three counterparties within a day |
| `RuleLaws.CatalogRapid` | apps/backend/internal/rules/catalog.go:36-43 | in the catalog: within an hour |
| `RuleLaws.CatalogSequential` | apps/backend/internal/rules/catalog.go:52-59 | in the catalog: three hops, each within an hour |
| `RuleLaws.CatalogBrief` | apps/backend/internal/rules/catalog.go:60-67 | in the catalog: within an hour |
| `RuleLaws.BackedExactly` | apps/backend/internal/rules/detect.go:60-66 | the rules see exactly the confirmed, dated transfers |
| `RuleLaws.BackedInOrder` | apps/backend/internal/rules/detect.go:67-73 | by time, and those of one time by ID |
| `RuleLaws.LeadsAscend` | apps/backend/internal/rules/detect.go:56 | leads come by ascending ID |
| `RuleLaws.NothingWithout` | apps/backend/internal/rules/detect.go:84-88 | a rule without a window, or with a number it does not work for, reports nothing |
| `RuleLaws.CollidesExactly` | apps/backend/internal/rules/detect.go:299-305 | two leads collide in their ID if and only if their digests do although rule, subject or transfers differ |
| `LeafClustering.ClusterLeafCounterparties` | apps/web/src/components/GraphCanvas.tsx:352-441 | clusters for exactly the large groups under new IDs, nodes and edges redrawn accordingly |
| `LeafClustering.FreshId` | apps/web/src/components/GraphCanvas.tsx:398-407 | an ID that no node or cluster has |
| `LeafClustering.MembersExactly` | apps/web/src/components/GraphCanvas.tsx:366-393 | a group holds exactly the non-seed nodes with its anchor, direction and asset |
| `LeafClustering.LeafEdges` | apps/web/src/components/GraphCanvas.tsx:377-384 | every edge at a leaf runs between it and its anchor |
| `LeafClustering.AnchorIsNoLeaf` | apps/web/src/components/GraphCanvas.tsx:366-393 | an anchor of two leaves is no leaf itself |
| `LeafClustering.SeedsStay` | apps/web/src/components/GraphCanvas.tsx:352-441 | the seed is drawn |
| `LeafClustering.AnchorsStay` | apps/web/src/components/GraphCanvas.tsx:352-441 | no cluster's anchor is collapsed |
| `LeafClustering.NoEdgeWithin` | apps/web/src/components/GraphCanvas.tsx:352-441 | no edge is collapsed at both ends |
| `LeafClustering.ClusteringIsClosed` | apps/web/src/components/GraphCanvas.tsx:421-440 | edges run between drawn nodes if they did before |
| `LeafClustering.ClusteringConserves` | apps/web/src/components/GraphCanvas.tsx:407-440 | transfers and amounts of uncollapsed edges and collapsed clusters are those of the input |
| `LeafClustering.EdgeCollapsesExactly` | apps/web/src/components/GraphCanvas.tsx:404 | for every minimum, an edge is collapsed at both ends if and only if the minimum is below 2 and both ends are leaves of groups that are not expanded |
| `LeafClustering.LoneEdgeCollapses` | apps/web/src/components/GraphCanvas.tsx:404 | with a minimum of 1 both ends of a lone edge are collapsed |
| `ClusterLaws.AssetKeysExactly` | apps/web/src/components/GraphCanvas.tsx:345-348 | edges whose assets hold no colons have the same asset key if and only if kind, contract or else symbol, and decimals agree |
| `ClusterLaws.LeafExactly` | apps/web/src/components/GraphCanvas.tsx:366-393 | a node is a leaf of an anchor if and only if it is not the seed, has edges, and all of them run one way between the two with one asset |
| `ClusterLaws.ClusteredExactly` | apps/web/src/components/GraphCanvas.tsx:399-404 | a key has a cluster if and only if it has leaves, and at least the minimum of them |
| `ClusterLaws.ClustersStandForLeaves` | apps/web/src/components/GraphCanvas.tsx:408-416 | a cluster stands for all leaves of its key in order, and for the transfers and amounts of all their edges |
| `ClusterLaws.NodesExactly` | apps/web/src/components/GraphCanvas.tsx:421-430 | drawn are the nodes that are not collapsed, and a node that counts its members for each collapsed cluster |
| `ClusterLaws.EdgesExactly` | apps/web/src/components/GraphCanvas.tsx:431-440 | every edge is drawn once, each end at the cluster it is collapsed into or where it was |
| `EventIds.TokenEventIds` | apps/backend/internal/adapter/etherscan.go:252-281 | every row gets the ID of the closed form `EventId` |
| `EventIds.MatchingTransferLogs` | apps/backend/internal/adapter/etherscan.go:290-302 | the agreeing logs that have an index, by index |
| `EventIds.MatchesExactly` | apps/backend/internal/adapter/etherscan.go:290-302 | a log matches if and only if it agrees and has an index, and it matches once |
| `EventIds.LogIdsAgree` | apps/backend/internal/adapter/etherscan.go:273-276 | a log ID goes to a row that agrees with the log on contract, parties and amount |
| `EventIds.HexAmountExactly` | apps/backend/internal/adapter/etherscan.go:320-324 | log data of any length and sign equals a decimal amount if and only if it is that number in hexadecimal |
| `EventIds.ByteAmountExactly` | apps/backend/internal/adapter/etherscan.go:320-324 | whole bytes equal the amount they write big-endian, and no other |
| `EventIds.EventIdsAreUnique` | apps/backend/internal/adapter/etherscan.go:252-333 | no two rows of a transaction share an event ID, unless the digests of the two rows collide |
| `EventIds.LogShareExactly` | apps/backend/internal/adapter/etherscan.go:269-279 | a fingerprint gets as many log IDs as it has rows or matching logs, whichever is fewer |
| `EventLaws.TopicAddressExactly` | apps/backend/internal/adapter/etherscan.go:312-318 | a topic names the address of its last forty digits, and a shorter one none |
| `EventLaws.TransferLogExactly` | apps/backend/internal/adapter/etherscan.go:290-302 | the log a contract writes of a transfer agrees with a row if and only if contract, parties and amount are the row's |
| `EventLaws.MatchesAscend` | apps/backend/internal/adapter/etherscan.go:300 | the matching logs come by ascending index number |
| `EventLaws.IndexExactly` | apps/backend/internal/adapter/etherscan.go:304-310 | an index is its hexadecimal number; one that is none, or does not fit 64 bits, goes last |
| `EventLaws.EventIdExactly` | apps/backend/internal/adapter/etherscan.go:252-281 | the n-th of the rows that are the same gets the n-th of their logs, and beyond the last a provider ID that counts them |
| `EventLaws.PrintsExactly` | apps/backend/internal/adapter/etherscan.go:326-328 | rows have one fingerprint if and only if they are the same up to case |
| `EventLaws.ProviderIdExactly` | apps/backend/internal/adapter/etherscan.go:330-333 | a provider ID names the digest of the row and its count |
| `Text.SameFoldExactly` | apps/backend/internal/bridge/bridge.go:368 | texts are the same up to case if and only if each two characters agree or are the two cases of a letter |
| `Text.StringLessExactly` | apps/backend/internal/bridge/bridge.go:182 | strings are compared as in a dictionary |
| `Text.TrimExactly` | apps/backend/internal/adapter/ton_cardano.go:44 | trimming takes white space off both ends, and all of it |
| `Bytes.HexDecodeExactly` | apps/backend/internal/adapter/ton_cardano.go:46 | hexadecimal is read two digits a byte |
| `Bytes.HexDigitFolds` | apps/backend/internal/adapter/ton_cardano.go:46 | in either case |

## Left out

- HTTP handlers, configuration, metrics, JSON and protobuf encoding, React and Cytoscape rendering: input and output.
- `resultForJob`, job statistics and the interval between prunings in the worker: case analyses and bookkeeping without a property of their own. Failure messages are cut at 500 characters where the source cuts at 500 bytes.
- `updated_at`, and the cached JSON of a result beyond being present: nothing reads the one, the other is opaque text.
- The write of a completed result runs under the parent context in the source, which has no deadline of its own; `TraceQueue.InTime` is the condition such a write has to meet.
- Case folding and white space outside ASCII and the listed spaces: addresses and hashes are ASCII text.
- Labels, entity types and contract detection of graph nodes: answers of other services that no total depends on.
- Edge aggregation, transfer counts by node, filters and node placement on the canvas other than the flow layout: sums by key and styling, easier than what is proved of clustering.
- 32-bit wrap-around of transfer counts: a graph has a few hundred edges.
- Acquisition hashes of bridge transitions, and the link from a transition to a stored transfer beyond being an arbitrary choice (`linked`): provenance bookkeeping.
- Texts of bridge limitations and of the event signatures: parameters of the model.
- Offsets of dynamic bytes within 32 of the largest 64-bit integer: the model computes with unbounded integers.
- Equality of a message ID with the hash on chain: the program does not compare them.
- Chain reorganizations: destination chains only grow.
- Group keys of the rules and of clustering, and event fingerprints, are joined with separators in the source and tuples here; the fields contain no separators.
- Titles and texts of leads beyond the two numbers in them: they follow from the rule.
- Saturation of time differences beyond 292 years: times are unbounded integers.
- Solana and Cardano address checks beyond their place in the cascade of `AddressDetection.Detect`: prefix and length tests.
- `isProvisional` and its confirmation thresholds: a comparison; the rules take the flag as given.
- Pagination, balances and transaction lookup of the chain adapters: input and output.
