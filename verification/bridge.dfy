/** The OP Stack standard bridge: from a candidate transfer to bridge transitions. */
module Bridge {
  import opened Options
  import opened Ordering
  import opened Text
  import opened Bytes
  import opened BridgeCodec
  import opened BridgeEvents
  import opened Transfers

  datatype Endpoint = Endpoint(network: string, bridge: string, messenger: string, confirmations: nat)

  datatype Route = Route(sourceNetwork: string, destinationNetwork: string, sourceToken: string, destinationToken: string, asset: Asset)

  datatype Lifecycle = Initiated | Failed | Relayed | Finalized | Unresolved

  /** What a transition does not establish. */
  datatype Limitation = Scope | NoReceipt | NoMessage | NoRoute | OldVersion | NotQueried | RelayFailed | NoRelayReceipt
                      | NoFinalization | NoHeads

  datatype OPStack = OPStack(hashes: Hashes, reason: Limitation -> string, protocol: string, bridgeName: string,
                             destinationNet: string, l1: Endpoint, l2: Endpoint, l2Weth: string)

  const ETHEREUM := "ethereum-mainnet"
  const ETHEREUM_WETH := "0xc02aa39b223fe8d0a0e5c4f27ead9083c756cc2"

  function BaseStandardBridge(hashes: Hashes, reason: Limitation -> string): OPStack {
    OPStack(hashes, reason, "base-standard-bridge", "Base Standard Bridge", "base-mainnet",
            Endpoint(ETHEREUM, "0x3154cf16ccdb4c6d922629664174b904d80f2c35", "0x866e82a600a1414e583f7f13623f1ac5d58b0afa", 64),
            Endpoint("base-mainnet", "0x4200000000000000000000000000000000000010", "0x4200000000000000000000000000000000000007", 120),
            "0x4200000000000000000000000000000000000006")
  }

  function OptimismStandardBridge(hashes: Hashes, reason: Limitation -> string): OPStack {
    OPStack(hashes, reason, "optimism-standard-bridge", "Optimism Standard Bridge", "optimism-mainnet",
            Endpoint(ETHEREUM, "0x99c9fc46f92e8a1c0dec1b1747d010903e884be1", "0x25ace71c97b33cc4729cf772ae268934f7ab5fa1", 64),
            Endpoint("optimism-mainnet", "0x4200000000000000000000000000000000000010", "0x4200000000000000000000000000000000000007", 120),
            "0x4200000000000000000000000000000000000006")
  }

  /** Source and destination for a source network. */
  function Endpoints(b: OPStack, network: string): Option<(Endpoint, Endpoint)> {
    if network == b.destinationNet then Some((b.l2, b.l1))
    else if network == ETHEREUM then Some((b.l1, b.l2))
    else None
  }

  function Routes(b: OPStack): seq<Route> {
    [Route(ETHEREUM, b.destinationNet, "", "", Asset("NATIVE", "", "ETH", 18)),
     Route(b.destinationNet, ETHEREUM, "", "", Asset("NATIVE", "", "ETH", 18)),
     Route(ETHEREUM, b.destinationNet, ETHEREUM_WETH, b.l2Weth, Asset("ERC20", ETHEREUM_WETH, "WETH", 18)),
     Route(b.destinationNet, ETHEREUM, b.l2Weth, ETHEREUM_WETH, Asset("ERC20", b.l2Weth, "WETH", 18))]
  }

  predicate Fits(route: Route, source: string, destination: string, e: Event) {
    route.sourceNetwork == source && route.destinationNetwork == destination
    && route.sourceToken == e.localToken && route.destinationToken == e.remoteToken
  }

  function FirstRoute(routes: seq<Route>, source: string, destination: string, e: Event): (r: Option<Route>)
    ensures r.Some? ==> r.value in routes && Fits(r.value, source, destination, e)
    ensures r.None? ==> forall route :: route in routes ==> !Fits(route, source, destination, e)
  {
    if routes == [] then None
    else if Fits(routes[0], source, destination, e) then Some(routes[0])
    else
      assert routes == [routes[0]] + routes[1..];
      FirstRoute(routes[1..], source, destination, e)
  }

  function CanonicalRoute(b: OPStack, source: string, destination: string, e: Event): Option<Route> {
    FirstRoute(Routes(b), source, destination, e)
  }

  // ----- what the two chains answer

  /** A node's answers; None is a failed call. */
  datatype View = View(receipts: string -> Option<seq<Log>>, logs: (string, string, string) -> Option<seq<Log>>,
                       head: Option<nat>, timestamp: nat -> int)

  predicate Confirmed(head: nat, block: nat, threshold: nat) {
    block > 0 && head >= block && head - block >= threshold
  }

  // ----- transitions

  datatype Source = Source(protocol: string, bridgeName: string, sourceNetwork: string, destinationNetwork: string, messageId: string,
                           transactionHash: string, logReference: string, sourceBridge: string, destinationBridge: string,
                           sourceToken: string, destinationToken: string, recipient: string, amount: string, asset: Asset,
                           blockNumber: nat, blockHash: string, timestamp: int)

  /** Where a message arrived; all blank while it has not. */
  datatype Arrival = Arrival(transactionHash: string, logReference: string, blockNumber: nat, blockHash: string, timestamp: int)

  const NOWHERE := Arrival("", "", 0, "", ZERO_TIME)

  datatype State = State(lifecycle: Lifecycle, arrival: Arrival, sourceConfirmed: bool, destinationConfirmed: bool, limitation: Limitation)

  const PENDING := State(Initiated, NOWHERE, false, false, Scope)

  datatype Transition = Transition(id: string, source: Source, state: State)

  function ArrivalAt(log: Log, view: View): Arrival {
    Arrival(Lower(log.transactionHash), LogReference(log), LogBlock(log), log.blockHash, view.timestamp(LogBlock(log)))
  }

  function WithConfirmations(s: State, block: nat, src: Endpoint, dst: Endpoint, sourceHead: Option<nat>, destinationHead: Option<nat>): State {
    if sourceHead.None? || destinationHead.None? then s.(limitation := NoHeads)
    else
      s.(sourceConfirmed := Confirmed(sourceHead.value, block, src.confirmations),
         destinationConfirmed := s.arrival.blockNumber > 0 && Confirmed(destinationHead.value, s.arrival.blockNumber, dst.confirmations))
  }

  function Successes(h: Hashes, dst: Endpoint, view: View, id: string): Option<seq<Log>> {
    view.logs(dst.messenger, Topic(h, RelayedMessage), id)
  }

  function Failures(h: Hashes, dst: Endpoint, view: View, id: string): Option<seq<Log>> {
    view.logs(dst.messenger, Topic(h, FailedRelay), id)
  }

  /** The state the destination chain gives a message. */
  function Completed(h: Hashes, source: Source, e: Event, src: Endpoint, dst: Endpoint, sourceHead: Option<nat>, view: View): State {
    var successes, failures := Successes(h, dst, view, source.messageId), Failures(h, dst, view, source.messageId);
    if successes.None? || failures.None? then PENDING.(lifecycle := Unresolved, limitation := NotQueried)
    else if successes.value == [] && failures.value == [] then
      WithConfirmations(PENDING, source.blockNumber, src, dst, sourceHead, view.head)
    else if successes.value == [] then
      var failed := PENDING.(lifecycle := Failed, arrival := ArrivalAt(failures.value[0], view), limitation := RelayFailed);
      WithConfirmations(failed, source.blockNumber, src, dst, sourceHead, view.head)
    else
      var relayed := PENDING.(lifecycle := Relayed, arrival := ArrivalAt(successes.value[0], view));
      var receipt := view.receipts(successes.value[0].transactionHash);
      if receipt.None? then relayed.(lifecycle := Unresolved, limitation := NoRelayReceipt)
      else if !HasFinalization(h, receipt.value, dst.bridge, e) then relayed.(lifecycle := Unresolved, limitation := NoFinalization)
      else
        var s := WithConfirmations(relayed, source.blockNumber, src, dst, sourceHead, view.head);
        if s.sourceConfirmed && s.destinationConfirmed then s.(lifecycle := Finalized) else s
  }

  /** A transition while its destination is being worked out. */
  class PendingTransition {
    const source: Source
    var lifecycle: Lifecycle
    var arrival: Arrival
    var sourceConfirmed: bool
    var destinationConfirmed: bool
    var limitation: Limitation

    constructor (source: Source)
      ensures this.source == source && Snapshot() == PENDING
    {
      this.source := source;
      lifecycle, arrival, sourceConfirmed, destinationConfirmed, limitation := Initiated, NOWHERE, false, false, Scope;
    }

    function Snapshot(): State
      reads this
    {
      State(lifecycle, arrival, sourceConfirmed, destinationConfirmed, limitation)
    }

    method ApplyConfirmations(src: Endpoint, dst: Endpoint, sourceHead: Option<nat>, destinationHead: Option<nat>)
      modifies this
      ensures Snapshot() == WithConfirmations(old(Snapshot()), source.blockNumber, src, dst, sourceHead, destinationHead)
    {
      if sourceHead.None? || destinationHead.None? {
        limitation := NoHeads;
        return;
      }
      sourceConfirmed := Confirmed(sourceHead.value, source.blockNumber, src.confirmations);
      destinationConfirmed := arrival.blockNumber > 0 && Confirmed(destinationHead.value, arrival.blockNumber, dst.confirmations);
    }

    method CompleteDestination(h: Hashes, e: Event, src: Endpoint, dst: Endpoint, sourceHead: Option<nat>, view: View)
      requires Snapshot() == PENDING
      modifies this
      ensures Snapshot() == Completed(h, source, e, src, dst, sourceHead, view)
    {
      var successes, failures := Successes(h, dst, view, source.messageId), Failures(h, dst, view, source.messageId);
      if successes.None? || failures.None? {
        lifecycle := Unresolved;
        limitation := NotQueried;
        return;
      }
      if successes.value == [] && failures.value == [] {
        ApplyConfirmations(src, dst, sourceHead, view.head);
        return;
      }
      if successes.value == [] {
        lifecycle := Failed;
        arrival := ArrivalAt(failures.value[0], view);
        limitation := RelayFailed;
        ApplyConfirmations(src, dst, sourceHead, view.head);
        return;
      }
      lifecycle := Relayed;
      arrival := ArrivalAt(successes.value[0], view);
      var receipt := view.receipts(successes.value[0].transactionHash);
      if receipt.None? {
        lifecycle := Unresolved;
        limitation := NoRelayReceipt;
        return;
      }
      var found := HasMatchingFinalization(h, receipt.value, dst.bridge, e);
      if !found {
        lifecycle := Unresolved;
        limitation := NoFinalization;
        return;
      }
      ApplyConfirmations(src, dst, sourceHead, view.head);
      if sourceConfirmed && destinationConfirmed {
        lifecycle := Finalized;
      }
    }
  }

  // ----- identifiers

  function LifecycleName(l: Lifecycle): string {
    match l
    case Initiated => "initiated"
    case Failed => "failed"
    case Relayed => "relayed"
    case Finalized => "finalized"
    case Unresolved => "unresolved"
  }

  function ShortDigest(h: Hashes, material: string): string {
    HexEncode(h.sha256(BytesOf(material))[..16])
  }

  function TransitionId(h: Hashes, source: Source, s: State): string {
    source.protocol + ":" + ShortDigest(h, source.protocol + "|" + source.messageId + "|" + LifecycleName(s.lifecycle) + "|"
                                           + source.transactionHash + "|" + s.arrival.transactionHash + "|" + s.arrival.logReference)
  }

  // ----- one candidate

  function BlankSource(b: OPStack, src: Endpoint, dst: Endpoint, candidate: TransferItem): Source {
    Source(b.protocol, b.bridgeName, src.network, dst.network, "", Lower(candidate.hash), "", src.bridge, dst.bridge, "", "", "", "",
           Asset("", "", "", 0), 0, "", candidate.timestamp)
  }

  function UnresolvedTransition(b: OPStack, src: Endpoint, dst: Endpoint, candidate: TransferItem, why: Limitation): Transition {
    Transition(b.protocol + ":unresolved:" + ShortDigest(b.hashes, Lower(candidate.hash) + "|" + b.reason(why)),
               BlankSource(b, src, dst, candidate), PENDING.(lifecycle := Unresolved, limitation := why))
  }

  function MessageId(h: Hashes, m: Message): Option<string> {
    if Preimage(m).None? then None else Some(AddressText(h.keccak(Preimage(m).value)))
  }

  function SourceOf(b: OPStack, src: Endpoint, dst: Endpoint, candidate: TransferItem, e: Event, route: Route, id: string): Source {
    Source(b.protocol, b.bridgeName, src.network, dst.network, id, Lower(candidate.hash), LogReference(e.log), src.bridge, dst.bridge,
           route.sourceToken, route.destinationToken, e.to, Decimal(e.amount), route.asset, LogBlock(e.log), e.log.blockHash,
           candidate.timestamp)
  }

  /** What the source chain settles about an initiation: why not, or the source side and its message. */
  datatype Settled = Rejected(why: Limitation) | Accepted(source: Source)

  function Settle(b: OPStack, src: Endpoint, dst: Endpoint, candidate: TransferItem, messages: seq<SentMessage>, e: Event): Settled {
    SettleOver(b, src, dst, candidate, MatchingMessage(b.hashes, messages, e, src.bridge, dst.bridge),
               CanonicalRoute(b, src.network, dst.network, e), e)
  }

  function SettleOver(b: OPStack, src: Endpoint, dst: Endpoint, candidate: TransferItem, sent: Option<SentMessage>, route: Option<Route>,
                      e: Event): Settled
  {
    if sent.None? then Rejected(NoMessage)
    else if route.None? then Rejected(NoRoute)
    else
      var id := MessageId(b.hashes, sent.value.message);
      if id.None? then Rejected(OldVersion) else Accepted(SourceOf(b, src, dst, candidate, e, route.value, id.value))
  }

  function TransitionFor(b: OPStack, src: Endpoint, dst: Endpoint, candidate: TransferItem, messages: seq<SentMessage>, e: Event,
                         sourceHead: Option<nat>, view: View): Transition
  {
    match Settle(b, src, dst, candidate, messages, e)
    case Rejected(why) => UnresolvedTransition(b, src, dst, candidate, why)
    case Accepted(source) =>
      var s := Completed(b.hashes, source, e, src, dst, sourceHead, view);
      Transition(TransitionId(b.hashes, source, s), source, s)
  }

  function TransitionsFor(b: OPStack, src: Endpoint, dst: Endpoint, candidate: TransferItem, messages: seq<SentMessage>, es: seq<Event>,
                          sourceHead: Option<nat>, view: View): (ts: seq<Transition>)
    ensures |ts| == |es|
    ensures forall i :: 0 <= i < |es| ==> ts[i] == TransitionFor(b, src, dst, candidate, messages, es[i], sourceHead, view)
  {
    Each(es, Reader(b, src, dst, candidate, messages, sourceHead, view))
  }

  function Reader(b: OPStack, src: Endpoint, dst: Endpoint, candidate: TransferItem, messages: seq<SentMessage>,
                  sourceHead: Option<nat>, view: View): Event -> Transition
  {
    e => TransitionFor(b, src, dst, candidate, messages, e, sourceHead, view)
  }

  function Each(es: seq<Event>, f: Event -> Transition): (ts: seq<Transition>)
    ensures |ts| == |es| && forall i :: 0 <= i < |es| ==> ts[i] == f(es[i])
  {
    seq(|es|, i requires 0 <= i < |es| => f(es[i]))
  }

  lemma EachStep(es: seq<Event>, i: nat, f: Event -> Transition)
    requires i < |es|
    ensures Each(es[..i + 1], f) == Each(es[..i], f) + [f(es[i])]
  {
  }

  /** The transitions of a candidate: one for every initiation in its receipt. */
  function Resolved(b: OPStack, src: Endpoint, dst: Endpoint, candidate: TransferItem, sourceView: View, view: View): seq<Transition> {
    var logs := sourceView.receipts(candidate.hash);
    if logs.None? then [UnresolvedTransition(b, src, dst, candidate, NoReceipt)]
    else
      TransitionsFor(b, src, dst, candidate, ValuedMessages(b.hashes, logs.value, src.messenger),
                     Initiations(b.hashes, logs.value, src.bridge), sourceView.head, view)
  }

  method ResolveInitiation(b: OPStack, src: Endpoint, dst: Endpoint, candidate: TransferItem, messages: seq<SentMessage>, e: Event,
                           sourceHead: Option<nat>, view: View) returns (t: Transition)
    ensures t == TransitionFor(b, src, dst, candidate, messages, e, sourceHead, view)
  {
    var settled := Settle(b, src, dst, candidate, messages, e);
    if settled.Rejected? {
      return UnresolvedTransition(b, src, dst, candidate, settled.why);
    }
    var pending := new PendingTransition(settled.source);
    pending.CompleteDestination(b.hashes, e, src, dst, sourceHead, view);
    t := Transition(TransitionId(b.hashes, pending.source, pending.Snapshot()), pending.source, pending.Snapshot());
  }

  method ResolveCandidate(b: OPStack, src: Endpoint, dst: Endpoint, candidate: TransferItem, sourceView: View, view: View)
    returns (result: seq<Transition>)
    ensures result == Resolved(b, src, dst, candidate, sourceView, view)
  {
    var logs := sourceView.receipts(candidate.hash);
    if logs.None? {
      return [UnresolvedTransition(b, src, dst, candidate, NoReceipt)];
    }
    var initiations := DecodeInitiations(b.hashes, logs.value, src.bridge);
    var messages := DecodeSentMessages(b.hashes, logs.value, src.messenger);
    result := ResolveInitiations(b, src, dst, candidate, messages, initiations, sourceView.head, view);
  }

  method ResolveInitiations(b: OPStack, src: Endpoint, dst: Endpoint, candidate: TransferItem, messages: seq<SentMessage>,
                            initiations: seq<Event>, sourceHead: Option<nat>, view: View) returns (result: seq<Transition>)
    ensures result == TransitionsFor(b, src, dst, candidate, messages, initiations, sourceHead, view)
  {
    result := [];
    ghost var read := Reader(b, src, dst, candidate, messages, sourceHead, view);
    for i := 0 to |initiations|
      invariant result == Each(initiations[..i], read)
    {
      EachStep(initiations, i, read);
      var t := ResolveInitiation(b, src, dst, candidate, messages, initiations[i], sourceHead, view);
      result := result + [t];
    }
    assert initiations[..|initiations|] == initiations;
  }

  // ----- all candidates

  predicate IsCandidate(t: TransferItem, bridge: string) {
    SameFold(t.to, bridge) && t.hash != ""
  }

  function HashesOf(ts: seq<TransferItem>): set<string> {
    set t | t in ts :: t.hash
  }

  /** The first transfer to the bridge in each transaction. */
  function Candidates(ts: seq<TransferItem>, bridge: string): seq<TransferItem> {
    if ts == [] then []
    else
      var front, t := Candidates(ts[..|ts| - 1], bridge), ts[|ts| - 1];
      if IsCandidate(t, bridge) && t.hash !in HashesOf(front) then front + [t] else front
  }

  function Resolver(b: OPStack, src: Endpoint, dst: Endpoint, sourceView: View, view: View): TransferItem -> seq<Transition> {
    c => Resolved(b, src, dst, c, sourceView, view)
  }

  function Gather(candidates: seq<TransferItem>, resolve: TransferItem -> seq<Transition>): seq<Transition> {
    if candidates == [] then []
    else
      var k := |candidates| - 1;
      Gather(candidates[..k], resolve) + resolve(candidates[k])
  }

  predicate EarlierId(s: Transition, t: Transition) {
    StringLess(s.id, t.id)
  }

  method FindCandidates(ts: seq<TransferItem>, bridge: string) returns (candidates: seq<TransferItem>)
    ensures candidates == Candidates(ts, bridge)
  {
    candidates := [];
    var seen: set<string> := {};
    for i := 0 to |ts|
      invariant candidates == Candidates(ts[..i], bridge) && seen == HashesOf(candidates)
    {
      assert ts[..i + 1][..i] == ts[..i];
      if !IsCandidate(ts[i], bridge) || ts[i].hash in seen {
        continue;
      }
      seen := seen + {ts[i].hash};
      candidates := candidates + [ts[i]];
    }
    assert ts[..|ts|] == ts;
  }

  method Resolve(b: OPStack, network: string, ts: seq<TransferItem>, clients: map<string, View>) returns (result: seq<Transition>)
    ensures result == Evidence(b, network, ts, clients)
  {
    var pair := Endpoints(b, network);
    if pair.None? || pair.value.0.network !in clients || pair.value.1.network !in clients {
      return [];
    }
    var (src, dst) := pair.value;
    var candidates := FindCandidates(ts, src.bridge);
    result := ResolveAll(b, src, dst, candidates, clients[src.network], clients[dst.network]);
    result := Sort(result, EarlierId);
  }

  lemma GatherStep(candidates: seq<TransferItem>, i: nat, resolve: TransferItem -> seq<Transition>)
    requires i < |candidates|
    ensures Gather(candidates[..i + 1], resolve) == Gather(candidates[..i], resolve) + resolve(candidates[i])
  {
    assert candidates[..i + 1][..i] == candidates[..i];
  }

  method ResolveAll(b: OPStack, src: Endpoint, dst: Endpoint, candidates: seq<TransferItem>, sourceView: View, view: View)
    returns (result: seq<Transition>)
    ensures result == Gather(candidates, Resolver(b, src, dst, sourceView, view))
  {
    result := [];
    ghost var resolve := Resolver(b, src, dst, sourceView, view);
    for i := 0 to |candidates|
      invariant result == Gather(candidates[..i], resolve)
    {
      GatherStep(candidates, i, resolve);
      var transitions := ResolveCandidate(b, src, dst, candidates[i], sourceView, view);
      result := result + transitions;
    }
    assert candidates[..|candidates|] == candidates;
  }

  /** The transitions of a page of transfers. */
  function Evidence(b: OPStack, network: string, ts: seq<TransferItem>, clients: map<string, View>): seq<Transition> {
    var pair := Endpoints(b, network);
    if pair.None? || pair.value.0.network !in clients || pair.value.1.network !in clients then []
    else
      var (src, dst) := pair.value;
      Sort(Gather(Candidates(ts, src.bridge), Resolver(b, src, dst, clients[src.network], clients[dst.network])), EarlierId)
  }
}
