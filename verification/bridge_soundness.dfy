/** What stands behind every transition the bridge adapter reports. */
module BridgeSoundness {
  import opened Options
  import opened Ordering
  import opened Text
  import opened Bytes
  import opened BridgeCodec
  import opened BridgeEvents
  import opened Bridge
  import opened Transfers

  // ----- the destination side

  /** The destination relayed the message, and that relay finalized the same transfer. */
  ghost predicate RelayProved(h: Hashes, dst: Endpoint, view: View, id: string, e: Event) {
    && Successes(h, dst, view, id).Some? && Failures(h, dst, view, id).Some? && Successes(h, dst, view, id).value != []
    && var relay := Successes(h, dst, view, id).value[0];
       view.receipts(relay.transactionHash).Some?
       && exists log :: log in view.receipts(relay.transactionHash).value && Finalizes(h, log, dst.bridge, e)
  }

  /** Both blocks are known, and each head is as many blocks ahead as its network asks for. */
  ghost predicate BothConfirmed(src: Endpoint, dst: Endpoint, sourceBlock: nat, sourceHead: Option<nat>, arrivalBlock: nat, head: Option<nat>) {
    && sourceHead.Some? && head.Some?
    && 0 < sourceBlock && sourceBlock + src.confirmations <= sourceHead.value
    && 0 < arrivalBlock && arrivalBlock + dst.confirmations <= head.value
  }

  lemma RelayedExactly(h: Hashes, source: Source, e: Event, src: Endpoint, dst: Endpoint, sourceHead: Option<nat>, view: View)
    ensures var s := Completed(h, source, e, src, dst, sourceHead, view);
            var successes, failures := Successes(h, dst, view, source.messageId), Failures(h, dst, view, source.messageId);
            && (s.lifecycle.Initiated? <==> successes == Some([]) && failures == Some([]))
            && (s.lifecycle.Failed? <==> successes == Some([]) && failures.Some? && failures.value != [])
            && (s.lifecycle.Relayed? || s.lifecycle.Finalized? <==> RelayProved(h, dst, view, source.messageId, e))
            && (s.lifecycle.Relayed? || s.lifecycle.Finalized? ==> s.arrival == ArrivalAt(successes.value[0], view))
  {
  }

  lemma BothFlagsExactly(h: Hashes, source: Source, e: Event, src: Endpoint, dst: Endpoint, sourceHead: Option<nat>, view: View)
    ensures var s := Completed(h, source, e, src, dst, sourceHead, view);
            s.sourceConfirmed && s.destinationConfirmed && !s.lifecycle.Failed? <==> s.lifecycle.Finalized?
  {
  }

  /** The two flags, exactly: only an answered message has any, only if both heads are known, and each stands for its own
      depth. */
  lemma FlagsExactly(h: Hashes, source: Source, e: Event, src: Endpoint, dst: Endpoint, sourceHead: Option<nat>, view: View)
    ensures var s := Completed(h, source, e, src, dst, sourceHead, view);
            var headsKnown := !s.lifecycle.Unresolved? && sourceHead.Some? && view.head.Some?;
            && (s.sourceConfirmed <==> headsKnown && 0 < source.blockNumber && source.blockNumber + src.confirmations <= sourceHead.value)
            && (s.destinationConfirmed <==>
                  headsKnown && 0 < s.arrival.blockNumber && s.arrival.blockNumber + dst.confirmations <= view.head.value)
  {
  }

  /** Which state a message is in, exactly. */
  lemma StagesExactly(h: Hashes, source: Source, e: Event, src: Endpoint, dst: Endpoint, sourceHead: Option<nat>, view: View)
    ensures var s := Completed(h, source, e, src, dst, sourceHead, view);
            var successes, failures := Successes(h, dst, view, source.messageId), Failures(h, dst, view, source.messageId);
            && (s.lifecycle.Initiated? <==> successes == Some([]) && failures == Some([]))
            && (s.lifecycle.Failed? <==> successes == Some([]) && failures.Some? && failures.value != [])
            && (s.lifecycle.Relayed? || s.lifecycle.Finalized? <==> RelayProved(h, dst, view, source.messageId, e))
            && (s.lifecycle.Finalized? <==>
                  RelayProved(h, dst, view, source.messageId, e)
                  && BothConfirmed(src, dst, source.blockNumber, sourceHead, LogBlock(successes.value[0]), view.head))
            && (s.lifecycle.Relayed? || s.lifecycle.Finalized? ==> s.arrival == ArrivalAt(successes.value[0], view))
            && (s.sourceConfirmed && s.destinationConfirmed && !s.lifecycle.Failed? <==> s.lifecycle.Finalized?)
  {
    RelayedExactly(h, source, e, src, dst, sourceHead, view);
    BothFlagsExactly(h, source, e, src, dst, sourceHead, view);
    FlagsExactly(h, source, e, src, dst, sourceHead, view);
  }

  /** Where the message arrived, and what the report says it does not establish. */
  lemma ReasonsExactly(h: Hashes, source: Source, e: Event, src: Endpoint, dst: Endpoint, sourceHead: Option<nat>, view: View)
    ensures var s := Completed(h, source, e, src, dst, sourceHead, view);
            var successes, failures := Successes(h, dst, view, source.messageId), Failures(h, dst, view, source.messageId);
            && (s.limitation.NotQueried? <==> successes.None? || failures.None?)
            && (s.limitation.NoHeads? <==> !s.lifecycle.Unresolved? && (sourceHead.None? || view.head.None?))
            && (s.limitation.RelayFailed? <==> s.lifecycle.Failed? && sourceHead.Some? && view.head.Some?)
            && (s.limitation.NoRelayReceipt? || s.limitation.NoFinalization? <==> s.lifecycle.Unresolved? && !s.limitation.NotQueried?)
            && (s.limitation.NoRelayReceipt? ==> view.receipts(successes.value[0].transactionHash).None?)
            && (s.limitation.NoFinalization? ==> view.receipts(successes.value[0].transactionHash).Some?)
            && s.arrival == if successes.None? || failures.None? || successes.value + failures.value == [] then NOWHERE
                            else ArrivalAt((successes.value + failures.value)[0], view)
  {
  }

  // ----- the source side

  ghost predicate Logged(h: Hashes, logs: seq<Log>, messenger: string, m: SentMessage) {
    && m.log in logs && SentIn(h, m.log, messenger).Some?
    && m == WithValue(h, logs, messenger, SentIn(h, m.log, messenger).value)
  }

  /** An initiation and a version-1 message in one receipt agree on everything, and their route is registered. */
  ghost predicate SourceProved(b: OPStack, src: Endpoint, dst: Endpoint, candidate: TransferItem, logs: seq<Log>, e: Event, m: SentMessage,
                               route: Route, source: Source)
  {
    && e.log in logs && InitiationIn(b.hashes, e.log, src.bridge) == Some(e)
    && Logged(b.hashes, logs, src.messenger, m) && MessageMatches(b.hashes, m, e, src.bridge, dst.bridge)
    && WordFields(m.message) && VersionOne(m.message.nonce)
    && route in Routes(b) && Fits(route, src.network, dst.network, e)
    && MessageId(b.hashes, m.message) == Some(source.messageId)
    && source.protocol == b.protocol && source.bridgeName == b.bridgeName
    && source.transactionHash == Lower(candidate.hash) && source.timestamp == candidate.timestamp
    && source.logReference == LogReference(e.log) && source.blockNumber == LogBlock(e.log) && source.blockHash == e.log.blockHash
    && source.recipient == e.to && source.amount == Decimal(e.amount) && source.asset == route.asset
    && source.sourceToken == e.localToken && source.destinationToken == e.remoteToken
    && source.sourceBridge == src.bridge && source.destinationBridge == dst.bridge
    && source.sourceNetwork == src.network && source.destinationNetwork == dst.network
  }

  lemma MessageLogged(h: Hashes, logs: seq<Log>, messenger: string, m: SentMessage)
    requires m in ValuedMessages(h, logs, messenger)
    ensures Logged(h, logs, messenger, m)
  {
    var raw := SentMessages(h, logs, messenger);
    var i :| 0 <= i < |raw| && m == WithValue(h, logs, messenger, raw[i]);
    assert raw[i] in raw;
    SentMessagesExactly(h, logs, messenger, raw[i]);
  }

  lemma SettledIsProved(b: OPStack, src: Endpoint, dst: Endpoint, candidate: TransferItem, logs: seq<Log>, e: Event)
    returns (m: SentMessage, route: Route)
    requires e in Initiations(b.hashes, logs, src.bridge)
    requires Settle(b, src, dst, candidate, ValuedMessages(b.hashes, logs, src.messenger), e).Accepted?
    ensures SourceProved(b, src, dst, candidate, logs, e, m, route,
                         Settle(b, src, dst, candidate, ValuedMessages(b.hashes, logs, src.messenger), e).source)
  {
    var messages := ValuedMessages(b.hashes, logs, src.messenger);
    m := MatchingMessage(b.hashes, messages, e, src.bridge, dst.bridge).value;
    route := CanonicalRoute(b, src.network, dst.network, e).value;
    InitiationsExactly(b.hashes, logs, src.bridge, e);
    MessageLogged(b.hashes, logs, src.messenger, m);
    PreimageExactly(m.message);
  }

  // ----- a message ID names one message

  /** The pre-images of the two messages do not collide. */
  ghost predicate NoCollision(h: Hashes, m: Message, n: Message)
    requires Preimage(m).Some? && Preimage(n).Some?
  {
    h.keccak(Preimage(m).value) == h.keccak(Preimage(n).value) ==> Preimage(m) == Preimage(n)
  }

  lemma DecodedAddress(word: seq<byte>)
    ensures WordAddress(word) == "" || IsAddress(WordAddress(word))
  {
    if |word| == WORD {
      assert |word[12..]| == 20;
    }
  }

  lemma DynamicBytesFit(data: string, offsetWord: seq<byte>)
    ensures DynamicBytes(data, offsetWord).Some? ==> |DynamicBytes(data, offsetWord).value| <= MAX_BYTES
  {
  }

  lemma LoggedIsWellFormed(h: Hashes, logs: seq<Log>, messenger: string, m: SentMessage)
    requires Logged(h, logs, messenger, m)
    ensures m.message.sender == "" || IsAddress(m.message.sender)
    ensures m.message.target == "" || IsAddress(m.message.target)
    ensures |m.message.message| <= MAX_BYTES
  {
    var words := AbiWords(m.log.data).value;
    var raw := SentIn(h, m.log, messenger).value;
    DecodedAddress(words[0]);
    DecodedAddress(TopicWord(m.log.topics[1]));
    DynamicBytesFit(m.log.data, words[1]);
    assert raw.message.sender == WordAddress(words[0]) && raw.message.target == WordAddress(TopicWord(m.log.topics[1]));
    assert raw.message.message == DynamicBytes(m.log.data, words[1]).value;
  }

  lemma TextIsInjective(x: seq<byte>, y: seq<byte>)
    requires AddressText(x) == AddressText(y)
    ensures x == y
  {
    assert AddressText(x)[2..] == HexEncode(x) && AddressText(y)[2..] == HexEncode(y);
    HexRoundTrip(x);
    HexRoundTrip(y);
  }

  /** Two messages that are used for this pair of bridges have the same ID only if they agree in every field. */
  lemma MessageIdNamesMessage(h: Hashes, src: Endpoint, dst: Endpoint, logs: seq<Log>, m: SentMessage, e: Event,
                              logs': seq<Log>, n: SentMessage, e': Event)
    requires src.bridge != "" && dst.bridge != ""
    requires Logged(h, logs, src.messenger, m) && MessageMatches(h, m, e, src.bridge, dst.bridge)
    requires Logged(h, logs', src.messenger, n) && MessageMatches(h, n, e', src.bridge, dst.bridge)
    requires MessageId(h, m.message).Some? && MessageId(h, m.message) == MessageId(h, n.message)
    requires NoCollision(h, m.message, n.message)
    ensures m.message == n.message
  {
    LoggedIsWellFormed(h, logs, src.messenger, m);
    LoggedIsWellFormed(h, logs', src.messenger, n);
    TextIsInjective(h.keccak(Preimage(m.message).value), h.keccak(Preimage(n.message).value));
    assert |Lower(m.message.sender)| == |Lower(src.bridge)| && |Lower(n.message.sender)| == |Lower(src.bridge)|;
    assert |Lower(m.message.target)| == |Lower(dst.bridge)| && |Lower(n.message.target)| == |Lower(dst.bridge)|;
    PreimageIsInjective(m.message, n.message);
  }

  // ----- both sides

  ghost predicate Proved(b: OPStack, src: Endpoint, dst: Endpoint, ts: seq<TransferItem>, sourceView: View, view: View, t: Transition) {
    exists candidate, e, m, route :: ProvedBy(b, src, dst, ts, sourceView, view, t, candidate, e, m, route)
  }

  /** Candidate, initiation, message and route stand behind the transition, and the destination finalized the same transfer. */
  ghost predicate ProvedBy(b: OPStack, src: Endpoint, dst: Endpoint, ts: seq<TransferItem>, sourceView: View, view: View, t: Transition,
                           candidate: TransferItem, e: Event, m: SentMessage, route: Route)
  {
    && candidate in ts && IsCandidate(candidate, src.bridge)
    && sourceView.receipts(candidate.hash).Some?
    && SourceProved(b, src, dst, candidate, sourceView.receipts(candidate.hash).value, e, m, route, t.source)
    && RelayProved(b.hashes, dst, view, t.source.messageId, e)
    && var relay := Successes(b.hashes, dst, view, t.source.messageId).value[0];
       && t.state.arrival == ArrivalAt(relay, view)
       && (t.state.lifecycle.Finalized? <==>
             BothConfirmed(src, dst, LogBlock(e.log), sourceView.head, LogBlock(relay), view.head))
  }

  /** Every transfer to the bridge is represented by exactly one candidate of its transaction. */
  lemma {:induction false} CandidatesExactly(ts: seq<TransferItem>, bridge: string)
    ensures forall c :: c in Candidates(ts, bridge) ==> c in ts && IsCandidate(c, bridge)
    ensures forall t :: t in ts && IsCandidate(t, bridge) ==> t.hash in HashesOf(Candidates(ts, bridge))
    ensures forall i, j :: 0 <= i < j < |Candidates(ts, bridge)| ==> Candidates(ts, bridge)[i].hash != Candidates(ts, bridge)[j].hash
  {
    if ts != [] {
      var k := |ts| - 1;
      CandidatesExactly(ts[..k], bridge);
      assert ts == ts[..k] + [ts[k]];
      var front, all := Candidates(ts[..k], bridge), Candidates(ts, bridge);
      assert forall c :: c in front ==> c in all && c.hash in HashesOf(all);
      assert forall i :: 0 <= i < |front| ==> front[i].hash in HashesOf(front);
      if all != front {
        assert all == front + [ts[k]];
        assert ts[k] in all;
      }
    }
  }

  ghost predicate FromSome(b: OPStack, src: Endpoint, dst: Endpoint, candidates: seq<TransferItem>, sourceView: View, view: View, t: Transition) {
    exists c :: c in candidates && t in Resolved(b, src, dst, c, sourceView, view)
  }

  lemma {:induction false} Gathered(candidates: seq<TransferItem>, resolve: TransferItem -> seq<Transition>, t: Transition)
    ensures t in Gather(candidates, resolve) <==> exists c :: c in candidates && t in resolve(c)
  {
    if candidates != [] {
      var k := |candidates| - 1;
      Gathered(candidates[..k], resolve, t);
      assert candidates == candidates[..k] + [candidates[k]];
    }
  }

  ghost predicate Reports(b: OPStack, network: string, clients: map<string, View>) {
    var pair := Endpoints(b, network);
    pair.Some? && pair.value.0.network in clients && pair.value.1.network in clients
  }

  /** The evidence is what the candidates resolve to. */
  lemma EvidenceExactly(b: OPStack, network: string, ts: seq<TransferItem>, clients: map<string, View>, t: Transition)
    ensures t in Evidence(b, network, ts, clients) <==>
            Reports(b, network, clients) &&
            var (src, dst) := Endpoints(b, network).value;
            FromSome(b, src, dst, Candidates(ts, src.bridge), clients[src.network], clients[dst.network], t)
  {
    if Reports(b, network, clients) {
      var (src, dst) := Endpoints(b, network).value;
      var resolve := Resolver(b, src, dst, clients[src.network], clients[dst.network]);
      var all := Gather(Candidates(ts, src.bridge), resolve);
      SameMembers(Sort(all, EarlierId), all);
      Gathered(Candidates(ts, src.bridge), resolve, t);
    }
  }

  ghost predicate IdsInOrder(ts: seq<Transition>) {
    forall i, j :: 0 <= i < j < |ts| ==> !StringLess(ts[j].id, ts[i].id)
  }

  /** It comes by ascending transition ID. */
  lemma EvidenceAscends(b: OPStack, network: string, ts: seq<TransferItem>, clients: map<string, View>)
    ensures IdsInOrder(Evidence(b, network, ts, clients))
  {
    if Reports(b, network, clients) {
      var (src, dst) := Endpoints(b, network).value;
      IdsAscend(Gather(Candidates(ts, src.bridge), Resolver(b, src, dst, clients[src.network], clients[dst.network])));
    }
  }

  lemma IdsAscend(all: seq<Transition>)
    ensures IdsInOrder(Sort(all, EarlierId))
  {
    StringLessIsOrder();
    SortAscends(all, EarlierId);
    var s := Sort(all, EarlierId);
    forall i, j | 0 <= i < j < |s| ensures !StringLess(s[j].id, s[i].id) {
      assert !EarlierId(s[j], s[i]);
    }
  }

  lemma CandidateIsProved(b: OPStack, src: Endpoint, dst: Endpoint, ts: seq<TransferItem>, candidate: TransferItem, sourceView: View, view: View,
                          t: Transition)
    requires candidate in ts && IsCandidate(candidate, src.bridge) && t in Resolved(b, src, dst, candidate, sourceView, view)
    requires t.state.lifecycle.Relayed? || t.state.lifecycle.Finalized?
    ensures Proved(b, src, dst, ts, sourceView, view, t)
  {
    var logs := sourceView.receipts(candidate.hash).value;
    var messages, es := ValuedMessages(b.hashes, logs, src.messenger), Initiations(b.hashes, logs, src.bridge);
    var i :| 0 <= i < |es| && t == TransitionFor(b, src, dst, candidate, messages, es[i], sourceView.head, view);
    assert es[i] in es;
    var m, route := SettledIsProved(b, src, dst, candidate, logs, es[i]);
    StagesExactly(b.hashes, t.source, es[i], src, dst, sourceView.head, view);
    assert ProvedBy(b, src, dst, ts, sourceView, view, t, candidate, es[i], m, route);
  }

  /** A transition is reported as relayed or finalized only with both sides proved. */
  lemma EvidenceIsSound(b: OPStack, network: string, ts: seq<TransferItem>, clients: map<string, View>, t: Transition)
    requires t in Evidence(b, network, ts, clients) && (t.state.lifecycle.Relayed? || t.state.lifecycle.Finalized?)
    ensures Reports(b, network, clients)
    ensures var (src, dst) := Endpoints(b, network).value; Proved(b, src, dst, ts, clients[src.network], clients[dst.network], t)
  {
    EvidenceExactly(b, network, ts, clients, t);
    var (src, dst) := Endpoints(b, network).value;
    var c :| c in Candidates(ts, src.bridge) && t in Resolved(b, src, dst, c, clients[src.network], clients[dst.network]);
    CandidatesExactly(ts, src.bridge);
    CandidateIsProved(b, src, dst, ts, c, clients[src.network], clients[dst.network], t);
  }

  /** Nothing is dropped: each initiation in the receipt of a transfer to the bridge is reported. */
  lemma EvidenceIsComplete(b: OPStack, network: string, ts: seq<TransferItem>, clients: map<string, View>, transfer: TransferItem, e: Event)
    requires Reports(b, network, clients) && transfer in ts && IsCandidate(transfer, Endpoints(b, network).value.0.bridge)
    requires var sourceView := clients[Endpoints(b, network).value.0.network];
             sourceView.receipts(transfer.hash).Some?
             && e in Initiations(b.hashes, sourceView.receipts(transfer.hash).value, Endpoints(b, network).value.0.bridge)
    ensures var (src, dst) := Endpoints(b, network).value;
            var logs := clients[src.network].receipts(transfer.hash).value;
            exists c :: c in ts && c.hash == transfer.hash
                        && TransitionFor(b, src, dst, c, ValuedMessages(b.hashes, logs, src.messenger), e, clients[src.network].head, clients[dst.network])
                           in Evidence(b, network, ts, clients)
  {
    var (src, dst) := Endpoints(b, network).value;
    var sourceView, view := clients[src.network], clients[dst.network];
    CandidatesExactly(ts, src.bridge);
    var c :| c in Candidates(ts, src.bridge) && c.hash == transfer.hash;
    var logs := sourceView.receipts(transfer.hash).value;
    var messages, es := ValuedMessages(b.hashes, logs, src.messenger), Initiations(b.hashes, logs, src.bridge);
    var i :| 0 <= i < |es| && es[i] == e;
    var t := TransitionFor(b, src, dst, c, messages, e, sourceView.head, view);
    assert TransitionsFor(b, src, dst, c, messages, es, sourceView.head, view)[i] == t;
    assert t in Resolved(b, src, dst, c, sourceView, view);
    EvidenceExactly(b, network, ts, clients, t);
  }

  // ----- which routes are reachable

  lemma DecodedTokens(h: Hashes, log: Log, bridge: string, e: Event)
    requires InitiationIn(h, log, bridge) == Some(e)
    ensures |e.localToken| == 0 || |e.localToken| == 42
    ensures |e.remoteToken| == 0 || |e.remoteToken| == 42
  {
  }

  /** The registered WETH address has 39 hexadecimal digits, so no decoded token equals it: an initiation has a
      route exactly when it names no tokens. */
  lemma RouteExactly(b: OPStack, source: string, destination: string, log: Log, bridge: string, e: Event)
    requires InitiationIn(b.hashes, log, bridge) == Some(e)
    requires (source == ETHEREUM && destination == b.destinationNet) || (source == b.destinationNet && destination == ETHEREUM)
    ensures CanonicalRoute(b, source, destination, e).Some? <==> e.localToken == "" && e.remoteToken == ""
  {
    DecodedTokens(b.hashes, log, bridge, e);
    var routes := Routes(b);
    assert Fits(routes[0], source, destination, e) || Fits(routes[1], source, destination, e) <==> e.localToken == "" && e.remoteToken == "";
    assert |ETHEREUM_WETH| == 41;
    assert !Fits(routes[2], source, destination, e) && !Fits(routes[3], source, destination, e);
    assert routes[0] in routes && routes[1] in routes;
  }
}
