/** What the adapter's report says in plain terms: why an initiation stays unresolved, what stands behind every named
    message, which transitions share an ID, and what the store keeps. */
module BridgeLaws {
  import opened Options
  import opened Ordering
  import opened Text
  import opened Bytes
  import opened Transfers
  import opened BridgeCodec
  import opened BridgeEvents
  import opened Bridge
  import opened BridgeSoundness
  import opened BridgeLifecycle

  // ----- why an initiation is not resolved

  /** A message of the receipt, with the value the receipt gives it, that fits the initiation. */
  ghost predicate Fitting(b: OPStack, src: Endpoint, dst: Endpoint, logs: seq<Log>, e: Event, m: SentMessage) {
    Logged(b.hashes, logs, src.messenger, m) && MessageMatches(b.hashes, m, e, src.bridge, dst.bridge)
  }

  lemma LoggedIsValued(h: Hashes, logs: seq<Log>, messenger: string, m: SentMessage)
    requires Logged(h, logs, messenger, m)
    ensures m in ValuedMessages(h, logs, messenger)
  {
    var raw := SentIn(h, m.log, messenger).value;
    SentMessagesExactly(h, logs, messenger, raw);
    var ms := SentMessages(h, logs, messenger);
    var i :| 0 <= i < |ms| && ms[i] == raw;
    assert ValuedMessages(h, logs, messenger)[i] == m;
  }

  /** No message: none of the receipt fits. No route: one fits, but the route is not registered. Old version: the first that
      fits is not of version 1. Otherwise the initiation is accepted under the ID of the first that fits. */
  lemma SettledExactly(b: OPStack, src: Endpoint, dst: Endpoint, candidate: TransferItem, logs: seq<Log>, e: Event)
    ensures var messages := ValuedMessages(b.hashes, logs, src.messenger);
            var settled := Settle(b, src, dst, candidate, messages, e);
            && (settled == Rejected(NoMessage) <==> forall m :: !Fitting(b, src, dst, logs, e, m))
            && (settled == Rejected(NoRoute) <==>
                  (exists m :: Fitting(b, src, dst, logs, e, m))
                  && forall route :: route in Routes(b) ==> !Fits(route, src.network, dst.network, e))
            && (settled.Rejected? ==> settled.why in {NoMessage, NoRoute, OldVersion})
            && (settled == Rejected(OldVersion) ==>
                  exists m :: Fitting(b, src, dst, logs, e, m) && !(WordFields(m.message) && VersionOne(m.message.nonce)))
            && (settled.Accepted? ==>
                  exists m :: Fitting(b, src, dst, logs, e, m) && WordFields(m.message) && VersionOne(m.message.nonce)
                              && MessageId(b.hashes, m.message) == Some(settled.source.messageId))
  {
    var messages := ValuedMessages(b.hashes, logs, src.messenger);
    var first := MatchingMessage(b.hashes, messages, e, src.bridge, dst.bridge);
    if first.Some? {
      MessageLogged(b.hashes, logs, src.messenger, first.value);
      PreimageExactly(first.value.message);
      assert Fitting(b, src, dst, logs, e, first.value);
    } else {
      forall m ensures !Fitting(b, src, dst, logs, e, m) {
        if Fitting(b, src, dst, logs, e, m) {
          LoggedIsValued(b.hashes, logs, src.messenger, m);
        }
      }
    }
  }

  /** Registered are four routes: ether, and the wrapped ether of both sides, each in both directions. */
  lemma RoutesExactly(b: OPStack, route: Route)
    requires b.l2Weth != ""
    ensures var weth := "0xc02aa39b223fe8d0a0e5c4f27ead9083c756cc2";
            route in Routes(b) <==>
            || route == RouteOf(Side(ETHEREUM, ""), Side(b.destinationNet, ""))
            || route == RouteOf(Side(b.destinationNet, ""), Side(ETHEREUM, ""))
            || route == RouteOf(Side(ETHEREUM, weth), Side(b.destinationNet, b.l2Weth))
            || route == RouteOf(Side(b.destinationNet, b.l2Weth), Side(ETHEREUM, weth))
  {
    var routes := Routes(b);
    assert |routes| == 4;
  }

  datatype Side = Side(network: string, token: string)

  function RouteOf(source: Side, destination: Side): Route {
    Route(source.network, destination.network, source.token, destination.token,
          if source.token == "" then Asset("NATIVE", "", "ETH", 18) else Asset("ERC20", source.token, "WETH", 18))
  }

  // ----- what stands behind a message that is named

  ghost predicate Backs(b: OPStack, src: Endpoint, dst: Endpoint, candidate: TransferItem, logs: seq<Log>, sourceHead: Option<nat>, view: View,
                        t: Transition, e: Event, m: SentMessage, route: Route)
  {
    && SourceProved(b, src, dst, candidate, logs, e, m, route, t.source)
    && t.state == Completed(b.hashes, t.source, e, src, dst, sourceHead, view) && t.id == TransitionId(b.hashes, t.source, t.state)
  }

  /** Whatever its lifecycle: a transition that names a message has its source side proved, and its state is what the
      destination answers for it. */
  lemma NamedIsProved(b: OPStack, src: Endpoint, dst: Endpoint, candidate: TransferItem, sourceView: View, view: View, t: Transition)
    returns (e: Event, m: SentMessage, route: Route)
    requires t in Resolved(b, src, dst, candidate, sourceView, view) && t.source.messageId != ""
    ensures sourceView.receipts(candidate.hash).Some?
    ensures Backs(b, src, dst, candidate, sourceView.receipts(candidate.hash).value, sourceView.head, view, t, e, m, route)
  {
    var logs := sourceView.receipts(candidate.hash).value;
    var messages, es := ValuedMessages(b.hashes, logs, src.messenger), Initiations(b.hashes, logs, src.bridge);
    var i :| 0 <= i < |es| && t == TransitionFor(b, src, dst, candidate, messages, es[i], sourceView.head, view);
    assert es[i] in es;
    e := es[i];
    m, route := SettledIsProved(b, src, dst, candidate, logs, e);
  }

  /** And one that names none says nothing but which transaction it is about, and why. */
  lemma UnnamedIsBlank(b: OPStack, src: Endpoint, dst: Endpoint, candidate: TransferItem, sourceView: View, view: View, t: Transition)
    requires t in Resolved(b, src, dst, candidate, sourceView, view) && t.source.messageId == ""
    ensures t.state.lifecycle.Unresolved? && t.state.arrival == NOWHERE && !t.state.sourceConfirmed && !t.state.destinationConfirmed
    ensures t.source.transactionHash == Lower(candidate.hash) && t.source.recipient == "" && t.source.amount == ""
    ensures t.source.sourceBridge == src.bridge && t.source.destinationBridge == dst.bridge && t.source.protocol == b.protocol
    ensures t.state.limitation == NoReceipt <==> sourceView.receipts(candidate.hash).None?
  {
    if sourceView.receipts(candidate.hash).Some? {
      var logs := sourceView.receipts(candidate.hash).value;
      var messages, es := ValuedMessages(b.hashes, logs, src.messenger), Initiations(b.hashes, logs, src.bridge);
      var i :| 0 <= i < |es| && t == TransitionFor(b, src, dst, candidate, messages, es[i], sourceView.head, view);
      AcceptedIsNamed(b, src, dst, candidate, messages, es[i]);
    }
  }

  lemma AcceptedIsNamed(b: OPStack, src: Endpoint, dst: Endpoint, candidate: TransferItem, messages: seq<SentMessage>, e: Event)
    ensures var settled := Settle(b, src, dst, candidate, messages, e);
            if settled.Accepted? then settled.source.messageId != "" else settled.why in {NoMessage, NoRoute, OldVersion}
  {
    SettledIsNamed(b, src, dst, candidate, MatchingMessage(b.hashes, messages, e, src.bridge, dst.bridge),
                   CanonicalRoute(b, src.network, dst.network, e), e);
  }

  lemma SettledIsNamed(b: OPStack, src: Endpoint, dst: Endpoint, candidate: TransferItem, sent: Option<SentMessage>, route: Option<Route>, e: Event)
    ensures var settled := SettleOver(b, src, dst, candidate, sent, route, e);
            if settled.Accepted? then settled.source.messageId != "" else settled.why in {NoMessage, NoRoute, OldVersion}
  {
    if sent.Some? && MessageId(b.hashes, sent.value.message).Some? {
      assert |MessageId(b.hashes, sent.value.message).value| >= 2;
    }
  }

  // ----- which transactions are looked at

  /** Every transaction with a transfer to the bridge is looked at once, and no other. */
  lemma CandidatesOnce(ts: seq<TransferItem>, bridge: string)
    ensures var cs := Candidates(ts, bridge);
            && (forall c :: c in cs ==> c in ts && SameFold(c.to, bridge) && c.hash != "")
            && (forall t :: t in ts && SameFold(t.to, bridge) && t.hash != "" ==> exists c :: c in cs && c.hash == t.hash)
            && (forall i, j :: 0 <= i < j < |cs| ==> cs[i].hash != cs[j].hash)
  {
    CandidatesExactly(ts, bridge);
    forall t | t in ts && SameFold(t.to, bridge) && t.hash != "" ensures exists c :: c in Candidates(ts, bridge) && c.hash == t.hash {
      assert t.hash in HashesOf(Candidates(ts, bridge));
    }
  }

  // ----- which transitions share an ID

  predicate Unbarred(s: string) {
    '|' !in s
  }

  predicate PlainFields(source: Source, s: State) {
    && Unbarred(source.protocol) && Unbarred(source.messageId) && Unbarred(source.transactionHash)
    && Unbarred(s.arrival.transactionHash) && Unbarred(s.arrival.logReference)
  }

  function Material(source: Source, s: State): string {
    source.protocol + "|" + source.messageId + "|" + LifecycleName(s.lifecycle) + "|" + source.transactionHash + "|"
    + s.arrival.transactionHash + "|" + s.arrival.logReference
  }

  /** The digest tells these two texts apart. */
  ghost predicate ToldApart(h: Hashes, m: string, n: string) {
    ShortDigest(h, m) == ShortDigest(h, n) ==> m == n
  }

  lemma NamesDiffer(a: Lifecycle, b: Lifecycle)
    ensures Unbarred(LifecycleName(a)) && (LifecycleName(a) == LifecycleName(b) <==> a == b)
  {
    assert LifecycleName(Initiated)[0] == 'i' && LifecycleName(Relayed)[0] == 'r' && LifecycleName(Unresolved)[0] == 'u';
    assert LifecycleName(Failed)[1] == 'a' && LifecycleName(Finalized)[1] == 'i';
  }

  lemma MaterialParts(source: Source, s: State)
    ensures Material(source, s) == source.protocol + "|" + (source.messageId + "|" + (LifecycleName(s.lifecycle) + "|" +
              (source.transactionHash + "|" + (s.arrival.transactionHash + "|" + s.arrival.logReference))))
  {
  }

  lemma MaterialExactly(a: Source, s: State, b: Source, t: State)
    requires PlainFields(a, s) && PlainFields(b, t)
    ensures Material(a, s) == Material(b, t) <==>
            && a.protocol == b.protocol && a.messageId == b.messageId && s.lifecycle == t.lifecycle && a.transactionHash == b.transactionHash
            && s.arrival.transactionHash == t.arrival.transactionHash && s.arrival.logReference == t.arrival.logReference
  {
    NamesDiffer(s.lifecycle, t.lifecycle);
    NamesDiffer(t.lifecycle, s.lifecycle);
    MaterialParts(a, s);
    MaterialParts(b, t);
    if Material(a, s) == Material(b, t) {
      var x4, y4 := s.arrival.transactionHash + "|" + s.arrival.logReference, t.arrival.transactionHash + "|" + t.arrival.logReference;
      var x3, y3 := a.transactionHash + "|" + x4, b.transactionHash + "|" + y4;
      var x2, y2 := LifecycleName(s.lifecycle) + "|" + x3, LifecycleName(t.lifecycle) + "|" + y3;
      SplitAt('|', a.protocol, a.messageId + "|" + x2, b.protocol, b.messageId + "|" + y2);
      SplitAt('|', a.messageId, x2, b.messageId, y2);
      SplitAt('|', LifecycleName(s.lifecycle), x3, LifecycleName(t.lifecycle), y3);
      SplitAt('|', a.transactionHash, x4, b.transactionHash, y4);
      SplitAt('|', s.arrival.transactionHash, s.arrival.logReference, t.arrival.transactionHash, t.arrival.logReference);
    }
  }

  /** Two transitions of a bridge share an ID if and only if they are about the same message of the same transaction, in the
      same lifecycle, and arrived in the same place. */
  lemma TransitionIdExactly(h: Hashes, a: Source, s: State, b: Source, t: State)
    requires PlainFields(a, s) && PlainFields(b, t) && a.protocol == b.protocol && ToldApart(h, Material(a, s), Material(b, t))
    ensures TransitionId(h, a, s) == TransitionId(h, b, t) <==>
            && a.messageId == b.messageId && s.lifecycle == t.lifecycle && a.transactionHash == b.transactionHash
            && s.arrival.transactionHash == t.arrival.transactionHash && s.arrival.logReference == t.arrival.logReference
  {
    MaterialExactly(a, s, b, t);
    IdOfMaterial(h, a, s);
    IdOfMaterial(h, b, t);
    var x, y := TransitionId(h, a, s), TransitionId(h, b, t);
    if x == y {
      assert ShortDigest(h, Material(a, s)) == x[|a.protocol| + 1..] && ShortDigest(h, Material(b, t)) == y[|b.protocol| + 1..];
    }
  }

  lemma IdOfMaterial(h: Hashes, source: Source, s: State)
    ensures TransitionId(h, source, s) == source.protocol + ":" + ShortDigest(h, Material(source, s))
  {
  }

  /** Without a transaction there is no reference. */
  lemma NoLogReference(a: Log)
    ensures LogReference(a) == "" <==> a.transactionHash == ""
  {
  }

  /** A log reference names the log: transaction and index, in either case. */
  lemma LogReferenceExactly(a: Log, b: Log)
    requires a.transactionHash != "" && b.transactionHash != "" && ':' !in a.transactionHash && ':' !in b.transactionHash
    ensures LogReference(a) == LogReference(b) <==>
            SameFold(a.transactionHash, b.transactionHash) && SameFold(TrimPrefix(a.logIndex, "0x"), TrimPrefix(b.logIndex, "0x"))
  {
    var x, y := Lower(a.transactionHash), Lower(b.transactionHash);
    var i, j := Lower(TrimPrefix(a.logIndex, "0x")), Lower(TrimPrefix(b.logIndex, "0x"));
    assert LogReference(a) == x + ":" + ("log:" + i) && LogReference(b) == y + ":" + ("log:" + j);
    if LogReference(a) == LogReference(b) {
      NoColonFolded(a.transactionHash);
      NoColonFolded(b.transactionHash);
      SplitAt(':', x, "log:" + i, y, "log:" + j);
      assert i == ("log:" + i)[4..] && j == ("log:" + j)[4..];
    }
  }

  lemma NoColonFolded(s: string)
    requires ':' !in s
    ensures ':' !in Lower(s)
  {
    forall i | 0 <= i < |s| ensures Lower(s)[i] != ':' {
      assert s[i] in s;
    }
  }

  // ----- the store

  /** The store never rewrites a row: the first transition of an ID stays. */
  lemma {:induction false} InsertedExactly(rows: map<string, Transition>, ts: seq<Transition>, id: string)
    ensures id in InsertAll(rows, ts) <==> id in rows || exists t :: t in ts && t.id == id
    ensures id in rows ==> InsertAll(rows, ts)[id] == rows[id]
    ensures id in InsertAll(rows, ts) && id !in rows ==>
              exists i :: 0 <= i < |ts| && ts[i].id == id && InsertAll(rows, ts)[id] == ts[i] && forall j :: 0 <= j < i ==> ts[j].id != id
  {
    if ts != [] {
      var k := |ts| - 1;
      InsertedExactly(rows, ts[..k], id);
      assert ts == ts[..k] + [ts[k]];
      if id !in rows && id in InsertAll(rows, ts[..k]) {
        var i :| 0 <= i < k && ts[..k][i].id == id && InsertAll(rows, ts[..k])[id] == ts[..k][i] && forall j :: 0 <= j < i ==> ts[..k][j].id != id;
        assert ts[i].id == id && forall j :: 0 <= j < i ==> ts[j].id == ts[..k][j].id;
      }
    }
  }

  /** What the database refuses: a transition without an ID, a protocol, or, unless it is unresolved, a message ID. */
  lemma StorableExactly(t: Transition)
    ensures !Storable(t) <==> t.id == "" || t.source.protocol == "" || (t.source.messageId == "" && t.state.lifecycle != Unresolved)
  {
  }

  // ----- whose logs count

  /** Only logs of the bridge under the initiation topic of their kind initiate, and they say what their topics and words hold. */
  lemma OnlyBridgeInitiates(h: Hashes, log: Log, bridge: string, e: Event)
    requires InitiationIn(h, log, bridge) == Some(e)
    ensures e.log == log && SameFold(log.address, bridge) && log.topics != [] && AbiWords(log.data).Some?
    ensures Lower(log.topics[0]) == Topic(h, if e.isErc20 then Erc20Initiated else EthInitiated)
    ensures HoldsFields(log, e)
  {
  }

  /** An ether event names its parties in topics and its amount in the first word; a token event names tokens and sender in
      topics, recipient and amount in the first two words. */
  predicate HoldsFields(log: Log, e: Event) {
    var words := AbiWords(log.data);
    && words.Some?
    && if e.isErc20 then
         && |log.topics| == 4 && |words.value| >= 3
         && e.localToken == WordAddress(TopicWord(log.topics[1])) && e.remoteToken == WordAddress(TopicWord(log.topics[2]))
         && e.from == WordAddress(TopicWord(log.topics[3])) && e.to == WordAddress(words.value[0]) && e.amount == Number(words.value[1])
       else
         && |log.topics| == 3 && |words.value| >= 2 && e.localToken == "" && e.remoteToken == ""
         && e.from == WordAddress(TopicWord(log.topics[1])) && e.to == WordAddress(TopicWord(log.topics[2]))
         && e.amount == Number(words.value[0])
  }

  /** Only logs of the bridge under the finalization topic of the kind asked for finalize, and only the same facts. */
  lemma OnlyBridgeFinalizes(h: Hashes, log: Log, bridge: string, expected: Event)
    requires Finalizes(h, log, bridge, expected)
    ensures SameFold(log.address, bridge) && log.topics != []
    ensures SameFold(log.topics[0], Topic(h, if expected.isErc20 then Erc20Finalized else EthFinalized))
    ensures exists e :: HoldsFields(log, e) && e.isErc20 == expected.isErc20 && SameFold(e.from, expected.from) && SameFold(e.to, expected.to)
                        && e.amount == expected.amount
                        && (e.isErc20 ==> SameFold(e.localToken, expected.remoteToken) && SameFold(e.remoteToken, expected.localToken))
  {
    var e := FinalizationIn(h, log, bridge, expected.isErc20).value;
    assert HoldsFields(log, e);
  }

  /** Only logs of the messenger under the message topic send, and they hold the target in a topic and the rest in words. */
  lemma OnlyMessengerSends(h: Hashes, log: Log, messenger: string, m: SentMessage)
    requires SentIn(h, log, messenger) == Some(m)
    ensures m.log == log && SameFold(log.address, messenger) && |log.topics| == 2 && SameFold(log.topics[0], Topic(h, SentMessageEvent))
    ensures var words := AbiWords(log.data);
            && words.Some? && |words.value| >= 4 && m.message.target == WordAddress(TopicWord(log.topics[1]))
            && m.message.sender == WordAddress(words.value[0]) && m.message.nonce == words.value[2] && m.message.gas == words.value[3]
            && DynamicBytes(log.data, words.value[1]) == Some(m.message.message)
  {
  }

  /** And only such logs under the extension topic, by the sender of the message, give it a value: the first of them. */
  lemma {:induction false} OnlyMessengerValues(h: Hashes, logs: seq<Log>, messenger: string, sender: string)
    requires ValueIn(h, logs, messenger, sender) != []
    ensures exists i :: 0 <= i < |logs| && IsFirstValue(h, logs, messenger, sender, i) && AbiWords(logs[i].data) == Some([ValueIn(h, logs, messenger, sender)])
  {
    if CarriesValue(h, logs[0], messenger, sender) {
      assert AbiWords(logs[0].data).value == [AbiWords(logs[0].data).value[0]];
      assert IsFirstValue(h, logs, messenger, sender, 0);
    } else {
      OnlyMessengerValues(h, logs[1..], messenger, sender);
      var i :| 0 <= i < |logs[1..]| && IsFirstValue(h, logs[1..], messenger, sender, i)
               && AbiWords(logs[1..][i].data) == Some([ValueIn(h, logs[1..], messenger, sender)]);
      LaterFirstValue(h, logs, messenger, sender, i);
    }
  }

  predicate Values(h: Hashes, log: Log, messenger: string, sender: string) {
    && SameFold(log.address, messenger) && |log.topics| == 2 && SameFold(log.topics[0], Topic(h, SentExtension))
    && SameFold(WordAddress(TopicWord(log.topics[1])), sender) && AbiWords(log.data).Some? && |AbiWords(log.data).value| == 1
  }

  ghost predicate IsFirstValue(h: Hashes, logs: seq<Log>, messenger: string, sender: string, i: int) {
    0 <= i < |logs| && Values(h, logs[i], messenger, sender) && forall j :: 0 <= j < i ==> !Values(h, logs[j], messenger, sender)
  }

  lemma LaterFirstValue(h: Hashes, logs: seq<Log>, messenger: string, sender: string, i: nat)
    requires logs != [] && !Values(h, logs[0], messenger, sender) && IsFirstValue(h, logs[1..], messenger, sender, i)
    ensures IsFirstValue(h, logs, messenger, sender, i + 1) && logs[i + 1] == logs[1..][i]
  {
    forall j | 0 <= j < i + 1 ensures !Values(h, logs[j], messenger, sender) {
      assert j > 0 ==> logs[j] == logs[1..][j - 1];
    }
  }

  /** A route is taken if and only if it is registered and its networks and tokens are those asked for. */
  lemma RouteTakenExactly(b: OPStack, source: string, destination: string, e: Event, route: Route)
    requires b.l2Weth != "" && b.destinationNet != ETHEREUM
    ensures FirstRoute(Routes(b), source, destination, e) == Some(route) <==>
              route in Routes(b) && route.sourceNetwork == source && route.destinationNetwork == destination
              && route.sourceToken == e.localToken && route.destinationToken == e.remoteToken
  {
    assert |Routes(b)| == 4;
  }

  /** Event data gives words exactly when it is a positive number of whole words, of at most a mebibyte: those words. */
  lemma AbiWordsExactly(data: seq<byte>)
    ensures AbiWords(AddressText(data)).Some? <==> data != [] && |data| % 32 == 0 && |data| <= 0x10_0000
    ensures var words := AbiWords(AddressText(data));
            words.Some? ==> |words.value| == |data| / 32
                            && forall i :: 0 <= i < |words.value| ==> words.value[i] == data[32 * i..32 * i + 32]
  {
    HexRoundTrip(data);
    assert TrimPrefix(AddressText(data), "0x") == HexEncode(data);
  }

  // ----- what is stored over a run

  predicate IsReported(b: OPStack, src: Endpoint, dst: Endpoint, network: string, trace: Trace, t: Transition) {
    t in Evidence(b, network, trace.ts, map[src.network := Observe(trace.source, trace.sourceOutage),
                                            dst.network := Observe(trace.destination, trace.outage)])
  }

  lemma {:induction false} LinkedExactly(linked: Transition -> bool, ts: seq<Transition>, t: Transition)
    ensures t in Linked(linked, ts) <==> t in ts && linked(t)
  {
    if ts != [] {
      LinkedExactly(linked, ts[..|ts| - 1], t);
    }
  }

  /** The trace reports a transition of that ID and links it. */
  ghost predicate Records(b: OPStack, src: Endpoint, dst: Endpoint, network: string, trace: Trace, id: string) {
    exists t :: IsReported(b, src, dst, network, trace, t) && trace.linked(t) && t.id == id
  }

  lemma ReportedIds(b: OPStack, src: Endpoint, dst: Endpoint, network: string, trace: Trace, id: string)
    ensures (exists t :: t in Reported(b, src, dst, network, trace) && t.id == id) <==> Records(b, src, dst, network, trace, id)
  {
    forall t ensures t in Reported(b, src, dst, network, trace) <==> IsReported(b, src, dst, network, trace, t) && trace.linked(t) {
      LinkedExactly(trace.linked, Evidence(b, network, trace.ts, map[src.network := Observe(trace.source, trace.sourceOutage),
                                                                     dst.network := Observe(trace.destination, trace.outage)]), t);
    }
  }

  lemma StoredStep(b: OPStack, src: Endpoint, dst: Endpoint, network: string, run: seq<Trace>, id: string)
    requires run != []
    ensures var k := |run| - 1;
            id in StoredAfter(b, src, dst, network, run) <==>
              id in StoredAfter(b, src, dst, network, run[..k]) || Records(b, src, dst, network, run[k], id)
  {
    var k := |run| - 1;
    InsertedExactly(StoredAfter(b, src, dst, network, run[..k]), Reported(b, src, dst, network, run[k]), id);
    ReportedIds(b, src, dst, network, run[k], id);
  }

  lemma {:induction false} SomeRecords(holds: seq<Trace> -> bool, records: Trace -> bool, run: seq<Trace>)
    requires !holds([]) && forall r :: r != [] ==> (holds(r) <==> holds(r[..|r| - 1]) || records(r[|r| - 1]))
    ensures holds(run) <==> exists trace :: trace in run && records(trace)
  {
    if run != [] {
      SomeRecords(holds, records, run[..|run| - 1]);
      assert run == run[..|run| - 1] + [run[|run| - 1]];
    }
  }

  /** Over every run the store holds exactly the IDs of the transitions some trace reported and linked. */
  lemma StoredExactly(b: OPStack, src: Endpoint, dst: Endpoint, network: string, run: seq<Trace>, id: string)
    ensures id in StoredAfter(b, src, dst, network, run) <==> exists trace :: trace in run && Records(b, src, dst, network, trace, id)
  {
    forall r: seq<Trace> | r != []
      ensures id in StoredAfter(b, src, dst, network, r) <==>
                id in StoredAfter(b, src, dst, network, r[..|r| - 1]) || Records(b, src, dst, network, r[|r| - 1], id)
    {
      StoredStep(b, src, dst, network, r, id);
    }
    SomeRecords(r => id in StoredAfter(b, src, dst, network, r), trace => Records(b, src, dst, network, trace, id), run);
  }

  /** What is stored under an ID stays. */
  lemma StoredStays(b: OPStack, src: Endpoint, dst: Endpoint, network: string, run: seq<Trace>, trace: Trace, id: string)
    requires id in StoredAfter(b, src, dst, network, run)
    ensures var later := StoredAfter(b, src, dst, network, run + [trace]);
            id in later && later[id] == StoredAfter(b, src, dst, network, run)[id]
  {
    assert (run + [trace])[..|run|] == run;
    InsertedExactly(StoredAfter(b, src, dst, network, run), Reported(b, src, dst, network, trace), id);
  }
}
