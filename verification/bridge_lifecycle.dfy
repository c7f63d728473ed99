/** Bridge transitions over time: chains that only grow, nodes that sometimes fail, and a store that never rewrites. */
module BridgeLifecycle {
  import opened Options
  import opened Text
  import opened Bytes
  import opened BridgeCodec
  import opened BridgeEvents
  import opened BridgeEncoding
  import opened Bridge
  import opened BridgeSoundness
  import opened Transfers

  // ----- chains and nodes

  datatype Chain = Chain(logs: seq<Log>, receipts: map<string, seq<Log>>, head: nat)

  /** Which calls a node fails, and the timestamps it happens to report. */
  datatype Outage = Outage(logs: (string, string, string) -> bool, receipts: string -> bool, head: bool, timestamp: nat -> int)

  predicate Hit(log: Log, address: string, topic: string, id: string) {
    SameFold(log.address, address) && |log.topics| >= 2 && log.topics[0] == topic && log.topics[1] == id
  }

  function Hits(logs: seq<Log>, address: string, topic: string, id: string): seq<Log> {
    if logs == [] then []
    else
      var k := |logs| - 1;
      Hits(logs[..k], address, topic, id) + if Hit(logs[k], address, topic, id) then [logs[k]] else []
  }

  function Observe(c: Chain, o: Outage): View {
    View((hash: string) => if o.receipts(hash) || hash !in c.receipts then None else Some(c.receipts[hash]),
         (address: string, topic: string, id: string) => if o.logs(address, topic, id) then None else Some(Hits(c.logs, address, topic, id)),
         if o.head then None else Some(c.head),
         o.timestamp)
  }

  /** Logs are only appended, receipts never change, heads never fall. */
  ghost predicate Extends(c: Chain, d: Chain) {
    && c.logs <= d.logs && c.head <= d.head
    && forall hash :: hash in c.receipts ==> hash in d.receipts && d.receipts[hash] == c.receipts[hash]
  }

  /** Every log belongs to a transaction whose receipt the chain holds. */
  ghost predicate WholeChain(c: Chain) {
    forall log :: log in c.logs ==> log.transactionHash in c.receipts
  }

  ghost predicate NoOutage(o: Outage) {
    && (forall address, topic, id :: !o.logs(address, topic, id)) && (forall hash :: !o.receipts(hash)) && !o.head
  }

  lemma ExtendsTransitive(c: Chain, d: Chain, e: Chain)
    requires Extends(c, d) && Extends(d, e)
    ensures Extends(c, e)
  {
    assert c.logs == e.logs[..|c.logs|];
  }

  lemma {:induction false} HitsGrow(logs: seq<Log>, more: seq<Log>, address: string, topic: string, id: string)
    requires logs <= more
    ensures Hits(logs, address, topic, id) <= Hits(more, address, topic, id)
    decreases |more|
  {
    if logs == more {
    } else {
      var k := |more| - 1;
      assert logs == more[..k][..|logs|];
      HitsGrow(logs, more[..k], address, topic, id);
    }
  }

  lemma {:induction false} HitsAreLogs(logs: seq<Log>, address: string, topic: string, id: string)
    ensures forall log :: log in Hits(logs, address, topic, id) ==> log in logs
  {
    if logs != [] {
      HitsAreLogs(logs[..|logs| - 1], address, topic, id);
    }
  }

  /** A query finds the logs of the address under that topic and message ID, and no others. */
  lemma {:induction false} HitsExactly(logs: seq<Log>, address: string, topic: string, id: string, log: Log)
    ensures log in Hits(logs, address, topic, id) <==>
            log in logs && SameFold(log.address, address) && |log.topics| >= 2 && log.topics[..2] == [topic, id]
  {
    if logs != [] {
      HitsExactly(logs[..|logs| - 1], address, topic, id, log);
    }
  }

  // ----- one message

  function Rank(l: Lifecycle): nat {
    match l
    case Initiated => 0
    case Failed => 1
    case Relayed => 2
    case Finalized => 3
    case Unresolved => 4
  }

  predicate SamePlace(a: Arrival, b: Arrival) {
    a.transactionHash == b.transactionHash && a.logReference == b.logReference && a.blockNumber == b.blockNumber && a.blockHash == b.blockHash
  }

  /** The message moved forward or stayed: an unresolved one and a relayed one keep their kind and their place. */
  predicate Advances(s: State, t: State) {
    && Rank(s.lifecycle) <= Rank(t.lifecycle)
    && (s.lifecycle.Relayed? || s.lifecycle.Finalized? ==> !t.lifecycle.Unresolved? && SamePlace(s.arrival, t.arrival))
    && (s.lifecycle.Unresolved? ==> SamePlace(s.arrival, t.arrival) && s.limitation == t.limitation == NoFinalization)
    && (s.lifecycle.Failed? && t.lifecycle.Failed? ==> SamePlace(s.arrival, t.arrival))
    && (s.sourceConfirmed && !t.lifecycle.Unresolved? ==> t.sourceConfirmed)
  }

  function StateAt(h: Hashes, source: Source, e: Event, src: Endpoint, dst: Endpoint, sc: Chain, so: Outage, dc: Chain, do: Outage): State {
    Completed(h, source, e, src, dst, Observe(sc, so).head, Observe(dc, do))
  }

  /** The later answers contain the earlier ones. */
  ghost predicate Answers(h: Hashes, dst: Endpoint, id: string, view: View, later: View) {
    && view.head.Some? && later.head.Some? && view.head.value <= later.head.value
    && Successes(h, dst, view, id).Some? && Successes(h, dst, later, id).Some?
    && Successes(h, dst, view, id).value <= Successes(h, dst, later, id).value
    && Failures(h, dst, view, id).Some? && Failures(h, dst, later, id).Some?
    && Failures(h, dst, view, id).value <= Failures(h, dst, later, id).value
    && (Successes(h, dst, view, id).value != [] ==>
          var hash := Successes(h, dst, view, id).value[0].transactionHash;
          view.receipts(hash).Some? && later.receipts(hash) == view.receipts(hash))
  }

  lemma ConfirmationsStay(s: State, t: State, block: nat, src: Endpoint, dst: Endpoint,
                          sourceHead: Option<nat>, head: Option<nat>, sourceHead': Option<nat>, head': Option<nat>)
    requires sourceHead.Some? && sourceHead'.Some? && sourceHead.value <= sourceHead'.value
    requires head.Some? && head'.Some? && head.value <= head'.value
    requires s.arrival.blockNumber == t.arrival.blockNumber
    ensures var s', t' := WithConfirmations(s, block, src, dst, sourceHead, head), WithConfirmations(t, block, src, dst, sourceHead', head');
            (s'.sourceConfirmed ==> t'.sourceConfirmed) && (s'.destinationConfirmed ==> t'.destinationConfirmed)
  {
  }

  lemma AnswersAdvance(h: Hashes, source: Source, e: Event, src: Endpoint, dst: Endpoint,
                       sourceHead: Option<nat>, view: View, sourceHead': Option<nat>, view': View)
    requires sourceHead.Some? && sourceHead'.Some? && sourceHead.value <= sourceHead'.value
    requires Answers(h, dst, source.messageId, view, view')
    ensures Advances(Completed(h, source, e, src, dst, sourceHead, view), Completed(h, source, e, src, dst, sourceHead', view'))
  {
    var successes, failures := Successes(h, dst, view, source.messageId).value, Failures(h, dst, view, source.messageId).value;
    if successes != [] {
      var s := PENDING.(lifecycle := Relayed, arrival := ArrivalAt(successes[0], view));
      var t := PENDING.(lifecycle := Relayed, arrival := ArrivalAt(successes[0], view'));
      ConfirmationsStay(s, t, source.blockNumber, src, dst, sourceHead, view.head, sourceHead', view'.head);
    }
  }

  lemma ObservedAnswers(h: Hashes, dst: Endpoint, id: string, c: Chain, o: Outage, d: Chain, p: Outage)
    requires Extends(c, d) && WholeChain(c) && NoOutage(o) && NoOutage(p)
    ensures Answers(h, dst, id, Observe(c, o), Observe(d, p))
  {
    HitsGrow(c.logs, d.logs, dst.messenger, Topic(h, RelayedMessage), id);
    HitsGrow(c.logs, d.logs, dst.messenger, Topic(h, FailedRelay), id);
    HitsAreLogs(c.logs, dst.messenger, Topic(h, RelayedMessage), id);
  }

  /** While no call fails, a message never moves backwards, and a finalization mismatch stays. */
  lemma NeverBackwards(h: Hashes, source: Source, e: Event, src: Endpoint, dst: Endpoint,
                       sc: Chain, so: Outage, dc: Chain, do: Outage, sc': Chain, so': Outage, dc': Chain, do': Outage)
    requires Extends(sc, sc') && Extends(dc, dc') && WholeChain(dc)
    requires NoOutage(so) && NoOutage(do) && NoOutage(so') && NoOutage(do')
    ensures Advances(StateAt(h, source, e, src, dst, sc, so, dc, do), StateAt(h, source, e, src, dst, sc', so', dc', do'))
  {
    ObservedAnswers(h, dst, source.messageId, dc, do, dc', do');
    AnswersAdvance(h, source, e, src, dst, Observe(sc, so).head, Observe(dc, do), Observe(sc', so').head, Observe(dc', do'));
  }

  /** While no call fails: finalized stays finalized, relayed becomes at most finalized, failed is never pending again, and a
      mismatch stays. Place of arrival and confirmations stay with them. */
  lemma KindsNeverBackwards(h: Hashes, source: Source, e: Event, src: Endpoint, dst: Endpoint,
                            sc: Chain, so: Outage, dc: Chain, do: Outage, sc': Chain, so': Outage, dc': Chain, do': Outage)
    requires Extends(sc, sc') && Extends(dc, dc') && WholeChain(dc)
    requires NoOutage(so) && NoOutage(do) && NoOutage(so') && NoOutage(do')
    ensures var s, t := StateAt(h, source, e, src, dst, sc, so, dc, do), StateAt(h, source, e, src, dst, sc', so', dc', do');
            && match s.lifecycle {
                 case Finalized => t.lifecycle.Finalized?
                 case Relayed => t.lifecycle.Relayed? || t.lifecycle.Finalized?
                 case Unresolved => t.lifecycle.Unresolved? && t.limitation == s.limitation
                 case Failed => !t.lifecycle.Initiated?
                 case Initiated => true
               }
            && (!s.lifecycle.Initiated? && (s.lifecycle.Failed? ==> t.lifecycle.Failed?) ==>
                  t.arrival == s.arrival.(timestamp := t.arrival.timestamp))
  {
    NeverBackwards(h, source, e, src, dst, sc, so, dc, do, sc', so', dc', do');
  }

  // ----- exactly when a failed call takes a message back

  /** The state only says that the destination did not answer. */
  predicate Unanswered(s: State) {
    s.lifecycle.Unresolved? && (s.limitation.NotQueried? || s.limitation.NoRelayReceipt?)
  }

  predicate StepsBack(s: State, t: State) {
    Unanswered(t) || Rank(t.lifecycle) < Rank(s.lifecycle)
  }

  /** One of the two log queries for the message fails. */
  predicate LogsFail(h: Hashes, dst: Endpoint, id: string, o: Outage) {
    o.logs(dst.messenger, Topic(h, RelayedMessage), id) || o.logs(dst.messenger, Topic(h, FailedRelay), id)
  }

  /** The message was relayed, and the receipt of its first relay cannot be had. */
  predicate ReceiptFails(h: Hashes, dst: Endpoint, id: string, c: Chain, o: Outage) {
    var relays := Hits(c.logs, dst.messenger, Topic(h, RelayedMessage), id);
    relays != [] && (o.receipts(relays[0].transactionHash) || relays[0].transactionHash !in c.receipts)
  }

  lemma UnansweredExactly(h: Hashes, source: Source, e: Event, src: Endpoint, dst: Endpoint, sourceHead: Option<nat>, c: Chain, o: Outage)
    ensures Unanswered(Completed(h, source, e, src, dst, sourceHead, Observe(c, o))) <==>
            LogsFail(h, dst, source.messageId, o) || ReceiptFails(h, dst, source.messageId, c, o)
  {
    var view, id := Observe(c, o), source.messageId;
    assert Successes(h, dst, view, id).Some? ==> Successes(h, dst, view, id).value == Hits(c.logs, dst.messenger, Topic(h, RelayedMessage), id);
  }

  /** Later answers that contain the earlier ones never lower the rank, save that of a finalized message whose heads are missing. */
  lemma RankExactly(h: Hashes, source: Source, e: Event, src: Endpoint, dst: Endpoint, sourceHead: Option<nat>, view: View,
                    sourceHead': Option<nat>, later: View, relays: seq<Log>, relays': seq<Log>, failures: seq<Log>, failures': seq<Log>)
    requires Successes(h, dst, view, source.messageId) == Some(relays) && Successes(h, dst, later, source.messageId) == Some(relays')
    requires Failures(h, dst, view, source.messageId) == Some(failures) && Failures(h, dst, later, source.messageId) == Some(failures')
    requires relays <= relays' && failures <= failures'
    requires relays' != [] ==> later.receipts(relays'[0].transactionHash).Some?
    requires relays != [] ==> view.receipts(relays[0].transactionHash) == later.receipts(relays[0].transactionHash)
    requires sourceHead.Some? && sourceHead'.Some? ==> sourceHead.value <= sourceHead'.value
    requires view.head.Some? && later.head.Some? ==> view.head.value <= later.head.value
    ensures var s := Completed(h, source, e, src, dst, sourceHead, view);
            var t := Completed(h, source, e, src, dst, sourceHead', later);
            Rank(t.lifecycle) < Rank(s.lifecycle) <==> s.lifecycle.Finalized? && (sourceHead'.None? || later.head.None?)
  {
  }

  lemma AnsweredAdvances(h: Hashes, source: Source, e: Event, src: Endpoint, dst: Endpoint,
                         sourceHead: Option<nat>, c: Chain, o: Outage, sourceHead': Option<nat>, d: Chain, p: Outage)
    requires Extends(c, d) && (sourceHead.Some? && sourceHead'.Some? ==> sourceHead.value <= sourceHead'.value)
    requires !Unanswered(Completed(h, source, e, src, dst, sourceHead, Observe(c, o)))
    requires !Unanswered(Completed(h, source, e, src, dst, sourceHead', Observe(d, p)))
    ensures var s := Completed(h, source, e, src, dst, sourceHead, Observe(c, o));
            var t := Completed(h, source, e, src, dst, sourceHead', Observe(d, p));
            Rank(t.lifecycle) < Rank(s.lifecycle) <==> s.lifecycle.Finalized? && (sourceHead'.None? || p.head)
  {
    var id, relayed, failed := source.messageId, Topic(h, RelayedMessage), Topic(h, FailedRelay);
    UnansweredExactly(h, source, e, src, dst, sourceHead, c, o);
    UnansweredExactly(h, source, e, src, dst, sourceHead', d, p);
    HitsGrow(c.logs, d.logs, dst.messenger, relayed, id);
    HitsGrow(c.logs, d.logs, dst.messenger, failed, id);
    RankExactly(h, source, e, src, dst, sourceHead, Observe(c, o), sourceHead', Observe(d, p),
                Hits(c.logs, dst.messenger, relayed, id), Hits(d.logs, dst.messenger, relayed, id),
                Hits(c.logs, dst.messenger, failed, id), Hits(d.logs, dst.messenger, failed, id));
  }

  /** On growing chains, whatever failed before: an answered message steps back if and only if now a log query for it
      fails, or the receipt of its first relay, or it was finalized and a head is missing. */
  lemma StepsBackExactly(h: Hashes, source: Source, e: Event, src: Endpoint, dst: Endpoint,
                         sc: Chain, so: Outage, dc: Chain, do: Outage, sc': Chain, so': Outage, dc': Chain, do': Outage)
    requires Extends(sc, sc') && Extends(dc, dc') && !Unanswered(StateAt(h, source, e, src, dst, sc, so, dc, do))
    ensures var s, t := StateAt(h, source, e, src, dst, sc, so, dc, do), StateAt(h, source, e, src, dst, sc', so', dc', do');
            StepsBack(s, t) <==> LogsFail(h, dst, source.messageId, do') || ReceiptFails(h, dst, source.messageId, dc', do')
                                 || (s.lifecycle.Finalized? && (so'.head || do'.head))
  {
    UnansweredExactly(h, source, e, src, dst, Observe(sc', so').head, dc', do');
    if !Unanswered(StateAt(h, source, e, src, dst, sc', so', dc', do')) {
      AnsweredAdvances(h, source, e, src, dst, Observe(sc, so).head, dc, do, Observe(sc', so').head, dc', do');
    }
  }

  /** A message that one log finalizes. */
  lemma SomeFinalization(h: Hashes, bridge: string) returns (e: Event)
    ensures !e.isErc20 && Finalizes(h, e.log, bridge, e)
  {
    var address, extra := AddressText(Zeros(20)), Zeros(WORD);
    assert |Zeros(20)| == 20 && IsAddress(address);
    var blank := Event(Log("", [], "", "", "", "", ""), false, "", "", address, address, 0);
    e := blank.(log := Log(bridge, TopicsOf(h, EthFinalized, blank), AddressText(DataOf(blank, extra)), "0x1", "", "0x01", "0x0"));
    PowPositive(256, WORD);
    assert TopicsOf(h, EthFinalized, e) == TopicsOf(h, EthFinalized, blank) && DataOf(e, extra) == DataOf(blank, extra);
    FinalizationReadsBack(h, e, bridge, extra, e);
  }

  lemma FirstBlock(log: Log)
    requires log.blockNumber == "0x1"
    ensures LogBlock(log) == 1
  {
    assert TrimPrefix("0x1", "0x") == "1";
    assert HexDigits("1"[..0]) == Some(0) && HexDigits("1") == Some(1);
  }

  /** A finalized message: one relay, whose receipt finalizes it, both chains far enough ahead. */
  lemma FinalizedExists(h: Hashes, source: Source, src: Endpoint, dst: Endpoint, o: Outage) returns (e: Event, sc: Chain, dc: Chain)
    requires source.blockNumber > 0 && NoOutage(o)
    ensures WholeChain(dc) && StateAt(h, source, e, src, dst, sc, o, dc, o).lifecycle.Finalized?
  {
    e := SomeFinalization(h, dst.bridge);
    var relay := Log(dst.messenger, [Topic(h, RelayedMessage), source.messageId], "", "0x1", "", "0x01", "0x0");
    FirstBlock(relay);
    sc := Chain([], map[], source.blockNumber + src.confirmations);
    dc := RelayedOnce(relay, e.log, dst);
    FinalizedOnce(h, source, e, src, dst, sc, o, relay);
    RelayedIsWhole(relay, e.log, dst);
  }

  lemma RelayedIsWhole(relay: Log, finalization: Log, dst: Endpoint)
    ensures WholeChain(RelayedOnce(relay, finalization, dst))
  {
  }

  function RelayedOnce(relay: Log, finalization: Log, dst: Endpoint): Chain {
    Chain([relay], map[relay.transactionHash := [finalization]], LogBlock(relay) + dst.confirmations)
  }

  lemma RelayIsProved(h: Hashes, dst: Endpoint, id: string, e: Event, c: Chain, o: Outage, log: Log)
    requires NoOutage(o) && Finalizes(h, log, dst.bridge, e)
    requires var relays := Hits(c.logs, dst.messenger, Topic(h, RelayedMessage), id);
             relays != [] && relays[0].transactionHash in c.receipts && log in c.receipts[relays[0].transactionHash]
    ensures RelayProved(h, dst, Observe(c, o), id, e)
  {
    assert Successes(h, dst, Observe(c, o), id) == Some(Hits(c.logs, dst.messenger, Topic(h, RelayedMessage), id));
  }

  lemma OneHit(log: Log, address: string, topic: string, id: string)
    requires Hit(log, address, topic, id)
    ensures Hits([log], address, topic, id) == [log]
  {
    assert [log][..0] == [];
  }

  lemma ProvedIsFinalized(h: Hashes, source: Source, e: Event, src: Endpoint, dst: Endpoint, sourceHead: Option<nat>, view: View)
    requires RelayProved(h, dst, view, source.messageId, e)
    requires BothConfirmed(src, dst, source.blockNumber, sourceHead, LogBlock(Successes(h, dst, view, source.messageId).value[0]), view.head)
    ensures Completed(h, source, e, src, dst, sourceHead, view).lifecycle.Finalized?
  {
    StagesExactly(h, source, e, src, dst, sourceHead, view);
  }

  lemma FinalizedOnce(h: Hashes, source: Source, e: Event, src: Endpoint, dst: Endpoint, sc: Chain, o: Outage, relay: Log)
    requires source.blockNumber > 0 && NoOutage(o) && sc.head == source.blockNumber + src.confirmations
    requires Hit(relay, dst.messenger, Topic(h, RelayedMessage), source.messageId) && LogBlock(relay) > 0
    requires Finalizes(h, e.log, dst.bridge, e)
    ensures StateAt(h, source, e, src, dst, sc, o, RelayedOnce(relay, e.log, dst), o).lifecycle.Finalized?
  {
    var dc := RelayedOnce(relay, e.log, dst);
    OneHit(relay, dst.messenger, Topic(h, RelayedMessage), source.messageId);
    RelayIsProved(h, dst, source.messageId, e, dc, o, e.log);
    assert Successes(h, dst, Observe(dc, o), source.messageId) == Some([relay]);
    ProvedIsFinalized(h, source, e, src, dst, Observe(sc, o).head, Observe(dc, o));
  }

  /** And each failed call takes it back: a missing head to relayed, a failed query or receipt to unresolved. */
  lemma OutagesStepBack(h: Hashes, source: Source, src: Endpoint, dst: Endpoint, o: Outage) returns (e: Event, sc: Chain, dc: Chain)
    requires source.blockNumber > 0 && NoOutage(o)
    ensures StateAt(h, source, e, src, dst, sc, o, dc, o).lifecycle.Finalized?
    ensures StateAt(h, source, e, src, dst, sc, o.(head := true), dc, o).lifecycle.Relayed?
    ensures StateAt(h, source, e, src, dst, sc, o, dc, o.(head := true)).lifecycle.Relayed?
    ensures StateAt(h, source, e, src, dst, sc, o, dc, o.(logs := (a, t, i) => true)).lifecycle.Unresolved?
    ensures StateAt(h, source, e, src, dst, sc, o, dc, o.(receipts := hash => true)).lifecycle.Unresolved?
  {
    e, sc, dc := FinalizedExists(h, source, src, dst, o);
  }

  // ----- one candidate

  predicate Continues(s: Transition, t: Transition) {
    s == t || (s.source == t.source && Advances(s.state, t.state))
  }

  /** Resolving a candidate again, later, reports the same initiations, each advanced. */
  lemma CandidateAdvances(b: OPStack, src: Endpoint, dst: Endpoint, candidate: TransferItem,
                          sc: Chain, so: Outage, dc: Chain, do: Outage, sc': Chain, so': Outage, dc': Chain, do': Outage)
    requires Extends(sc, sc') && Extends(dc, dc') && WholeChain(dc) && candidate.hash in sc.receipts
    requires NoOutage(so) && NoOutage(do) && NoOutage(so') && NoOutage(do')
    ensures var before := Resolved(b, src, dst, candidate, Observe(sc, so), Observe(dc, do));
            var after := Resolved(b, src, dst, candidate, Observe(sc', so'), Observe(dc', do'));
            && |before| == |after|
            && forall i :: 0 <= i < |before| ==> Continues(before[i], after[i]) && after[i].source == before[i].source
  {
    var logs := sc.receipts[candidate.hash];
    assert Observe(sc, so).receipts(candidate.hash) == Some(logs) == Observe(sc', so').receipts(candidate.hash);
    var messages, es := ValuedMessages(b.hashes, logs, src.messenger), Initiations(b.hashes, logs, src.bridge);
    var before := TransitionsFor(b, src, dst, candidate, messages, es, Observe(sc, so).head, Observe(dc, do));
    var after := TransitionsFor(b, src, dst, candidate, messages, es, Observe(sc', so').head, Observe(dc', do'));
    forall i | 0 <= i < |es| ensures Continues(before[i], after[i]) {
      var settled := Settle(b, src, dst, candidate, messages, es[i]);
      if settled.Accepted? {
        NeverBackwards(b.hashes, settled.source, es[i], src, dst, sc, so, dc, do, sc', so', dc', do');
      }
    }
  }

  predicate IsFinalized(t: Transition) {
    t.state.lifecycle.Finalized?
  }

  /** The later report still holds the transition of the same initiation, no further back. */
  predicate KeepsPace(before: seq<Transition>, after: seq<Transition>, i: nat)
    requires i < |before|
  {
    i < |after| && after[i].source == before[i].source && !StepsBack(before[i].state, after[i].state)
  }

  /** What is reported of a candidate whose source receipt is available. */
  lemma ResolvedFrom(b: OPStack, src: Endpoint, dst: Endpoint, candidate: TransferItem, sc: Chain, so: Outage, view: View)
    requires candidate.hash in sc.receipts && !so.receipts(candidate.hash)
    ensures var logs := sc.receipts[candidate.hash];
            Resolved(b, src, dst, candidate, Observe(sc, so), view)
            == TransitionsFor(b, src, dst, candidate, ValuedMessages(b.hashes, logs, src.messenger),
                              Initiations(b.hashes, logs, src.bridge), Observe(sc, so).head, view)
  {
    assert Observe(sc, so).receipts(candidate.hash) == Some(sc.receipts[candidate.hash]);
  }

  /** Without the source receipt nothing is reported of its messages. */
  lemma SourceReceiptFails(b: OPStack, src: Endpoint, dst: Endpoint, candidate: TransferItem, sc: Chain, so: Outage, view: View)
    requires candidate.hash !in sc.receipts || so.receipts(candidate.hash)
    ensures Resolved(b, src, dst, candidate, Observe(sc, so), view) == [UnresolvedTransition(b, src, dst, candidate, NoReceipt)]
    ensures UnresolvedTransition(b, src, dst, candidate, NoReceipt).source.messageId == ""
  {
  }

  /** On growing chains, whatever failed before: an answered message of a candidate is still reported, no further back, if and
      only if the source receipt can be had, both log queries for it succeed, the receipt of its first relay can be had,
      and no head is missing if it was finalized. */
  lemma KeepsPaceExactly(b: OPStack, src: Endpoint, dst: Endpoint, candidate: TransferItem, i: nat,
                         sc: Chain, so: Outage, dc: Chain, do: Outage, sc': Chain, so': Outage, dc': Chain, do': Outage)
    requires Extends(sc, sc') && Extends(dc, dc')
    requires var before := Resolved(b, src, dst, candidate, Observe(sc, so), Observe(dc, do));
             i < |before| && before[i].source.messageId != "" && !Unanswered(before[i].state)
    ensures var before := Resolved(b, src, dst, candidate, Observe(sc, so), Observe(dc, do));
            var after := Resolved(b, src, dst, candidate, Observe(sc', so'), Observe(dc', do'));
            var id := before[i].source.messageId;
            KeepsPace(before, after, i) <==>
            && !so'.receipts(candidate.hash) && !LogsFail(b.hashes, dst, id, do') && !ReceiptFails(b.hashes, dst, id, dc', do')
            && !(IsFinalized(before[i]) && (so'.head || do'.head))
  {
    if candidate.hash !in sc.receipts || so.receipts(candidate.hash) {
      SourceReceiptFails(b, src, dst, candidate, sc, so, Observe(dc, do));
    } else if so'.receipts(candidate.hash) {
      SourceReceiptFails(b, src, dst, candidate, sc', so', Observe(dc', do'));
    } else {
      var logs := sc.receipts[candidate.hash];
      var messages, es := ValuedMessages(b.hashes, logs, src.messenger), Initiations(b.hashes, logs, src.bridge);
      ResolvedFrom(b, src, dst, candidate, sc, so, Observe(dc, do));
      ResolvedFrom(b, src, dst, candidate, sc', so', Observe(dc', do'));
      var settled := Settle(b, src, dst, candidate, messages, es[i]);
      assert settled.Accepted?;
      StepsBackExactly(b.hashes, settled.source, es[i], src, dst, sc, so, dc, do, sc', so', dc', do');
    }
  }

  // ----- the store

  /** What the database accepts. */
  predicate Storable(t: Transition) {
    t.id != "" && t.source.protocol != "" && (t.source.messageId != "" || t.state.lifecycle.Unresolved?)
  }

  /** Insert, or ignore when the ID is taken. */
  function InsertAll(rows: map<string, Transition>, ts: seq<Transition>): map<string, Transition> {
    if ts == [] then rows
    else
      var front, t := InsertAll(rows, ts[..|ts| - 1]), ts[|ts| - 1];
      if t.id in front then front else front[t.id := t]
  }

  class BridgeStore {
    var rows: map<string, Transition>

    constructor ()
      ensures rows == map[]
    {
      rows := map[];
    }

    /** One transaction: all transitions are inserted, or none is. */
    method Insert(ts: seq<Transition>) returns (ok: bool)
      modifies this
      ensures ok <==> forall t :: t in ts ==> Storable(t)
      ensures rows == if ok then InsertAll(old(rows), ts) else old(rows)
    {
      var pending := rows;
      for i := 0 to |ts|
        invariant rows == old(rows) && pending == InsertAll(rows, ts[..i])
        invariant forall t :: t in ts[..i] ==> Storable(t)
      {
        assert ts[..i + 1][..i] == ts[..i];
        if !Storable(ts[i]) {
          return false;
        }
        if ts[i].id !in pending {
          pending := pending[ts[i].id := ts[i]];
        }
      }
      assert ts[..|ts|] == ts;
      rows := pending;
      ok := true;
    }
  }

  /** The adapter hands over nothing the database rejects. */
  lemma EvidenceIsStorable(b: OPStack, network: string, ts: seq<TransferItem>, clients: map<string, View>, t: Transition)
    requires b.protocol != "" && t in Evidence(b, network, ts, clients)
    ensures Storable(t)
  {
    EvidenceExactly(b, network, ts, clients, t);
    var (src, dst) := Endpoints(b, network).value;
    var c :| c in Candidates(ts, src.bridge) && t in Resolved(b, src, dst, c, clients[src.network], clients[dst.network]);
    ResolvedIsShaped(b, src, dst, c, clients[src.network], clients[dst.network], t);
  }

  /** A transition either names no message and is unresolved, or is what its destination makes of an accepted initiation. */
  ghost predicate Shaped(b: OPStack, src: Endpoint, dst: Endpoint, sourceHead: Option<nat>, view: View, t: Transition) {
    && t.source.protocol == b.protocol && t.id != ""
    && (t.source.messageId == "" ==> t.state.lifecycle.Unresolved?)
    && (t.source.messageId != "" ==>
          t.id == TransitionId(b.hashes, t.source, t.state)
          && exists e :: t.state == Completed(b.hashes, t.source, e, src, dst, sourceHead, view))
  }

  lemma IdsAreNotEmpty(b: OPStack, source: Source, s: State, material: string)
    ensures TransitionId(b.hashes, source, s) != "" && b.protocol + ":unresolved:" + ShortDigest(b.hashes, material) != ""
  {
  }

  lemma TransitionIsShaped(b: OPStack, src: Endpoint, dst: Endpoint, c: TransferItem, messages: seq<SentMessage>, e: Event,
                           sourceHead: Option<nat>, view: View)
    ensures Shaped(b, src, dst, sourceHead, view, TransitionFor(b, src, dst, c, messages, e, sourceHead, view))
  {
    var t := TransitionFor(b, src, dst, c, messages, e, sourceHead, view);
    var settled := Settle(b, src, dst, c, messages, e);
    if settled.Accepted? {
      IdsAreNotEmpty(b, t.source, t.state, "");
      assert t.state == Completed(b.hashes, t.source, e, src, dst, sourceHead, view);
    } else {
      IdsAreNotEmpty(b, t.source, t.state, Lower(c.hash) + "|" + b.reason(settled.why));
    }
  }

  lemma ResolvedIsShaped(b: OPStack, src: Endpoint, dst: Endpoint, c: TransferItem, sourceView: View, view: View, t: Transition)
    requires t in Resolved(b, src, dst, c, sourceView, view)
    ensures Shaped(b, src, dst, sourceView.head, view, t)
  {
    var logs := sourceView.receipts(c.hash);
    if logs.Some? {
      var messages, es := ValuedMessages(b.hashes, logs.value, src.messenger), Initiations(b.hashes, logs.value, src.bridge);
      var i :| 0 <= i < |es| && t == TransitionFor(b, src, dst, c, messages, es[i], sourceView.head, view);
      TransitionIsShaped(b, src, dst, c, messages, es[i], sourceView.head, view);
    } else {
      IdsAreNotEmpty(b, t.source, t.state, Lower(c.hash) + "|" + b.reason(NoReceipt));
    }
  }

  // ----- runs

  /** One trace: what it looked at, and which transitions it could link to a stored transfer. */
  datatype Trace = Trace(ts: seq<TransferItem>, linked: Transition -> bool,
                         source: Chain, sourceOutage: Outage, destination: Chain, outage: Outage)

  ghost predicate Growing(run: seq<Trace>) {
    |run| <= 1 || (Growing(run[..|run| - 1]) && Extends(run[|run| - 2].destination, run[|run| - 1].destination))
  }

  ghost predicate SourcesGrow(run: seq<Trace>) {
    |run| <= 1 || (SourcesGrow(run[..|run| - 1]) && Extends(run[|run| - 2].source, run[|run| - 1].source))
  }

  lemma {:induction false} LaterExtends(run: seq<Trace>, i: nat, j: nat)
    requires i <= j < |run|
    ensures Growing(run) ==> Extends(run[i].destination, run[j].destination)
    ensures SourcesGrow(run) ==> Extends(run[i].source, run[j].source)
    decreases |run|
  {
    var k := |run| - 1;
    if j < k {
      LaterExtends(run[..k], i, j);
    } else if i < k {
      LaterExtends(run[..k], i, k - 1);
      if Growing(run) {
        ExtendsTransitive(run[i].destination, run[k - 1].destination, run[k].destination);
      }
      if SourcesGrow(run) {
        ExtendsTransitive(run[i].source, run[k - 1].source, run[k].source);
      }
    }
  }

  /** Between any two traces of a run in which no call fails, a candidate advances. */
  lemma RunAdvances(b: OPStack, src: Endpoint, dst: Endpoint, candidate: TransferItem, run: seq<Trace>, i: nat, j: nat)
    requires i <= j < |run| && Growing(run) && SourcesGrow(run)
    requires WholeChain(run[i].destination) && candidate.hash in run[i].source.receipts
    requires NoOutage(run[i].sourceOutage) && NoOutage(run[i].outage) && NoOutage(run[j].sourceOutage) && NoOutage(run[j].outage)
    ensures var before := Resolved(b, src, dst, candidate, Observe(run[i].source, run[i].sourceOutage), Observe(run[i].destination, run[i].outage));
            var after := Resolved(b, src, dst, candidate, Observe(run[j].source, run[j].sourceOutage), Observe(run[j].destination, run[j].outage));
            |before| == |after| && forall n :: 0 <= n < |before| ==> Continues(before[n], after[n]) && after[n].source == before[n].source
  {
    LaterExtends(run, i, j);
    CandidateAdvances(b, src, dst, candidate, run[i].source, run[i].sourceOutage, run[i].destination, run[i].outage,
                      run[j].source, run[j].sourceOutage, run[j].destination, run[j].outage);
  }

  /** In every trace all calls to the destination succeed, on a chain that holds its receipts. */
  ghost predicate Undisturbed(run: seq<Trace>) {
    forall trace :: trace in run ==> NoOutage(trace.outage) && WholeChain(trace.destination)
  }

  function Linked(linked: Transition -> bool, ts: seq<Transition>): (r: seq<Transition>)
    ensures forall t :: t in r ==> t in ts
  {
    if ts == [] then [] else Linked(linked, ts[..|ts| - 1]) + if linked(ts[|ts| - 1]) then [ts[|ts| - 1]] else []
  }

  function Reported(b: OPStack, src: Endpoint, dst: Endpoint, network: string, trace: Trace): seq<Transition> {
    Linked(trace.linked, Evidence(b, network, trace.ts, map[src.network := Observe(trace.source, trace.sourceOutage),
                                                            dst.network := Observe(trace.destination, trace.outage)]))
  }

  function StoredAfter(b: OPStack, src: Endpoint, dst: Endpoint, network: string, run: seq<Trace>): map<string, Transition> {
    if run == [] then map[]
    else
      var k := |run| - 1;
      InsertAll(StoredAfter(b, src, dst, network, run[..k]), Reported(b, src, dst, network, run[k]))
  }

  // ----- where a transition points to

  predicate At(a: Arrival, log: Log) {
    a.transactionHash == Lower(log.transactionHash) && a.logReference == LogReference(log)
  }

  predicate AtFirst(a: Arrival, hits: seq<Log>) {
    hits != [] && At(a, hits[0])
  }

  predicate Blank(a: Arrival) {
    a.transactionHash == "" && a.logReference == ""
  }

  /** The arrival is settled by the stage and the chain; undisturbed, also that of a mismatch. */
  predicate Settles(h: Hashes, dst: Endpoint, c: Chain, undisturbed: bool, id: string, s: State) {
    var successes := Hits(c.logs, dst.messenger, Topic(h, RelayedMessage), id);
    var failures := Hits(c.logs, dst.messenger, Topic(h, FailedRelay), id);
    match s.lifecycle
    case Initiated => Blank(s.arrival)
    case Failed => AtFirst(s.arrival, failures)
    case Relayed => AtFirst(s.arrival, successes)
    case Finalized => AtFirst(s.arrival, successes)
    case Unresolved => AtFirst(s.arrival, successes) || (!undisturbed && Blank(s.arrival))
  }

  predicate Placed(h: Hashes, dst: Endpoint, c: Chain, undisturbed: bool, t: Transition) {
    t.id == TransitionId(h, t.source, t.state) && Settles(h, dst, c, undisturbed, t.source.messageId, t.state)
  }

  lemma CompletedSettles(h: Hashes, source: Source, e: Event, src: Endpoint, dst: Endpoint, sourceHead: Option<nat>,
                         c: Chain, o: Outage, undisturbed: bool)
    requires undisturbed ==> NoOutage(o)
    ensures Settles(h, dst, c, undisturbed, source.messageId, Completed(h, source, e, src, dst, sourceHead, Observe(c, o)))
  {
    var view, id := Observe(c, o), source.messageId;
    var s := Completed(h, source, e, src, dst, sourceHead, view);
    var successes, failures := Successes(h, dst, view, id), Failures(h, dst, view, id);
    assert successes.Some? ==> successes.value == Hits(c.logs, dst.messenger, Topic(h, RelayedMessage), id);
    assert failures.Some? ==> failures.value == Hits(c.logs, dst.messenger, Topic(h, FailedRelay), id);
    ArrivalFollows(h, source, e, src, dst, sourceHead, view);
  }

  /** Where a message is said to have arrived: at the first success, else the first failure, else nowhere. */
  lemma ArrivalFollows(h: Hashes, source: Source, e: Event, src: Endpoint, dst: Endpoint, sourceHead: Option<nat>, view: View)
    ensures var s := Completed(h, source, e, src, dst, sourceHead, view);
            var successes, failures := Successes(h, dst, view, source.messageId), Failures(h, dst, view, source.messageId);
            if successes.None? || failures.None? then s.lifecycle.Unresolved? && s.arrival == NOWHERE
            else if successes.value != [] then s.arrival == ArrivalAt(successes.value[0], view) && !s.lifecycle.Initiated? && !s.lifecycle.Failed?
            else if failures.value != [] then s.arrival == ArrivalAt(failures.value[0], view) && s.lifecycle.Failed?
            else s.arrival == NOWHERE && s.lifecycle.Initiated?
  {
  }

  lemma PlacedStays(h: Hashes, dst: Endpoint, c: Chain, d: Chain, undisturbed: bool, t: Transition)
    requires Extends(c, d) && Placed(h, dst, c, undisturbed, t)
    ensures Placed(h, dst, d, undisturbed, t)
  {
    HitsGrow(c.logs, d.logs, dst.messenger, Topic(h, RelayedMessage), t.source.messageId);
    HitsGrow(c.logs, d.logs, dst.messenger, Topic(h, FailedRelay), t.source.messageId);
  }

  predicate SameMessage(t: Transition, u: Transition) {
    t.source.messageId == u.source.messageId != "" && t.source.transactionHash == u.source.transactionHash
  }

  ghost predicate RowsPlaced(b: OPStack, dst: Endpoint, c: Chain, undisturbed: bool, rows: map<string, Transition>) {
    forall id :: id in rows ==> RowPlaced(b, dst, c, undisturbed, id, rows[id])
  }

  predicate RowPlaced(b: OPStack, dst: Endpoint, c: Chain, undisturbed: bool, id: string, t: Transition) {
    && t.id == id && t.source.protocol == b.protocol
    && (t.source.messageId != "" ==> Placed(b.hashes, dst, c, undisturbed, t))
  }

  lemma {:induction false} InsertKeepsPlaced(b: OPStack, dst: Endpoint, c: Chain, undisturbed: bool, rows: map<string, Transition>, ts: seq<Transition>)
    requires RowsPlaced(b, dst, c, undisturbed, rows) && forall t :: t in ts ==> RowPlaced(b, dst, c, undisturbed, t.id, t)
    ensures RowsPlaced(b, dst, c, undisturbed, InsertAll(rows, ts))
  {
    if ts != [] {
      InsertKeepsPlaced(b, dst, c, undisturbed, rows, ts[..|ts| - 1]);
    }
  }

  lemma ReportedIsPlaced(b: OPStack, src: Endpoint, dst: Endpoint, network: string, trace: Trace, undisturbed: bool, t: Transition)
    requires Endpoints(b, network) == Some((src, dst)) && src.network != dst.network
    requires t in Reported(b, src, dst, network, trace) && (undisturbed ==> NoOutage(trace.outage))
    ensures RowPlaced(b, dst, trace.destination, undisturbed, t.id, t)
  {
    var sourceView, view := Observe(trace.source, trace.sourceOutage), Observe(trace.destination, trace.outage);
    var clients := map[src.network := sourceView, dst.network := view];
    EvidenceExactly(b, network, trace.ts, clients, t);
    var c :| c in Candidates(trace.ts, src.bridge) && t in Resolved(b, src, dst, c, sourceView, view);
    ResolvedIsShaped(b, src, dst, c, sourceView, view, t);
    if t.source.messageId != "" {
      var e :| t.state == Completed(b.hashes, t.source, e, src, dst, sourceView.head, view);
      CompletedSettles(b.hashes, t.source, e, src, dst, sourceView.head, trace.destination, trace.outage, undisturbed);
    }
  }

  lemma {:induction false} StoredIsPlaced(b: OPStack, src: Endpoint, dst: Endpoint, network: string, run: seq<Trace>, undisturbed: bool)
    requires Endpoints(b, network) == Some((src, dst)) && src.network != dst.network
    requires run != [] && Growing(run) && (undisturbed ==> Undisturbed(run))
    ensures RowsPlaced(b, dst, run[|run| - 1].destination, undisturbed, StoredAfter(b, src, dst, network, run))
  {
    var k := |run| - 1;
    var rows := StoredAfter(b, src, dst, network, run[..k]);
    if k > 0 {
      StoredIsPlaced(b, src, dst, network, run[..k], undisturbed);
      forall id | id in rows ensures RowPlaced(b, dst, run[k].destination, undisturbed, id, rows[id]) {
        if rows[id].source.messageId != "" {
          PlacedStays(b.hashes, dst, run[k - 1].destination, run[k].destination, undisturbed, rows[id]);
        }
      }
    }
    forall t | t in Reported(b, src, dst, network, run[k]) ensures RowPlaced(b, dst, run[k].destination, undisturbed, t.id, t) {
      ReportedIsPlaced(b, src, dst, network, run[k], undisturbed, t);
    }
    InsertKeepsPlaced(b, dst, run[k].destination, undisturbed, rows, Reported(b, src, dst, network, run[k]));
  }

  /** Whatever fails and whenever the traces run: the store holds at most one row per message and resolved stage.
      If nothing fails, that goes for unresolved rows too. */
  lemma OneRowPerStage(b: OPStack, src: Endpoint, dst: Endpoint, network: string, run: seq<Trace>, i: string, j: string)
    requires Endpoints(b, network) == Some((src, dst)) && src.network != dst.network && Growing(run)
    requires var rows := StoredAfter(b, src, dst, network, run);
             i in rows && j in rows && SameMessage(rows[i], rows[j]) && rows[i].state.lifecycle == rows[j].state.lifecycle
             && (rows[i].state.lifecycle.Unresolved? ==> Undisturbed(run))
    ensures i == j
  {
    var rows := StoredAfter(b, src, dst, network, run);
    var undisturbed := rows[i].state.lifecycle.Unresolved?;
    StoredIsPlaced(b, src, dst, network, run, undisturbed);
    assert RowPlaced(b, dst, run[|run| - 1].destination, undisturbed, i, rows[i]);
    assert RowPlaced(b, dst, run[|run| - 1].destination, undisturbed, j, rows[j]);
  }

  /** Even when calls fail, a message leaves at most two unresolved rows. */
  lemma TwoUnresolvedRows(b: OPStack, src: Endpoint, dst: Endpoint, network: string, run: seq<Trace>, i: string, j: string, k: string)
    requires Endpoints(b, network) == Some((src, dst)) && src.network != dst.network && Growing(run)
    requires var rows := StoredAfter(b, src, dst, network, run);
             && i in rows && j in rows && k in rows && SameMessage(rows[i], rows[j]) && SameMessage(rows[j], rows[k])
             && rows[i].state.lifecycle == rows[j].state.lifecycle == rows[k].state.lifecycle == Unresolved
    ensures i == j || j == k || i == k
  {
    var rows := StoredAfter(b, src, dst, network, run);
    StoredIsPlaced(b, src, dst, network, run, false);
    assert RowPlaced(b, dst, run[|run| - 1].destination, false, i, rows[i]);
    assert RowPlaced(b, dst, run[|run| - 1].destination, false, j, rows[j]);
    assert RowPlaced(b, dst, run[|run| - 1].destination, false, k, rows[k]);
  }
}
