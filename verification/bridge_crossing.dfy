/** A whole crossing: what the contracts of both chains log of it, and that the adapter reports it as finalized. */
module BridgeCrossing {
  import opened Options
  import opened Text
  import opened Bytes
  import opened BridgeCodec
  import opened BridgeEvents
  import opened BridgeEncoding
  import opened Bridge
  import opened BridgeSoundness
  import opened BridgeLifecycle
  import opened Transfers

  // ----- the two deployments

  ghost predicate Deployed(b: OPStack) {
    b == BaseStandardBridge(b.hashes, b.reason) || b == OptimismStandardBridge(b.hashes, b.reason)
  }

  predicate IsLowerHex(c: char) {
    '0' <= c <= '9' || 'a' <= c <= 'f'
  }

  predicate LowerHexText(s: string) {
    forall i :: 0 <= i < |s| ==> IsLowerHex(s[i])
  }

  lemma DigitReadsBack(c: char)
    requires IsLowerHex(c)
    ensures 0 <= HexDigit(c) < 16 && HexChar(HexDigit(c)) == c
  {
  }

  lemma HexEncodeHead(x: byte, b: seq<byte>)
    ensures HexEncode([x] + b) == [HexChar(x / 16), HexChar(x % 16)] + HexEncode(b)
  {
    assert ([x] + b)[1..] == b;
  }

  lemma PairReadsBack(c: char, d: char, b: seq<byte>)
    requires IsLowerHex(c) && IsLowerHex(d)
    ensures 0 <= HexDigit(c) < 16 && 0 <= HexDigit(d) < 16
    ensures HexEncode([16 * HexDigit(c) + HexDigit(d)] + b) == [c, d] + HexEncode(b)
  {
    DigitReadsBack(c);
    DigitReadsBack(d);
    var x: byte := 16 * HexDigit(c) + HexDigit(d);
    HexEncodeHead(x, b);
    assert x / 16 == HexDigit(c) && x % 16 == HexDigit(d);
  }

  lemma LowerHexTail(s: string)
    requires |s| >= 2 && LowerHexText(s)
    ensures LowerHexText(s[2..]) && IsLowerHex(s[0]) && IsLowerHex(s[1])
  {
    assert forall i :: 0 <= i < |s[2..]| ==> s[2..][i] == s[i + 2];
  }

  lemma HexDecodePair(s: string)
    requires |s| >= 2 && IsLowerHex(s[0]) && IsLowerHex(s[1]) && HexDecode(s[2..]).Some?
    ensures HexDecode(s) == Some([16 * HexDigit(s[0]) + HexDigit(s[1])] + HexDecode(s[2..]).value)
  {
  }

  lemma {:induction false} HexReadsBack(s: string)
    requires |s| % 2 == 0 && LowerHexText(s)
    ensures HexDecode(s).Some? && HexEncode(HexDecode(s).value) == s
  {
    if s != "" {
      LowerHexTail(s);
      HexReadsBack(s[2..]);
      HexDecodePair(s);
      PairReadsBack(s[0], s[1], HexDecode(s[2..]).value);
      assert s == [s[0], s[1]] + s[2..];
    }
  }

  lemma LowerHexIsAddress(a: string)
    requires |a| == 42 && a[0] == '0' && a[1] == 'x' && forall i :: 2 <= i < 42 ==> IsLowerHex(a[i])
    ensures IsAddress(a)
  {
    assert forall i :: 0 <= i < 40 ==> a[2..][i] == a[i + 2];
    HexReadsBack(a[2..]);
    assert |HexDecode(a[2..]).value| == 20;
    assert a == "0x" + a[2..];
  }

  lemma BaseBridgeIsAddress()
    ensures IsAddress("0x3154cf16ccdb4c6d922629664174b904d80f2c35")
  {
    LowerHexIsAddress("0x3154cf16ccdb4c6d922629664174b904d80f2c35");
  }

  lemma OptimismBridgeIsAddress()
    ensures IsAddress("0x99c9fc46f92e8a1c0dec1b1747d010903e884be1")
  {
    LowerHexIsAddress("0x99c9fc46f92e8a1c0dec1b1747d010903e884be1");
  }

  lemma SecondLayerBridgeIsAddress()
    ensures IsAddress("0x4200000000000000000000000000000000000010")
  {
    LowerHexIsAddress("0x4200000000000000000000000000000000000010");
  }

  lemma FoldedDiffer(a: string, b: string, i: nat)
    requires i < |a| && i < |b| && LowerChar(a[i]) != LowerChar(b[i])
    ensures !SameFold(a, b)
  {
    assert Lower(a)[i] != Lower(b)[i];
  }

  /** Source and destination of a pair of endpoints that a crossing can use. */
  ghost predicate Wired(b: OPStack, src: Endpoint, dst: Endpoint) {
    && ((src.network == ETHEREUM && dst.network == b.destinationNet) || (src.network == b.destinationNet && dst.network == ETHEREUM))
    && IsAddress(src.bridge) && IsAddress(dst.bridge) && !SameFold(src.messenger, src.bridge)
  }

  lemma DeployedAddresses(b: OPStack)
    requires Deployed(b)
    ensures IsAddress(b.l1.bridge) && IsAddress(b.l2.bridge)
    ensures !SameFold(b.l1.messenger, b.l1.bridge) && !SameFold(b.l2.messenger, b.l2.bridge)
  {
    SecondLayer(b);
    if b == BaseStandardBridge(b.hashes, b.reason) {
      BaseAddresses(b);
    } else {
      OptimismAddresses(b);
    }
  }

  lemma BaseAddresses(b: OPStack)
    requires b == BaseStandardBridge(b.hashes, b.reason)
    ensures IsAddress(b.l1.bridge) && !SameFold(b.l1.messenger, b.l1.bridge)
  {
    BaseBridgeIsAddress();
    FoldedDiffer(b.l1.messenger, b.l1.bridge, 2);
  }

  lemma OptimismAddresses(b: OPStack)
    requires b == OptimismStandardBridge(b.hashes, b.reason)
    ensures IsAddress(b.l1.bridge) && !SameFold(b.l1.messenger, b.l1.bridge)
  {
    OptimismBridgeIsAddress();
    FoldedDiffer(b.l1.messenger, b.l1.bridge, 2);
  }

  lemma SecondLayer(b: OPStack)
    requires Deployed(b)
    ensures IsAddress(b.l2.bridge) && !SameFold(b.l2.messenger, b.l2.bridge)
  {
    SecondLayerBridgeIsAddress();
    FoldedDiffer(b.l2.messenger, b.l2.bridge, 40);
  }

  /** Both deployments are wired for both of their networks, and serve no other. */
  lemma DeploymentIsWired(b: OPStack, network: string)
    requires Deployed(b)
    ensures Endpoints(b, network).Some? <==> network == ETHEREUM || network == b.destinationNet
    ensures Endpoints(b, network).Some? ==>
              var (src, dst) := Endpoints(b, network).value;
              && Wired(b, src, dst) && src.network == network && src.network != dst.network
              && src.confirmations == (if network == ETHEREUM then 64 else 120) && dst.confirmations == (if network == ETHEREUM then 120 else 64)
  {
    DeployedAddresses(b);
    assert ETHEREUM[0] == 'e' && b.destinationNet[0] != 'e';
  }

  /** On both deployments an initiation has a route exactly when it names no tokens. */
  lemma DeployedRouteExactly(b: OPStack, network: string, log: Log, e: Event)
    requires Deployed(b) && Endpoints(b, network).Some?
    requires InitiationIn(b.hashes, log, Endpoints(b, network).value.0.bridge) == Some(e)
    ensures var (src, dst) := Endpoints(b, network).value;
            CanonicalRoute(b, src.network, dst.network, e).Some? <==> e.localToken == "" && e.remoteToken == ""
  {
    var (src, dst) := Endpoints(b, network).value;
    DeploymentIsWired(b, network);
    RouteExactly(b, src.network, dst.network, log, src.bridge, e);
  }

  // ----- what the source chain logs of an ether transfer

  /** The initiation, the message with its value, and the logs that record them; `extra` and `callExtra` are what the user adds. */
  datatype Crossing = Crossing(e: Event, extra: seq<byte>, m: Message, callExtra: seq<byte>, sent: Log, extension: Log)

  function CallData(e: Event, extra: seq<byte>): seq<byte> {
    AddressWord(e.from) + (AddressWord(e.to) + (BigEndian(e.amount, WORD) + extra))
  }

  /** The message asks the destination bridge to finalize the transfer. */
  ghost predicate Carries(h: Hashes, src: Endpoint, dst: Endpoint, x: Crossing) {
    && x.m.sender == src.bridge && x.m.target == dst.bridge && WordFields(x.m) && VersionOne(x.m.nonce)
    && WORD <= |x.callExtra| && |x.callExtra| % WORD == 0 && |SentData(x.m)| <= MAX_BYTES
    && x.m.message == Selector(h, FinalizeEth) + CallData(x.e, x.callExtra)
  }

  ghost predicate IsLogged(h: Hashes, src: Endpoint, dst: Endpoint, x: Crossing) {
    && !x.e.isErc20 && Records(h, EthInitiated, x.e, src.bridge, x.extra) && Carries(h, src, dst, x)
    && SameFold(x.sent.address, src.messenger) && x.sent.data == AddressText(SentData(x.m))
    && x.sent.topics == [Topic(h, SentMessageEvent), AddressText(AddressWord(dst.bridge))]
    && SameFold(x.extension.address, src.messenger) && x.extension.data == AddressText(x.m.value)
    && x.extension.topics == [Topic(h, SentExtension), AddressText(AddressWord(src.bridge))]
  }

  /** The receipt holds the logs of the crossing: in any order, among any others. */
  predicate InReceipt(x: Crossing, logs: seq<Log>) {
    x.e.log in logs && x.sent in logs && x.extension in logs
  }

  /** The topics that decoding tells apart differ. */
  predicate DistinctTopics(h: Hashes) {
    Topic(h, EthInitiated) != Topic(h, Erc20Initiated) && Topic(h, SentMessageEvent) != Topic(h, SentExtension)
  }

  lemma TopicsFold(h: Hashes, s: Signature, t: Signature)
    ensures SameFold(Topic(h, s), Topic(h, t)) <==> Topic(h, s) == Topic(h, t)
  {
    TopicIsLower(h, s);
    TopicIsLower(h, t);
  }

  lemma LoggedInitiation(h: Hashes, src: Endpoint, dst: Endpoint, x: Crossing)
    requires IsLogged(h, src, dst, x) && DistinctTopics(h)
    ensures InitiationIn(h, x.e.log, src.bridge) == Some(x.e)
  {
    InitiationReadsBack(h, x.e, src.bridge, x.extra);
  }

  lemma OneWord(word: seq<byte>)
    requires |word| == WORD
    ensures AbiWords(AddressText(word)) == Some([word])
  {
    WordsOfText(word);
    assert word[0..WORD] == word;
    assert Words(word) == [word];
  }

  lemma LoggedValue(h: Hashes, src: Endpoint, dst: Endpoint, x: Crossing)
    requires IsLogged(h, src, dst, x) && IsAddress(src.bridge)
    ensures CarriesValue(h, x.extension, src.messenger, src.bridge) && AbiWords(x.extension.data) == Some([x.m.value])
  {
    OneWord(x.m.value);
    NamedInTopic(src.bridge);
  }

  function Valueless(m: Message): Message {
    m.(value := [])
  }

  lemma LoggedMessage(h: Hashes, src: Endpoint, dst: Endpoint, x: Crossing)
    requires IsLogged(h, src, dst, x) && IsAddress(src.bridge) && IsAddress(dst.bridge)
    ensures SentIn(h, x.sent, src.messenger) == Some(SentMessage(x.sent, Valueless(x.m)))
  {
    SentMessageReadsBack(h, x.sent, src.messenger, Valueless(x.m));
  }

  // ----- what a receipt is read as

  lemma CallWords(e: Event, extra: seq<byte>)
    requires !e.isErc20 && WORD <= |extra| && |extra| % WORD == 0
    ensures |CallData(e, extra)| % WORD == 0 && StartsWith(Words(CallData(e, extra)), CallArguments(e))
  {
    var amount := BigEndian(e.amount, WORD);
    FirstWord(amount, extra);
    FirstWord(AddressWord(e.to), amount + extra);
    FirstWord(AddressWord(e.from), AddressWord(e.to) + (amount + extra));
    var words, tail, rest := Words(CallData(e, extra)), Words(AddressWord(e.to) + (amount + extra)), Words(amount + extra);
    assert words[0 + 1] == tail[0] && words[1 + 1] == tail[1] && tail[0 + 1] == rest[0];
  }

  lemma MessageCarries(h: Hashes, src: Endpoint, dst: Endpoint, x: Crossing, value: seq<byte>)
    requires IsLogged(h, src, dst, x) && |value| == WORD
    ensures MessageMatches(h, SentMessage(x.sent, x.m.(value := value)), x.e, src.bridge, dst.bridge)
  {
    var data := CallData(x.e, x.callExtra);
    CallWords(x.e, x.callExtra);
    MessageFits(x.m);
    CallMatchesExactly(h, x.e, x.e, data);
  }

  /** The first message of the receipt that fits the initiation. */
  function FirstFit(h: Hashes, src: Endpoint, dst: Endpoint, logs: seq<Log>, e: Event): Option<SentMessage> {
    MatchingMessage(h, ValuedMessages(h, logs, src.messenger), e, src.bridge, dst.bridge)
  }

  lemma FitFound(h: Hashes, ms: seq<SentMessage>, m: SentMessage, e: Event, sourceBridge: string, destinationBridge: string)
    requires m in ms && MessageMatches(h, m, e, sourceBridge, destinationBridge)
    ensures MatchingMessage(h, ms, e, sourceBridge, destinationBridge).Some?
  {
  }

  lemma SentIsValued(h: Hashes, logs: seq<Log>, messenger: string, m: SentMessage)
    requires m.log in logs && SentIn(h, m.log, messenger) == Some(m)
    ensures WithValue(h, logs, messenger, m) in ValuedMessages(h, logs, messenger)
  {
    SentMessagesExactly(h, logs, messenger, m);
  }

  lemma SomeFit(h: Hashes, src: Endpoint, dst: Endpoint, logs: seq<Log>, x: Crossing)
    requires IsLogged(h, src, dst, x) && InReceipt(x, logs) && IsAddress(src.bridge) && IsAddress(dst.bridge)
    ensures FirstFit(h, src, dst, logs, x.e).Some?
  {
    var value := ValueIn(h, logs, src.messenger, src.bridge);
    LoggedMessage(h, src, dst, x);
    SentIsValued(h, logs, src.messenger, SentMessage(x.sent, Valueless(x.m)));
    LoggedValue(h, src, dst, x);
    ValueIsFound(h, logs, x.extension, src.messenger, src.bridge);
    MessageCarries(h, src, dst, x, value);
    var m := SentMessage(x.sent, x.m.(value := value));
    assert WithValue(h, logs, src.messenger, SentMessage(x.sent, Valueless(x.m))) == m;
    FitFound(h, ValuedMessages(h, logs, src.messenger), m, x.e, src.bridge, dst.bridge);
  }

  lemma SameSender(a: string, bridge: string)
    requires (a == "" || IsAddress(a)) && IsAddress(bridge) && SameFold(a, bridge)
    ensures a == bridge
  {
    assert |Lower(a)| == |Lower(bridge)|;
    SameFoldAddresses(a, bridge);
  }

  /** It has the value of the first extension log. */
  lemma FitIsValued(h: Hashes, src: Endpoint, dst: Endpoint, logs: seq<Log>, e: Event)
    requires IsAddress(src.bridge) && IsAddress(dst.bridge) && FirstFit(h, src, dst, logs, e).Some?
    ensures var first := FirstFit(h, src, dst, logs, e).value;
            && Logged(h, logs, src.messenger, first) && first.message.sender == src.bridge && first.message.target == dst.bridge
            && |first.message.message| <= MAX_BYTES && first.message.value == ValueIn(h, logs, src.messenger, src.bridge)
  {
    var first := FirstFit(h, src, dst, logs, e).value;
    MessageLogged(h, logs, src.messenger, first);
    LoggedIsWellFormed(h, logs, src.messenger, first);
    SameSender(first.message.sender, src.bridge);
    SameSender(first.message.target, dst.bridge);
  }

  /** The first extension log has the value of the crossing, and the first message that fits has its other fields. */
  predicate ReadAs(h: Hashes, src: Endpoint, dst: Endpoint, logs: seq<Log>, x: Crossing) {
    var first := FirstFit(h, src, dst, logs, x.e);
    && ValueIn(h, logs, src.messenger, src.bridge) == x.m.value
    && first.Some? && Valueless(first.value.message) == Valueless(x.m)
  }

  lemma ReadAsExactly(h: Hashes, src: Endpoint, dst: Endpoint, logs: seq<Log>, x: Crossing)
    requires IsAddress(src.bridge) && IsAddress(dst.bridge) && FirstFit(h, src, dst, logs, x.e).Some?
    ensures ReadAs(h, src, dst, logs, x) <==> FirstFit(h, src, dst, logs, x.e).value.message == x.m
  {
    FitIsValued(h, src, dst, logs, x.e);
  }

  /** A log of a message for the initiation. */
  predicate FitsLog(h: Hashes, src: Endpoint, dst: Endpoint, log: Log, e: Event) {
    var sent := SentIn(h, log, src.messenger);
    && sent.Some? && SameFold(sent.value.message.sender, src.bridge) && SameFold(sent.value.message.target, dst.bridge)
    && CallMatches(h, sent.value.message.message, e)
  }

  /** The receipt holds no other value of the bridge and no other message for the initiation. */
  predicate Lone(h: Hashes, src: Endpoint, dst: Endpoint, logs: seq<Log>, x: Crossing) {
    forall log :: log in logs ==> IsNoOther(h, src, dst, log, x)
  }

  predicate IsNoOther(h: Hashes, src: Endpoint, dst: Endpoint, log: Log, x: Crossing) {
    && (CarriesValue(h, log, src.messenger, src.bridge) ==> log.data == x.extension.data)
    && (FitsLog(h, src, dst, log, x.e) ==> log == x.sent)
  }

  lemma LoneCrossingIsRead(h: Hashes, src: Endpoint, dst: Endpoint, logs: seq<Log>, x: Crossing)
    requires IsLogged(h, src, dst, x) && InReceipt(x, logs) && IsAddress(src.bridge) && IsAddress(dst.bridge)
    requires Lone(h, src, dst, logs, x)
    ensures ReadAs(h, src, dst, logs, x)
  {
    SomeFit(h, src, dst, logs, x);
    FitIsValued(h, src, dst, logs, x.e);
    LoggedMessage(h, src, dst, x);
    LoggedValue(h, src, dst, x);
    ValueIsFound(h, logs, x.extension, src.messenger, src.bridge);
    ValueIsLogged(h, logs, src.messenger, src.bridge);
    assert FitsLog(h, src, dst, FirstFit(h, src, dst, logs, x.e).value.log, x.e);
  }

  // ----- what the adapter makes of it

  function IdOf(h: Hashes, m: Message): string
    requires Preimage(m).Some?
  {
    AddressText(h.keccak(Preimage(m).value))
  }

  /** An event without tokens takes the native route. */
  lemma NativeRoute(b: OPStack, src: Endpoint, dst: Endpoint, e: Event)
    requires Wired(b, src, dst) && e.localToken == "" && e.remoteToken == ""
    ensures var route := CanonicalRoute(b, src.network, dst.network, e);
            route.Some? && route.value.asset == Asset("NATIVE", "", "ETH", 18)
  {
    var routes, route := Routes(b), CanonicalRoute(b, src.network, dst.network, e);
    assert routes[0] in routes && routes[1] in routes && |ETHEREUM_WETH| == 41;
    assert Fits(routes[0], src.network, dst.network, e) || Fits(routes[1], src.network, dst.network, e);
    var i :| 0 <= i < |routes| && routes[i] == route.value;
  }

  /** The source side is accepted: as a native transfer of the logged amount to the logged recipient, under the message's ID. */
  lemma CrossingSettles(b: OPStack, src: Endpoint, dst: Endpoint, candidate: TransferItem, logs: seq<Log>, x: Crossing)
    requires Wired(b, src, dst) && IsLogged(b.hashes, src, dst, x) && ReadAs(b.hashes, src, dst, logs, x)
    ensures Preimage(x.m).Some?
    ensures var settled := Settle(b, src, dst, candidate, ValuedMessages(b.hashes, logs, src.messenger), x.e);
            && settled.Accepted? && settled.source.messageId == IdOf(b.hashes, x.m)
            && settled.source.recipient == x.e.to && settled.source.amount == Decimal(x.e.amount)
            && settled.source.asset == Asset("NATIVE", "", "ETH", 18) && settled.source.blockNumber == LogBlock(x.e.log)
  {
    PreimageExactly(x.m);
    ReadAsExactly(b.hashes, src, dst, logs, x);
    NativeRoute(b, src, dst, x.e);
  }

  /** The receipt of the transaction can be had, and holds the crossing. */
  predicate Held(candidate: TransferItem, x: Crossing, sc: Chain, so: Outage) {
    candidate.hash in sc.receipts && InReceipt(x, sc.receipts[candidate.hash]) && !so.receipts(candidate.hash)
  }

  /** The initiation of the crossing is the i-th of its receipt. */
  predicate IsPlace(h: Hashes, src: Endpoint, candidate: TransferItem, x: Crossing, sc: Chain, i: nat)
    requires candidate.hash in sc.receipts
  {
    var es := Initiations(h, sc.receipts[candidate.hash], src.bridge);
    i < |es| && es[i] == x.e
  }

  /** Every logged initiation is reported, in its place. */
  lemma CrossingHasPlace(b: OPStack, src: Endpoint, dst: Endpoint, candidate: TransferItem, x: Crossing, sc: Chain, so: Outage) returns (i: nat)
    requires DistinctTopics(b.hashes) && IsLogged(b.hashes, src, dst, x) && Held(candidate, x, sc, so)
    ensures IsPlace(b.hashes, src, candidate, x, sc, i)
  {
    var logs := sc.receipts[candidate.hash];
    LoggedInitiation(b.hashes, src, dst, x);
    InitiationsExactly(b.hashes, logs, src.bridge, x.e);
    i :| 0 <= i < |Initiations(b.hashes, logs, src.bridge)| && Initiations(b.hashes, logs, src.bridge)[i] == x.e;
  }

  lemma PlaceIsReported(b: OPStack, src: Endpoint, dst: Endpoint, candidate: TransferItem, x: Crossing, sc: Chain, so: Outage, view: View, i: nat)
    requires Held(candidate, x, sc, so) && IsPlace(b.hashes, src, candidate, x, sc, i)
    ensures var reported := Resolved(b, src, dst, candidate, Observe(sc, so), view);
            && i < |reported|
            && reported[i] == TransitionFor(b, src, dst, candidate, ValuedMessages(b.hashes, sc.receipts[candidate.hash], src.messenger), x.e,
                                            Observe(sc, so).head, view)
  {
    ResolvedFrom(b, src, dst, candidate, sc, so, view);
  }

  /** A transition that stands for the crossing on the source chain. */
  predicate StandsFor(h: Hashes, source: Source, x: Crossing)
    requires Preimage(x.m).Some?
  {
    && source.messageId == IdOf(h, x.m) && source.recipient == x.e.to && source.amount == Decimal(x.e.amount)
    && source.asset == Asset("NATIVE", "", "ETH", 18) && source.blockNumber == LogBlock(x.e.log)
  }

  /** A crossing in a receipt that is read as it is reported, in the state the chains give its message. */
  lemma CrossingIsReported(b: OPStack, src: Endpoint, dst: Endpoint, candidate: TransferItem, x: Crossing,
                           sc: Chain, so: Outage, dc: Chain, do: Outage) returns (i: nat)
    requires Wired(b, src, dst) && DistinctTopics(b.hashes) && IsLogged(b.hashes, src, dst, x) && Held(candidate, x, sc, so)
    requires ReadAs(b.hashes, src, dst, sc.receipts[candidate.hash], x)
    ensures Preimage(x.m).Some? && IsPlace(b.hashes, src, candidate, x, sc, i)
    ensures var reported := Resolved(b, src, dst, candidate, Observe(sc, so), Observe(dc, do));
            && i < |reported| && StandsFor(b.hashes, reported[i].source, x)
            && reported[i].state == StateAt(b.hashes, reported[i].source, x.e, src, dst, sc, so, dc, do)
  {
    i := CrossingHasPlace(b, src, dst, candidate, x, sc, so);
    PlaceIsReported(b, src, dst, candidate, x, sc, so, Observe(dc, do), i);
    CrossingSettles(b, src, dst, candidate, sc.receipts[candidate.hash], x);
  }

  // ----- exactly when a crossing goes by its own message ID

  /** The hash tells the message from the first one that fits. */
  ghost predicate ToldApart(h: Hashes, src: Endpoint, dst: Endpoint, logs: seq<Log>, x: Crossing) {
    var first := FirstFit(h, src, dst, logs, x.e);
    first.Some? && MessageId(h, first.value.message) == MessageId(h, x.m) ==> Preimage(first.value.message) == Preimage(x.m)
  }

  lemma FitIdExactly(h: Hashes, src: Endpoint, dst: Endpoint, logs: seq<Log>, x: Crossing)
    requires IsLogged(h, src, dst, x) && InReceipt(x, logs) && IsAddress(src.bridge) && IsAddress(dst.bridge)
    requires ToldApart(h, src, dst, logs, x) && Preimage(x.m).Some?
    ensures var first := FirstFit(h, src, dst, logs, x.e);
            first.Some? && (MessageId(h, first.value.message) == MessageId(h, x.m) <==> ReadAs(h, src, dst, logs, x))
  {
    SomeFit(h, src, dst, logs, x);
    FitIsValued(h, src, dst, logs, x.e);
    ReadAsExactly(h, src, dst, logs, x);
    MessageFits(x.m);
    var first := FirstFit(h, src, dst, logs, x.e).value.message;
    if MessageId(h, first) == MessageId(h, x.m) {
      PreimageIsInjective(first, x.m);
    }
  }

  lemma SettledUnder(b: OPStack, src: Endpoint, dst: Endpoint, candidate: TransferItem, logs: seq<Log>, e: Event)
    requires Wired(b, src, dst) && e.localToken == "" && e.remoteToken == "" && FirstFit(b.hashes, src, dst, logs, e).Some?
    ensures var settled := Settle(b, src, dst, candidate, ValuedMessages(b.hashes, logs, src.messenger), e);
            var id := MessageId(b.hashes, FirstFit(b.hashes, src, dst, logs, e).value.message);
            id == if settled.Accepted? then Some(settled.source.messageId) else None
  {
    NativeRoute(b, src, dst, e);
  }

  lemma SettledIdExactly(b: OPStack, src: Endpoint, dst: Endpoint, candidate: TransferItem, logs: seq<Log>, x: Crossing)
    requires Wired(b, src, dst) && IsLogged(b.hashes, src, dst, x) && InReceipt(x, logs) && ToldApart(b.hashes, src, dst, logs, x)
    ensures Preimage(x.m).Some?
    ensures var settled := Settle(b, src, dst, candidate, ValuedMessages(b.hashes, logs, src.messenger), x.e);
            settled.Accepted? && settled.source.messageId == IdOf(b.hashes, x.m) <==> ReadAs(b.hashes, src, dst, logs, x)
  {
    PreimageExactly(x.m);
    FitIdExactly(b.hashes, src, dst, logs, x);
    SettledUnder(b, src, dst, candidate, logs, x.e);
  }

  /** Whatever else is in its receipt: a crossing is reported under its own message ID if and only if the receipt is read as it. */
  lemma CrossingNamedExactly(b: OPStack, src: Endpoint, dst: Endpoint, candidate: TransferItem, x: Crossing,
                             sc: Chain, so: Outage, view: View, i: nat)
    requires Wired(b, src, dst) && IsLogged(b.hashes, src, dst, x) && Held(candidate, x, sc, so) && IsPlace(b.hashes, src, candidate, x, sc, i)
    requires ToldApart(b.hashes, src, dst, sc.receipts[candidate.hash], x)
    ensures Preimage(x.m).Some?
    ensures var reported := Resolved(b, src, dst, candidate, Observe(sc, so), view);
            i < |reported| && (reported[i].source.messageId == IdOf(b.hashes, x.m) <==> ReadAs(b.hashes, src, dst, sc.receipts[candidate.hash], x))
  {
    SettledIdExactly(b, src, dst, candidate, sc.receipts[candidate.hash], x);
    PlaceIsReported(b, src, dst, candidate, x, sc, so, view, i);
    assert |IdOf(b.hashes, x.m)| > 0;
  }

  /** The two initiations differ only in their logs. */
  predicate Alike(e: Event, f: Event) {
    f == e.(log := f.log)
  }

  lemma {:induction false} AlikeFit(h: Hashes, ms: seq<SentMessage>, e: Event, f: Event, sourceBridge: string, destinationBridge: string)
    requires Alike(e, f)
    ensures MatchingMessage(h, ms, e, sourceBridge, destinationBridge) == MatchingMessage(h, ms, f, sourceBridge, destinationBridge)
  {
    if ms != [] {
      AlikeFit(h, ms[1..], e, f, sourceBridge, destinationBridge);
    }
  }

  /** Of two crossings in one receipt, at most one is read if they have different values, or alike initiations and different
      messages. */
  lemma OneOfTwoIsRead(h: Hashes, src: Endpoint, dst: Endpoint, logs: seq<Log>, x: Crossing, y: Crossing)
    requires x.m.value != y.m.value || (Alike(x.e, y.e) && x.m != y.m)
    ensures !(ReadAs(h, src, dst, logs, x) && ReadAs(h, src, dst, logs, y))
  {
    if Alike(x.e, y.e) {
      AlikeFit(h, ValuedMessages(h, logs, src.messenger), x.e, y.e, src.bridge, dst.bridge);
    }
  }

  lemma AlikeFinalized(h: Hashes, logs: seq<Log>, bridge: string, e: Event, f: Event)
    requires Alike(e, f)
    ensures HasFinalization(h, logs, bridge, e) <==> HasFinalization(h, logs, bridge, f)
  {
    assert forall log :: Finalizes(h, log, bridge, e) <==> Finalizes(h, log, bridge, f);
  }

  lemma AlikeCompleted(h: Hashes, s: Source, t: Source, e: Event, f: Event, src: Endpoint, dst: Endpoint, sourceHead: Option<nat>, view: View)
    requires Alike(e, f) && s.messageId == t.messageId && s.blockNumber == t.blockNumber
    ensures Completed(h, s, e, src, dst, sourceHead, view) == Completed(h, t, f, src, dst, sourceHead, view)
  {
    forall logs | true ensures HasFinalization(h, logs, dst.bridge, e) <==> HasFinalization(h, logs, dst.bridge, f) {
      AlikeFinalized(h, logs, dst.bridge, e, f);
    }
  }

  lemma {:induction false} AlikeRoute(routes: seq<Route>, source: string, destination: string, e: Event, f: Event)
    requires Alike(e, f)
    ensures FirstRoute(routes, source, destination, e) == FirstRoute(routes, source, destination, f)
  {
    if routes != [] {
      AlikeRoute(routes[1..], source, destination, e, f);
    }
  }

  lemma AlikeCanonical(b: OPStack, source: string, destination: string, e: Event, f: Event)
    requires Alike(e, f)
    ensures CanonicalRoute(b, source, destination, e) == CanonicalRoute(b, source, destination, f)
  {
    AlikeRoute(Routes(b), source, destination, e, f);
  }

  predicate SettledAlike(s: Settled, t: Settled) {
    if s.Rejected? then s == t
    else
      && t.Accepted? && s.source.protocol == t.source.protocol && s.source.messageId == t.source.messageId
      && s.source.blockNumber == t.source.blockNumber && s.source.transactionHash == t.source.transactionHash
  }

  lemma AlikeOver(b: OPStack, src: Endpoint, dst: Endpoint, candidate: TransferItem, sent: Option<SentMessage>, route: Option<Route>, e: Event, f: Event)
    requires LogBlock(e.log) == LogBlock(f.log)
    ensures SettledAlike(SettleOver(b, src, dst, candidate, sent, route, e), SettleOver(b, src, dst, candidate, sent, route, f))
  {
  }

  lemma AlikeSettle(b: OPStack, src: Endpoint, dst: Endpoint, candidate: TransferItem, messages: seq<SentMessage>, e: Event, f: Event)
    requires Alike(e, f) && LogBlock(e.log) == LogBlock(f.log)
    ensures SettledAlike(Settle(b, src, dst, candidate, messages, e), Settle(b, src, dst, candidate, messages, f))
  {
    AlikeFit(b.hashes, messages, e, f, src.bridge, dst.bridge);
    AlikeCanonical(b, src.network, dst.network, e, f);
    AlikeOver(b, src, dst, candidate, MatchingMessage(b.hashes, messages, e, src.bridge, dst.bridge),
              CanonicalRoute(b, src.network, dst.network, e), e, f);
  }

  /** Alike initiations of one block are reported under one transition ID, whatever their messages: the store keeps one row
      of them. */
  lemma AlikeShareId(b: OPStack, src: Endpoint, dst: Endpoint, candidate: TransferItem, messages: seq<SentMessage>, e: Event, f: Event,
                     sourceHead: Option<nat>, view: View)
    requires Alike(e, f) && LogBlock(e.log) == LogBlock(f.log)
    ensures TransitionFor(b, src, dst, candidate, messages, e, sourceHead, view).id
            == TransitionFor(b, src, dst, candidate, messages, f, sourceHead, view).id
  {
    AlikeSettle(b, src, dst, candidate, messages, e, f);
    var s, t := Settle(b, src, dst, candidate, messages, e), Settle(b, src, dst, candidate, messages, f);
    if s.Accepted? {
      AlikeCompleted(b.hashes, s.source, t.source, e, f, src, dst, sourceHead, view);
    }
  }

  // ----- both sides

  /** The destination relayed the message, and a log of that relay finalizes the transfer. */
  ghost predicate Arrives(h: Hashes, dst: Endpoint, x: Crossing, dc: Chain, f: Event, extra: seq<byte>)
    requires Preimage(x.m).Some?
  {
    var relays := Hits(dc.logs, dst.messenger, Topic(h, RelayedMessage), IdOf(h, x.m));
    && relays != [] && relays[0].transactionHash in dc.receipts && f.log in dc.receipts[relays[0].transactionHash]
    && !f.isErc20 && Records(h, EthFinalized, f, dst.bridge, extra)
    && f.from == x.e.from && f.to == x.e.to && f.amount == x.e.amount
  }

  lemma ArrivalIsProved(h: Hashes, dst: Endpoint, x: Crossing, dc: Chain, o: Outage, f: Event, extra: seq<byte>)
    requires Preimage(x.m).Some? && Arrives(h, dst, x, dc, f, extra) && NoOutage(o) && WellFormed(x.e) && !x.e.isErc20
    ensures RelayProved(h, dst, Observe(dc, o), IdOf(h, x.m), x.e)
  {
    FinalizationReadsBack(h, f, dst.bridge, extra, x.e);
    RelayIsProved(h, dst, IdOf(h, x.m), x.e, dc, o, f.log);
  }

  /** The first relay, and the initiation, lie deep enough below the heads. */
  ghost predicate BothDeep(h: Hashes, src: Endpoint, dst: Endpoint, x: Crossing, sc: Chain, dc: Chain)
    requires Preimage(x.m).Some?
  {
    var relays := Hits(dc.logs, dst.messenger, Topic(h, RelayedMessage), IdOf(h, x.m));
    && relays != []
    && 0 < LogBlock(x.e.log) && LogBlock(x.e.log) + src.confirmations <= sc.head
    && 0 < LogBlock(relays[0]) && LogBlock(relays[0]) + dst.confirmations <= dc.head
  }

  lemma DeepIsFinalized(h: Hashes, source: Source, src: Endpoint, dst: Endpoint, x: Crossing, sc: Chain, so: Outage, dc: Chain, do: Outage)
    requires Preimage(x.m).Some? && source.messageId == IdOf(h, x.m) && source.blockNumber == LogBlock(x.e.log)
    requires NoOutage(so) && NoOutage(do) && RelayProved(h, dst, Observe(dc, do), IdOf(h, x.m), x.e)
    ensures var s := StateAt(h, source, x.e, src, dst, sc, so, dc, do);
            if BothDeep(h, src, dst, x, sc, dc) then s.lifecycle.Finalized? else s.lifecycle.Relayed?
  {
    var view := Observe(dc, do);
    assert Successes(h, dst, view, IdOf(h, x.m)) == Some(Hits(dc.logs, dst.messenger, Topic(h, RelayedMessage), IdOf(h, x.m)));
    StagesExactly(h, source, x.e, src, dst, Observe(sc, so).head, view);
  }

  /** Such a crossing that the destination's contracts log too is reported: as finalized if both heads are far enough ahead,
      else as relayed. */
  lemma CrossingIsFinalized(b: OPStack, src: Endpoint, dst: Endpoint, candidate: TransferItem, x: Crossing, f: Event, extra: seq<byte>,
                            sc: Chain, so: Outage, dc: Chain, do: Outage) returns (i: nat)
    requires Wired(b, src, dst) && DistinctTopics(b.hashes) && IsLogged(b.hashes, src, dst, x) && Held(candidate, x, sc, so)
    requires ReadAs(b.hashes, src, dst, sc.receipts[candidate.hash], x) && NoOutage(so) && NoOutage(do)
    requires Preimage(x.m).Some? && Arrives(b.hashes, dst, x, dc, f, extra)
    ensures IsPlace(b.hashes, src, candidate, x, sc, i)
    ensures var reported := Resolved(b, src, dst, candidate, Observe(sc, so), Observe(dc, do));
            && i < |reported| && StandsFor(b.hashes, reported[i].source, x)
            && if BothDeep(b.hashes, src, dst, x, sc, dc) then IsFinalized(reported[i]) else reported[i].state.lifecycle.Relayed?
  {
    i := CrossingIsReported(b, src, dst, candidate, x, sc, so, dc, do);
    ArrivalIsProved(b.hashes, dst, x, dc, do, f, extra);
    var t := Resolved(b, src, dst, candidate, Observe(sc, so), Observe(dc, do))[i];
    DeepIsFinalized(b.hashes, t.source, src, dst, x, sc, so, dc, do);
  }

  // ----- crossings in full

  function SomeEvent(h: Hashes, s: Signature, bridge: string, hash: string, amount: byte): Event {
    var address := AddressText(Zeros(20));
    var blank := Event(Log("", [], "", "", "", "", ""), false, "", "", address, address, amount);
    blank.(log := Log(bridge, TopicsOf(h, s, blank), AddressText(DataOf(blank, Zeros(WORD))), "0x1", "", hash, "0x0"))
  }

  lemma ByteFitsWord(n: byte)
    ensures n < Pow(256, WORD)
  {
    Int64FitsWord(n);
  }

  lemma SomeEventRecords(h: Hashes, s: Signature, bridge: string, hash: string, amount: byte)
    ensures Records(h, s, SomeEvent(h, s, bridge, hash, amount), bridge, Zeros(WORD))
    ensures LogBlock(SomeEvent(h, s, bridge, hash, amount).log) == 1
  {
    var e := SomeEvent(h, s, bridge, hash, amount);
    assert |Zeros(20)| == 20 && IsAddress(AddressText(Zeros(20)));
    ByteFitsWord(amount);
    FirstBlock(e.log);
  }

  function SomeMessage(h: Hashes, src: Endpoint, dst: Endpoint, e: Event): Message {
    Message(dst.bridge, src.bridge, Selector(h, FinalizeEth) + CallData(e, Zeros(WORD)), [0, 1] + Zeros(30), Zeros(WORD),
            BigEndian(e.amount, WORD))
  }

  /** A transfer of a few units, with the logs the contracts write of it. */
  function SomeCrossing(h: Hashes, src: Endpoint, dst: Endpoint, hash: string, amount: byte): Crossing {
    var e := SomeEvent(h, EthInitiated, src.bridge, hash, amount);
    var m := SomeMessage(h, src, dst, e);
    var blank := Log(src.messenger, [], "", "0x1", "", hash, "0x1");
    Crossing(e, Zeros(WORD), m, Zeros(WORD),
             blank.(topics := [Topic(h, SentMessageEvent), AddressText(AddressWord(dst.bridge))], data := AddressText(SentData(m))),
             blank.(topics := [Topic(h, SentExtension), AddressText(AddressWord(src.bridge))], data := AddressText(m.value)))
  }

  lemma SentDataFits(m: Message)
    requires |m.nonce| == WORD && |m.gas| == WORD && |m.message| <= 1000
    ensures |SentData(m)| <= MAX_BYTES
  {
    HeadWords(m);
    assert |SentData(m)| == 128 + WORD + |Padded(m.message)|;
  }

  lemma FirstVersion()
    ensures VersionOne([0, 1] + Zeros(30))
  {
    var nonce: seq<byte> := [0, 1] + Zeros(30);
    PreimageExactly(Message("", "", [], nonce, Zeros(WORD), Zeros(WORD)));
    assert nonce[0] == 0 && nonce[1] == 1;
  }

  lemma SomeCallSize(h: Hashes, e: Event)
    ensures |Selector(h, FinalizeEth) + CallData(e, Zeros(WORD))| == 4 + 4 * WORD
  {
  }

  lemma SomeMessageFits(h: Hashes, src: Endpoint, dst: Endpoint, e: Event)
    ensures var m := SomeMessage(h, src, dst, e);
            WordFields(m) && VersionOne(m.nonce) && |SentData(m)| <= MAX_BYTES && Preimage(m).Some?
  {
    var m := SomeMessage(h, src, dst, e);
    SomeCallSize(h, e);
    FirstVersion();
    SentDataFits(m);
    PreimageExactly(m);
  }

  lemma SomeMessageCarries(h: Hashes, src: Endpoint, dst: Endpoint, hash: string, amount: byte)
    ensures Carries(h, src, dst, SomeCrossing(h, src, dst, hash, amount)) && Preimage(SomeCrossing(h, src, dst, hash, amount).m).Some?
  {
    SomeMessageFits(h, src, dst, SomeEvent(h, EthInitiated, src.bridge, hash, amount));
  }

  lemma SomeCrossingIsLogged(h: Hashes, src: Endpoint, dst: Endpoint, hash: string, amount: byte)
    ensures IsLogged(h, src, dst, SomeCrossing(h, src, dst, hash, amount))
    ensures LogBlock(SomeCrossing(h, src, dst, hash, amount).e.log) == 1
  {
    SomeEventRecords(h, EthInitiated, src.bridge, hash, amount);
    SomeMessageCarries(h, src, dst, hash, amount);
  }

  /** The receipt of a transaction that does nothing else. */
  function Receipt(x: Crossing): seq<Log> {
    [x.e.log, x.sent, x.extension]
  }

  lemma OnlyExtension(h: Hashes, src: Endpoint, dst: Endpoint, x: Crossing)
    requires IsLogged(h, src, dst, x) && DistinctTopics(h) && !SameFold(src.messenger, src.bridge)
    ensures !CarriesValue(h, x.e.log, src.messenger, src.bridge) && !CarriesValue(h, x.sent, src.messenger, src.bridge)
  {
    TopicsFold(h, SentExtension, SentMessageEvent);
    assert x.sent.topics[0] == Topic(h, SentMessageEvent);
  }

  lemma NotSent(h: Hashes, log: Log, messenger: string)
    requires !SameFold(log.address, messenger) || (log.topics != [] && !SameFold(log.topics[0], Topic(h, SentMessageEvent)))
    ensures SentIn(h, log, messenger).None?
  {
  }

  lemma OnlyMessage(h: Hashes, src: Endpoint, dst: Endpoint, x: Crossing)
    requires IsLogged(h, src, dst, x) && DistinctTopics(h) && !SameFold(src.messenger, src.bridge)
    ensures SentIn(h, x.e.log, src.messenger).None? && SentIn(h, x.extension, src.messenger).None?
  {
    TopicsFold(h, SentExtension, SentMessageEvent);
    assert x.extension.topics[0] == Topic(h, SentExtension);
    NotSent(h, x.extension, src.messenger);
    NotSent(h, x.e.log, src.messenger);
  }

  lemma OneOfThree(log: Log, first: Log, second: Log, third: Log)
    requires log in [first, second, third]
    ensures log == first || log == second || log == third
  {
  }

  lemma ReceiptIsLone(h: Hashes, src: Endpoint, dst: Endpoint, x: Crossing)
    requires IsNoOther(h, src, dst, x.e.log, x) && IsNoOther(h, src, dst, x.sent, x) && IsNoOther(h, src, dst, x.extension, x)
    ensures Lone(h, src, dst, Receipt(x), x)
  {
    forall log | log in Receipt(x) ensures IsNoOther(h, src, dst, log, x) {
      OneOfThree(log, x.e.log, x.sent, x.extension);
    }
  }

  lemma ReceiptIsRead(h: Hashes, src: Endpoint, dst: Endpoint, x: Crossing)
    requires IsLogged(h, src, dst, x) && DistinctTopics(h) && !SameFold(src.messenger, src.bridge)
    requires IsAddress(src.bridge) && IsAddress(dst.bridge)
    ensures InReceipt(x, Receipt(x)) && ReadAs(h, src, dst, Receipt(x), x)
  {
    OnlyExtension(h, src, dst, x);
    OnlyMessage(h, src, dst, x);
    ReceiptIsLone(h, src, dst, x);
    LoneCrossingIsRead(h, src, dst, Receipt(x), x);
  }

  function SomeRelay(h: Hashes, dst: Endpoint, id: string): Log {
    Log(dst.messenger, [Topic(h, RelayedMessage), id], "", "0x1", "", "0x02", "0x1")
  }

  function SourceChain(src: Endpoint, logs: seq<Log>, hash: string): Chain {
    Chain(logs, map[hash := logs], 1 + src.confirmations)
  }

  function DestinationChain(h: Hashes, dst: Endpoint, id: string): Chain {
    var f := SomeEvent(h, EthFinalized, dst.bridge, "0x02", 0);
    Chain([SomeRelay(h, dst, id)], map["0x02" := [f.log]], 1 + dst.confirmations)
  }

  lemma SomeRelayIsHit(h: Hashes, dst: Endpoint, id: string)
    ensures Hits([SomeRelay(h, dst, id)], dst.messenger, Topic(h, RelayedMessage), id) == [SomeRelay(h, dst, id)]
    ensures LogBlock(SomeRelay(h, dst, id)) == 1
  {
    OneHit(SomeRelay(h, dst, id), dst.messenger, Topic(h, RelayedMessage), id);
    FirstBlock(SomeRelay(h, dst, id));
  }

  lemma SomeCrossingArrives(h: Hashes, src: Endpoint, dst: Endpoint, hash: string)
    requires Preimage(SomeCrossing(h, src, dst, hash, 0).m).Some?
    ensures var x := SomeCrossing(h, src, dst, hash, 0);
            Arrives(h, dst, x, DestinationChain(h, dst, IdOf(h, x.m)), SomeEvent(h, EthFinalized, dst.bridge, "0x02", 0), Zeros(WORD))
  {
    SomeRelayIsHit(h, dst, IdOf(h, SomeCrossing(h, src, dst, hash, 0).m));
    SomeEventRecords(h, EthFinalized, dst.bridge, "0x02", 0);
  }

  lemma FirstBlockIsDeep(h: Hashes, src: Endpoint, dst: Endpoint, x: Crossing, hash: string)
    requires Preimage(x.m).Some? && LogBlock(x.e.log) == 1
    ensures BothDeep(h, src, dst, x, SourceChain(src, Receipt(x), hash), DestinationChain(h, dst, IdOf(h, x.m)))
  {
    SomeRelayIsHit(h, dst, IdOf(h, x.m));
  }

  /** A crossing in full: what both chains log of it, and chains that hold those logs deep enough. */
  lemma MakeCrossing(b: OPStack, src: Endpoint, dst: Endpoint, hash: string) returns (x: Crossing, f: Event, extra: seq<byte>, sc: Chain, dc: Chain)
    ensures IsLogged(b.hashes, src, dst, x) && Preimage(x.m).Some? && Arrives(b.hashes, dst, x, dc, f, extra)
    ensures hash in sc.receipts && sc.receipts[hash] == Receipt(x) && BothDeep(b.hashes, src, dst, x, sc, dc)
  {
    x := SomeCrossing(b.hashes, src, dst, hash, 0);
    SomeCrossingIsLogged(b.hashes, src, dst, hash, 0);
    SomeMessageCarries(b.hashes, src, dst, hash, 0);
    SomeCrossingArrives(b.hashes, src, dst, hash);
    FirstBlockIsDeep(b.hashes, src, dst, x, hash);
    f, extra := SomeEvent(b.hashes, EthFinalized, dst.bridge, "0x02", 0), Zeros(WORD);
    sc := SourceChain(src, Receipt(x), hash);
    dc := DestinationChain(b.hashes, dst, IdOf(b.hashes, x.m));
  }

  lemma InitiationsSkip(h: Hashes, logs: seq<Log>, log: Log, bridge: string)
    requires !SameFold(log.address, bridge)
    ensures Initiations(h, logs + [log], bridge) == Initiations(h, logs, bridge)
  {
    assert (logs + [log])[..|logs|] == logs;
  }

  lemma FirstInitiation(h: Hashes, log: Log, bridge: string, e: Event)
    requires InitiationIn(h, log, bridge) == Some(e)
    ensures Initiations(h, [log], bridge) == [e]
  {
    assert [log][..0] == [];
  }

  lemma InitiationOfThree(h: Hashes, first: Log, second: Log, third: Log, bridge: string, e: Event)
    requires InitiationIn(h, first, bridge) == Some(e) && !SameFold(second.address, bridge) && !SameFold(third.address, bridge)
    ensures Initiations(h, [first, second, third], bridge) == [e]
  {
    FirstInitiation(h, first, bridge, e);
    InitiationsSkip(h, [first], second, bridge);
    InitiationsSkip(h, [first] + [second], third, bridge);
    assert [first] + [second] + [third] == [first, second, third];
  }

  lemma OneInitiation(h: Hashes, src: Endpoint, dst: Endpoint, x: Crossing)
    requires IsLogged(h, src, dst, x) && DistinctTopics(h) && !SameFold(src.messenger, src.bridge)
    ensures Initiations(h, Receipt(x), src.bridge) == [x.e]
  {
    LoggedInitiation(h, src, dst, x);
    InitiationOfThree(h, x.e.log, x.sent, x.extension, src.bridge, x.e);
  }

  lemma OneIsReported(b: OPStack, src: Endpoint, dst: Endpoint, candidate: TransferItem, x: Crossing, sc: Chain, so: Outage, view: View)
    requires Wired(b, src, dst) && DistinctTopics(b.hashes) && IsLogged(b.hashes, src, dst, x)
    requires Held(candidate, x, sc, so) && sc.receipts[candidate.hash] == Receipt(x)
    ensures |Resolved(b, src, dst, candidate, Observe(sc, so), view)| == 1
  {
    OneInitiation(b.hashes, src, dst, x);
    ResolvedFrom(b, src, dst, candidate, sc, so, view);
  }

  predicate IsOneFinalized(reported: seq<Transition>) {
    |reported| == 1 && reported[0].source.messageId != "" && IsFinalized(reported[0])
  }

  lemma DeepIsReported(b: OPStack, src: Endpoint, dst: Endpoint, candidate: TransferItem, x: Crossing, f: Event, extra: seq<byte>,
                       sc: Chain, dc: Chain, o: Outage) returns (i: nat)
    requires Wired(b, src, dst) && DistinctTopics(b.hashes) && NoOutage(o) && IsLogged(b.hashes, src, dst, x)
    requires Held(candidate, x, sc, o) && sc.receipts[candidate.hash] == Receipt(x)
    requires Preimage(x.m).Some? && Arrives(b.hashes, dst, x, dc, f, extra) && BothDeep(b.hashes, src, dst, x, sc, dc)
    ensures var reported := Resolved(b, src, dst, candidate, Observe(sc, o), Observe(dc, o));
            i < |reported| && reported[i].source.messageId != "" && IsFinalized(reported[i])
  {
    ReceiptIsRead(b.hashes, src, dst, x);
    i := CrossingIsFinalized(b, src, dst, candidate, x, f, extra, sc, o, dc, o);
    assert |IdOf(b.hashes, x.m)| > 0;
  }

  lemma DeepIsOneFinalized(b: OPStack, src: Endpoint, dst: Endpoint, candidate: TransferItem, x: Crossing, f: Event, extra: seq<byte>,
                           sc: Chain, dc: Chain, o: Outage)
    requires Wired(b, src, dst) && DistinctTopics(b.hashes) && NoOutage(o) && IsLogged(b.hashes, src, dst, x)
    requires Held(candidate, x, sc, o) && sc.receipts[candidate.hash] == Receipt(x)
    requires Preimage(x.m).Some? && Arrives(b.hashes, dst, x, dc, f, extra) && BothDeep(b.hashes, src, dst, x, sc, dc)
    ensures IsOneFinalized(Resolved(b, src, dst, candidate, Observe(sc, o), Observe(dc, o)))
  {
    var i := DeepIsReported(b, src, dst, candidate, x, f, extra, sc, dc, o);
    OneIsReported(b, src, dst, candidate, x, sc, o, Observe(dc, o));
    assert i == 0;
  }

  /** It is reported as finalized. */
  lemma FinalizedCrossing(b: OPStack, src: Endpoint, dst: Endpoint, candidate: TransferItem, o: Outage) returns (sc: Chain, dc: Chain)
    requires Wired(b, src, dst) && DistinctTopics(b.hashes) && NoOutage(o)
    ensures candidate.hash in sc.receipts
    ensures var reported := Resolved(b, src, dst, candidate, Observe(sc, o), Observe(dc, o));
            |reported| == 1 && reported[0].source.messageId != "" && reported[0].state.lifecycle.Finalized?
  {
    var x, f, extra;
    x, f, extra, sc, dc := MakeCrossing(b, src, dst, candidate.hash);
    assert InReceipt(x, Receipt(x));
    DeepIsOneFinalized(b, src, dst, candidate, x, f, extra, sc, dc, o);
  }

  /** When the next time only its source receipt fails, nothing is left of it but one unresolved transition without a message. */
  lemma SourceReceiptHides(b: OPStack, src: Endpoint, dst: Endpoint, candidate: TransferItem, o: Outage) returns (sc: Chain, dc: Chain)
    requires Wired(b, src, dst) && DistinctTopics(b.hashes) && NoOutage(o)
    ensures var before := Resolved(b, src, dst, candidate, Observe(sc, o), Observe(dc, o));
            var after := Resolved(b, src, dst, candidate, Observe(sc, o.(receipts := hash => true)), Observe(dc, o));
            && IsOneFinalized(before) && after == [UnresolvedTransition(b, src, dst, candidate, NoReceipt)]
            && !KeepsPace(before, after, 0)
  {
    sc, dc := FinalizedCrossing(b, src, dst, candidate, o);
    SourceReceiptFails(b, src, dst, candidate, sc, o.(receipts := hash => true), Observe(dc, o));
  }

  // ----- two transfers in one transaction

  lemma FirstReceiptDecides(h: Hashes, src: Endpoint, dst: Endpoint, x: Crossing, more: seq<Log>)
    requires IsLogged(h, src, dst, x) && DistinctTopics(h) && !SameFold(src.messenger, src.bridge)
    requires IsAddress(src.bridge) && IsAddress(dst.bridge)
    ensures ValueIn(h, Receipt(x) + more, src.messenger, src.bridge) == x.m.value
  {
    ReceiptIsRead(h, src, dst, x);
    FirstValueStays(h, Receipt(x), more, src.messenger, src.bridge);
  }

  lemma WordsDiffer()
    ensures BigEndian(1, WORD) != BigEndian(2, WORD)
  {
    ByteFitsWord(1);
    ByteFitsWord(2);
    NumberOfBigEndian(1, WORD);
    NumberOfBigEndian(2, WORD);
  }

  lemma SecondIsNotRead(h: Hashes, src: Endpoint, dst: Endpoint, x: Crossing, y: Crossing)
    requires IsLogged(h, src, dst, x) && DistinctTopics(h) && !SameFold(src.messenger, src.bridge)
    requires IsAddress(src.bridge) && IsAddress(dst.bridge) && x.m.value != y.m.value
    ensures InReceipt(x, Receipt(x) + Receipt(y)) && InReceipt(y, Receipt(x) + Receipt(y))
    ensures !ReadAs(h, src, dst, Receipt(x) + Receipt(y), y)
  {
    var logs := Receipt(x) + Receipt(y);
    FirstReceiptDecides(h, src, dst, x, Receipt(y));
    assert logs[3] == y.e.log && logs[4] == y.sent && logs[5] == y.extension;
  }

  lemma TwoCrossings(h: Hashes, src: Endpoint, dst: Endpoint, hash: string) returns (x: Crossing, y: Crossing)
    ensures IsLogged(h, src, dst, x) && IsLogged(h, src, dst, y) && x.m.value != y.m.value
  {
    x, y := SomeCrossing(h, src, dst, hash, 1), SomeCrossing(h, src, dst, hash, 2);
    SomeCrossingIsLogged(h, src, dst, hash, 1);
    SomeCrossingIsLogged(h, src, dst, hash, 2);
    WordsDiffer();
  }

  /** Two transfers of different amounts in one transaction: the second message is read with the value of the first, and
      unless the hash fails to tell the two readings apart, its transfer is not reported under its message ID. */
  lemma SecondTransferMisses(b: OPStack, src: Endpoint, dst: Endpoint, candidate: TransferItem, so: Outage, view: View)
    returns (x: Crossing, y: Crossing, sc: Chain, i: nat)
    requires Wired(b, src, dst) && DistinctTopics(b.hashes) && NoOutage(so)
    ensures IsLogged(b.hashes, src, dst, x) && IsLogged(b.hashes, src, dst, y) && Preimage(y.m).Some?
    ensures candidate.hash in sc.receipts && sc.receipts[candidate.hash] == Receipt(x) + Receipt(y)
    ensures IsPlace(b.hashes, src, candidate, y, sc, i)
    ensures var reported := Resolved(b, src, dst, candidate, Observe(sc, so), view);
            ToldApart(b.hashes, src, dst, sc.receipts[candidate.hash], y) ==> i < |reported| && reported[i].source.messageId != IdOf(b.hashes, y.m)
  {
    x, y := TwoCrossings(b.hashes, src, dst, candidate.hash);
    SecondIsNotRead(b.hashes, src, dst, x, y);
    PreimageExactly(y.m);
    sc := SourceChain(src, Receipt(x) + Receipt(y), candidate.hash);
    i := CrossingHasPlace(b, src, dst, candidate, y, sc, so);
    if ToldApart(b.hashes, src, dst, sc.receipts[candidate.hash], y) {
      CrossingNamedExactly(b, src, dst, candidate, y, sc, so, view, i);
    }
  }
}
