/** Receipt logs of the bridge contracts, read as events and messages. */
module BridgeEvents {
  import opened Options
  import opened Text
  import opened Bytes
  import opened BridgeCodec

  datatype Log = Log(address: string, topics: seq<string>, data: string, blockNumber: string, blockHash: string,
                     transactionHash: string, logIndex: string)

  type Digest = b: seq<byte> | |b| == 32 witness Zeros(32)

  /** The event and call signatures of the bridge and messenger contracts. */
  datatype Signature = EthInitiated | Erc20Initiated | EthFinalized | Erc20Finalized | SentMessageEvent | SentExtension
                     | RelayedMessage | FailedRelay | FinalizeEth | FinalizeErc20

  /** The two hash functions, of which nothing is assumed, and the texts of the signatures. */
  datatype Hashes = Hashes(keccak: seq<byte> -> Digest, sha256: seq<byte> -> Digest, text: Signature -> string)

  function BytesOf(s: string): (b: seq<byte>)
    ensures |b| == |s|
  {
    seq(|s|, i requires 0 <= i < |s| => s[i] as int % 256)
  }

  function Topic(h: Hashes, signature: Signature): string {
    AddressText(h.keccak(BytesOf(h.text(signature))))
  }

  function Selector(h: Hashes, signature: Signature): seq<byte> {
    h.keccak(BytesOf(h.text(signature)))[..4]
  }

  // ----- log positions

  function HexDigits(s: string): Option<nat> {
    if s == "" then Some(0)
    else
      var high, d := HexDigits(s[..|s| - 1]), HexDigit(s[|s| - 1]);
      if high.None? || d < 0 then None else Some(high.value * 16 + d)
  }

  predicate IsHexText(s: string) {
    forall i :: 0 <= i < |s| ==> HexDigit(s[i]) >= 0
  }

  function HexValues(s: string): seq<nat>
    requires IsHexText(s)
  {
    seq(|s|, i requires 0 <= i < |s| => HexDigit(s[i]))
  }

  /** Reading is positional, most significant digit first. */
  lemma {:induction false} HexDigitsExactly(s: string)
    ensures HexDigits(s).Some? <==> IsHexText(s)
    ensures IsHexText(s) ==> HexDigits(s).value == FromDigits(HexValues(s), 16)
  {
    if s != "" {
      var k := |s| - 1;
      HexDigitsExactly(s[..k]);
      assert IsHexText(s) ==> IsHexText(s[..k]) && HexValues(s)[..k] == HexValues(s[..k]);
      assert IsHexText(s[..k]) && HexDigit(s[k]) >= 0 ==> IsHexText(s);
    }
  }

  /** big.Int.SetString(s, 16). */
  function ParseHex(s: string): Option<int> {
    var signed := s != "" && (s[0] == '-' || s[0] == '+');
    var digits := if signed then s[1..] else s;
    if digits == "" || HexDigits(digits).None? then None
    else Some(if signed && s[0] == '-' then -(HexDigits(digits).value as int) else HexDigits(digits).value)
  }

  /** The block number; 0 when it is not a 64-bit unsigned number. */
  function LogBlock(log: Log): nat {
    var value := ParseHex(TrimPrefix(log.blockNumber, "0x"));
    if value.None? || value.value < 0 || value.value >= 0x1_0000_0000_0000_0000 then 0 else value.value
  }

  /** A block number of hexadecimal digits is their number if that fits 64 bits; what is no number is block 0. */
  lemma LogBlockExactly(log: Log, s: string)
    requires log.blockNumber == "0x" + s
    ensures s != "" && IsHexText(s) ==>
              LogBlock(log) == if FromDigits(HexValues(s), 16) < 0x1_0000_0000_0000_0000 then FromDigits(HexValues(s), 16) else 0
    ensures s == "" || (s[0] != '+' && !IsHexText(s)) ==> LogBlock(log) == 0
    ensures |s| > 1 && s[0] == '+' && IsHexText(s[1..]) ==>
              LogBlock(log) == if FromDigits(HexValues(s[1..]), 16) < 0x1_0000_0000_0000_0000 then FromDigits(HexValues(s[1..]), 16) else 0
  {
    assert TrimPrefix("0x" + s, "0x") == s;
    HexDigitsExactly(s);
    if s != "" {
      HexDigitsExactly(s[1..]);
      assert IsHexText(s) ==> HexDigit(s[0]) >= 0;
    }
  }

  function LogReference(log: Log): string {
    if log.transactionHash == "" then "" else Lower(log.transactionHash) + ":log:" + Lower(TrimPrefix(log.logIndex, "0x"))
  }

  // ----- bridge events

  datatype Event = Event(log: Log, isErc20: bool, localToken: string, remoteToken: string, from: string, to: string, amount: nat)

  function DecodeETHBridge(log: Log): Option<Event> {
    if |log.topics| != 3 then None
    else
      var words := AbiWords(log.data);
      if words.None? || |words.value| < 2 then None
      else Some(Event(log, false, "", "", WordAddress(TopicWord(log.topics[1])), WordAddress(TopicWord(log.topics[2])),
                      Number(words.value[0])))
  }

  function DecodeERC20Bridge(log: Log): Option<Event> {
    if |log.topics| != 4 then None
    else
      var words := AbiWords(log.data);
      if words.None? || |words.value| < 3 then None
      else Some(Event(log, true, WordAddress(TopicWord(log.topics[1])), WordAddress(TopicWord(log.topics[2])),
                      WordAddress(TopicWord(log.topics[3])), WordAddress(words.value[0]), Number(words.value[1])))
  }

  /** The initiation a log of the bridge records. */
  function InitiationIn(h: Hashes, log: Log, bridge: string): Option<Event> {
    if !SameFold(log.address, bridge) || log.topics == [] then None
    else if Lower(log.topics[0]) == Topic(h, EthInitiated) then DecodeETHBridge(log)
    else if Lower(log.topics[0]) == Topic(h, Erc20Initiated) then DecodeERC20Bridge(log)
    else None
  }

  function Initiations(h: Hashes, logs: seq<Log>, bridge: string): seq<Event> {
    if logs == [] then []
    else
      var e := InitiationIn(h, logs[|logs| - 1], bridge);
      Initiations(h, logs[..|logs| - 1], bridge) + if e.Some? then [e.value] else []
  }

  method DecodeInitiations(h: Hashes, logs: seq<Log>, bridge: string) returns (result: seq<Event>)
    ensures result == Initiations(h, logs, bridge)
  {
    result := [];
    for i := 0 to |logs|
      invariant result == Initiations(h, logs[..i], bridge)
    {
      assert logs[..i + 1][..i] == logs[..i];
      if SameFold(logs[i].address, bridge) && logs[i].topics != [] {
        var event := None;
        if Lower(logs[i].topics[0]) == Topic(h, EthInitiated) {
          event := DecodeETHBridge(logs[i]);
        } else if Lower(logs[i].topics[0]) == Topic(h, Erc20Initiated) {
          event := DecodeERC20Bridge(logs[i]);
        }
        if event.Some? {
          result := result + [event.value];
        }
      }
    }
    assert logs[..|logs|] == logs;
  }

  /** Decoding finds the initiations in the receipt and invents none. */
  lemma {:induction false} InitiationsExactly(h: Hashes, logs: seq<Log>, bridge: string, e: Event)
    ensures e in Initiations(h, logs, bridge) <==> e.log in logs && InitiationIn(h, e.log, bridge) == Some(e)
  {
    if logs != [] {
      var k := |logs| - 1;
      InitiationsExactly(h, logs[..k], bridge, e);
      assert logs == logs[..k] + [logs[k]];
    }
  }

  /** Both events move the same amount between the same parties; for tokens, each side names the other's token. */
  predicate SameFacts(event: Event, expected: Event) {
    && event.isErc20 == expected.isErc20 && SameFold(event.from, expected.from) && SameFold(event.to, expected.to)
    && event.amount == expected.amount
    && (event.isErc20 ==> SameFold(event.localToken, expected.remoteToken) && SameFold(event.remoteToken, expected.localToken))
  }

  /** The finalization a log of the bridge records, of the kind that is asked for. */
  function FinalizationIn(h: Hashes, log: Log, bridge: string, erc20: bool): Option<Event> {
    if !SameFold(log.address, bridge) || log.topics == [] then None
    else if erc20 && SameFold(log.topics[0], Topic(h, Erc20Finalized)) then DecodeERC20Bridge(log)
    else if !erc20 && SameFold(log.topics[0], Topic(h, EthFinalized)) then DecodeETHBridge(log)
    else None
  }

  predicate Finalizes(h: Hashes, log: Log, bridge: string, expected: Event) {
    var event := FinalizationIn(h, log, bridge, expected.isErc20);
    event.Some? && SameFacts(event.value, expected)
  }

  predicate HasFinalization(h: Hashes, logs: seq<Log>, bridge: string, expected: Event) {
    exists log :: log in logs && Finalizes(h, log, bridge, expected)
  }

  method HasMatchingFinalization(h: Hashes, logs: seq<Log>, bridge: string, expected: Event) returns (found: bool)
    ensures found == HasFinalization(h, logs, bridge, expected)
  {
    for i := 0 to |logs|
      invariant forall j :: 0 <= j < i ==> !Finalizes(h, logs[j], bridge, expected)
    {
      if Finalizes(h, logs[i], bridge, expected) {
        return true;
      }
    }
    return false;
  }

  // ----- sent messages

  datatype SentMessage = SentMessage(log: Log, message: Message)

  function SentIn(h: Hashes, log: Log, messenger: string): Option<SentMessage> {
    if !SameFold(log.address, messenger) || |log.topics| != 2 || !SameFold(log.topics[0], Topic(h, SentMessageEvent)) then None
    else
      var words := AbiWords(log.data);
      if words.None? || |words.value| < 4 then None
      else
        var message := DynamicBytes(log.data, words.value[1]);
        if message.None? then None
        else Some(SentMessage(log, Message(WordAddress(TopicWord(log.topics[1])), WordAddress(words.value[0]), message.value,
                                           words.value[2], words.value[3], [])))
  }

  /** An extension log by this sender, with the one word that is the value of a message. */
  predicate CarriesValue(h: Hashes, log: Log, messenger: string, sender: string) {
    && SameFold(log.address, messenger) && |log.topics| == 2 && SameFold(log.topics[0], Topic(h, SentExtension))
    && SameFold(WordAddress(TopicWord(log.topics[1])), sender)
    && var words := AbiWords(log.data); words.Some? && |words.value| == 1
  }

  /** The value the first extension log of this sender carries; empty without one. */
  function ValueIn(h: Hashes, logs: seq<Log>, messenger: string, sender: string): seq<byte> {
    if logs == [] then []
    else if CarriesValue(h, logs[0], messenger, sender) then AbiWords(logs[0].data).value[0]
    else ValueIn(h, logs[1..], messenger, sender)
  }

  function SentMessages(h: Hashes, logs: seq<Log>, messenger: string): seq<SentMessage> {
    if logs == [] then []
    else
      var m := SentIn(h, logs[|logs| - 1], messenger);
      SentMessages(h, logs[..|logs| - 1], messenger) + if m.Some? then [m.value] else []
  }

  function WithValue(h: Hashes, logs: seq<Log>, messenger: string, m: SentMessage): SentMessage {
    m.(message := m.message.(value := ValueIn(h, logs, messenger, m.message.sender)))
  }

  function ValuedMessages(h: Hashes, logs: seq<Log>, messenger: string): (r: seq<SentMessage>)
    ensures |r| == |SentMessages(h, logs, messenger)|
    ensures forall i :: 0 <= i < |r| ==> r[i] == WithValue(h, logs, messenger, SentMessages(h, logs, messenger)[i])
  {
    var ms := SentMessages(h, logs, messenger);
    seq(|ms|, i requires 0 <= i < |ms| => WithValue(h, logs, messenger, ms[i]))
  }

  method DecodeSentMessages(h: Hashes, logs: seq<Log>, messenger: string) returns (messages: seq<SentMessage>)
    ensures messages == ValuedMessages(h, logs, messenger)
  {
    messages := [];
    for i := 0 to |logs|
      invariant messages == SentMessages(h, logs[..i], messenger)
    {
      assert logs[..i + 1][..i] == logs[..i];
      var m := SentIn(h, logs[i], messenger);
      if m.Some? {
        messages := messages + [m.value];
      }
    }
    assert logs[..|logs|] == logs;
    ghost var decoded := messages;
    for i := 0 to |messages|
      invariant |messages| == |decoded|
      invariant forall j :: 0 <= j < i ==> messages[j] == WithValue(h, logs, messenger, decoded[j])
      invariant forall j :: i <= j < |decoded| ==> messages[j] == decoded[j]
    {
      messages := messages[i := WithValue(h, logs, messenger, messages[i])];
    }
  }

  lemma {:induction false} SentMessagesExactly(h: Hashes, logs: seq<Log>, messenger: string, m: SentMessage)
    ensures m in SentMessages(h, logs, messenger) <==> m.log in logs && SentIn(h, m.log, messenger) == Some(m)
  {
    if logs != [] {
      var k := |logs| - 1;
      SentMessagesExactly(h, logs[..k], messenger, m);
      assert logs == logs[..k] + [logs[k]];
    }
  }

  /** A value is that of an extension log by the same sender in the receipt. */
  lemma {:induction false} ValueIsLogged(h: Hashes, logs: seq<Log>, messenger: string, sender: string)
    requires ValueIn(h, logs, messenger, sender) != []
    ensures exists log :: log in logs && CarriesValue(h, log, messenger, sender)
                          && AbiWords(log.data) == Some([ValueIn(h, logs, messenger, sender)])
  {
    if CarriesValue(h, logs[0], messenger, sender) {
      assert AbiWords(logs[0].data).value == [AbiWords(logs[0].data).value[0]];
    } else {
      ValueIsLogged(h, logs[1..], messenger, sender);
    }
  }

  /** And one is found if there is any such log. */
  lemma {:induction false} ValueIsFound(h: Hashes, logs: seq<Log>, log: Log, messenger: string, sender: string)
    requires log in logs && CarriesValue(h, log, messenger, sender)
    ensures |ValueIn(h, logs, messenger, sender)| == WORD
  {
    if !CarriesValue(h, logs[0], messenger, sender) {
      assert logs == [logs[0]] + logs[1..];
      ValueIsFound(h, logs[1..], log, messenger, sender);
    }
  }

  /** The first extension log counts: logs behind it change nothing. */
  lemma {:induction false} FirstValueStays(h: Hashes, logs: seq<Log>, more: seq<Log>, messenger: string, sender: string)
    requires ValueIn(h, logs, messenger, sender) != []
    ensures ValueIn(h, logs + more, messenger, sender) == ValueIn(h, logs, messenger, sender)
  {
    if !CarriesValue(h, logs[0], messenger, sender) {
      FirstValueStays(h, logs[1..], more, messenger, sender);
      assert (logs + more)[1..] == logs[1..] + more;
    }
  }

  // ----- the finalization call inside a message

  /** The arguments agree with the initiation: same parties and amount, and for tokens the two swapped. */
  predicate CallAgrees(words: seq<seq<byte>>, initiated: Event) {
    if initiated.isErc20 then
      && |words| >= 6 && SameFold(WordAddress(words[0]), initiated.remoteToken) && SameFold(WordAddress(words[1]), initiated.localToken)
      && SameFold(WordAddress(words[2]), initiated.from) && SameFold(WordAddress(words[3]), initiated.to)
      && WordInt(words[4]) == Some(initiated.amount)
    else
      && |words| >= 4 && SameFold(WordAddress(words[0]), initiated.from) && SameFold(WordAddress(words[1]), initiated.to)
      && WordInt(words[2]) == Some(initiated.amount)
  }

  function FinalizeCall(erc20: bool): Signature {
    if erc20 then FinalizeErc20 else FinalizeEth
  }

  predicate CallMatches(h: Hashes, data: seq<byte>, initiated: Event) {
    |data| >= 4 &&
    var words := AbiWords(AddressText(data[4..]));
    words.Some? && data[..4] == Selector(h, FinalizeCall(initiated.isErc20)) && CallAgrees(words.value, initiated)
  }

  /** The arguments of a finalization call, as the bridge encodes them. */
  function CallArguments(e: Event): seq<seq<byte>>
  {
    if e.isErc20
    then [AddressWord(e.remoteToken), AddressWord(e.localToken), AddressWord(e.from), AddressWord(e.to), BigEndian(e.amount, WORD)]
    else [AddressWord(e.from), AddressWord(e.to), BigEndian(e.amount, WORD)]
  }

  ghost predicate WellFormed(e: Event) {
    && IsAddress(e.from) && IsAddress(e.to) && e.amount < Pow(256, WORD)
    && (e.isErc20 ==> IsAddress(e.localToken) && IsAddress(e.remoteToken))
  }

  lemma WordsOfText(b: seq<byte>)
    requires b != [] && |b| % WORD == 0 && |b| <= MAX_BYTES
    ensures AbiWords(AddressText(b)) == Some(Words(b))
  {
    HexRoundTrip(b);
    assert AddressText(b)[2..] == HexEncode(b);
  }

  lemma SameFoldAddresses(a: string, b: string)
    requires IsAddress(a) && IsAddress(b)
    ensures SameFold(a, b) <==> a == b
  {
    var x: seq<byte> :| |x| == 20 && a == AddressText(x);
    var y: seq<byte> :| |y| == 20 && b == AddressText(y);
    LowerHex(x);
    LowerHex(y);
  }

  predicate StartsWith(words: seq<seq<byte>>, arguments: seq<seq<byte>>) {
    |arguments| < |words| && forall i :: 0 <= i < |arguments| ==> words[i] == arguments[i]
  }

  lemma WordsAgree(words: seq<seq<byte>>, called: Event, initiated: Event)
    requires WellFormed(called) && WellFormed(initiated) && called.isErc20 == initiated.isErc20
    requires StartsWith(words, CallArguments(called))
    ensures CallAgrees(words, initiated) <==> SameTransfer(called, initiated)
  {
    var args := CallArguments(called);
    assert words[0] == args[0] && words[1] == args[1] && words[2] == args[2];
    if called.isErc20 {
      assert words[3] == args[3] && words[4] == args[4];
      TokenWordsAgree(words, called, initiated);
    } else {
      EtherWordsAgree(words, called, initiated);
    }
  }

  lemma EtherWordsAgree(words: seq<seq<byte>>, called: Event, initiated: Event)
    requires WellFormed(called) && WellFormed(initiated) && !initiated.isErc20 && |words| >= 4
    requires words[0] == AddressWord(called.from) && words[1] == AddressWord(called.to) && words[2] == BigEndian(called.amount, WORD)
    ensures CallAgrees(words, initiated) <==> called.from == initiated.from && called.to == initiated.to && called.amount == initiated.amount
  {
    NumberOfBigEndian(called.amount, WORD);
    WordNames(called.from, initiated.from);
    WordNames(called.to, initiated.to);
  }

  lemma TokenWordsAgree(words: seq<seq<byte>>, called: Event, initiated: Event)
    requires WellFormed(called) && WellFormed(initiated) && called.isErc20 && initiated.isErc20 && |words| >= 6
    requires words[0] == AddressWord(called.remoteToken) && words[1] == AddressWord(called.localToken)
    requires words[2] == AddressWord(called.from) && words[3] == AddressWord(called.to) && words[4] == BigEndian(called.amount, WORD)
    ensures CallAgrees(words, initiated) <==> SameTransfer(called, initiated)
  {
    NumberOfBigEndian(called.amount, WORD);
    WordNames(called.from, initiated.from);
    WordNames(called.to, initiated.to);
    WordNames(called.localToken, initiated.localToken);
    WordNames(called.remoteToken, initiated.remoteToken);
  }

  lemma WordNames(a: string, b: string)
    requires IsAddress(a) && IsAddress(b)
    ensures SameFold(WordAddress(AddressWord(a)), b) <==> a == b
  {
    AddressRoundTrip(a);
    SameFoldAddresses(a, b);
  }

  ghost predicate SameTransfer(called: Event, initiated: Event) {
    && called.from == initiated.from && called.to == initiated.to && called.amount == initiated.amount
    && (called.isErc20 ==> called.localToken == initiated.localToken && called.remoteToken == initiated.remoteToken)
  }

  /** A call that finalizes `called` matches an initiation of the same kind exactly if the two agree. */
  lemma CallMatchesExactly(h: Hashes, called: Event, initiated: Event, arguments: seq<byte>)
    requires WellFormed(called) && WellFormed(initiated) && called.isErc20 == initiated.isErc20
    requires |arguments| % WORD == 0 && |arguments| <= MAX_BYTES && StartsWith(Words(arguments), CallArguments(called))
    ensures CallMatches(h, Selector(h, FinalizeCall(called.isErc20)) + arguments, initiated) <==> SameTransfer(called, initiated)
  {
    var selector := Selector(h, FinalizeCall(called.isErc20));
    var data := selector + arguments;
    assert data[4..] == arguments && data[..4] == selector;
    WordsOfText(arguments);
    WordsAgree(Words(arguments), called, initiated);
  }

  predicate MessageMatches(h: Hashes, m: SentMessage, initiated: Event, sourceBridge: string, destinationBridge: string) {
    && SameFold(m.message.sender, sourceBridge) && SameFold(m.message.target, destinationBridge) && |m.message.value| == WORD
    && CallMatches(h, m.message.message, initiated)
  }

  /** The first message that fits. */
  function MatchingMessage(h: Hashes, ms: seq<SentMessage>, initiated: Event, sourceBridge: string, destinationBridge: string): (r: Option<SentMessage>)
    ensures r.Some? ==> r.value in ms && MessageMatches(h, r.value, initiated, sourceBridge, destinationBridge)
    ensures r.None? ==> forall m :: m in ms ==> !MessageMatches(h, m, initiated, sourceBridge, destinationBridge)
  {
    if ms == [] then None
    else if MessageMatches(h, ms[0], initiated, sourceBridge, destinationBridge) then Some(ms[0])
    else
      assert ms == [ms[0]] + ms[1..];
      MatchingMessage(h, ms[1..], initiated, sourceBridge, destinationBridge)
  }
}
