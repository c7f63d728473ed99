/** Logs as the bridge contracts write them, and that reading them back loses nothing. */
module BridgeEncoding {
  import opened Options
  import opened Text
  import opened Bytes
  import opened BridgeCodec
  import opened BridgeEvents

  lemma TopicRoundTrip(word: seq<byte>)
    ensures TopicWord(AddressText(word)) == word
  {
    HexRoundTrip(word);
    assert AddressText(word)[2..] == HexEncode(word);
  }

  lemma NamedInTopic(a: string)
    requires IsAddress(a)
    ensures WordAddress(TopicWord(AddressText(AddressWord(a)))) == a
  {
    TopicRoundTrip(AddressWord(a));
    AddressRoundTrip(a);
  }

  lemma TopicIsLower(h: Hashes, s: Signature)
    ensures Lower(Topic(h, s)) == Topic(h, s)
  {
    LowerHex(h.keccak(BytesOf(h.text(s))));
  }

  lemma FirstWord(word: seq<byte>, rest: seq<byte>)
    requires |word| == WORD && |rest| % WORD == 0
    ensures |word + rest| % WORD == 0 && |Words(word + rest)| == 1 + |Words(rest)|
    ensures Words(word + rest)[0] == word && forall i :: 0 <= i < |Words(rest)| ==> Words(word + rest)[i + 1] == Words(rest)[i]
  {
    var b := word + rest;
    assert b[0..WORD] == word;
    forall i | 0 <= i < |Words(rest)| ensures Words(b)[i + 1] == Words(rest)[i] {
      assert b[WORD * (i + 1)..WORD * (i + 1) + WORD] == rest[WORD * i..WORD * i + WORD];
    }
  }

  // ----- bridge events

  /** The indexed arguments of an event: for tokens the two tokens and the sender, else sender and recipient. */
  function TopicsOf(h: Hashes, s: Signature, e: Event): seq<string> {
    if e.isErc20
    then [Topic(h, s), AddressText(AddressWord(e.localToken)), AddressText(AddressWord(e.remoteToken)), AddressText(AddressWord(e.from))]
    else [Topic(h, s), AddressText(AddressWord(e.from)), AddressText(AddressWord(e.to))]
  }

  /** The other arguments, before the extra data: for tokens recipient and amount, else the amount. */
  function DataOf(e: Event, extra: seq<byte>): seq<byte> {
    if e.isErc20 then AddressWord(e.to) + (BigEndian(e.amount, WORD) + extra) else BigEndian(e.amount, WORD) + extra
  }

  ghost predicate Records(h: Hashes, s: Signature, e: Event, bridge: string, extra: seq<byte>) {
    && WellFormed(e) && (!e.isErc20 ==> e.localToken == "" && e.remoteToken == "")
    && WORD <= |extra| && |extra| % WORD == 0 && |DataOf(e, extra)| <= MAX_BYTES
    && SameFold(e.log.address, bridge) && e.log.topics == TopicsOf(h, s, e) && e.log.data == AddressText(DataOf(e, extra))
  }

  lemma EtherWords(e: Event, extra: seq<byte>)
    requires !e.isErc20 && WORD <= |extra| && |extra| % WORD == 0 && |DataOf(e, extra)| <= MAX_BYTES && e.amount < Pow(256, WORD)
    ensures var words := AbiWords(AddressText(DataOf(e, extra)));
            words.Some? && |words.value| >= 2 && Number(words.value[0]) == e.amount
  {
    FirstWord(BigEndian(e.amount, WORD), extra);
    WordsOfText(DataOf(e, extra));
    NumberOfBigEndian(e.amount, WORD);
  }

  lemma TokenWords(e: Event, extra: seq<byte>)
    requires e.isErc20 && WORD <= |extra| && |extra| % WORD == 0 && |DataOf(e, extra)| <= MAX_BYTES && e.amount < Pow(256, WORD)
    ensures var words := AbiWords(AddressText(DataOf(e, extra)));
            words.Some? && |words.value| >= 3 && words.value[0] == AddressWord(e.to) && Number(words.value[1]) == e.amount
  {
    var amount := BigEndian(e.amount, WORD);
    FirstWord(amount, extra);
    FirstWord(AddressWord(e.to), amount + extra);
    WordsOfText(DataOf(e, extra));
    assert Words(DataOf(e, extra))[0 + 1] == Words(amount + extra)[0];
    NumberOfBigEndian(e.amount, WORD);
  }

  lemma EtherFields(e: Event, topic: string, from: string, to: string)
    requires e.log.topics == [topic, from, to] && !e.isErc20 && e.localToken == "" && e.remoteToken == ""
    requires WordAddress(TopicWord(from)) == e.from && WordAddress(TopicWord(to)) == e.to
    requires var words := AbiWords(e.log.data); words.Some? && |words.value| >= 2 && Number(words.value[0]) == e.amount
    ensures DecodeETHBridge(e.log) == Some(e)
  {
  }

  lemma TokenFields(e: Event, topic: string, local: string, remote: string, from: string)
    requires e.log.topics == [topic, local, remote, from] && e.isErc20
    requires WordAddress(TopicWord(local)) == e.localToken && WordAddress(TopicWord(remote)) == e.remoteToken
    requires WordAddress(TopicWord(from)) == e.from
    requires var words := AbiWords(e.log.data);
             words.Some? && |words.value| >= 3 && WordAddress(words.value[0]) == e.to && Number(words.value[1]) == e.amount
    ensures DecodeERC20Bridge(e.log) == Some(e)
  {
  }

  lemma EtherReadsBack(h: Hashes, s: Signature, e: Event, bridge: string, extra: seq<byte>)
    requires Records(h, s, e, bridge, extra) && !e.isErc20
    ensures DecodeETHBridge(e.log) == Some(e)
  {
    EtherWords(e, extra);
    NamedInTopic(e.from);
    NamedInTopic(e.to);
    EtherFields(e, Topic(h, s), AddressText(AddressWord(e.from)), AddressText(AddressWord(e.to)));
  }

  lemma TokenReadsBack(h: Hashes, s: Signature, e: Event, bridge: string, extra: seq<byte>)
    requires Records(h, s, e, bridge, extra) && e.isErc20
    ensures DecodeERC20Bridge(e.log) == Some(e)
  {
    TokenWords(e, extra);
    AddressRoundTrip(e.to);
    NamedInTopic(e.localToken);
    NamedInTopic(e.remoteToken);
    NamedInTopic(e.from);
    TokenFields(e, Topic(h, s), AddressText(AddressWord(e.localToken)), AddressText(AddressWord(e.remoteToken)),
                AddressText(AddressWord(e.from)));
  }

  /** An initiation that the bridge logs is read back exactly, unless the two topics collide. */
  lemma InitiationReadsBack(h: Hashes, e: Event, bridge: string, extra: seq<byte>)
    requires Records(h, if e.isErc20 then Erc20Initiated else EthInitiated, e, bridge, extra)
    requires Topic(h, EthInitiated) != Topic(h, Erc20Initiated)
    ensures InitiationIn(h, e.log, bridge) == Some(e)
  {
    TopicIsLower(h, EthInitiated);
    TopicIsLower(h, Erc20Initiated);
    if e.isErc20 {
      TokenReadsBack(h, Erc20Initiated, e, bridge, extra);
    } else {
      EtherReadsBack(h, EthInitiated, e, bridge, extra);
    }
  }

  /** So is a finalization; it matches an initiation exactly if the parties and the amount are the same and the tokens swapped. */
  lemma FinalizationReadsBack(h: Hashes, e: Event, bridge: string, extra: seq<byte>, initiated: Event)
    requires Records(h, if e.isErc20 then Erc20Finalized else EthFinalized, e, bridge, extra)
    requires WellFormed(initiated) && e.isErc20 == initiated.isErc20
    ensures FinalizationIn(h, e.log, bridge, e.isErc20) == Some(e)
    ensures Finalizes(h, e.log, bridge, initiated) <==>
            && e.from == initiated.from && e.to == initiated.to && e.amount == initiated.amount
            && (e.isErc20 ==> e.localToken == initiated.remoteToken && e.remoteToken == initiated.localToken)
  {
    if e.isErc20 {
      TokenReadsBack(h, Erc20Finalized, e, bridge, extra);
      SameFoldAddresses(e.localToken, initiated.remoteToken);
      SameFoldAddresses(e.remoteToken, initiated.localToken);
    } else {
      EtherReadsBack(h, EthFinalized, e, bridge, extra);
    }
    SameFoldAddresses(e.from, initiated.from);
    SameFoldAddresses(e.to, initiated.to);
  }

  // ----- sent messages

  /** The unindexed arguments of a sent message: sender, offset, nonce and gas, then the message with its length. */
  function SentData(m: Message): seq<byte> {
    SentHead(m) + (BigEndian(|m.message|, WORD) + Padded(m.message))
  }

  function SentHead(m: Message): seq<byte> {
    AddressWord(m.sender) + (BigEndian(128, WORD) + (m.nonce + m.gas))
  }

  lemma WordsPrefix(head: seq<byte>, tail: seq<byte>)
    requires |head| % WORD == 0 && |tail| % WORD == 0
    ensures |head + tail| % WORD == 0 && |Words(head)| <= |Words(head + tail)|
    ensures forall i :: 0 <= i < |Words(head)| ==> Words(head + tail)[i] == Words(head)[i]
  {
    forall i | 0 <= i < |Words(head)| ensures Words(head + tail)[i] == Words(head)[i] {
      assert (head + tail)[WORD * i..WORD * i + WORD] == head[WORD * i..WORD * i + WORD];
    }
  }

  lemma HeadWords(m: Message)
    requires |m.nonce| == WORD && |m.gas| == WORD
    ensures |SentHead(m)| == 128 && Words(SentHead(m)) == [AddressWord(m.sender), BigEndian(128, WORD), m.nonce, m.gas]
  {
    FirstWord(m.gas, []);
    assert m.gas + [] == m.gas;
    FirstWord(m.nonce, m.gas);
    FirstWord(BigEndian(128, WORD), m.nonce + m.gas);
    FirstWord(AddressWord(m.sender), BigEndian(128, WORD) + (m.nonce + m.gas));
  }

  lemma ThreeParts(x: seq<byte>, y: seq<byte>, z: seq<byte>)
    ensures (x + (y + z))[|x|..|x| + |y|] == y && (x + (y + z))[|x| + |y|..] == z
  {
  }

  lemma BytesFound(b: seq<byte>, offset: nat, message: seq<byte>)
    requires offset < INT64_LIMIT && |message| <= MAX_BYTES && offset + WORD + |message| <= |b|
    requires Number(b[offset..offset + WORD]) == |message| && b[offset + WORD..offset + WORD + |message|] == message
    ensures BytesAt(b, offset) == Some(message)
  {
  }

  lemma SliceOfRest(b: seq<byte>, from: nat, n: nat)
    requires from + n <= |b|
    ensures b[from..from + n] == b[from..][..n]
  {
  }

  lemma PartsFound(head: seq<byte>, length: seq<byte>, padded: seq<byte>, message: seq<byte>)
    requires |head| < INT64_LIMIT && |message| <= MAX_BYTES && |length| == WORD && Number(length) == |message|
    requires message <= padded
    ensures BytesAt(head + (length + padded), |head|) == Some(message)
  {
    var b := head + (length + padded);
    ThreeParts(head, length, padded);
    SliceOfRest(b, |head| + WORD, |message|);
    BytesFound(b, |head|, message);
  }

  lemma BytesBehind(head: seq<byte>, message: seq<byte>)
    requires |head| < INT64_LIMIT && |message| <= MAX_BYTES
    ensures BytesAt(head + (BigEndian(|message|, WORD) + Padded(message)), |head|) == Some(message)
  {
    LengthReads(message);
    PartsFound(head, BigEndian(|message|, WORD), Padded(message), message);
  }

  lemma SentWords(m: Message)
    requires |m.nonce| == WORD && |m.gas| == WORD && |SentData(m)| <= MAX_BYTES
    ensures var words := AbiWords(AddressText(SentData(m)));
            && words.Some? && |words.value| >= 4 && words.value[0] == AddressWord(m.sender) && words.value[1] == BigEndian(128, WORD)
            && words.value[2] == m.nonce && words.value[3] == m.gas
  {
    var tail := BigEndian(|m.message|, WORD) + Padded(m.message);
    HeadWords(m);
    WholeTail(|Padded(m.message)|);
    assert |tail| == WORD + |Padded(m.message)|;
    WordsPrefix(SentHead(m), tail);
    WordsOfText(SentData(m));
    var head, words := Words(SentHead(m)), Words(SentData(m));
    assert words[0] == head[0] && words[1] == head[1] && words[2] == head[2] && words[3] == head[3];
  }

  lemma WholeTail(n: nat)
    requires n % WORD == 0
    ensures (WORD + n) % WORD == 0
  {
  }

  lemma SentBytes(m: Message)
    requires |m.nonce| == WORD && |m.gas| == WORD && |m.message| <= MAX_BYTES
    ensures DynamicBytes(AddressText(SentData(m)), BigEndian(128, WORD)) == Some(m.message)
  {
    HeadWords(m);
    BytesBehind(SentHead(m), m.message);
    Int64FitsWord(128);
    NumberOfBigEndian(128, WORD);
    HexRoundTrip(SentData(m));
    assert AddressText(SentData(m))[2..] == HexEncode(SentData(m));
  }

  /** A message that the messenger logs is read back exactly; its value comes from another log. */
  lemma SentMessageReadsBack(h: Hashes, log: Log, messenger: string, m: Message)
    requires IsAddress(m.sender) && IsAddress(m.target) && |m.nonce| == WORD && |m.gas| == WORD && m.value == []
    requires |SentData(m)| <= MAX_BYTES && SameFold(log.address, messenger) && log.data == AddressText(SentData(m))
    requires log.topics == [Topic(h, SentMessageEvent), AddressText(AddressWord(m.target))]
    ensures SentIn(h, log, messenger) == Some(SentMessage(log, m))
  {
    SentWords(m);
    MessageFits(m);
    SentBytes(m);
    AddressRoundTrip(m.sender);
    NamedInTopic(m.target);
  }

  lemma MessageFits(m: Message)
    ensures |m.message| <= |SentData(m)|
  {
  }
}
