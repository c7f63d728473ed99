/** Words, dynamic bytes and the message pre-image, as the Solidity contract ABI lays them out. */
module BridgeCodec {
  import opened Options
  import opened Text
  import opened Bytes

  const WORD: nat := 32
  const MAX_BYTES: nat := 0x10_0000
  const INT64_LIMIT: nat := 0x8000_0000_0000_0000

  // ----- numbers in words

  /** big.Int.FillBytes: n in `width` bytes, most significant first. */
  function BigEndian(n: nat, width: nat): (b: seq<byte>)
    ensures |b| == width
  {
    if width == 0 then [] else BigEndian(n / 256, width - 1) + [n % 256]
  }

  /** big.Int.SetBytes. */
  function Number(b: seq<byte>): nat {
    FromDigits(b, 256)
  }

  lemma {:induction false} NumberOfBigEndian(n: nat, width: nat)
    requires n < Pow(256, width)
    ensures Number(BigEndian(n, width)) == n
  {
    if width > 0 {
      NumberOfBigEndian(n / 256, width - 1);
      FromDigitsAppend(BigEndian(n / 256, width - 1), n % 256, 256);
    }
  }

  lemma Int64FitsWord(n: nat)
    requires n < INT64_LIMIT
    ensures n < Pow(256, WORD)
  {
    assert Pow(256, 8) == 0x1_0000_0000_0000_0000;
    PowMonotone(256, 8, WORD);
  }

  // ----- addresses in words

  /** The lower-case "0x" form of twenty bytes. */
  ghost predicate IsAddress(a: string) {
    exists b: seq<byte> :: |b| == 20 && a == AddressText(b)
  }

  function AddressText(b: seq<byte>): string {
    "0x" + HexEncode(b)
  }

  /** Anything that is not twenty hexadecimal bytes becomes the zero word. */
  function AddressWord(address: string): (w: seq<byte>)
    ensures |w| == WORD
  {
    var decoded := HexDecode(TrimPrefix(Lower(address), "0x"));
    if decoded.Some? && |decoded.value| == 20 then Zeros(12) + decoded.value else Zeros(WORD)
  }

  function WordAddress(word: seq<byte>): string {
    if |word| != WORD then "" else AddressText(word[12..])
  }

  function WordInt(word: seq<byte>): Option<nat> {
    if |word| != WORD then None else Some(Number(word))
  }

  lemma LowerHex(b: seq<byte>)
    ensures Lower(AddressText(b)) == AddressText(b)
  {
    var s := HexEncode(b);
    forall i | 0 <= i < |s| ensures LowerChar(s[i]) == s[i] {
      assert s[2 * (i / 2)] == HexChar(b[i / 2] / 16) && s[2 * (i / 2) + 1] == HexChar(b[i / 2] % 16);
    }
    var t := AddressText(b);
    forall i | 0 <= i < |t| ensures LowerChar(t[i]) == t[i] {
      assert i >= 2 ==> t[i] == s[i - 2];
    }
    assert Lower(t) == t;
  }

  lemma AddressWordOf(b: seq<byte>)
    requires |b| == 20
    ensures AddressWord(AddressText(b)) == Zeros(12) + b
  {
    LowerHex(b);
    HexRoundTrip(b);
    assert AddressText(b)[2..] == HexEncode(b);
  }

  /** Reading a word back undoes writing an address into it. */
  lemma AddressRoundTrip(a: string)
    requires IsAddress(a)
    ensures WordAddress(AddressWord(a)) == a
  {
    var b: seq<byte> :| |b| == 20 && a == AddressText(b);
    AddressWordOf(b);
    assert (Zeros(12) + b)[12..] == b;
  }

  lemma WordRoundTrip(word: seq<byte>)
    requires |word| == WORD && word[..12] == Zeros(12)
    ensures IsAddress(WordAddress(word)) && AddressWord(WordAddress(word)) == word
  {
    AddressWordOf(word[12..]);
    assert word == word[..12] + word[12..];
  }

  // ----- words and dynamic bytes in data

  function Words(b: seq<byte>): (words: seq<seq<byte>>)
    requires |b| % WORD == 0
    ensures |words| == |b| / WORD
    ensures forall i :: 0 <= i < |words| ==> |words[i]| == WORD && words[i] == b[WORD * i..WORD * i + WORD]
  {
    if b == [] then []
    else
      var k := |b| - WORD;
      var front := Words(b[..k]);
      assert forall i :: 0 <= i < |front| ==> b[..k][WORD * i..WORD * i + WORD] == b[WORD * i..WORD * i + WORD];
      front + [b[k..]]
  }

  function AbiWords(value: string): Option<seq<seq<byte>>> {
    var decoded := HexDecode(TrimPrefix(value, "0x"));
    if decoded.None? || decoded.value == [] || |decoded.value| % WORD != 0 || |decoded.value| > MAX_BYTES then None
    else Some(Words(decoded.value))
  }

  function DynamicBytes(data: string, offsetWord: seq<byte>): Option<seq<byte>> {
    var decoded := HexDecode(TrimPrefix(data, "0x"));
    if decoded.None? || |offsetWord| != WORD then None else BytesAt(decoded.value, Number(offsetWord))
  }

  /** The length word at the offset, and as many bytes after it. */
  function BytesAt(b: seq<byte>, offset: nat): Option<seq<byte>> {
    if offset >= INT64_LIMIT || offset + WORD > |b| then None
    else
      var length := Number(b[offset..offset + WORD]);
      var start := offset + WORD;
      if length > MAX_BYTES || start + length > |b| then None else Some(b[start..start + length])
  }

  /** Bytes after the head, behind an offset of six words. */
  function DynamicWord(value: seq<byte>): seq<byte> {
    OffsetWord() + (BigEndian(|value|, WORD) + Padded(value))
  }

  function OffsetWord(): (w: seq<byte>)
    ensures |w| == WORD
  {
    Zeros(31) + [0xc0]
  }

  function Padded(value: seq<byte>): (p: seq<byte>)
    ensures |p| % WORD == 0 && |value| <= |p| < |value| + WORD && p[..|value|] == value
    ensures forall i :: |value| <= i < |p| ==> p[i] == 0
  {
    if |value| % WORD == 0 then value else value + Zeros(WORD - |value| % WORD)
  }

  // ----- the message pre-image

  datatype Message = Message(target: string, sender: string, message: seq<byte>, nonce: seq<byte>, gas: seq<byte>, value: seq<byte>)

  function AbiEncode(parts: seq<seq<byte>>): seq<byte> {
    if parts == [] then [] else parts[0] + AbiEncode(parts[1..])
  }

  predicate WordFields(m: Message) {
    |m.nonce| == WORD && |m.gas| == WORD && |m.value| == WORD
  }

  /** What is hashed to identify a message. None: a field is missing, or the nonce is not of version 1. */
  function Preimage(m: Message): Option<seq<byte>> {
    if !WordFields(m) then None
    else if m.nonce[0] != 0 || m.nonce[1] != 1 then None
    else Some(AbiEncode([m.nonce, AddressWord(m.sender), AddressWord(m.target), m.value, m.gas, DynamicWord(m.message)]))
  }

  predicate VersionOne(nonce: seq<byte>) {
    |nonce| == WORD && Number(nonce[..2]) == 1
  }

  /** There is a pre-image exactly for whole words under a version-1 nonce. */
  lemma PreimageExactly(m: Message)
    ensures Preimage(m).Some? <==> WordFields(m) && VersionOne(m.nonce)
  {
    if WordFields(m) {
      var v := m.nonce[..2];
      assert v == [m.nonce[0]] + [m.nonce[1]];
      FromDigitsAppend([m.nonce[0]], m.nonce[1], 256);
      FromDigitsAppend([], m.nonce[0], 256);
      assert [] + [m.nonce[0]] == [m.nonce[0]];
    }
  }

  lemma AbiEncodeStep(part: seq<byte>, parts: seq<seq<byte>>)
    ensures AbiEncode([part] + parts) == part + AbiEncode(parts)
  {
    assert ([part] + parts)[1..] == parts;
  }

  lemma AbiEncodeSix(a: seq<byte>, b: seq<byte>, c: seq<byte>, d: seq<byte>, e: seq<byte>, f: seq<byte>)
    ensures AbiEncode([a, b, c, d, e, f]) == a + (b + (c + (d + (e + f))))
  {
    AbiEncodeStep(a, [b, c, d, e, f]);
    AbiEncodeStep(b, [c, d, e, f]);
    AbiEncodeStep(c, [d, e, f]);
    AbiEncodeStep(d, [e, f]);
    AbiEncodeStep(e, [f]);
    AbiEncodeStep(f, []);
    assert [a] + [b, c, d, e, f] == [a, b, c, d, e, f] && [b] + [c, d, e, f] == [b, c, d, e, f];
    assert [c] + [d, e, f] == [c, d, e, f] && [d] + [e, f] == [d, e, f] && [e] + [f] == [e, f] && [f] + [] == [f];
  }

  /** Seven words, then the rest. */
  ghost predicate LaidOut(p: seq<byte>, words: seq<seq<byte>>, rest: seq<byte>)
    requires |words| == 7
  {
    && |p| == 224 + |rest| && p[224..] == rest
    && p[..32] == words[0] && p[32..64] == words[1] && p[64..96] == words[2] && p[96..128] == words[3]
    && p[128..160] == words[4] && p[160..192] == words[5] && p[192..224] == words[6]
  }

  lemma SevenWords(p: seq<byte>, a: seq<byte>, b: seq<byte>, c: seq<byte>, d: seq<byte>, e: seq<byte>, f: seq<byte>, g: seq<byte>, rest: seq<byte>)
    requires |a| == WORD && |b| == WORD && |c| == WORD && |d| == WORD && |e| == WORD && |f| == WORD && |g| == WORD
    requires p == a + (b + (c + (d + (e + (f + (g + rest))))))
    ensures LaidOut(p, [a, b, c, d, e, f, g], rest)
  {
  }

  /** The words of a message: its fields, the offset of the seventh word, and the length it holds. */
  function HeadOf(m: Message): (words: seq<seq<byte>>)
    ensures |words| == 7
  {
    [m.nonce, AddressWord(m.sender), AddressWord(m.target), m.value, m.gas, OffsetWord(), BigEndian(|m.message|, WORD)]
  }

  /** A pre-image is six words of head, the last one pointing at the seventh, then the length and the padded bytes. */
  lemma PreimageLayout(m: Message)
    requires Preimage(m).Some?
    ensures LaidOut(Preimage(m).value, HeadOf(m), Padded(m.message))
  {
    AbiEncodeSix(m.nonce, AddressWord(m.sender), AddressWord(m.target), m.value, m.gas, DynamicWord(m.message));
    SevenWords(Preimage(m).value, m.nonce, AddressWord(m.sender), AddressWord(m.target), m.value, m.gas, OffsetWord(),
               BigEndian(|m.message|, WORD), Padded(m.message));
  }

  lemma PreimageIsWords(m: Message)
    requires Preimage(m).Some?
    ensures |Preimage(m).value| % WORD == 0
  {
    PreimageLayout(m);
    WholeWords(|Padded(m.message)|);
  }

  lemma WholeWords(n: nat)
    requires n % WORD == 0
    ensures (224 + n) % WORD == 0
  {
  }

  predicate SameFields(m: Message, n: Message) {
    m.nonce == n.nonce && m.value == n.value && m.gas == n.gas && m.message == n.message
  }

  /** Pre-images agree exactly when the fields and the address words do. */
  lemma PreimagesAgree(m: Message, n: Message)
    requires Preimage(m).Some? && Preimage(n).Some? && |m.message| < INT64_LIMIT && |n.message| < INT64_LIMIT
    ensures Preimage(m) == Preimage(n) <==>
            SameFields(m, n) && AddressWord(m.sender) == AddressWord(n.sender) && AddressWord(m.target) == AddressWord(n.target)
  {
    if Preimage(m) == Preimage(n) {
      var p := Preimage(m).value;
      PreimageLayout(m);
      PreimageLayout(n);
      LengthReads(m.message);
      LengthReads(n.message);
      assert m.message == Padded(m.message)[..|m.message|];
      assert n.message == Padded(n.message)[..|n.message|];
    }
  }

  /** Between well-formed addresses, different messages have different pre-images. */
  lemma PreimageIsInjective(m: Message, n: Message)
    requires Preimage(m).Some? && Preimage(m) == Preimage(n)
    requires IsAddress(m.sender) && IsAddress(m.target) && IsAddress(n.sender) && IsAddress(n.target)
    requires |m.message| < INT64_LIMIT && |n.message| < INT64_LIMIT
    ensures m == n
  {
    PreimagesAgree(m, n);
    AddressRoundTrip(m.sender);
    AddressRoundTrip(n.sender);
    AddressRoundTrip(m.target);
    AddressRoundTrip(n.target);
  }

  /** What an address stands for in a word: its twenty bytes, or twenty zeros when it has none. */
  function AddressValue(a: string): (b: seq<byte>)
    ensures |b| == 20
  {
    var decoded := HexDecode(TrimPrefix(Lower(a), "0x"));
    if decoded.Some? && |decoded.value| == 20 then decoded.value else Zeros(20)
  }

  /** Not twenty hexadecimal bytes, with or without "0x". */
  predicate Malformed(a: string) {
    var decoded := HexDecode(TrimPrefix(Lower(a), "0x"));
    decoded.None? || |decoded.value| != 20
  }

  lemma AddressWordValue(a: string)
    ensures AddressWord(a) == Zeros(12) + AddressValue(a)
  {
    assert Zeros(12) + Zeros(20) == Zeros(WORD);
  }

  /** Messages that differ in their sender alone have the same pre-image exactly if the senders stand for the same bytes. */
  lemma SendersCollideExactly(m: Message, a: string, b: string)
    requires Preimage(m).Some? && |m.message| < INT64_LIMIT
    ensures Preimage(m.(sender := a)) == Preimage(m.(sender := b)) <==> AddressValue(a) == AddressValue(b)
  {
    PreimagesAgree(m.(sender := a), m.(sender := b));
    AddressWordValue(a);
    AddressWordValue(b);
    assert (Zeros(12) + AddressValue(a))[12..] == AddressValue(a) && (Zeros(12) + AddressValue(b))[12..] == AddressValue(b);
  }

  /** So no two malformed senders are told apart, nor any of them from the zero address. */
  lemma MalformedSendersCollide(m: Message, a: string, b: string)
    requires Preimage(m).Some? && |m.message| < INT64_LIMIT && Malformed(a)
    requires Malformed(b) || b == AddressText(Zeros(20))
    ensures Preimage(m.(sender := a)) == Preimage(m.(sender := b))
  {
    if !Malformed(b) {
      AddressWordOf(Zeros(20));
      AddressWordValue(b);
      assert (Zeros(12) + AddressValue(b))[12..] == (Zeros(12) + Zeros(20))[12..];
    }
    SendersCollideExactly(m, a, b);
  }

  lemma LengthReads(message: seq<byte>)
    requires |message| < INT64_LIMIT
    ensures Number(BigEndian(|message|, WORD)) == |message|
  {
    Int64FitsWord(|message|);
    NumberOfBigEndian(|message|, WORD);
  }

  lemma OffsetReads()
    ensures Number(OffsetWord()) == 192
  {
    FromDigitsAppend(Zeros(31), 192, 256);
    AllZeros(31);
  }

  lemma {:induction false} AllZeros(n: nat)
    ensures FromDigits(Zeros(n), 256) == 0
  {
    if n > 0 {
      assert Zeros(n)[..n - 1] == Zeros(n - 1);
      AllZeros(n - 1);
    }
  }

  /** The dynamic bytes at the encoded offset are the message, if and only if it has at most 2^20 bytes. */
  lemma MessageReadsBack(m: Message)
    requires Preimage(m).Some? && |m.message| < INT64_LIMIT
    ensures DynamicBytes(AddressText(Preimage(m).value), OffsetWord()) == if |m.message| <= MAX_BYTES then Some(m.message) else None
  {
    var p := Preimage(m).value;
    OffsetReads();
    HexRoundTrip(p);
    assert AddressText(p)[2..] == HexEncode(p);
    BytesAtTail(m);
  }

  lemma BytesAtTail(m: Message)
    requires Preimage(m).Some? && |m.message| < INT64_LIMIT
    ensures BytesAt(Preimage(m).value, 192) == if |m.message| <= MAX_BYTES then Some(m.message) else None
  {
    PreimageLayout(m);
    LengthReads(m.message);
    ReadsBehind(Preimage(m).value, HeadOf(m), m.message);
  }

  lemma ReadsBehind(p: seq<byte>, words: seq<seq<byte>>, message: seq<byte>)
    requires |words| == 7 && LaidOut(p, words, Padded(message)) && Number(words[6]) == |message|
    ensures BytesAt(p, 192) == if |message| <= MAX_BYTES then Some(message) else None
  {
    assert p[192..192 + WORD] == words[6];
    assert p[224..224 + |message|] == p[224..][..|message|];
  }

  // ----- hexadecimal topics

  /** What hex.DecodeString hands back even on error: the bytes before the first bad digit. */
  function HexPrefix(s: string): (b: seq<byte>)
    ensures HexDecode(s).Some? ==> HexDecode(s).value == b
  {
    if |s| < 2 || HexDigit(s[0]) < 0 || HexDigit(s[1]) < 0 then []
    else [16 * HexDigit(s[0]) + HexDigit(s[1])] + HexPrefix(s[2..])
  }

  function TopicWord(value: string): seq<byte> {
    HexPrefix(TrimPrefix(value, "0x"))
  }
}
