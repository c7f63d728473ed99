/** detectAddressNetwork of the web client, against the addresses the backend accepts. */
module AddressDetection {
  import opened Bytes
  import opened Text
  import Base58
  import Tron
  import TonAddress

  datatype Network = Ethereum | TronMainnet | TonMainnet | Cardano | Solana | Undetected

  predicate IsHex(s: string) {
    forall i :: 0 <= i < |s| ==> HexDigit(s[i]) >= 0
  }

  function Detect(value: string): Network {
    var address := Trim(value, IsScriptSpace);
    if |address| == 42 && "0x" <= address && IsHex(address[2..]) then Ethereum
    else if |address| == 34 && address[0] == 'T' && Base58.InAlphabet(address) && Base58.EncodedLength(address) == 25
    then TronMainnet
    else if ("EQ" <= address || "UQ" <= address) && |address| == 48 then TonMainnet
    else if ("addr1" <= address || "addr_test1" <= address) && |address| >= 50 then Cardano
    else if Base58.EncodedLength(address) == 32 then Solana
    else Undetected
  }

  lemma NoScriptSpaceInAlphabet(s: string)
    requires Base58.InAlphabet(s)
    ensures Trim(s, IsScriptSpace) == s
  {
  }

  /** Every TRON address the backend accepts is detected as TRON by the web client. */
  lemma TronIsDetected(value: string, hash: seq<byte> -> Tron.Checksum)
    requires Tron.NormalizeAddress(value, hash).Some?
    ensures Detect(Tron.NormalizeAddress(value, hash).value) == TronMainnet
  {
    var v := TrimSpace(value);
    var b := Base58.Decode(v).value;
    Base58.EncodeDecode(v);
    Tron.TwentyFiveBytes(b);
    NoScriptSpaceInAlphabet(v);
  }

  /** So is every address the backend builds from hexadecimal. */
  lemma HexTronIsDetected(value: string, hash: seq<byte> -> Tron.Checksum)
    requires Tron.AddressFromHex(value, hash).Some?
    ensures Detect(Tron.AddressFromHex(value, hash).value) == TronMainnet
  {
    Tron.HexAddressIsCanonical(value, hash);
    TronIsDetected(Tron.AddressFromHex(value, hash).value, hash);
  }

  /** Of the TON addresses the backend accepts, exactly the 48-character ones are detected as TON. */
  lemma TonIsDetectedExactly(value: string)
    requires TonAddress.NormalizeAddress(value).Some?
    ensures Detect(TonAddress.NormalizeAddress(value).value) == TonMainnet <==> TonAddress.IsFriendly(TrimSpace(value))
  {
    var v := TrimSpace(value);
    if TonAddress.IsFriendly(v) {
      TonAddress.NoSpaceInAlphabet(v);
    } else {
      var r := Lower(v);
      assert r[0] == '0' && |r| == 66;
      assert r[65] == LowerChar(v[2..][63]);
      assert !IsScriptSpace(r[0]) && !IsScriptSpace(r[65]);
    }
  }

  /** The others, the raw ones, are detected as nothing. */
  lemma RawIsUndetected(value: string)
    requires TonAddress.IsRaw(TrimSpace(value))
    ensures TonAddress.NormalizeAddress(value).Some? && Detect(TonAddress.NormalizeAddress(value).value) == Undetected
  {
    var r := Lower(TrimSpace(value));
    assert r[0] == '0' && r[1] == ':' && |r| == 66;
    assert r[65] == LowerChar(TrimSpace(value)[2..][63]);
    assert !IsScriptSpace(r[0]) && !IsScriptSpace(r[65]);
    assert Trim(r, IsScriptSpace) == r;
  }

  /** There is such an address. */
  lemma RawZeroIsAccepted(value: string)
    requires value == "0:" + seq(64, _ => '0')
    ensures TonAddress.IsRaw(TrimSpace(value)) && !TonAddress.IsFriendly(TrimSpace(value))
  {
    assert value[0] == '0' && value[65] == '0' && value[2..] == seq(64, _ => '0');
    assert TrimSpace(value) == value;
  }

  /** Detected as Ethereum are `0x` and forty hexadecimal digits; as TRON 34 characters from T that stand for 25 bytes. */
  lemma DetectedExactly(value: string)
    ensures var v := Trim(value, IsScriptSpace);
            && (Detect(value) == Ethereum <==>
                  |v| == 42 && v[0] == '0' && v[1] == 'x' && forall i :: 2 <= i < 42 ==> TonAddress.IsHexCharacter(v[i]))
            && (Detect(value) == TronMainnet <==>
                  |v| == 34 && v[0] == 'T' && Base58.Decode(v).Some? && |Base58.Decode(v).value| == 25)
  {
    var v := Trim(value, IsScriptSpace);
    if |v| == 42 {
      assert forall i :: 2 <= i < 42 ==> v[i] == v[2..][i - 2];
      forall i | 0 <= i < 40 ensures HexDigit(v[2..][i]) >= 0 <==> TonAddress.IsHexCharacter(v[i + 2]) {
      }
    }
  }
}
