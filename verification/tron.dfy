/** TRON addresses: a 0x41 byte, twenty account bytes and a four-byte checksum in Base58.
    SHA-256 is a parameter: any function from byte strings to four bytes. */
module Tron {
  import opened Options
  import opened Bytes
  import opened Base58
  import opened Text

  type Checksum = c: seq<byte> | |c| == 4 witness [0, 0, 0, 0]

  function NormalizeAddress(value: string, hash: seq<byte> -> Checksum): Option<string> {
    var v := TrimSpace(value);
    var decoded := Decode(v);
    if decoded.None? || |decoded.value| != 25 || decoded.value[0] != 0x41 then None
    else if decoded.value[21..] != hash(decoded.value[..21]) then None
    else Some(v)
  }

  function AddressFromHex(value: string, hash: seq<byte> -> Checksum): Option<string> {
    var decoded := HexDecode(TrimPrefix(TrimSpace(value), "0x"));
    if decoded.None? || |decoded.value| != 21 || decoded.value[0] != 0x41 then None
    else Some(Encode(decoded.value + hash(decoded.value)))
  }

  function CanonicalAddress(value: string, hash: seq<byte> -> Checksum): Option<string> {
    if "41" <= TrimPrefix(value, "0x") then AddressFromHex(value, hash) else NormalizeAddress(value, hash)
  }

  /** The address of a payload: what a checksummed Base58 text stands for. */
  predicate IsPayload(p: seq<byte>) {
    |p| == 21 && p[0] == 0x41
  }

  function AddressOf(p: seq<byte>, hash: seq<byte> -> Checksum): string {
    Encode(p + hash(p))
  }

  lemma PowersMeet()
    ensures 26 * Pow(58, 33) <= 65 * Pow(256, 24) && 66 * Pow(256, 24) <= 27 * Pow(58, 33)
  {
    assert Pow(58, 11) == 24986644000165537792;
    PowAdd(58, 11, 11);
    PowAdd(58, 22, 11);
    assert Pow(256, 8) == 18446744073709551616;
    PowAdd(256, 8, 8);
    PowAdd(256, 16, 8);
  }

  /** 25 bytes that start with 0x41 are always 34 characters that start with 'T'. */
  lemma TwentyFiveBytes(b: seq<byte>)
    requires |b| == 25 && b[0] == 0x41
    ensures |Encode(b)| == 34 && Encode(b)[0] == 'T'
  {
    var d := AsDigits(b);
    FromDigitsHead(d, 256);
    FromDigitsBelow(d[1..], 256);
    PowersMeet();
    DigitsBetween(FromDigits(d, 256), 58, 34, 26);
    LeadingScan(d, 0);
    AlphabetIsSymbols(26);
  }

  lemma NoSpaceInAlphabet(s: string)
    requires InAlphabet(s)
    ensures TrimSpace(s) == s
  {
  }

  /** Normalization accepts exactly the addresses of payloads, surrounded by white space or not. */
  lemma NormalizeExactly(value: string, hash: seq<byte> -> Checksum)
    ensures NormalizeAddress(value, hash).Some? <==>
            exists p: seq<byte> :: IsPayload(p) && TrimSpace(value) == AddressOf(p, hash)
    ensures NormalizeAddress(value, hash).Some? ==> NormalizeAddress(value, hash) == Some(TrimSpace(value))
  {
    var v := TrimSpace(value);
    if NormalizeAddress(value, hash).Some? {
      var b := Decode(v).value;
      EncodeDecode(v);
      assert b == b[..21] + hash(b[..21]);
      assert IsPayload(b[..21]) && v == AddressOf(b[..21], hash);
    }
    forall p: seq<byte> | IsPayload(p) && v == AddressOf(p, hash) ensures NormalizeAddress(value, hash).Some? {
      DecodeEncode(p + hash(p));
      var b := Decode(v).value;
      assert b[..21] == p && b[21..] == hash(p);
    }
  }

  /** Every address built from hexadecimal is 34 characters from 'T', decodes back to the bytes it
      was built from, and is its own canonical form. */
  lemma HexAddressIsCanonical(value: string, hash: seq<byte> -> Checksum)
    requires AddressFromHex(value, hash).Some?
    ensures var address := AddressFromHex(value, hash).value;
            && |address| == 34 && address[0] == 'T'
            && HexDecode(TrimPrefix(TrimSpace(value), "0x")).Some?
            && var p := HexDecode(TrimPrefix(TrimSpace(value), "0x")).value;
            && Decode(address) == Some(p + hash(p))
            && CanonicalAddress(address, hash) == Some(address)
  {
    var p := HexDecode(TrimPrefix(TrimSpace(value), "0x")).value;
    var address := AddressFromHex(value, hash).value;
    TwentyFiveBytes(p + hash(p));
    DecodeEncode(p + hash(p));
    NoSpaceInAlphabet(address);
    assert IsPayload(p) && address == AddressOf(p, hash);
    NormalizeExactly(address, hash);
  }

  /** Two different payloads never share an address. */
  lemma AddressIsInjective(p: seq<byte>, q: seq<byte>, hash: seq<byte> -> Checksum)
    requires IsPayload(p) && IsPayload(q) && AddressOf(p, hash) == AddressOf(q, hash)
    ensures p == q
  {
    DecodeEncode(p + hash(p));
    DecodeEncode(q + hash(q));
    assert p == (p + hash(p))[..21] && q == (q + hash(q))[..21];
  }

  /** The hexadecimal forms of a payload, in either case of its digits, and its Base58 form are one address. */
  lemma FormsAgree(p: seq<byte>, hash: seq<byte> -> Checksum)
    requires IsPayload(p)
    ensures CanonicalAddress(HexEncode(p), hash) == CanonicalAddress("0x" + HexEncode(p), hash) == Some(AddressOf(p, hash))
    ensures CanonicalAddress(AddressOf(p, hash), hash) == Some(AddressOf(p, hash))
  {
    var hex := HexEncode(p);
    HexRoundTrip(p);
    assert hex[2 * 0] == '4' && hex[2 * 0 + 1] == '1' && hex[..2] == "41";
    HexEnds(p);
    assert ("0x" + hex)[2..] == hex && TrimPrefix(hex, "0x") == hex;
    HexAddressIsCanonical(hex, hash);
  }

  lemma HexEnds(p: seq<byte>)
    requires p != []
    ensures TrimSpace(HexEncode(p)) == HexEncode(p) && TrimSpace("0x" + HexEncode(p)) == "0x" + HexEncode(p)
  {
    var k := |p| - 1;
    assert HexEncode(p)[2 * k + 1] == HexChar(p[k] % 16);
    assert HexEncode(p)[2 * 0] == HexChar(p[0] / 16);
    HexCharIsNoSpace(p[k] % 16);
    HexCharIsNoSpace(p[0] / 16);
    NothingToTrim(HexEncode(p));
    NothingToTrim("0x" + HexEncode(p));
  }

  lemma HexCharIsNoSpace(d: nat)
    requires d < 16
    ensures !IsSpace(HexChar(d))
  {
  }

  lemma NothingToTrim(s: string)
    requires s != "" && !IsSpace(s[0]) && !IsSpace(s[|s| - 1])
    ensures TrimSpace(s) == s
  {
  }

  /** Built from hexadecimal are exactly the payloads. */
  lemma FromHexExactly(value: string, hash: seq<byte> -> Checksum)
    ensures var decoded := HexDecode(TrimPrefix(TrimSpace(value), "0x"));
            AddressFromHex(value, hash) ==
              if decoded.Some? && IsPayload(decoded.value) then Some(AddressOf(decoded.value, hash)) else None
  {
  }
}
