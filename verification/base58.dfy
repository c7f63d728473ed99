/** Base58 text of byte strings, the backend's codec and the length check of the web client. */
module Base58 {
  import opened Options
  import opened Bytes

  const ALPHABET: string := 
    "123456789" + "ABCDEFGH" + "JKLMN" + "PQRSTUVWXYZ" + "abcdefghijk" + "mnopqrstuvwxyz"

  /** The alphabet is six runs of consecutive characters in ascending order. */
  function Symbol(d: nat): char
    requires d < 58
  {
    if d < 9 then '1' + d as char
    else if d < 17 then 'A' + (d - 9) as char
    else if d < 22 then 'J' + (d - 17) as char
    else if d < 33 then 'P' + (d - 22) as char
    else if d < 44 then 'a' + (d - 33) as char
    else 'm' + (d - 44) as char
  }

  /** The position of c in the alphabet, -1 when it is not there. */
  function Index(c: char): (d: int)
    ensures -1 <= d < 58
    ensures d >= 0 ==> Symbol(d) == c
  {
    if '1' <= c <= '9' then (c - '1') as int
    else if 'A' <= c <= 'H' then (c - 'A') as int + 9
    else if 'J' <= c <= 'N' then (c - 'J') as int + 17
    else if 'P' <= c <= 'Z' then (c - 'P') as int + 22
    else if 'a' <= c <= 'k' then (c - 'a') as int + 33
    else if 'm' <= c <= 'z' then (c - 'm') as int + 44
    else -1
  }

  lemma AlphabetIsSymbols(d: nat)
    requires d < 58
    ensures |ALPHABET| == 58 && ALPHABET[d] == Symbol(d) && Index(Symbol(d)) == d
  {
    IndexOfSymbol(d);
  }

  lemma IndexOfSymbol(d: nat)
    requires d < 58
    ensures Index(Symbol(d)) == d
  {
  }

  predicate InAlphabet(s: string) {
    forall i :: 0 <= i < |s| ==> Index(s[i]) >= 0
  }

  function Digits(s: string): (d: seq<nat>)
    requires InAlphabet(s)
    ensures |d| == |s| && DigitsBelow(d, 58)
    ensures forall i :: 0 <= i < |s| ==> d[i] == Index(s[i])
  {
    seq(|s|, i requires 0 <= i < |s| => Index(s[i]))
  }

  function Symbols(d: seq<nat>): (s: string)
    requires DigitsBelow(d, 58)
    ensures |s| == |d| && InAlphabet(s) && Digits(s) == d
  {
    var s := seq(|d|, i requires 0 <= i < |d| => Symbol(d[i]));
    assert forall i :: 0 <= i < |d| ==> Index(s[i]) == d[i] by {
      forall i | 0 <= i < |d| ensures Index(s[i]) == d[i] { AlphabetIsSymbols(d[i]); }
    }
    s
  }

  function AsBytes(d: seq<nat>): (b: seq<byte>)
    requires DigitsBelow(d, 256)
    ensures |b| == |d| && forall i :: 0 <= i < |d| ==> b[i] == d[i]
  {
    seq(|d|, i requires 0 <= i < |d| => d[i])
  }

  function AsDigits(b: seq<byte>): (d: seq<nat>)
    ensures |d| == |b| && DigitsBelow(d, 256) && forall i :: 0 <= i < |d| ==> b[i] == d[i]
  {
    seq(|b|, i requires 0 <= i < |b| => b[i])
  }

  /** Change of base that keeps the number of leading zeros, as both directions of the codec do. */
  function Rebase(d: seq<nat>, source: nat, target: nat): (r: seq<nat>)
    requires target >= 2
    ensures DigitsBelow(r, target)
  {
    Zeros(LeadingZeros(d)) + ToDigits(FromDigits(d, source), target)
  }

  function Decode(s: string): Option<seq<byte>> {
    if s == "" || !InAlphabet(s) then None else Some(AsBytes(Rebase(Digits(s), 58, 256)))
  }

  function Encode(b: seq<byte>): string {
    Symbols(Rebase(AsDigits(b), 256, 58))
  }

  // ----- steps of the loops below

  /** Horner's rule: one more character multiplies by 58 and adds its index. */
  lemma HornerStep(s: string, i: nat)
    requires i < |s| && InAlphabet(s[..i]) && Index(s[i]) >= 0
    ensures InAlphabet(s[..i + 1])
    ensures FromDigits(Digits(s[..i + 1]), 58) == FromDigits(Digits(s[..i]), 58) * 58 + Index(s[i])
  {
    assert Digits(s[..i + 1]) == Digits(s[..i]) + [Index(s[i])];
    FromDigitsAppend(Digits(s[..i]), Index(s[i]), 58);
  }

  /** A digit is zero exactly where the text has a '1'. */
  lemma ZeroIsOne(c: char)
    ensures Index(c) == 0 <==> c == '1'
  {
  }

  /** A scan for leading zeros that has reached j stops exactly at LeadingZeros. */
  lemma LeadingScan(d: seq<nat>, j: nat)
    requires j <= LeadingZeros(d)
    ensures j < |d| && d[j] == 0 <==> j < LeadingZeros(d)
  {
  }

  lemma LastDigit(n: nat, base: nat)
    requires base >= 2 && n > 0
    ensures ToDigits(n, base) == ToDigits(n / base, base) + [n % base]
  {
  }

  // ----- the two codecs and the web length check, as loops

  /** Horner's rule over the characters, none if one is not in the alphabet. */
  method ParseNumber(value: string) returns (r: Option<nat>)
    ensures r == if InAlphabet(value) then Some(FromDigits(Digits(value), 58)) else None
  {
    var number: nat := 0;
    var i := 0;
    while i < |value|
      invariant 0 <= i <= |value| && InAlphabet(value[..i])
      invariant number == FromDigits(Digits(value[..i]), 58)
    {
      var index := Index(value[i]);
      if index < 0 {
        return None;
      }
      HornerStep(value, i);
      number := number * 58 + index;
      i := i + 1;
    }
    assert value[..|value|] == value;
    return Some(number);
  }

  /** One zero byte in front for every leading '1'. */
  method PrependZeros(value: string, bytes: seq<nat>) returns (decoded: seq<nat>)
    requires InAlphabet(value)
    ensures decoded == Zeros(LeadingZeros(Digits(value))) + bytes
  {
    ghost var digits := Digits(value);
    var zeros := 0;
    decoded := bytes;
    while zeros < |value| && value[zeros] == '1'
      invariant 0 <= zeros <= LeadingZeros(digits)
      invariant decoded == Zeros(zeros) + bytes
    {
      ZeroIsOne(value[zeros]);
      LeadingScan(digits, zeros);
      decoded := [0] + decoded;
      zeros := zeros + 1;
    }
    LeadingScan(digits, zeros);
    if zeros < |value| {
      ZeroIsOne(value[zeros]);
    }
  }

  method DecodeBase58(value: string) returns (r: Option<seq<byte>>)
    ensures r == Decode(value)
  {
    if value == "" {
      return None;
    }
    var number := ParseNumber(value);
    if number.None? {
      return None;
    }
    var decoded := PrependZeros(value, ToDigits(number.value, 256));
    return Some(AsBytes(decoded));
  }

  function Reversed<T>(s: seq<T>): (r: seq<T>)
    ensures |r| == |s| && forall i :: 0 <= i < |s| ==> r[i] == s[|s| - 1 - i]
  {
    seq(|s|, i requires 0 <= i < |s| => s[|s| - 1 - i])
  }

  method ReverseInPlace(a: array<char>)
    modifies a
    ensures a[..] == Reversed(old(a[..]))
  {
    var left, right := 0, a.Length - 1;
    while left < right
      invariant 0 <= left <= a.Length && left + right == a.Length - 1
      invariant forall k :: 0 <= k < left ==> a[k] == old(a[..])[a.Length - 1 - k]
      invariant forall k :: right < k < a.Length ==> a[k] == old(a[..])[a.Length - 1 - k]
      invariant forall k :: left <= k <= right ==> a[k] == old(a[..])[k]
    {
      a[left], a[right] := a[right], a[left];
      left, right := left + 1, right - 1;
    }
  }

  /** The symbols of n, least significant first, as the division loop produces them. */
  function Ascending(n: nat): string {
    if n == 0 then ""
    else
      DivModSplits(n, 58);
      [Symbol(n % 58)] + Ascending(n / 58)
  }

  lemma {:induction false} AscendingIsReversed(n: nat)
    ensures Ascending(n) == Reversed(Symbols(ToDigits(n, 58)))
  {
    if n > 0 {
      DivModSplits(n, 58);
      AscendingIsReversed(n / 58);
      LastDigit(n, 58);
      ReversedAppend(ToDigits(n / 58, 58), n % 58);
    }
  }

  lemma ReversedAppend(d: seq<nat>, last: nat)
    requires DigitsBelow(d, 58) && last < 58
    ensures Reversed(Symbols(d + [last])) == [Symbol(last)] + Reversed(Symbols(d))
  {
  }

  method DivideOut(value: nat) returns (result: string)
    ensures result == Ascending(value)
  {
    var number := value;
    result := "";
    while number > 0
      invariant result + Ascending(number) == Ascending(value)
    {
      var remainder := number % 58;
      AlphabetIsSymbols(remainder);
      DivModSplits(number, 58);
      assert result + Ascending(number) == result + [ALPHABET[remainder]] + Ascending(number / 58);
      result := result + [ALPHABET[remainder]];
      number := number / 58;
    }
  }

  method AppendOnes(value: seq<byte>, digits: string) returns (result: string)
    ensures result == digits + Symbols(Zeros(LeadingZeros(AsDigits(value))))
  {
    result := digits;
    var zeros := 0;
    while zeros < |value| && value[zeros] == 0
      invariant 0 <= zeros <= LeadingZeros(AsDigits(value))
      invariant result == digits + Symbols(Zeros(zeros))
    {
      LeadingScan(AsDigits(value), zeros);
      result := result + ['1'];
      zeros := zeros + 1;
    }
    LeadingScan(AsDigits(value), zeros);
  }

  method EncodeBase58(value: seq<byte>) returns (r: string)
    ensures r == Encode(value)
  {
    var number := FromDigits(AsDigits(value), 256);
    var result := DivideOut(number);
    ghost var zeros := LeadingZeros(AsDigits(value));
    result := AppendOnes(value, result);
    var buffer := new char[|result|](i requires 0 <= i < |result| => result[i]);
    assert buffer[..] == result;
    ReverseInPlace(buffer);
    AscendingIsReversed(number);
    PaddedReverse(ToDigits(number, 58), zeros);
    return buffer[..];
  }

  lemma PaddedReverse(d: seq<nat>, zeros: nat)
    requires DigitsBelow(d, 58)
    ensures Reversed(Reversed(Symbols(d)) + Symbols(Zeros(zeros))) == Symbols(Zeros(zeros) + d)
  {
  }

  function EncodedLength(s: string): nat {
    if |s| > 64 || Decode(s).None? then 0 else |Decode(s).value|
  }

  /** decodedBase58Length of the web client: counting bytes by division, with no byte string built. */
  method DecodedBase58Length(value: string) returns (length: nat)
    ensures length == EncodedLength(value)
  {
    if value == "" || !InAlphabet(value) || |value| > 64 {
      return 0;
    }
    var parsed := ParseNumber(value);
    var number := parsed.value;
    ghost var total := |ToDigits(number, 256)|;
    var bytes := 0;
    var current: nat := number;
    while current > 0
      invariant bytes + |ToDigits(current, 256)| == total
    {
      LastDigit(current, 256);
      DivModSplits(current, 256);
      bytes := bytes + 1;
      current := current / 256;
    }
    var ones := 0;
    while ones < |value| && value[ones] == '1'
      invariant 0 <= ones <= LeadingZeros(Digits(value))
    {
      ZeroIsOne(value[ones]);
      LeadingScan(Digits(value), ones);
      ones := ones + 1;
    }
    LeadingScan(Digits(value), ones);
    if ones < |value| {
      ZeroIsOne(value[ones]);
    }
    return bytes + ones;
  }

  // ----- the two directions are inverse

  lemma LeadingZerosOf(n: nat, d: seq<nat>)
    requires d != [] ==> d[0] != 0
    ensures LeadingZeros(Zeros(n) + d) == n
  {
    LeadingScan(Zeros(n) + d, if LeadingZeros(Zeros(n) + d) < n then LeadingZeros(Zeros(n) + d) else n);
  }

  lemma RebasedParts(d: seq<nat>, source: nat, target: nat)
    requires source >= 2 && target >= 2
    ensures LeadingZeros(Rebase(d, source, target)) == LeadingZeros(d)
    ensures FromDigits(Rebase(d, source, target), target) == FromDigits(d, source)
  {
    var k, high := LeadingZeros(d), ToDigits(FromDigits(d, source), target);
    var r := Zeros(k) + high;
    LeadingZerosOf(k, high);
    LeadingZerosVanish(r, target);
    assert r[k..] == high;
  }

  /** Rebasing there and back is the identity on digit strings. */
  lemma RebaseRoundTrip(d: seq<nat>, source: nat, target: nat)
    requires source >= 2 && target >= 2 && DigitsBelow(d, source)
    ensures Rebase(Rebase(d, source, target), target, source) == d
  {
    var k := LeadingZeros(d);
    RebasedParts(d, source, target);
    ToFromDigits(d, source);
    assert Zeros(k) + d[k..] == d;
  }

  /** Every non-empty byte string survives encoding and decoding; the empty one does not decode. */
  lemma DecodeEncode(b: seq<byte>)
    ensures Decode(Encode(b)) == if b == [] then None else Some(b)
  {
    var d := AsDigits(b);
    RebaseRoundTrip(d, 256, 58);
    if b != [] {
      assert Encode(b) != "" by {
        if LeadingZeros(d) == 0 {
          LeadingZerosVanish(d, 256);
          FromDigitsHead(d, 256);
          PowPositive(256, |d| - 1);
          MulMonotone(1, d[0], Pow(256, |d| - 1));
        }
      }
      assert AsBytes(d) == b;
    }
  }

  /** Every text over the alphabet is the encoding of what it decodes to. */
  lemma EncodeDecode(s: string)
    requires Decode(s).Some?
    ensures Encode(Decode(s).value) == s
  {
    var d := Digits(s);
    RebaseRoundTrip(d, 58, 256);
    var b := Decode(s).value;
    assert AsDigits(b) == Rebase(d, 58, 256);
    var t := Symbols(d);
    forall i | 0 <= i < |s| ensures t[i] == s[i] {
      assert Digits(t)[i] == Index(t[i]) && Index(t[i]) == Index(s[i]);
      assert Symbol(Index(t[i])) == t[i] && Symbol(Index(s[i])) == s[i];
    }
    assert t == s;
  }

  /** A text decodes to bytes if and only if, read by position in the alphabet, it is the same number, most significant digit
      first, with as many leading ones as the bytes have leading zeros. */
  lemma DecodedExactly(s: string, b: seq<byte>)
    ensures Decode(s) == Some(b) <==>
            && s != "" && (forall i :: 0 <= i < |s| ==> s[i] in ALPHABET)
            && FromDigits(Positions(s), 58) == FromDigits(AsDigits(b), 256) && LeadingOnes(s) == LeadingZeros(AsDigits(b))
  {
    AlphabetExactly(s);
    if s != "" && InAlphabet(s) {
      assert Positions(s) == Digits(s);
      OnesAreZeros(s);
      RebasedExactly(Digits(s), AsDigits(b));
      assert AsBytes(AsDigits(b)) == b;
    }
  }

  lemma RebasedExactly(d: seq<nat>, e: seq<nat>)
    requires DigitsBelow(d, 58) && DigitsBelow(e, 256)
    ensures Rebase(d, 58, 256) == e <==> FromDigits(d, 58) == FromDigits(e, 256) && LeadingZeros(d) == LeadingZeros(e)
  {
    RebasedParts(d, 58, 256);
    if FromDigits(d, 58) == FromDigits(e, 256) && LeadingZeros(d) == LeadingZeros(e) {
      SameNumber(Rebase(d, 58, 256), e);
    }
  }

  /** A digit string is fixed by its number and its leading zeros. */
  lemma SameNumber(d: seq<nat>, e: seq<nat>)
    requires DigitsBelow(d, 256) && DigitsBelow(e, 256)
    requires FromDigits(d, 256) == FromDigits(e, 256) && LeadingZeros(d) == LeadingZeros(e)
    ensures d == e
  {
    var k := LeadingZeros(d);
    ToFromDigits(d, 256);
    ToFromDigits(e, 256);
    assert d == Zeros(k) + d[k..] && e == Zeros(k) + e[k..];
  }

  function LeadingOnes(s: string): nat {
    if s == "" || s[0] != '1' then 0 else 1 + LeadingOnes(s[1..])
  }

  lemma {:induction false} OnesAreZeros(s: string)
    requires InAlphabet(s)
    ensures LeadingOnes(s) == LeadingZeros(Digits(s))
  {
    if s != "" {
      ZeroIsOne(s[0]);
      OnesAreZeros(s[1..]);
      assert Digits(s)[1..] == Digits(s[1..]);
    }
  }

  /** The position in the alphabet. */
  function PositionIn(alphabet: string, c: char): nat {
    if alphabet == "" || alphabet[0] == c then 0 else 1 + PositionIn(alphabet[1..], c)
  }

  function Positions(s: string): seq<nat> {
    seq(|s|, i requires 0 <= i < |s| => PositionIn(ALPHABET, s[i]))
  }

  lemma {:induction false} PositionExactly(alphabet: string, c: char, k: nat)
    requires k < |alphabet| && alphabet[k] == c && forall j :: 0 <= j < k ==> alphabet[j] != c
    ensures PositionIn(alphabet, c) == k
  {
    if k > 0 {
      PositionExactly(alphabet[1..], c, k - 1);
    }
  }

  lemma PositionIsIndex(c: char)
    requires Index(c) >= 0
    ensures PositionIn(ALPHABET, c) == Index(c)
  {
    var k := Index(c);
    forall j | 0 <= j <= k ensures ALPHABET[j] == Symbol(j) && Index(Symbol(j)) == j {
      AlphabetIsSymbols(j);
    }
    AlphabetIsSymbols(k);
    PositionExactly(ALPHABET, c, k);
  }

  lemma AlphabetExactly(s: string)
    ensures InAlphabet(s) <==> forall i :: 0 <= i < |s| ==> s[i] in ALPHABET
    ensures InAlphabet(s) ==> Positions(s) == Digits(s)
  {
    forall c ensures Index(c) >= 0 <==> c in ALPHABET {
      InAlphabetExactly(c);
    }
    if InAlphabet(s) {
      forall i | 0 <= i < |s| ensures PositionIn(ALPHABET, s[i]) == Index(s[i]) {
        PositionIsIndex(s[i]);
      }
    }
  }

  lemma InAlphabetExactly(c: char)
    ensures Index(c) >= 0 <==> c in ALPHABET
  {
    if Index(c) >= 0 {
      AlphabetIsSymbols(Index(c));
      assert ALPHABET[Index(c)] == c;
    }
    if c in ALPHABET {
      var i :| 0 <= i < |ALPHABET| && ALPHABET[i] == c;
      AlphabetSize();
      AlphabetIsSymbols(i);
    }
  }

  lemma AlphabetSize()
    ensures |ALPHABET| == 58
  {
  }
}
