/** TON addresses as text: the raw form and the checksummed 48-character form. */
module TonAddress {
  import opened Options
  import Bytes
  import opened Text
  import opened TonChecksum

  /** The position of c in the URL-safe Base64 alphabet, -1 when it is not there. */
  function Index(c: char): (d: int)
    ensures -1 <= d < 64
  {
    if 'A' <= c <= 'Z' then (c - 'A') as int
    else if 'a' <= c <= 'z' then (c - 'a') as int + 26
    else if '0' <= c <= '9' then (c - '0') as int + 52
    else if c == '-' then 62
    else if c == '_' then 63
    else -1
  }

  /** The n low bits of d. */
  function LowBits(d: nat, n: nat): (b: Bits)
    ensures |b| == n
  {
    if n == 0 then [] else LowBits(d / 2, n - 1) + [d % 2 == 1]
  }

  function Sextet(d: nat): (b: Bits)
    ensures |b| == 6
  {
    LowBits(d, 6)
  }

  predicate InAlphabet(s: string) {
    forall i :: 0 <= i < |s| ==> Index(s[i]) >= 0
  }

  /** The bits a Base64 text stands for, six a character. */
  function TextBits(s: string): (b: Bits)
    requires InAlphabet(s)
    ensures |b| == 6 * |s|
  {
    if s == "" then [] else TextBits(s[..|s| - 1]) + Sextet(Index(s[|s| - 1]))
  }

  function Octets(bits: Bits): (data: seq<Octet>)
    requires |bits| % 8 == 0
    ensures 8 * |data| == |bits| && Flatten(data) == bits
  {
    if bits == [] then []
    else
      var k := |bits| - 8;
      var front := Octets(bits[..k]);
      assert (front + [bits[k..]])[..|front|] == front;
      assert bits == bits[..k] + bits[k..];
      front + [bits[k..]]
  }

  /** The last two octets are the checksum of the others. */
  predicate Passes(data: seq<Octet>)
    requires |data| >= 2
  {
    var k := |data| - 2;
    var high: Bits, low: Bits := data[k], data[k + 1];
    high + low == Crc(data[..k])
  }

  predicate IsRaw(v: string) {
    "0:" <= v && |v| == 66 && Bytes.HexDecode(v[2..]).Some?
  }

  predicate IsFriendly(v: string) {
    |v| == 48 && ("EQ" <= v || "UQ" <= v) && InAlphabet(v) && Passes(Octets(TextBits(v)))
  }

  function NormalizeAddress(value: string): Option<string> {
    var v := TrimSpace(value);
    if IsRaw(v) then Some(Lower(v)) else if IsFriendly(v) then Some(v) else None
  }

  /** An address of at least two octets passes if and only if the checksum of all its octets is zero. */
  lemma PassesExactly(data: seq<Octet>)
    requires |data| >= 2
    ensures Passes(data) <==> Crc(data) == Zeros(16)
  {
    var k := |data| - 2;
    var high: Bits, low: Bits := data[k], data[k + 1];
    assert data[..k + 1][..k] == data[..k] && data[..k + 2] == data;
    assert Flatten(data[..k + 1]) == Flatten(data[..k]) + high;
    assert Flatten(data) == Flatten(data[..k]) + (high + low);
    AppendedExactly(Flatten(data[..k]), high + low);
  }

  /** Two addresses of the same length that pass and differ only within sixteen consecutive bits are equal. */
  lemma PassingBurst(a: seq<Octet>, b: seq<Octet>, start: nat, length: nat)
    requires |a| == |b| >= 2 && Passes(a) && Passes(b)
    requires length <= 16 && start + length <= 8 * |a|
    requires Flatten(a)[..start] == Flatten(b)[..start]
    requires Flatten(a)[start + length..] == Flatten(b)[start + length..]
    ensures Flatten(a) == Flatten(b)
  {
    PassesExactly(a);
    PassesExactly(b);
    BurstDetected(Flatten(a), Flatten(b), start, length);
  }

  lemma SplitEqual(a: Bits, b: Bits, x: Bits, y: Bits)
    requires |a| == |b| && a + x == b + y
    ensures a == b && x == y
  {
    assert a == (a + x)[..|a|] && b == (b + y)[..|a|];
    assert x == (a + x)[|a|..] && y == (b + y)[|a|..];
  }

  lemma {:induction false} LowBitsInjective(d: nat, e: nat, n: nat)
    requires d < Bytes.Pow(2, n) && e < Bytes.Pow(2, n) && LowBits(d, n) == LowBits(e, n)
    ensures d == e
  {
    if n > 0 {
      SplitEqual(LowBits(d / 2, n - 1), LowBits(e / 2, n - 1), [d % 2 == 1], [e % 2 == 1]);
      assert [d % 2 == 1][0] == [e % 2 == 1][0];
      LowBitsInjective(d / 2, e / 2, n - 1);
    }
  }

  lemma {:induction false} TextBitsInjective(s: string, t: string)
    requires InAlphabet(s) && InAlphabet(t) && TextBits(s) == TextBits(t)
    ensures s == t
  {
    if s != "" {
      var k := |s| - 1;
      SplitEqual(TextBits(s[..k]), TextBits(t[..k]), Sextet(Index(s[k])), Sextet(Index(t[k])));
      LowBitsInjective(Index(s[k]), Index(t[k]), 6);
      SymbolInjective(s[k], t[k]);
      TextBitsInjective(s[..k], t[..k]);
      assert s == s[..k] + [s[k]] && t == t[..k] + [t[k]];
    }
  }

  lemma SymbolInjective(c: char, d: char)
    requires Index(c) == Index(d) >= 0
    ensures c == d
  {
  }

  lemma TextBitsLast(s: string)
    requires s != "" && InAlphabet(s)
    ensures TextBits(s) == TextBits(s[..|s| - 1]) + Sextet(Index(s[|s| - 1]))
  {
  }

  lemma Associative(a: Bits, b: Bits, c: Bits)
    ensures (a + b) + c == a + (b + c)
  {
  }

  lemma {:induction false} TextBitsConcat(s: string, t: string)
    requires InAlphabet(s + t)
    ensures InAlphabet(s) && InAlphabet(t) && TextBits(s + t) == TextBits(s) + TextBits(t)
  {
    assert forall i :: 0 <= i < |s| ==> s[i] == (s + t)[i];
    assert forall i :: 0 <= i < |t| ==> t[i] == (s + t)[|s| + i];
    if t == "" {
      assert s + t == s;
    } else {
      var k := |t| - 1;
      assert (s + t)[..|s + t| - 1] == s + t[..k];
      TextBitsConcat(s, t[..k]);
      TextBitsLast(s + t);
      TextBitsLast(t);
      Associative(TextBits(s), TextBits(t[..k]), Sextet(Index(t[k])));
    }
  }

  /** No two accepted 48-character addresses differ only in two neighbouring characters. */
  lemma NeighboursDetected(v: string, w: string, i: nat)
    requires IsFriendly(v) && IsFriendly(w) && i + 2 <= 48
    requires v[..i] == w[..i] && v[i + 2..] == w[i + 2..]
    ensures v == w
  {
    SameBitsAround(v, w, i);
    PassingBurst(Octets(TextBits(v)), Octets(TextBits(w)), 6 * i, 12);
    TextBitsInjective(v, w);
  }

  lemma SameBitsAround(v: string, w: string, i: nat)
    requires InAlphabet(v) && InAlphabet(w) && |v| == |w| && i + 2 <= |v|
    requires v[..i] == w[..i] && v[i + 2..] == w[i + 2..]
    ensures TextBits(v)[..6 * i] == TextBits(w)[..6 * i] && TextBits(v)[6 * i + 12..] == TextBits(w)[6 * i + 12..]
  {
    SameBitsBefore(v, w, i);
    SameBitsBehind(v, w, i + 2);
  }

  lemma SameBitsBefore(v: string, w: string, i: nat)
    requires InAlphabet(v) && InAlphabet(w) && i <= |v| && i <= |w| && v[..i] == w[..i]
    ensures TextBits(v)[..6 * i] == TextBits(w)[..6 * i]
  {
    TextBitsCut(v, i);
    TextBitsCut(w, i);
  }

  lemma SameBitsBehind(v: string, w: string, i: nat)
    requires InAlphabet(v) && InAlphabet(w) && i <= |v| && i <= |w| && v[i..] == w[i..]
    ensures TextBits(v)[6 * i..] == TextBits(w)[6 * i..]
  {
    TextBitsCut(v, i);
    TextBitsCut(w, i);
  }

  lemma TextBitsCut(s: string, i: nat)
    requires InAlphabet(s) && i <= |s|
    ensures TextBits(s)[..6 * i] == TextBits(s[..i])
    ensures TextBits(s)[6 * i..] == TextBits(s[i..])
  {
    assert s == s[..i] + s[i..];
    TextBitsConcat(s[..i], s[i..]);
  }

  lemma NoSpaceInAlphabet(s: string)
    requires InAlphabet(s)
    ensures Trim(s, IsSpace) == s && Trim(s, IsScriptSpace) == s
  {
  }

  /** Normalizing twice changes nothing. */
  lemma NormalizeIsStable(value: string)
    requires NormalizeAddress(value).Some?
    ensures NormalizeAddress(NormalizeAddress(value).value) == NormalizeAddress(value)
  {
    var v := TrimSpace(value);
    if IsRaw(v) {
      var r := Lower(v);
      assert r[..2] == "0:" == v[..2];
      assert forall i :: 0 <= i < |v[2..]| ==> r[2..][i] == LowerChar(v[2..][i]);
      assert IsRaw(r);
      assert !IsSpace(r[0]) && !IsSpace(r[65]) by {
        assert Bytes.HexDigit(r[2..][63]) >= 0;
      }
      assert Lower(r) == r;
    } else {
      NoSpaceInAlphabet(v);
    }
  }

  // ----- what is accepted, character by character

  const CAPITALS: string := "ABCDEFGHIJKLMNOPQRSTUVWXYZ"
  const LETTERS: string := "abcdefghijklmnopqrstuvwxyz"
  const ALPHABET: string := CAPITALS + LETTERS + "0123456789-_"

  function Symbol(d: nat): char
    requires d < 64
  {
    if d < 26 then 'A' + d as char
    else if d < 52 then 'a' + (d - 26) as char
    else if d < 62 then '0' + (d - 52) as char
    else if d == 62 then '-' else '_'
  }

  lemma AlphabetIsSymbols(d: nat)
    requires d < 64
    ensures |ALPHABET| == 64 && ALPHABET[d] == Symbol(d)
  {
    assert |CAPITALS| == 26 && |LETTERS| == 26;
    if d < 26 {
      CapitalAt(d);
    } else if d < 52 {
      LetterAt(d - 26);
    } else {
      assert ALPHABET[d] == "0123456789-_"[d - 52];
    }
  }

  lemma CapitalAt(d: nat)
    requires d < 26
    ensures |CAPITALS| == 26 && CAPITALS[d] == 'A' + d as char
  {
  }

  lemma LetterAt(d: nat)
    requires d < 26
    ensures |LETTERS| == 26 && LETTERS[d] == 'a' + d as char
  {
  }

  lemma IndexOfSymbol(d: nat)
    requires d < 64
    ensures Index(Symbol(d)) == d
  {
  }

  /** The characters stand for their positions in the URL-safe Base64 alphabet. */
  lemma IndexExactly(c: char, i: nat)
    requires i < 64
    ensures |ALPHABET| == 64 && (Index(c) == i <==> c == ALPHABET[i])
  {
    AlphabetIsSymbols(i);
    IndexOfSymbol(i);
    if Index(c) == i {
      SymbolInjective(c, Symbol(i));
    }
  }

  /** And a position for its six bits, most significant first. */
  lemma {:induction false} LowBitsReadBack(d: nat, n: nat)
    requires d < Bytes.Pow(2, n)
    ensures Value(LowBits(d, n)) == d
  {
    if n > 0 {
      LowBitsReadBack(d / 2, n - 1);
      assert LowBits(d, n)[..n - 1] == LowBits(d / 2, n - 1);
    }
  }

  function Value(bits: Bits): nat {
    if bits == [] then 0 else 2 * Value(bits[..|bits| - 1]) + if bits[|bits| - 1] then 1 else 0
  }

  lemma {:induction false} SextetAt(s: string, i: nat)
    requires InAlphabet(s) && i < |s|
    ensures TextBits(s)[6 * i..6 * i + 6] == Sextet(Index(s[i]))
  {
    var k := |s| - 1;
    TextBitsLast(s);
    if i < k {
      SextetAt(s[..k], i);
      assert TextBits(s)[..6 * k] == TextBits(s[..k]);
      assert TextBits(s)[6 * i..6 * i + 6] == TextBits(s)[..6 * k][6 * i..6 * i + 6];
    }
  }

  /** The bits of a text are those of its characters, in order. */
  lemma BitsOfText(s: string, i: nat)
    requires InAlphabet(s) && i < |s|
    ensures Value(TextBits(s)[6 * i..6 * i + 6]) == Index(s[i])
  {
    SextetAt(s, i);
    assert Bytes.Pow(2, 6) == 64;
    LowBitsReadBack(Index(s[i]), 6);
  }

  predicate IsHexCharacter(c: char) {
    '0' <= c <= '9' || 'a' <= c <= 'f' || 'A' <= c <= 'F'
  }

  /** Accepted are, white space around them aside: `0:` and 64 hexadecimal digits, in lower case; and 48 characters of the
      alphabet that start with EQ or UQ and whose octets have checksum zero. */
  lemma AcceptedExactly(value: string)
    ensures var v := TrimSpace(value);
            var raw := |v| == 66 && v[0] == '0' && v[1] == ':' && forall i :: 2 <= i < 66 ==> IsHexCharacter(v[i]);
            var friendly := |v| == 48 && (v[0] == 'E' || v[0] == 'U') && v[1] == 'Q' && InAlphabet(v)
                            && Crc(Octets(TextBits(v))) == Zeros(16);
            NormalizeAddress(value) == if raw then Some(Lower(v)) else if friendly then Some(v) else None
  {
    var v := TrimSpace(value);
    RawExactly(v);
    if |v| == 48 && InAlphabet(v) {
      PassesExactly(Octets(TextBits(v)));
    }
  }

  lemma RawExactly(v: string)
    ensures IsRaw(v) <==> |v| == 66 && v[0] == '0' && v[1] == ':' && forall i :: 2 <= i < 66 ==> IsHexCharacter(v[i])
  {
    if |v| == 66 {
      assert forall i :: 2 <= i < 66 ==> v[i] == v[2..][i - 2];
      forall i | 0 <= i < 64 ensures Bytes.HexDigit(v[2..][i]) >= 0 <==> IsHexCharacter(v[i + 2]) {
      }
    }
  }

  /** A text is in the alphabet exactly when each of its characters is one of the 64. */
  lemma InAlphabetExactly(s: string)
    ensures InAlphabet(s) <==> forall i :: 0 <= i < |s| ==> s[i] in ALPHABET
  {
    forall c ensures Index(c) >= 0 <==> c in ALPHABET {
      if Index(c) >= 0 {
        IndexExactly(c, Index(c));
      }
      if i :| 0 <= i < |ALPHABET| && ALPHABET[i] == c {
        IndexExactly('A', 0);
        IndexExactly(c, i);
      }
    }
  }
}
