/** Bytes, big-endian digit strings, and hexadecimal text. */
module Bytes {
  import opened Options

  type byte = x: int | 0 <= x < 256

  // ----- numbers as digit strings, most significant digit first

  function Pow(base: nat, n: nat): nat {
    if n == 0 then 1 else base * Pow(base, n - 1)
  }

  predicate DigitsBelow(digits: seq<nat>, base: nat) {
    forall i :: 0 <= i < |digits| ==> digits[i] < base
  }

  function FromDigits(digits: seq<nat>, base: nat): nat {
    if digits == [] then 0 else FromDigits(digits[..|digits| - 1], base) * base + digits[|digits| - 1]
  }

  lemma DivModSplits(n: nat, base: nat)
    requires n > 0 && base >= 2
    ensures 0 <= n / base < n && 0 <= n % base < base
    ensures (n / base) * base + n % base == n
  {
  }

  /** The digits of n, none for zero. */
  function ToDigits(n: nat, base: nat): (digits: seq<nat>)
    requires base >= 2
    ensures DigitsBelow(digits, base)
    ensures FromDigits(digits, base) == n
    ensures digits != [] ==> digits[0] != 0
    ensures n == 0 <==> digits == []
    decreases n
  {
    if n == 0 then
      []
    else
      DivModSplits(n, base);
      var high := ToDigits(n / base, base);
      FromDigitsAppend(high, n % base, base);
      high + [n % base]
  }

  function Zeros(n: nat): (z: seq<nat>)
    ensures |z| == n && forall i :: 0 <= i < n ==> z[i] == 0
  {
    seq(n, _ => 0)
  }

  function LeadingZeros(digits: seq<nat>): (n: nat)
    ensures n <= |digits| && (forall i :: 0 <= i < n ==> digits[i] == 0)
    ensures n < |digits| ==> digits[n] != 0
  {
    if digits == [] || digits[0] != 0 then 0 else 1 + LeadingZeros(digits[1..])
  }

  lemma FromDigitsAppend(digits: seq<nat>, d: nat, base: nat)
    ensures FromDigits(digits + [d], base) == FromDigits(digits, base) * base + d
  {
    assert (digits + [d])[..|digits|] == digits;
  }

  lemma {:induction false} FromDigitsHead(digits: seq<nat>, base: nat)
    requires digits != []
    ensures FromDigits(digits, base) == digits[0] * Pow(base, |digits| - 1) + FromDigits(digits[1..], base)
  {
    var n := |digits| - 1;
    if n > 0 {
      var init := digits[..n];
      FromDigitsHead(init, base);
      assert digits[1..][..n - 1] == init[1..];
      MulStep(digits[0], Pow(base, n - 1), FromDigits(init[1..], base), base);
    }
  }

  lemma MulStep(a: nat, p: nat, x: nat, base: nat)
    ensures (a * p + x) * base == a * (base * p) + x * base
  {
    assert a * p * base == a * (base * p);
  }

  lemma {:induction false} FromDigitsBelow(digits: seq<nat>, base: nat)
    requires DigitsBelow(digits, base)
    ensures FromDigits(digits, base) < Pow(base, |digits|)
  {
    if digits != [] {
      var init := digits[..|digits| - 1];
      FromDigitsBelow(init, base);
      var m, p := FromDigits(init, base), Pow(base, |init|);
      MulMonotone(m + 1, p, base);
      assert (m + 1) * base == m * base + base && p * base == base * p;
    }
  }

  lemma {:induction false} LeadingZerosVanish(digits: seq<nat>, base: nat)
    ensures FromDigits(digits, base) == FromDigits(digits[LeadingZeros(digits)..], base)
  {
    if digits != [] && digits[0] == 0 {
      FromDigitsHead(digits, base);
      LeadingZerosVanish(digits[1..], base);
      assert digits[1..][LeadingZeros(digits[1..])..] == digits[LeadingZeros(digits)..];
    }
  }

  lemma DivModUnique(n: nat, q: nat, r: nat, base: nat)
    requires base > 0 && r < base && n == q * base + r
    ensures n / base == q && n % base == r
  {
    var d := n / base;
    assert (d + 1) * base == d * base + base && (q + 1) * base == q * base + base;
    if d < q {
      MulMonotone(d + 1, q, base);
    } else if d > q {
      MulMonotone(q + 1, d, base);
    }
  }

  /** A digit string without leading zeros is the one its number is written with. */
  lemma {:induction false} DigitsAreUnique(digits: seq<nat>, base: nat)
    requires base >= 2 && DigitsBelow(digits, base) && (digits != [] ==> digits[0] != 0)
    ensures ToDigits(FromDigits(digits, base), base) == digits
  {
    if digits != [] {
      var k := |digits| - 1;
      var init, n := digits[..k], FromDigits(digits, base);
      DigitsAreUnique(init, base);
      DivModUnique(n, FromDigits(init, base), digits[k], base);
      FromDigitsHead(digits, base);
      PowPositive(base, k);
      MulMonotone(1, digits[0], Pow(base, k));
      assert ToDigits(n, base) == init + [digits[k]];
    }
  }

  /** Stripping the leading zeros is all that going through the number does. */
  lemma ToFromDigits(digits: seq<nat>, base: nat)
    requires base >= 2 && DigitsBelow(digits, base)
    ensures ToDigits(FromDigits(digits, base), base) == digits[LeadingZeros(digits)..]
  {
    LeadingZerosVanish(digits, base);
    DigitsAreUnique(digits[LeadingZeros(digits)..], base);
  }

  lemma MulMonotone(a: nat, b: nat, p: nat)
    requires a <= b
    ensures a * p <= b * p
  {
  }

  lemma LengthFromBounds(n: nat, base: nat, length: nat)
    requires base >= 2 && length > 0 && Pow(base, length - 1) <= n < Pow(base, length)
    ensures |ToDigits(n, base)| == length
  {
    var d := ToDigits(n, base);
    FromDigitsBelow(d, base);
    PowPositive(base, length - 1);
    if |d| < length {
      PowMonotone(base, |d|, length - 1);
    } else if |d| > length {
      PowMonotone(base, length, |d| - 1);
      FromDigitsHead(d, base);
      MulMonotone(1, d[0], Pow(base, |d| - 1));
    }
  }

  lemma HeadFromBounds(digits: seq<nat>, base: nat, first: nat)
    requires digits != [] && DigitsBelow(digits, base)
    requires first * Pow(base, |digits| - 1) <= FromDigits(digits, base) < (first + 1) * Pow(base, |digits| - 1)
    ensures digits[0] == first
  {
    var p := Pow(base, |digits| - 1);
    FromDigitsHead(digits, base);
    FromDigitsBelow(digits[1..], base);
    assert (digits[0] + 1) * p == digits[0] * p + p;
    if digits[0] < first {
      MulMonotone(digits[0] + 1, first, p);
    } else if digits[0] > first {
      MulMonotone(first + 1, digits[0], p);
    }
  }

  /** A number's size fixes the length of its digit string and its first digit. */
  lemma DigitsBetween(n: nat, base: nat, length: nat, first: nat)
    requires base >= 2 && length > 0 && 0 < first < base
    requires first * Pow(base, length - 1) <= n < (first + 1) * Pow(base, length - 1)
    ensures |ToDigits(n, base)| == length && ToDigits(n, base)[0] == first
  {
    var p := Pow(base, length - 1);
    MulMonotone(1, first, p);
    MulMonotone(first + 1, base, p);
    LengthFromBounds(n, base, length);
    HeadFromBounds(ToDigits(n, base), base, first);
  }

  lemma PowPositive(base: nat, n: nat)
    requires base > 0
    ensures Pow(base, n) > 0
  {
  }

  lemma {:induction false} PowAdd(base: nat, m: nat, n: nat)
    ensures Pow(base, m + n) == Pow(base, m) * Pow(base, n)
  {
    if m > 0 {
      PowAdd(base, m - 1, n);
      assert base * (Pow(base, m - 1) * Pow(base, n)) == base * Pow(base, m - 1) * Pow(base, n);
    }
  }

  lemma {:induction false} PowMonotone(base: nat, m: nat, n: nat)
    requires base > 0 && m <= n
    ensures Pow(base, m) <= Pow(base, n)
  {
    if m < n {
      PowMonotone(base, m, n - 1);
      PowPositive(base, n - 1);
      MulMonotone(1, base, Pow(base, n - 1));
    }
  }

  // ----- hexadecimal text

  function HexDigit(c: char): int {
    if '0' <= c <= '9' then c as int - '0' as int
    else if 'a' <= c <= 'f' then c as int - 'a' as int + 10
    else if 'A' <= c <= 'F' then c as int - 'A' as int + 10
    else -1
  }

  /** Digits mean the same in either case. */
  lemma HexDigitFolds(c: char)
    ensures 'a' <= c <= 'f' ==> HexDigit(c) == HexDigit((c as int - 32) as char) == 10 + (c as int - 'a' as int)
    ensures '0' <= c <= '9' ==> HexDigit(c) == c as int - '0' as int
    ensures !('0' <= c <= '9') && !('a' <= c <= 'f') && !('A' <= c <= 'F') ==> HexDigit(c) == -1
  {
  }

  function HexChar(d: nat): (c: char)
    requires d < 16
    ensures HexDigit(c) == d
  {
    if d < 10 then (d + '0' as int) as char else (d - 10 + 'a' as int) as char
  }

  /** hex.EncodeToString. */
  function HexEncode(b: seq<byte>): (s: string)
    ensures |s| == 2 * |b|
    ensures forall i :: 0 <= i < |b| ==> s[2 * i] == HexChar(b[i] / 16) && s[2 * i + 1] == HexChar(b[i] % 16)
  {
    if b == [] then []
    else
      var rest := HexEncode(b[1..]);
      assert forall i :: 0 < i < |b| ==> b[i] == b[1..][i - 1];
      [HexChar(b[0] / 16), HexChar(b[0] % 16)] + rest
  }

  /** hex.DecodeString. */
  function HexDecode(s: string): (r: Option<seq<byte>>)
    ensures r.Some? <==> |s| % 2 == 0 && forall i :: 0 <= i < |s| ==> HexDigit(s[i]) >= 0
    ensures r.Some? ==> 2 * |r.value| == |s|
  {
    if s == [] then Some([])
    else if |s| == 1 || HexDigit(s[0]) < 0 || HexDigit(s[1]) < 0 then None
    else
      var rest := HexDecode(s[2..]);
      assert rest.None? && |s| % 2 == 0 ==> exists i :: 0 <= i < |s| && HexDigit(s[i]) < 0 by {
        if rest.None? && |s| % 2 == 0 {
          var i :| 0 <= i < |s[2..]| && HexDigit(s[2..][i]) < 0;
          assert HexDigit(s[i + 2]) < 0;
        }
      }
      if rest.None? then None else Some([16 * HexDigit(s[0]) + HexDigit(s[1])] + rest.value)
  }

  lemma {:induction false} HexRoundTrip(b: seq<byte>)
    ensures HexDecode(HexEncode(b)) == Some(b)
  {
    if b != [] {
      HexRoundTrip(b[1..]);
      var s := HexEncode(b);
      assert s[2..] == HexEncode(b[1..]);
      assert 16 * (b[0] / 16) + b[0] % 16 == b[0];
      assert [b[0]] + b[1..] == b;
    }
  }

  /** Reading hexadecimal: two digits a byte. */
  lemma {:induction false} HexDecodeExactly(s: string, i: nat)
    requires HexDecode(s).Some? && i < |HexDecode(s).value|
    ensures HexDecode(s).value[i] == 16 * HexDigit(s[2 * i]) + HexDigit(s[2 * i + 1])
  {
    if i > 0 {
      HexDecodeExactly(s[2..], i - 1);
    }
  }

  function TrimPrefix(s: string, prefix: string): (r: string)
    ensures prefix <= s ==> prefix + r == s
    ensures !(prefix <= s) ==> r == s
  {
    if prefix <= s then s[|prefix|..] else s
  }
}
