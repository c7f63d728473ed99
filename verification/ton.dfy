/** The CRC-16 of TON user-friendly addresses: generator x^16 + x^12 + x^5 + 1 (section 2 of
    ITU-T V.41) from a zero register. Machine words are bit sequences, most significant bit
    first, so a shift, a mask or an exclusive or is exactly what the uint16 does. */
module TonChecksum {

  type Bits = seq<bool>
  type Word = w: Bits | |w| == 16 witness Zeros(16)
  type Octet = o: Bits | |o| == 8 witness Zeros(8)

  function Zeros(n: nat): (z: Bits)
    ensures |z| == n && forall i :: 0 <= i < n ==> !z[i]
  {
    seq(n, _ => false)
  }

  function Xor(a: Bits, b: Bits): (r: Bits)
    requires |a| == |b|
    ensures |r| == |a| && forall i :: 0 <= i < |a| ==> r[i] == (a[i] != b[i])
  {
    seq(|a|, i requires 0 <= i < |a| => a[i] != b[i])
  }

  /** 0x1021. */
  const POLYNOMIAL: Word := [false, false, false, true, false, false, false, false,
                             false, false, true, false, false, false, false, true]

  function ShiftLeft(w: Word): Word {
    w[1..] + [false]
  }

  /** One pass of the inner loop: shift, and subtract the generator if a one fell out. */
  function Shift(w: Word): Word {
    if w[0] then Xor(ShiftLeft(w), POLYNOMIAL) else ShiftLeft(w)
  }

  /** The same register fed one message bit. */
  function BitStep(w: Word, b: bool): Word {
    if w[0] != b then Xor(ShiftLeft(w), POLYNOMIAL) else ShiftLeft(w)
  }

  function CrcBits(w: Word, bits: Bits): Word {
    if bits == [] then w else BitStep(CrcBits(w, bits[..|bits| - 1]), bits[|bits| - 1])
  }

  function Flatten(data: seq<Octet>): (bits: Bits)
    ensures |bits| == 8 * |data|
  {
    if data == [] then [] else Flatten(data[..|data| - 1]) + data[|data| - 1]
  }

  function Crc(data: seq<Octet>): Word {
    CrcBits(Zeros(16), Flatten(data))
  }

  lemma {:induction false} CrcBitsConcat(w: Word, a: Bits, b: Bits)
    ensures CrcBits(w, a + b) == CrcBits(CrcBits(w, a), b)
  {
    if b == [] {
      assert a + b == a;
    } else {
      var k := |b| - 1;
      CrcBitsConcat(w, a, b[..k]);
      assert (a + b)[..|a + b| - 1] == a + b[..k];
    }
  }

  /** Shifting with a pending operand in the high bits feeds its first bit. */
  lemma ShiftFeeds(w: Word, x: Word)
    ensures Shift(Xor(w, x)) == Xor(BitStep(w, x[0]), ShiftLeft(x))
  {
    assert ShiftLeft(Xor(w, x)) == Xor(ShiftLeft(w), ShiftLeft(x));
  }

  /** What is still pending of an octet after k of its bits. */
  function Pending(o: Octet, k: nat): Word
    requires k <= 8
  {
    o[k..] + Zeros(8 + k)
  }

  method TonAddressChecksum(data: seq<Octet>) returns (high: Octet, low: Octet)
    ensures high + low == Crc(data)
  {
    var checksum: Word := Zeros(16);
    for i := 0 to |data|
      invariant checksum == Crc(data[..i])
    {
      assert data[..i + 1][..i] == data[..i];
      CrcBitsConcat(Zeros(16), Flatten(data[..i]), data[i]);
      checksum := FeedOctet(checksum, data[i]);
    }
    assert data[..|data|] == data;
    return checksum[..8], checksum[8..];
  }

  /** Fold one byte into the high half of the register, then shift eight times. */
  method FeedOctet(start: Word, octet: Octet) returns (checksum: Word)
    ensures checksum == CrcBits(start, octet)
  {
    checksum := Xor(start, octet + Zeros(8));
    for bit := 0 to 8
      invariant checksum == Xor(CrcBits(start, octet[..bit]), Pending(octet, bit))
    {
      ShiftFeeds(CrcBits(start, octet[..bit]), Pending(octet, bit));
      assert octet[..bit + 1][..bit] == octet[..bit];
      assert ShiftLeft(Pending(octet, bit)) == Pending(octet, bit + 1);
      if checksum[0] {
        checksum := Xor(ShiftLeft(checksum), POLYNOMIAL);
      } else {
        checksum := ShiftLeft(checksum);
      }
    }
    assert octet[..8] == octet && Pending(octet, 8) == Zeros(16);
  }

  // ----- the checksum is linear and is a polynomial remainder

  lemma BitStepLinear(v: Word, w: Word, a: bool, b: bool)
    ensures BitStep(Xor(v, w), a != b) == Xor(BitStep(v, a), BitStep(w, b))
  {
    assert ShiftLeft(Xor(v, w)) == Xor(ShiftLeft(v), ShiftLeft(w));
  }

  /** The register after a difference is the difference of the registers. */
  lemma {:induction false} CrcLinear(v: Word, w: Word, a: Bits, b: Bits)
    requires |a| == |b|
    ensures CrcBits(Xor(v, w), Xor(a, b)) == Xor(CrcBits(v, a), CrcBits(w, b))
  {
    if a != [] {
      var k := |a| - 1;
      CrcLinear(v, w, a[..k], b[..k]);
      assert Xor(a, b)[..k] == Xor(a[..k], b[..k]);
      BitStepLinear(CrcBits(v, a[..k]), CrcBits(w, b[..k]), a[k], b[k]);
    }
  }

  /** x^16 + x^12 + x^5 + 1 by its coefficients, highest power first. */
  const GENERATOR: Bits := [true] + POLYNOMIAL

  /** The product of a polynomial over GF(2) with the generator, by shift and add. */
  function TimesGenerator(q: Bits): (p: Bits)
    ensures |p| == |q| + 16
  {
    if q == [] then Zeros(16)
    else
      var k := |q| - 1;
      Xor(TimesGenerator(q[..k]) + [false], Zeros(k) + if q[k] then GENERATOR else Zeros(17))
  }

  /** message * x^16 = quotient * generator + r, where r has degree below 16. */
  ghost predicate Divides(message: Bits, quotient: Bits, r: Word) {
    |quotient| == |message| && message + Zeros(16) == Xor(TimesGenerator(quotient), Zeros(|message|) + r)
  }

  /** The bits that fall out of the register are the quotient. */
  function Quotient(message: Bits): (q: Bits)
    ensures |q| == |message|
  {
    if message == [] then []
    else
      var k := |message| - 1;
      Quotient(message[..k]) + [CrcBits(Zeros(16), message[..k])[0] != message[k]]
  }

  lemma {:induction false} CrcDivides(message: Bits)
    ensures Divides(message, Quotient(message), CrcBits(Zeros(16), message))
  {
    if message == [] {
    } else {
      var k := |message| - 1;
      var m, q, r := message[..k], Quotient(message[..k]), CrcBits(Zeros(16), message[..k]);
      CrcDivides(m);
      DivideOneMoreBit(m, q, r, message[k]);
      assert message == m + [message[k]];
    }
  }

  lemma DivideOneMoreBit(m: Bits, q: Bits, r: Word, b: bool)
    requires Divides(m, q, r)
    ensures Divides(m + [b], q + [r[0] != b], BitStep(r, b))
  {
    var top := r[0] != b;
    var p := TimesGenerator(q);
    var p' := TimesGenerator(q + [top]);
    assert (q + [top])[..|q|] == q;
    var left, right := m + [b] + Zeros(16), Xor(p', Zeros(|m| + 1) + BitStep(r, b));
    forall i | 0 <= i < |left| ensures left[i] == right[i] {
      if i < |m| + 16 {
        assert (m + Zeros(16))[i] == (p[i] != (Zeros(|m|) + r)[i]);
      }
    }
    assert left == right;
  }

  lemma {:induction false} TimesGeneratorLinear(a: Bits, b: Bits)
    requires |a| == |b|
    ensures TimesGenerator(Xor(a, b)) == Xor(TimesGenerator(a), TimesGenerator(b))
  {
    if a != [] {
      var k := |a| - 1;
      TimesGeneratorLinear(a[..k], b[..k]);
      assert Xor(a, b)[..k] == Xor(a[..k], b[..k]);
    }
  }

  lemma {:induction false} LeadingCoefficient(q: Bits)
    requires forall i :: 0 <= i < |q| ==> !TimesGenerator(q)[i]
    ensures q == Zeros(|q|) && TimesGenerator(q) == Zeros(|q| + 16)
  {
    if q != [] {
      var k := |q| - 1;
      var p := TimesGenerator(q[..k]);
      forall i | 0 <= i < k ensures !p[i] {
        assert TimesGenerator(q)[i] == p[i];
      }
      LeadingCoefficient(q[..k]);
      assert TimesGenerator(q)[k] == q[k];
      assert q == q[..k] + [q[k]];
    }
  }

  /** The checksum is the remainder of message * x^16 divided by the generator, the only one. */
  lemma CrcIsRemainder(message: Bits, r: Word)
    ensures (exists q :: Divides(message, q, r)) <==> r == CrcBits(Zeros(16), message)
  {
    CrcDivides(message);
    var q0, r0 := Quotient(message), CrcBits(Zeros(16), message);
    forall q | Divides(message, q, r) ensures r == r0 {
      var n := |message|;
      var d := Xor(q, q0);
      TimesGeneratorLinear(q, q0);
      forall i | 0 <= i < n + 16
        ensures TimesGenerator(d)[i] == ((Zeros(n) + r)[i] != (Zeros(n) + r0)[i])
      {
        assert (message + Zeros(16))[i] == (TimesGenerator(q)[i] != (Zeros(n) + r)[i]);
        assert (message + Zeros(16))[i] == (TimesGenerator(q0)[i] != (Zeros(n) + r0)[i]);
      }
      LeadingCoefficient(d);
      forall j | 0 <= j < 16 ensures r[j] == r0[j] {
        assert (Zeros(n) + r)[n + j] == (Zeros(n) + r0)[n + j];
      }
    }
  }

  // ----- what the checksum detects

  /** Registers that agree in their low m + 1 bits after a step agree in their low m bits before it. */
  lemma StepBack(v: Word, w: Word, a: bool, b: bool, m: nat)
    requires m < 16
    requires BitStep(v, a)[15 - m..] == BitStep(w, b)[15 - m..]
    ensures (v[0] != a) == (w[0] != b)
    ensures v[16 - m..] == w[16 - m..]
  {
    var x, y := BitStep(v, a), BitStep(w, b);
    assert x[15] == x[15 - m..][m] && y[15] == y[15 - m..][m];
    forall i | 16 - m <= i < 16 ensures v[i] == w[i] {
      assert x[i - 1] == x[15 - m..][i - 1 - (15 - m)] && y[i - 1] == y[15 - m..][i - 1 - (15 - m)];
    }
  }

  /** From one register, different inputs of at most 16 bits end in different registers. */
  lemma {:induction false} SpanInjective(w: Word, a: Bits, b: Bits, m: nat)
    requires |a| == |b| <= m <= 16
    requires CrcBits(w, a)[16 - m..] == CrcBits(w, b)[16 - m..]
    ensures a == b
  {
    if a != [] {
      var k := |a| - 1;
      StepBack(CrcBits(w, a[..k]), CrcBits(w, b[..k]), a[k], b[k], m - 1);
      SpanInjective(w, a[..k], b[..k], m - 1);
      assert a == a[..k] + [a[k]] && b == b[..k] + [b[k]];
    }
  }

  /** Feeding the same bits from different registers keeps them different. */
  lemma {:induction false} RegistersStayApart(v: Word, w: Word, bits: Bits)
    requires CrcBits(v, bits) == CrcBits(w, bits)
    ensures v == w
  {
    if bits != [] {
      var k := |bits| - 1;
      var x, y := CrcBits(v, bits[..k]), CrcBits(w, bits[..k]);
      StepBack(x, y, bits[k], bits[k], 15);
      assert x == [x[0]] + x[1..] && y == [y[0]] + y[1..];
      RegistersStayApart(v, w, bits[..k]);
    }
  }

  lemma {:induction false} OwnBitsCancel(w: Word, k: nat)
    requires k <= 16
    ensures CrcBits(w, w[..k]) == w[k..] + Zeros(k)
  {
    if k > 0 {
      OwnBitsCancel(w, k - 1);
      assert w[..k][..k - 1] == w[..k - 1];
    }
  }

  /** A message followed by sixteen bits has checksum zero if and only if they are its checksum. */
  lemma AppendedExactly(message: Bits, tail: Word)
    ensures CrcBits(Zeros(16), message + tail) == Zeros(16) <==> tail == CrcBits(Zeros(16), message)
  {
    var w := CrcBits(Zeros(16), message);
    CrcBitsConcat(Zeros(16), message, tail);
    OwnBitsCancel(w, 16);
    assert w[..16] == w && w[16..] + Zeros(16) == Zeros(16);
    if CrcBits(w, tail) == Zeros(16) {
      SpanInjective(w, tail, w, 16);
    }
  }

  /** Two messages with the same checksum that agree outside some sixteen consecutive bits are equal. */
  lemma BurstDetected(a: Bits, b: Bits, start: nat, length: nat)
    requires |a| == |b| && length <= 16 && start + length <= |a|
    requires a[..start] == b[..start] && a[start + length..] == b[start + length..]
    requires CrcBits(Zeros(16), a) == CrcBits(Zeros(16), b)
    ensures a == b
  {
    var end := start + length;
    var prefix, suffix := a[..start], a[end..];
    var u, v := a[start..end], b[start..end];
    assert a == prefix + u + suffix && b == prefix + v + suffix;
    CrcBitsConcat(Zeros(16), prefix + u, suffix);
    CrcBitsConcat(Zeros(16), prefix + v, suffix);
    RegistersStayApart(CrcBits(Zeros(16), prefix + u), CrcBits(Zeros(16), prefix + v), suffix);
    CrcBitsConcat(Zeros(16), prefix, u);
    CrcBitsConcat(Zeros(16), prefix, v);
    SpanInjective(CrcBits(Zeros(16), prefix), u, v, length);
  }
}
