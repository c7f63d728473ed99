/** What an event ID stands for: which log of the receipt is a row's own, and which row is the how-manieth of its kind. */
module EventLaws {
  import opened Options
  import opened Ordering
  import opened Text
  import opened Bytes
  import opened Transfers
  import opened BridgeCodec
  import opened BridgeEvents
  import opened BridgeEncoding
  import opened EventIds

  // ----- the log of a transfer

  /** The log a token contract writes of a transfer. */
  ghost predicate LogsTransfer(s: Source, log: Log, from: string, to: string, amount: nat) {
    && IsAddress(from) && IsAddress(to) && amount < Pow(256, WORD)
    && |log.topics| >= 3 && SameFold(log.topics[0], s.topic)
    && log.topics[1] == AddressText(AddressWord(from)) && log.topics[2] == AddressText(AddressWord(to))
    && log.data == AddressText(BigEndian(amount, WORD))
  }

  /** A topic names the address of its last forty digits; a shorter one names none. */
  lemma TopicAddressExactly(s: string)
    ensures TopicAddress("0x" + s) == if |s| < 40 then "" else "0x" + Lower(s[|s| - 40..])
  {
    var t := Lower("0x" + s);
    assert t[..2] == "0x" && t[2..] == Lower(s);
    if |s| >= 40 {
      assert Lower(s)[|s| - 40..] == Lower(s[|s| - 40..]);
    }
  }

  lemma TopicNamesAddress(a: string)
    requires IsAddress(a)
    ensures TopicAddress(AddressText(AddressWord(a))) == a
  {
    var b: seq<byte> :| |b| == 20 && a == AddressText(b);
    AddressWordOf(b);
    var word := Zeros(12) + b;
    LowerHex(word);
    assert AddressText(word)[2..] == HexEncode(word);
    HexTail(Zeros(12), b);
  }

  lemma HexTail(a: seq<byte>, b: seq<byte>)
    ensures HexEncode(a + b)[2 * |a|..] == HexEncode(b)
  {
    var s, t := HexEncode(a + b)[2 * |a|..], HexEncode(b);
    forall i | 0 <= i < |t| ensures s[i] == t[i] {
      var k := i / 2;
      assert (a + b)[|a| + k] == b[k];
      assert HexEncode(a + b)[2 * (|a| + k)] == HexChar(b[k] / 16) && HexEncode(a + b)[2 * (|a| + k) + 1] == HexChar(b[k] % 16);
      assert i == 2 * k || i == 2 * k + 1;
    }
  }

  /** Such a log agrees with a row if and only if the row names its contract, its two parties and its amount in decimal. */
  lemma TransferLogExactly(s: Source, log: Log, from: string, to: string, amount: nat, r: Row)
    requires LogsTransfer(s, log, from, to, amount)
    ensures Agrees(s, log, r) <==>
            SameFold(log.address, r.contract) && SameFold(from, r.from) && SameFold(to, r.to) && r.value == Decimal(amount)
  {
    TopicNamesAddress(from);
    TopicNamesAddress(to);
    AmountIsWritten(amount, r.value);
  }

  lemma AmountIsWritten(amount: nat, value: string)
    requires amount < Pow(256, WORD)
    ensures HexAmountEquals(AddressText(BigEndian(amount, WORD)), value) <==> value == Decimal(amount)
  {
    var word := BigEndian(amount, WORD);
    NumberOfBigEndian(amount, WORD);
    TrimOwnPrefix("0x", HexEncode(word));
    HexDigitsOf(word);
    assert HexEncode(word)[2 * 0] == HexChar(word[0] / 16);
    UnsignedHex(HexEncode(word));
  }

  // ----- the order of the logs

  /** A log index of hexadecimal digits is its number; one that is none, or does not fit 64 bits, goes last. */
  lemma IndexExactly(s: string)
    ensures LogIndexNumber("0x" + s) ==
            if s != "" && IsHexText(s) && FromDigits(HexValues(s), 16) < 0x1_0000_0000_0000_0000 then FromDigits(HexValues(s), 16)
            else 0xFFFF_FFFF_FFFF_FFFF
  {
    TrimOwnPrefix("0x", s);
    HexDigitsExactly(s);
  }

  /** The matches come by ascending index number. */
  lemma MatchesAscend(s: Source, logs: seq<Log>, r: Row)
    ensures var m := Matches(s, logs, r);
            forall i, j :: 0 <= i <= j < |m| ==> LogIndexNumber(m[i].logIndex) <= LogIndexNumber(m[j].logIndex)
  {
    var m := Matches(s, logs, r);
    SortAscends(Filter(logs, Usable(s, r)), LowerIndex);
    forall i, j | 0 <= i <= j < |m| ensures LogIndexNumber(m[i].logIndex) <= LogIndexNumber(m[j].logIndex) {
      if i < j {
        assert !LowerIndex(m[j], m[i]);
      }
    }
  }

  // ----- rows of a kind

  predicate SameRow(r: Row, q: Row) {
    && SameFold(r.hash, q.hash) && SameFold(r.contract, q.contract) && SameFold(r.from, q.from) && SameFold(r.to, q.to)
    && r.value == q.value
  }

  ghost function SameBefore(rows: seq<Row>, i: nat): set<nat>
    requires i < |rows|
  {
    set j: nat | j < i && SameRow(rows[j], rows[i])
  }

  ghost function OfHashBefore(rows: seq<Row>, i: nat): set<nat>
    requires i < |rows|
  {
    set j: nat | j < i && SameFold(rows[j].hash, rows[i].hash)
  }

  lemma {:induction false} CountIsSize(n: nat, p: nat -> bool)
    ensures CountIf(n, p) == |set j: nat | j < n && p(j)|
  {
    if n > 0 {
      CountIsSize(n - 1, p);
      var before, all := set j: nat | j < n - 1 && p(j), set j: nat | j < n && p(j);
      assert all == before + if p(n - 1) then {n - 1} else {};
    } else {
      assert (set j: nat | j < n && p(j)) == {};
    }
  }

  lemma {:induction false} RowsAreCounted(rows: seq<Row>, n: nat, hash: string)
    requires n <= |rows|
    ensures |RowsOf(rows, n, hash)| == |OfHash(rows, n, hash)|
  {
    if n > 0 {
      RowsAreCounted(rows, n - 1, hash);
      assert OfHash(rows, n, hash) == OfHash(rows, n - 1, hash) + if Lower(rows[n - 1].hash) == hash then {n - 1} else {};
    }
  }

  ghost function OfHash(rows: seq<Row>, n: nat, hash: string): set<nat> {
    set j: nat | j < n && j < |rows| && Lower(rows[j].hash) == hash
  }

  /** With a receipt, the n-th of the rows that are the same gets the n-th of the logs that agree with them, and beyond the
      last log a provider ID that counts them; without a receipt, one that counts the rows of the transaction. */
  lemma EventIdExactly(s: Source, rows: seq<Row>, i: nat)
    requires i < |rows|
    ensures var logs := s.receipts(Lower(rows[i].hash));
            EventId(s, rows, i) ==
              if logs.None? then ProviderId(s, rows[i], |OfHashBefore(rows, i)|)
              else
                var matches, n := Matches(s, logs.value, rows[i]), |SameBefore(rows, i)|;
                if n < |matches| then "log:" + matches[n].logIndex else ProviderId(s, rows[i], n)
  {
    var p, hash := PrintOf(rows[i]), Lower(rows[i].hash);
    CountIsSize(i, EventIds.Has(rows, p));
    assert (set j: nat | j < i && EventIds.Has(rows, p)(j)) == SameBefore(rows, i);
    RowsAreCounted(rows, i, hash);
    assert OfHash(rows, i, hash) == OfHashBefore(rows, i);
  }

  /** A provider ID names the digest of the row and the count. */
  lemma ProviderIdExactly(s: Source, r: Row, ordinal: nat)
    ensures ProviderId(s, r, ordinal) == "provider:" + HexEncode(s.digest(PrintOf(r))) + ":" + Decimal(ordinal)
  {
  }

  /** Rows that are the same have the same fingerprint: their fields in lower case, the amount as it is. */
  lemma PrintsExactly(r: Row, q: Row)
    ensures PrintOf(r) == PrintOf(q) <==> SameRow(r, q)
    ensures var p := PrintOf(r);
            SameRow(Row(p.hash, p.contract, p.from, p.to, p.value), r) && Lower(p.hash) == p.hash && Lower(p.contract) == p.contract
            && Lower(p.from) == p.from && Lower(p.to) == p.to
  {
  }
}
