/** Event IDs of the token transfers on one provider page. */
module EventIds {
  import opened Options
  import opened Ordering
  import opened Sums
  import opened Text
  import opened Bytes
  import opened Transfers
  import opened BridgeEvents

  /** A provider row. */
  datatype Row = Row(hash: string, contract: string, from: string, to: string, value: string)

  /** A row up to the case of its hash and addresses. */
  datatype Print = Print(hash: string, contract: string, from: string, to: string, value: string)

  function PrintOf(r: Row): Print {
    Print(Lower(r.hash), Lower(r.contract), Lower(r.from), Lower(r.to), r.value)
  }

  type ShortDigest = b: seq<byte> | |b| == 8 witness Zeros(8)

  /** The receipt logs of a transaction (None: unavailable), the topic of a transfer, and the digest of a fingerprint. */
  datatype Source = Source(receipts: string -> Option<seq<Log>>, topic: string, digest: Print -> ShortDigest)

  // ----- matching logs

  function TopicAddress(topic: string): string {
    var value := TrimPrefix(Lower(topic), "0x");
    if |value| < 40 then "" else "0x" + value[|value| - 40..]
  }

  function IntText(n: int): string {
    if n < 0 then "-" + Decimal(-n) else Decimal(n)
  }

  predicate HexAmountEquals(value: string, decimal: string) {
    var amount := ParseHex(TrimPrefix(value, "0x"));
    amount.Some? && IntText(amount.value) == decimal
  }

  /** The log records the row's transfer: same contract, parties and amount. */
  predicate Agrees(s: Source, log: Log, r: Row) {
    && |log.topics| >= 3 && SameFold(log.topics[0], s.topic) && SameFold(log.address, r.contract)
    && SameFold(TopicAddress(log.topics[1]), r.from) && SameFold(TopicAddress(log.topics[2]), r.to)
    && HexAmountEquals(log.data, r.value)
  }

  function LogIndexNumber(value: string): nat {
    var digits := TrimPrefix(value, "0x");
    var n := HexDigits(digits);
    if digits == "" || n.None? || n.value >= 0x1_0000_0000_0000_0000 then 0xFFFF_FFFF_FFFF_FFFF else n.value
  }

  predicate LowerIndex(a: Log, b: Log) {
    LogIndexNumber(a.logIndex) < LogIndexNumber(b.logIndex)
  }

  /** The log agrees with the row and has an index. */
  function Usable(s: Source, r: Row): Log -> bool {
    log => Agrees(s, log, r) && log.logIndex != ""
  }

  function Matches(s: Source, logs: seq<Log>, r: Row): seq<Log> {
    Sort(Filter(logs, Usable(s, r)), LowerIndex)
  }

  method MatchingTransferLogs(s: Source, logs: seq<Log>, r: Row) returns (matches: seq<Log>)
    ensures matches == Matches(s, logs, r)
  {
    matches := [];
    for i := 0 to |logs|
      invariant matches == Filter(logs[..i], Usable(s, r))
    {
      assert logs[..i + 1][..i] == logs[..i];
      if !Agrees(s, logs[i], r) {
        continue;
      }
      if logs[i].logIndex != "" {
        matches := matches + [logs[i]];
      }
    }
    assert logs[..|logs|] == logs;
    matches := Sort(matches, LowerIndex);
  }

  // ----- rows of one transaction

  /** The rows below n of a transaction, in order. */
  function RowsOf(rows: seq<Row>, n: nat, hash: string): seq<nat>
    requires n <= |rows|
  {
    if n == 0 then []
    else
      var front := RowsOf(rows, n - 1, hash);
      if Lower(rows[n - 1].hash) == hash then front + [n - 1] else front
  }

  /** How many numbers below n satisfy p. */
  function CountIf(n: nat, p: nat -> bool): nat {
    if n == 0 then 0 else CountIf(n - 1, p) + if p(n - 1) then 1 else 0
  }

  function Has(rows: seq<Row>, p: Print): nat -> bool {
    (i: nat) => i < |rows| && PrintOf(rows[i]) == p
  }

  /** How many rows below n have the fingerprint. */
  function Earlier(rows: seq<Row>, n: nat, p: Print): nat {
    CountIf(n, Has(rows, p))
  }

  function Hits(rows: seq<Row>, indexes: seq<nat>, p: Print): nat {
    if indexes == [] then 0
    else
      var k := |indexes| - 1;
      Hits(rows, indexes[..k], p) + if indexes[k] < |rows| && PrintOf(rows[indexes[k]]) == p then 1 else 0
  }

  lemma {:induction false} RowsOfExactly(rows: seq<Row>, n: nat, hash: string)
    requires n <= |rows|
    ensures forall i :: i in RowsOf(rows, n, hash) <==> 0 <= i < n && Lower(rows[i].hash) == hash
  {
    if n > 0 {
      RowsOfExactly(rows, n - 1, hash);
    }
  }

  /** The rows of the transaction before its p-th row are its first p rows. */
  lemma {:induction false} RowsBefore(rows: seq<Row>, n: nat, hash: string, p: nat)
    requires n <= |rows| && p < |RowsOf(rows, n, hash)|
    ensures RowsOf(rows, n, hash)[p] < n && RowsOf(rows, RowsOf(rows, n, hash)[p], hash) == RowsOf(rows, n, hash)[..p]
  {
    RowsOfExactly(rows, n, hash);
    var front := RowsOf(rows, n - 1, hash);
    if p < |front| {
      RowsBefore(rows, n - 1, hash, p);
      assert RowsOf(rows, n, hash)[p] == front[p] && RowsOf(rows, n, hash)[..p] == front[..p];
    } else {
      assert RowsOf(rows, n, hash) == front + [n - 1];
    }
  }

  lemma {:induction false} HitsAreEarlier(rows: seq<Row>, n: nat, p: Print)
    requires n <= |rows|
    ensures Hits(rows, RowsOf(rows, n, p.hash), p) == Earlier(rows, n, p)
  {
    RowsOfExactly(rows, n, p.hash);
    if n > 0 {
      HitsAreEarlier(rows, n - 1, p);
      var front := RowsOf(rows, n - 1, p.hash);
      assert (front + [n - 1])[..|front|] == front;
    }
  }

  // ----- the ID of a row

  function ProviderId(s: Source, r: Row, ordinal: nat): string {
    ("provider:" + HexEncode(s.digest(PrintOf(r)))) + (":" + Decimal(ordinal))
  }

  function LogId(log: Log): string {
    "log:" + log.logIndex
  }

  /** The i-th row gets the next log its fingerprint has left, or a provider ID once there is none; without a receipt, a
      provider ID that counts the rows of the transaction. */
  function EventId(s: Source, rows: seq<Row>, i: nat): string
    requires i < |rows|
  {
    var logs := s.receipts(Lower(rows[i].hash));
    if logs.None? then ProviderId(s, rows[i], |RowsOf(rows, i, Lower(rows[i].hash))|)
    else
      var matches, position := Matches(s, logs.value, rows[i]), Earlier(rows, i, PrintOf(rows[i]));
      if position < |matches| then LogId(matches[position]) else ProviderId(s, rows[i], position)
  }

  function IndexesAt(byHash: map<string, seq<nat>>, hash: string): seq<nat> {
    if hash in byHash then byHash[hash] else []
  }

  function UsedOf(used: map<Print, nat>, p: Print): nat {
    if p in used then used[p] else 0
  }

  method GroupByHash(rows: seq<Row>) returns (byHash: map<string, seq<nat>>)
    ensures forall hash :: IndexesAt(byHash, hash) == RowsOf(rows, |rows|, hash)
  {
    byHash := map[];
    for i := 0 to |rows|
      invariant forall hash :: IndexesAt(byHash, hash) == RowsOf(rows, i, hash)
    {
      var hash := Lower(rows[i].hash);
      byHash := byHash[hash := IndexesAt(byHash, hash) + [i]];
    }
  }

  /** The IDs of one transaction's rows are set, the others left alone. */
  ghost predicate SetFor(s: Source, rows: seq<Row>, hash: string, ids0: seq<string>, ids: seq<string>) {
    |ids| == |ids0| == |rows| &&
    forall i :: 0 <= i < |rows| ==> ids[i] == if Lower(rows[i].hash) == hash then EventId(s, rows, i) else ids0[i]
  }

  /** The IDs of these rows are set, the others left alone. */
  ghost predicate SetAt(s: Source, rows: seq<Row>, indexes: seq<nat>, ids0: seq<string>, ids: seq<string>) {
    |ids| == |ids0| == |rows| &&
    forall i :: 0 <= i < |rows| ==> ids[i] == if i in indexes then EventId(s, rows, i) else ids0[i]
  }

  lemma SetNext(s: Source, rows: seq<Row>, indexes: seq<nat>, p: nat, ids0: seq<string>, ids: seq<string>)
    requires p < |indexes| && indexes[p] < |rows| && SetAt(s, rows, indexes[..p], ids0, ids)
    ensures SetAt(s, rows, indexes[..p + 1], ids0, ids[indexes[p] := EventId(s, rows, indexes[p])])
  {
    assert indexes[..p + 1] == indexes[..p] + [indexes[p]];
  }

  lemma AllSet(s: Source, rows: seq<Row>, hash: string, ids0: seq<string>, ids: seq<string>)
    requires SetAt(s, rows, RowsOf(rows, |rows|, hash), ids0, ids)
    ensures SetFor(s, rows, hash, ids0, ids)
  {
    RowsOfExactly(rows, |rows|, hash);
  }

  method ProviderIds(s: Source, rows: seq<Row>, hash: string, indexes: seq<nat>, ids0: seq<string>) returns (ids: seq<string>)
    requires |ids0| == |rows| && indexes == RowsOf(rows, |rows|, hash) && s.receipts(hash).None?
    ensures SetFor(s, rows, hash, ids0, ids)
  {
    ids := ids0;
    for p := 0 to |indexes|
      invariant SetAt(s, rows, indexes[..p], ids0, ids)
    {
      RowAt(rows, hash, p);
      SetNext(s, rows, indexes, p, ids0, ids);
      ids := ids[indexes[p] := ProviderId(s, rows[indexes[p]], p)];
    }
    assert indexes[..|indexes|] == indexes;
    AllSet(s, rows, hash, ids0, ids);
  }

  /** The p-th row of a transaction: what precedes it there. */
  lemma RowAt(rows: seq<Row>, hash: string, p: nat)
    requires p < |RowsOf(rows, |rows|, hash)|
    ensures var indexes := RowsOf(rows, |rows|, hash);
            && indexes[p] < |rows| && Lower(rows[indexes[p]].hash) == hash
            && RowsOf(rows, indexes[p], hash) == indexes[..p]
            && Hits(rows, indexes[..p], PrintOf(rows[indexes[p]])) == Earlier(rows, indexes[p], PrintOf(rows[indexes[p]]))
  {
    var indexes := RowsOf(rows, |rows|, hash);
    RowsOfExactly(rows, |rows|, hash);
    assert indexes[p] in indexes;
    RowsBefore(rows, |rows|, hash, p);
    HitsAreEarlier(rows, indexes[p], PrintOf(rows[indexes[p]]));
  }

  ghost predicate Counted(rows: seq<Row>, indexes: seq<nat>, used: map<Print, nat>) {
    forall f :: UsedOf(used, f) == Hits(rows, indexes, f)
  }

  lemma CountNext(rows: seq<Row>, indexes: seq<nat>, p: nat, used: map<Print, nat>)
    requires p < |indexes| && indexes[p] < |rows| && Counted(rows, indexes[..p], used)
    ensures var f := PrintOf(rows[indexes[p]]); Counted(rows, indexes[..p + 1], used[f := UsedOf(used, f) + 1])
  {
    var next, f := indexes[..p + 1], PrintOf(rows[indexes[p]]);
    assert next[..p] == indexes[..p] && next[p] == indexes[p];
    forall g ensures UsedOf(used[f := UsedOf(used, f) + 1], g) == Hits(rows, next, g) {
      assert Hits(rows, next, g) == Hits(rows, next[..p], g) + if PrintOf(rows[next[p]]) == g then 1 else 0;
    }
  }

  /** The next log the fingerprint has left, or a provider ID. */
  method NextId(s: Source, r: Row, logs: seq<Log>, position: nat) returns (id: string)
    ensures id == var matches := Matches(s, logs, r); if position < |matches| then LogId(matches[position]) else ProviderId(s, r, position)
  {
    var matches := MatchingTransferLogs(s, logs, r);
    id := if position < |matches| then LogId(matches[position]) else ProviderId(s, r, position);
  }

  method LogIds(s: Source, rows: seq<Row>, hash: string, indexes: seq<nat>, logs: seq<Log>, ids0: seq<string>) returns (ids: seq<string>)
    requires |ids0| == |rows| && indexes == RowsOf(rows, |rows|, hash) && s.receipts(hash) == Some(logs)
    ensures SetFor(s, rows, hash, ids0, ids)
  {
    ids := ids0;
    var used: map<Print, nat> := map[];
    for p := 0 to |indexes|
      invariant SetAt(s, rows, indexes[..p], ids0, ids) && Counted(rows, indexes[..p], used)
    {
      RowAt(rows, hash, p);
      var i := indexes[p];
      var key := PrintOf(rows[i]);
      var position := UsedOf(used, key);
      SetNext(s, rows, indexes, p, ids0, ids);
      CountNext(rows, indexes, p, used);
      var id := NextId(s, rows[i], logs, position);
      ids := ids[i := id];
      used := used[key := position + 1];
    }
    assert indexes[..|indexes|] == indexes;
    AllSet(s, rows, hash, ids0, ids);
  }

  /** Every row of the page gets its ID. */
  method TokenEventIds(s: Source, rows: seq<Row>) returns (ids: seq<string>)
    ensures |ids| == |rows| && forall i :: 0 <= i < |rows| ==> ids[i] == EventId(s, rows, i)
  {
    ids := seq(|rows|, _ => "");
    var byHash := GroupByHash(rows);
    var order := InAnyOrder(byHash.Keys);
    for k := 0 to |order|
      invariant |ids| == |rows|
      invariant forall i :: 0 <= i < |rows| && Lower(rows[i].hash) in order[..k] ==> ids[i] == EventId(s, rows, i)
    {
      var hash := order[k];
      assert order[..k + 1] == order[..k] + [hash];
      assert hash in SetOf(order) && IndexesAt(byHash, hash) == byHash[hash];
      var logs := s.receipts(hash);
      if logs.None? {
        ids := ProviderIds(s, rows, hash, byHash[hash], ids);
      } else {
        ids := LogIds(s, rows, hash, byHash[hash], logs.value, ids);
      }
    }
    forall i | 0 <= i < |rows| ensures Lower(rows[i].hash) in order[..|order|] {
      RowsOfExactly(rows, |rows|, Lower(rows[i].hash));
      assert i in IndexesAt(byHash, Lower(rows[i].hash));
      assert Lower(rows[i].hash) in SetOf(order);
      assert order[..|order|] == order;
    }
  }

  // ----- a log is given to rows that agree with it

  /** The matches are the agreeing logs that have an index, each once. */
  lemma MatchesExactly(s: Source, logs: seq<Log>, r: Row)
    ensures forall log :: log in Matches(s, logs, r) <==> log in logs && Agrees(s, log, r) && log.logIndex != ""
    ensures Distinct(logs) ==> Distinct(Matches(s, logs, r))
  {
    var usable := Filter(logs, Usable(s, r));
    FilterExactly(logs, Usable(s, r));
    SameMembers(Matches(s, logs, r), usable);
    if Distinct(logs) {
      SortedDistinct(usable, LowerIndex);
    }
  }

  /** A row is given a log of its receipt that records the same transfer. */
  lemma LogIdsAgree(s: Source, rows: seq<Row>, i: nat)
    requires i < |rows| && GetsLog(s, rows, i)
    ensures exists log :: log in s.receipts(Lower(rows[i].hash)).value && Agrees(s, log, rows[i]) && EventId(s, rows, i) == LogId(log)
  {
    var logs := s.receipts(Lower(rows[i].hash)).value;
    MatchesExactly(s, logs, rows[i]);
    var log := Matches(s, logs, rows[i])[Earlier(rows, i, PrintOf(rows[i]))];
    assert log in Matches(s, logs, rows[i]);
  }

  predicate GetsLog(s: Source, rows: seq<Row>, i: nat)
    requires i < |rows|
  {
    var logs := s.receipts(Lower(rows[i].hash));
    logs.Some? && Earlier(rows, i, PrintOf(rows[i])) < |Matches(s, logs.value, rows[i])|
  }

  lemma AgreesByPrint(s: Source, log: Log, r: Row, q: Row)
    requires PrintOf(r) == PrintOf(q)
    ensures Agrees(s, log, r) <==> Agrees(s, log, q)
  {
  }

  /** A log agrees with one fingerprint only. */
  lemma LogHasOnePrint(s: Source, log: Log, r: Row, q: Row)
    requires Agrees(s, log, r) && Agrees(s, log, q) && Lower(r.hash) == Lower(q.hash)
    ensures PrintOf(r) == PrintOf(q)
  {
  }

  lemma {:induction false} SameFilter(logs: seq<Log>, p: Log -> bool, q: Log -> bool)
    requires forall log :: p(log) <==> q(log)
    ensures Filter(logs, p) == Filter(logs, q)
  {
    if logs != [] {
      SameFilter(logs[..|logs| - 1], p, q);
    }
  }

  lemma SameMatches(s: Source, logs: seq<Log>, r: Row, q: Row)
    requires PrintOf(r) == PrintOf(q)
    ensures Matches(s, logs, r) == Matches(s, logs, q)
  {
    forall log ensures Usable(s, r)(log) <==> Usable(s, q)(log) {
      AgreesByPrint(s, log, r, q);
    }
    SameFilter(logs, Usable(s, r), Usable(s, q));
  }

  // ----- amounts in hexadecimal and decimal

  lemma {:induction false} HexEncodeLast(b: seq<byte>)
    requires b != []
    ensures var k := |b| - 1; HexEncode(b) == HexEncode(b[..k]) + [HexChar(b[k] / 16), HexChar(b[k] % 16)]
  {
    if |b| > 1 {
      HexEncodeLast(b[1..]);
      assert b[..|b| - 1][1..] == b[1..][..|b| - 2];
    }
  }

  lemma HexDigitsAppend(s: string, c: char)
    requires HexDigits(s).Some? && HexDigit(c) >= 0
    ensures HexDigits(s + [c]) == Some(HexDigits(s).value * 16 + HexDigit(c))
  {
    var t := s + [c];
    assert t != "" && t[..|t| - 1] == s && t[|t| - 1] == c;
  }

  /** Two hexadecimal digits a byte, read as one number. */
  lemma {:induction false} HexDigitsOf(b: seq<byte>)
    ensures HexDigits(HexEncode(b)) == Some(FromDigits(b, 256))
  {
    if b != [] {
      var k := |b| - 1;
      HexDigitsOf(b[..k]);
      HexEncodeLast(b);
      HexDigitsOfByte(HexEncode(b[..k]), FromDigits(b[..k], 256), b[k]);
    }
  }

  lemma HexDigitsOfByte(front: string, n: nat, x: byte)
    requires HexDigits(front) == Some(n)
    ensures HexDigits(front + [HexChar(x / 16), HexChar(x % 16)]) == Some(n * 256 + x)
  {
    var high, low := HexChar(x / 16), HexChar(x % 16);
    HexDigitsAppend(front, high);
    HexDigitsAppend(front + [high], low);
    assert front + [high, low] == front + [high] + [low];
  }

  lemma TrimOwnPrefix(prefix: string, s: string)
    ensures TrimPrefix(prefix + s, prefix) == s
  {
    assert (prefix + s)[..|prefix|] == prefix;
  }

  lemma UnsignedHex(s: string)
    requires s != "" && HexDigit(s[0]) >= 0
    ensures ParseHex(s) == if HexDigits(s).None? then None else Some(HexDigits(s).value)
  {
  }

  lemma DecimalIsNotSigned(n: nat)
    ensures Decimal(n)[0] != '-'
  {
    DecimalHead(n);
    if n > 0 {
      assert Decimal(n)[0] == '0' + ToDigits(n, 10)[0] as char;
    }
  }

  lemma IntTextIsInjective(m: int, n: int)
    requires IntText(m) == IntText(n)
    ensures m == n
  {
    var a, b: nat := if m < 0 then -m else m, if n < 0 then -n else n;
    DecimalHead(a);
    DecimalHead(b);
    DecimalIsNotSigned(a);
    DecimalIsNotSigned(b);
    assert m < 0 <==> IntText(m)[0] == '-';
    assert n < 0 <==> IntText(n)[0] == '-';
    assert m < 0 ==> IntText(m)[1..] == Decimal(a);
    assert n < 0 ==> IntText(n)[1..] == Decimal(b);
    DecimalIsInjective(a, b);
  }

  /** The data of a log, of whatever length and sign, equals a decimal amount exactly if it is that number in hexadecimal. */
  lemma HexAmountExactly(data: string, amount: int)
    ensures HexAmountEquals(data, IntText(amount)) <==> ParseHex(TrimPrefix(data, "0x")) == Some(amount)
  {
    var parsed := ParseHex(TrimPrefix(data, "0x"));
    if parsed.Some? && IntText(parsed.value) == IntText(amount) {
      IntTextIsInjective(parsed.value, amount);
    }
  }

  /** In particular, whole bytes equal the amount they write big-endian. */
  lemma ByteAmountExactly(word: seq<byte>, amount: nat)
    requires word != []
    ensures HexAmountEquals("0x" + HexEncode(word), Decimal(amount)) <==> FromDigits(word, 256) == amount
  {
    var hex := HexEncode(word);
    TrimOwnPrefix("0x", hex);
    HexDigitsOf(word);
    assert hex[2 * 0] == HexChar(word[0] / 16);
    UnsignedHex(hex);
    HexAmountExactly("0x" + hex, amount);
  }

  // ----- no two rows share an ID

  /** The digests of the two rows do not collide. */
  ghost predicate NoCollision(s: Source, r: Row, q: Row) {
    s.digest(PrintOf(r)) == s.digest(PrintOf(q)) ==> PrintOf(r) == PrintOf(q)
  }

  /** In the receipt of the transaction, log indices tell logs apart. */
  ghost predicate IndexedOnce(s: Source, hash: string) {
    s.receipts(hash).Some? ==> DistinctIndices(s.receipts(hash).value)
  }

  ghost predicate DistinctIndices(logs: seq<Log>) {
    forall a, b :: 0 <= a < b < |logs| ==> logs[a].logIndex != logs[b].logIndex
  }

  lemma {:induction false} CountGrows(i: nat, j: nat, p: nat -> bool)
    requires i < j && p(i)
    ensures CountIf(i, p) < CountIf(j, p)
  {
    if i + 1 < j {
      CountGrows(i, j - 1, p);
    }
  }

  lemma {:induction false} RowsGrow(rows: seq<Row>, i: nat, j: nat)
    requires i < j <= |rows|
    ensures |RowsOf(rows, i, Lower(rows[i].hash))| < |RowsOf(rows, j, Lower(rows[i].hash))|
  {
    if i + 1 < j {
      RowsGrow(rows, i, j - 1);
    }
  }

  lemma DecimalHead(n: nat)
    ensures Decimal(n) != "" && (n > 0 <==> Decimal(n)[0] != '0')
  {
    if n > 0 {
      assert Decimal(n)[0] == '0' + ToDigits(n, 10)[0] as char;
    }
  }

  lemma SplitSame(a: string, b: string, c: string, d: string)
    requires |a| == |c| && a + b == c + d
    ensures a == c && b == d
  {
    assert a == (a + b)[..|a|] && c == (c + d)[..|c|];
    assert b == (a + b)[|a|..] && d == (c + d)[|c|..];
  }

  lemma ProviderIdsDiffer(s: Source, r: Row, m: nat, q: Row, n: nat)
    requires NoCollision(s, r, q) && ProviderId(s, r, m) == ProviderId(s, q, n)
    ensures PrintOf(r) == PrintOf(q) && m == n
  {
    var x, y := HexEncode(s.digest(PrintOf(r))), HexEncode(s.digest(PrintOf(q)));
    SplitSame("provider:" + x, ":" + Decimal(m), "provider:" + y, ":" + Decimal(n));
    SplitSame("provider:", x, "provider:", y);
    SplitSame(":", Decimal(m), ":", Decimal(n));
    HexRoundTrip(s.digest(PrintOf(r)));
    HexRoundTrip(s.digest(PrintOf(q)));
    DecimalIsInjective(m, n);
  }

  lemma LogIdIsNoProviderId(s: Source, log: Log, r: Row, ordinal: nat)
    ensures LogId(log) != ProviderId(s, r, ordinal)
  {
    assert LogId(log)[0] == 'l' && ProviderId(s, r, ordinal)[0] == 'p';
  }

  lemma LogsDiffer(s: Source, rows: seq<Row>, i: nat, j: nat)
    requires i < j < |rows| && IndexedOnce(s, Lower(rows[i].hash)) && Lower(rows[i].hash) == Lower(rows[j].hash)
    requires GetsLog(s, rows, i) && GetsLog(s, rows, j)
    ensures EventId(s, rows, i) != EventId(s, rows, j)
  {
    var logs := s.receipts(Lower(rows[i].hash)).value;
    var m, n := Matches(s, logs, rows[i]), Matches(s, logs, rows[j]);
    var x, y := m[Earlier(rows, i, PrintOf(rows[i]))], n[Earlier(rows, j, PrintOf(rows[j]))];
    MatchesExactly(s, logs, rows[i]);
    MatchesExactly(s, logs, rows[j]);
    assert DistinctIndices(logs) && x in m && y in n;
    if PrintOf(rows[i]) == PrintOf(rows[j]) {
      SameMatches(s, logs, rows[i], rows[j]);
      CountGrows(i, j, Has(rows, PrintOf(rows[i])));
      assert x != y;
    } else {
      LogIsNotShared(s, x, y, rows[i], rows[j]);
    }
    IndicesDiffer(logs, x, y);
    assert LogId(x)[4..] == x.logIndex && LogId(y)[4..] == y.logIndex;
  }

  lemma LogIsNotShared(s: Source, x: Log, y: Log, r: Row, q: Row)
    requires Agrees(s, x, r) && Agrees(s, y, q) && Lower(r.hash) == Lower(q.hash) && PrintOf(r) != PrintOf(q)
    ensures x != y
  {
    if Agrees(s, x, q) {
      LogHasOnePrint(s, x, r, q);
    }
  }

  lemma IndicesDiffer(logs: seq<Log>, x: Log, y: Log)
    requires DistinctIndices(logs) && x in logs && y in logs && x != y
    ensures x.logIndex != y.logIndex
  {
    var a :| 0 <= a < |logs| && logs[a] == x;
    var b :| 0 <= b < |logs| && logs[b] == y;
    assert a < b || b < a;
  }

  /** No two rows of a transaction share an event ID. */
  lemma EventIdsAreUnique(s: Source, rows: seq<Row>, i: nat, j: nat)
    requires i < j < |rows| && IndexedOnce(s, Lower(rows[i].hash)) && NoCollision(s, rows[i], rows[j]) && Lower(rows[i].hash) == Lower(rows[j].hash)
    ensures EventId(s, rows, i) != EventId(s, rows, j)
  {
    RowsGrow(rows, i, j);
    CountGrows(i, j, Has(rows, PrintOf(rows[i])));
    var hash := Lower(rows[i].hash);
    var logs := s.receipts(hash);
    var m, n := Earlier(rows, i, PrintOf(rows[i])), Earlier(rows, j, PrintOf(rows[j]));
    if logs.None? {
      if EventId(s, rows, i) == EventId(s, rows, j) {
        ProviderIdsDiffer(s, rows[i], |RowsOf(rows, i, hash)|, rows[j], |RowsOf(rows, j, hash)|);
      }
    } else if GetsLog(s, rows, i) && GetsLog(s, rows, j) {
      LogsDiffer(s, rows, i, j);
    } else if GetsLog(s, rows, i) {
      LogIdIsNoProviderId(s, Matches(s, logs.value, rows[i])[m], rows[j], n);
    } else if GetsLog(s, rows, j) {
      LogIdIsNoProviderId(s, Matches(s, logs.value, rows[j])[n], rows[i], m);
    } else if EventId(s, rows, i) == EventId(s, rows, j) {
      ProviderIdsDiffer(s, rows[i], m, rows[j], n);
    }
  }

  // ----- every fingerprint gets all the logs it can

  function Gets(s: Source, rows: seq<Row>, p: Print): nat -> bool {
    (i: nat) => i < |rows| && PrintOf(rows[i]) == p && GetsLog(s, rows, i)
  }

  /** How many rows with the fingerprint get a log. */
  function LogShare(s: Source, rows: seq<Row>, p: Print): nat {
    CountIf(|rows|, Gets(s, rows, p))
  }

  lemma GetsLogByPrint(s: Source, rows: seq<Row>, i: nat, r: Row)
    requires i < |rows| && PrintOf(rows[i]) == PrintOf(r) && s.receipts(Lower(r.hash)).Some?
    ensures GetsLog(s, rows, i) <==> Earlier(rows, i, PrintOf(r)) < |Matches(s, s.receipts(Lower(r.hash)).value, r)|
  {
    SameMatches(s, s.receipts(Lower(r.hash)).value, rows[i], r);
  }

  /** Serving the first `cap` that ask serves all or `cap` of them. */
  lemma {:induction false} ShareUpTo(n: nat, asks: nat -> bool, gets: nat -> bool, cap: nat)
    requires forall i :: 0 <= i < n ==> (gets(i) <==> asks(i) && CountIf(i, asks) < cap)
    ensures CountIf(n, gets) == Min(CountIf(n, asks), cap)
  {
    if n > 0 {
      ShareUpTo(n - 1, asks, gets, cap);
    }
  }

  /** A fingerprint gets as many log IDs as it has rows or matching logs, whichever is fewer. */
  lemma LogShareExactly(s: Source, rows: seq<Row>, r: Row)
    requires s.receipts(Lower(r.hash)).Some?
    ensures LogShare(s, rows, PrintOf(r))
            == Min(Earlier(rows, |rows|, PrintOf(r)), |Matches(s, s.receipts(Lower(r.hash)).value, r)|)
  {
    var cap := |Matches(s, s.receipts(Lower(r.hash)).value, r)|;
    var asks, gets := Has(rows, PrintOf(r)), Gets(s, rows, PrintOf(r));
    forall i | 0 <= i < |rows| ensures gets(i) <==> asks(i) && CountIf(i, asks) < cap {
      if asks(i) {
        GetsLogByPrint(s, rows, i, r);
      }
    }
    ShareUpTo(|rows|, asks, gets, cap);
  }
}
