/** Observed transfers, with amounts and asset keys as the backend reads them. */
module Transfers {
  import opened Options
  import Bytes

  datatype Asset = Asset(kind: string, contract: string, symbol: string, decimals: nat)

  datatype TransferItem = TransferItem(hash: string, eventId: string, from: string, to: string, amount: string, asset: Asset,
                                       timestamp: int)

  /** time.Time{}: no observed transfer is older. */
  const ZERO_TIME: int := 0

  function Digits(s: string): Option<nat>
  {
    if s == "" then Some(0)
    else
      var c, high := s[|s| - 1], Digits(s[..|s| - 1]);
      if high.None? || !('0' <= c <= '9') then None else Some(high.value * 10 + (c - '0') as int)
  }

  /** big.Int.SetString(s, 10): an optional sign and at least one decimal digit. */
  function ParseAmount(s: string): Option<int> {
    var signed := s != "" && (s[0] == '-' || s[0] == '+');
    var digits := if signed then s[1..] else s;
    if digits == "" || Digits(digits).None? then None
    else if signed && s[0] == '-' then Some(-(Digits(digits).value as int))
    else Some(Digits(digits).value)
  }

  /** The decimal text of n. */
  function Decimal(n: nat): string {
    if n == 0 then "0"
    else
      var d := Bytes.ToDigits(n, 10);
      seq(|d|, i requires 0 <= i < |d| => '0' + d[i] as char)
  }

  function AssetKey(asset: Asset): string {
    asset.kind + ":" + asset.contract + ":" + asset.symbol + ":" + Decimal(asset.decimals)
  }

  // ----- what the texts mean

  predicate IsDigits(s: string) {
    forall i :: 0 <= i < |s| ==> '0' <= s[i] <= '9'
  }

  function DigitValues(s: string): seq<nat>
    requires IsDigits(s)
  {
    seq(|s|, i requires 0 <= i < |s| => (s[i] - '0') as int)
  }

  /** Reading is positional, most significant digit first. */
  lemma {:induction false} DigitsExactly(s: string)
    ensures Digits(s).Some? <==> IsDigits(s)
    ensures IsDigits(s) ==> Digits(s).value == Bytes.FromDigits(DigitValues(s), 10)
  {
    if s != "" {
      var k := |s| - 1;
      DigitsExactly(s[..k]);
      assert IsDigits(s) ==> IsDigits(s[..k]) && DigitValues(s)[..k] == DigitValues(s[..k]);
      assert IsDigits(s[..k]) && '0' <= s[k] <= '9' ==> IsDigits(s);
    }
  }

  /** An amount is a sign or none, and at least one digit; the sign is that of the number. */
  lemma AmountExactly(s: string)
    ensures ParseAmount(s) ==
            if s != "" && IsDigits(s) then Some(Bytes.FromDigits(DigitValues(s), 10))
            else if |s| > 1 && s[0] == '+' && IsDigits(s[1..]) then Some(Bytes.FromDigits(DigitValues(s[1..]), 10))
            else if |s| > 1 && s[0] == '-' && IsDigits(s[1..]) then Some(-(Bytes.FromDigits(DigitValues(s[1..]), 10) as int))
            else None
  {
    DigitsExactly(s);
    if s != "" {
      DigitsExactly(s[1..]);
      assert IsDigits(s) ==> '0' <= s[0] <= '9';
    }
  }

  /** The text of a number is the one text of digits without a leading zero that reads back as the number. */
  lemma DecimalExactly(n: nat, s: string)
    ensures s == Decimal(n) <==> s != "" && IsDigits(s) && ParseAmount(s) == Some(n) && (s[0] == '0' ==> s == "0")
  {
    DecimalReadsBack(n);
    if s != "" && IsDigits(s) && ParseAmount(s) == Some(n) && (s[0] == '0' ==> s == "0") {
      AmountExactly(s);
      WrittenOnce(s);
    }
  }

  lemma DecimalReadsBack(n: nat)
    ensures Decimal(n) != "" && IsDigits(Decimal(n)) && ParseAmount(Decimal(n)) == Some(n) && (Decimal(n)[0] == '0' ==> Decimal(n) == "0")
  {
    AmountExactly(Decimal(n));
    if n == 0 {
      assert DigitValues("0") == [0] && [0][..0] == [];
    } else {
      DecimalDigits(n);
    }
  }

  lemma DecimalDigits(n: nat)
    requires n > 0
    ensures Decimal(n) != "" && IsDigits(Decimal(n)) && DigitValues(Decimal(n)) == Bytes.ToDigits(n, 10) && Decimal(n)[0] != '0'
  {
    var s, d := Decimal(n), Bytes.ToDigits(n, 10);
    forall i | 0 <= i < |d| ensures '0' <= s[i] <= '9' && (s[i] - '0') as int == d[i] {
      assert d[i] < 10;
    }
  }

  lemma WrittenOnce(s: string)
    requires s != "" && IsDigits(s) && (s[0] == '0' ==> s == "0")
    ensures s == Decimal(Bytes.FromDigits(DigitValues(s), 10))
  {
    var d := DigitValues(s);
    if s == "0" {
      assert d == [0] && d[..0] == [];
    } else {
      assert d[0] != 0;
      Bytes.DigitsAreUnique(d, 10);
      Bytes.FromDigitsHead(d, 10);
      Bytes.PowPositive(10, |d| - 1);
      Bytes.MulMonotone(1, d[0], Bytes.Pow(10, |d| - 1));
      assert forall i :: 0 <= i < |d| ==> '0' + d[i] as char == s[i];
    }
  }

  /** Texts without the separator can be taken apart again. */
  lemma SplitAt(separator: char, a: string, x: string, b: string, y: string)
    requires separator !in a && separator !in b && a + [separator] + x == b + [separator] + y
    ensures a == b && x == y
  {
    var s, t := a + [separator] + x, b + [separator] + y;
    assert s[|a|] == separator && t[|b|] == separator;
    assert forall i :: 0 <= i < |a| ==> s[i] == a[i];
    assert forall i :: 0 <= i < |b| ==> t[i] == b[i];
    assert |a| == |b|;
    assert a == s[..|a|] && b == t[..|b|] && x == s[|a| + 1..] && y == t[|b| + 1..];
  }

  predicate NoColon(asset: Asset) {
    ':' !in asset.kind && ':' !in asset.contract && ':' !in asset.symbol
  }

  lemma DecimalIsInjective(m: nat, n: nat)
    requires Decimal(m) == Decimal(n)
    ensures m == n
  {
    DecimalReadsBack(m);
    DecimalReadsBack(n);
  }

  /** Two assets have the same key if and only if they agree in every field. */
  lemma AssetKeyExactly(a: Asset, b: Asset)
    requires NoColon(a) && NoColon(b)
    ensures AssetKey(a) == AssetKey(b) <==> a == b
  {
    if AssetKey(a) == AssetKey(b) {
      var a2, b2 := a.symbol + ":" + Decimal(a.decimals), b.symbol + ":" + Decimal(b.decimals);
      var a1, b1 := a.contract + ":" + a2, b.contract + ":" + b2;
      assert AssetKey(a) == a.kind + ":" + a1 && AssetKey(b) == b.kind + ":" + b1;
      SplitAt(':', a.kind, a1, b.kind, b1);
      SplitAt(':', a.contract, a2, b.contract, b2);
      SplitAt(':', a.symbol, Decimal(a.decimals), b.symbol, Decimal(b.decimals));
      DecimalIsInjective(a.decimals, b.decimals);
    }
  }
}
