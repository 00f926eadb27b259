/**
 * Largest-first coin selection of `selectUTXOs`: take the available
 * outputs, largest first, until their total covers the amount plus the
 * fee of a transaction with that many inputs, then fold dust change into
 * the fee.
 *
 * Fee rates are whole satoshi per virtual byte.
 */
module CoinSelection {
  import opened Wrappers
  import opened UtxoStore
  import opened Availability

  /** Change below this many satoshi is added to the fee instead of paid out. */
  const DustThreshold: nat := 546

  /**
   * Estimated virtual size of a native-segwit (P2WPKH) spend with
   * `inputs` inputs and two outputs, rounded up: 68 vbytes per input,
   * 31 per output and 10.5 of overhead (section "Transaction size
   * calculations" of BIP 141). The half vbyte is counted as 21 halves.
   */
  function EstimatedVSize(inputs: nat): (v: nat)
    ensures 2 * v >= 2 * (inputs * 68 + 2 * 31) + 21 > 2 * v - 2
    ensures v == 68 * inputs + 73
  {
    (2 * (inputs * 68 + 2 * 31) + 21 + 1) / 2
  }

  /** The fee estimate for `inputs` inputs; the size is whole, so the outer ceiling is exact. */
  function Fee(inputs: nat, feeRate: nat): (f: nat)
    ensures f == (68 * inputs + 73) * feeRate
  {
    EstimatedVSize(inputs) * feeRate
  }

  lemma FeeMonotone(k: nat, m: nat, feeRate: nat)
    requires k <= m
    ensures Fee(k, feeRate) <= Fee(m, feeRate)
  {
    assert Fee(m, feeRate) == Fee(k, feeRate) + 68 * (m - k) * feeRate;
  }

  datatype Selection = Selection(
    selected: seq<Utxo>,
    totalInput: nat,
    totalOutput: nat,
    fee: nat,
    changeAmount: nat)

  datatype SelectionError =
    | NoUtxosAvailable
    | InsufficientFunds(needed: nat, have: nat)

  /** The first `k` outputs pay for `amount` plus the fee of a `k`-input transaction. */
  predicate Covers(s: seq<Utxo>, k: nat, amount: nat, feeRate: nat)
    requires k <= |s|
  {
    Sum(s[..k]) >= amount + Fee(k, feeRate)
  }

  /**
   * The number of inputs at which the loop of `selectUTXOs` stops, looking
   * from `k` on: the first covering prefix, or all of `s`.
   */
  function StopLength(s: seq<Utxo>, amount: nat, feeRate: nat, k: nat): (j: nat)
    requires 1 <= k <= |s|
    ensures k <= j <= |s|
    ensures j < |s| ==> Covers(s, j, amount, feeRate)
    ensures forall m :: k <= m < j ==> !Covers(s, m, amount, feeRate)
    decreases |s| - k
  {
    if k == |s| || Covers(s, k, amount, feeRate) then k
    else StopLength(s, amount, feeRate, k + 1)
  }

  /**
   * A walk that found no covering prefix shorter than `i`, and stopped at
   * `i` because that prefix covers or nothing is left, stops where
   * `StopLength` says.
   */
  lemma StopLengthAt(s: seq<Utxo>, amount: nat, feeRate: nat, i: nat)
    requires 1 <= i <= |s|
    requires forall m :: 1 <= m < i ==> !Covers(s, m, amount, feeRate)
    requires i == |s| || Covers(s, i, amount, feeRate)
    ensures StopLength(s, amount, feeRate, 1) == i
  {
  }

  /**
   * What `selectUTXOs` returns for the available outputs `s`, already in
   * the order it walks them.
   */
  function CoinSelect(s: seq<Utxo>, amount: nat, feeRate: nat): (r: Result<Selection, SelectionError>)
    ensures r == Failure(NoUtxosAvailable) <==> s == []
    ensures r.Success? ==> 1 <= |r.value.selected| <= |s| && r.value.selected == s[..|r.value.selected|]
    ensures r.Success? ==> r.value.totalInput == Sum(r.value.selected) >= amount + r.value.fee
    ensures r.Failure? && r.error.InsufficientFunds? ==> r.error.have < r.error.needed
  {
    if s == [] then Failure(NoUtxosAvailable)
    else
      var k := StopLength(s, amount, feeRate, 1);
      var total := Sum(s[..k]);
      var needed := amount + Fee(k, feeRate);
      if total < needed then Failure(InsufficientFunds(needed, total))
      else
        var change := total - needed;
        if 0 < change < DustThreshold then Success(Selection(s[..k], total, amount, Fee(k, feeRate) + change, 0))
        else Success(Selection(s[..k], total, amount, Fee(k, feeRate), change))
  }

  /**
   * The body of `selectUTXOs` once the available outputs are sorted: the
   * empty check, the walk that adds one output at a time until the total
   * covers the amount and the fee estimate for that many inputs, the final
   * check and the dust fold.
   */
  method SelectLargestFirst(s: seq<Utxo>, amount: nat, feeRate: nat) returns (r: Result<Selection, SelectionError>)
    ensures r == CoinSelect(s, amount, feeRate)
  {
    if |s| == 0 {
      return Failure(NoUtxosAvailable);
    }
    var selected: seq<Utxo> := [];
    var totalSelected: nat := 0;
    var estimatedFee: nat := 0;
    var i := 0;
    while i < |s|
      invariant 0 <= i <= |s|
      invariant selected == s[..i]
      invariant totalSelected == Sum(selected)
      invariant estimatedFee == if i == 0 then 0 else Fee(i, feeRate)
      invariant forall m :: 1 <= m <= i ==> !Covers(s, m, amount, feeRate)
    {
      assert s[..i + 1] == selected + [s[i]];
      SumAppend(selected, s[i]);
      selected := selected + [s[i]];
      totalSelected := totalSelected + s[i].amount;
      i := i + 1;
      estimatedFee := Fee(|selected|, feeRate);
      if totalSelected >= amount + estimatedFee {
        assert Covers(s, i, amount, feeRate);
        break;
      }
    }
    StopLengthAt(s, amount, feeRate, i);
    var totalNeeded := amount + estimatedFee;
    if totalSelected < totalNeeded {
      return Failure(InsufficientFunds(totalNeeded, totalSelected));
    }
    var changeAmount := totalSelected - totalNeeded;
    if 0 < changeAmount < DustThreshold {
      estimatedFee := estimatedFee + changeAmount;
      return Success(Selection(selected, totalSelected, amount, estimatedFee, 0));
    }
    return Success(Selection(selected, totalSelected, amount, estimatedFee, changeAmount));
  }

  /** `selectUTXOs` fails with "No UTXOs available" exactly when nothing is available. */
  lemma NoUtxosError(s: seq<Utxo>, amount: nat, feeRate: nat)
    ensures CoinSelect(s, amount, feeRate) == Failure(NoUtxosAvailable) <==> s == []
  {
  }

  /**
   * `selectUTXOs` fails with "Insufficient funds" exactly when no prefix of
   * the walk covers its own fee, and then reports the fee of taking every
   * output and the total of every output.
   */
  lemma InsufficientFundsError(s: seq<Utxo>, amount: nat, feeRate: nat)
    ensures CoinSelect(s, amount, feeRate).Failure? && CoinSelect(s, amount, feeRate).error.InsufficientFunds?
      <==> s != [] && forall k :: 1 <= k <= |s| ==> !Covers(s, k, amount, feeRate)
    ensures CoinSelect(s, amount, feeRate).Failure? && CoinSelect(s, amount, feeRate).error.InsufficientFunds? ==>
      && CoinSelect(s, amount, feeRate).error == InsufficientFunds(amount + Fee(|s|, feeRate), Sum(s))
      && Sum(s) < amount + Fee(|s|, feeRate)
  {
    if s != [] {
      if Covers(s, StopLength(s, amount, feeRate, 1), amount, feeRate) {
        StopCovers(s, amount, feeRate);
      } else {
        StopFallsShort(s, amount, feeRate);
      }
    }
  }

  /** When the walk stops at a covering prefix, the selection succeeds. */
  lemma StopCovers(s: seq<Utxo>, amount: nat, feeRate: nat)
    requires s != [] && Covers(s, StopLength(s, amount, feeRate, 1), amount, feeRate)
    ensures CoinSelect(s, amount, feeRate).Success?
  {
  }

  /**
   * When the walk ends without a covering prefix, it has taken every
   * output, no prefix covers, and the error reports the whole set.
   */
  lemma StopFallsShort(s: seq<Utxo>, amount: nat, feeRate: nat)
    requires s != [] && !Covers(s, StopLength(s, amount, feeRate, 1), amount, feeRate)
    ensures forall k :: 1 <= k <= |s| ==> !Covers(s, k, amount, feeRate)
    ensures CoinSelect(s, amount, feeRate) == Failure(InsufficientFunds(amount + Fee(|s|, feeRate), Sum(s)))
    ensures Sum(s) < amount + Fee(|s|, feeRate)
  {
    var k := StopLength(s, amount, feeRate, 1);
    assert k == |s|;
    assert s[..k] == s;
  }

  /** A whole available set that covers its own fee never fails. */
  lemma WholeSetSuffices(s: seq<Utxo>, amount: nat, feeRate: nat)
    requires s != [] && Sum(s) >= amount + Fee(|s|, feeRate)
    ensures CoinSelect(s, amount, feeRate).Success?
  {
    assert s[..|s|] == s;
    InsufficientFundsError(s, amount, feeRate);
  }

  /** The selection is the shortest covering prefix of the walk order. */
  lemma SelectionIsShortestPrefix(s: seq<Utxo>, amount: nat, feeRate: nat)
    requires CoinSelect(s, amount, feeRate).Success?
    ensures var sel := CoinSelect(s, amount, feeRate).value.selected;
      && 1 <= |sel| <= |s|
      && sel == s[..|sel|]
      && Covers(s, |sel|, amount, feeRate)
      && forall m :: 1 <= m < |sel| ==> !Covers(s, m, amount, feeRate)
  {
  }

  /**
   * Conservation: inputs pay for the amount, the fee and the change; the
   * fee is at least the estimate; change is never dust; dust change goes
   * to the fee.
   */
  lemma SelectionConserves(s: seq<Utxo>, amount: nat, feeRate: nat)
    requires CoinSelect(s, amount, feeRate).Success?
    ensures var r := CoinSelect(s, amount, feeRate).value;
      && r.totalOutput == amount
      && r.totalInput == Sum(r.selected)
      && r.totalInput == r.totalOutput + r.fee + r.changeAmount
      && r.totalInput >= amount + Fee(|r.selected|, feeRate)
      && (r.changeAmount == 0 || r.changeAmount >= DustThreshold)
      && var raw := r.totalInput - amount - Fee(|r.selected|, feeRate);
         if 0 < raw < DustThreshold then r.fee == Fee(|r.selected|, feeRate) + raw && r.changeAmount == 0
         else r.fee == Fee(|r.selected|, feeRate) && r.changeAmount == raw
  {
  }

  /** The outputs taken are at least as large as every output left behind. */
  lemma SelectionTakesLargest(s: seq<Utxo>, amount: nat, feeRate: nat)
    requires SortedDesc(s) && CoinSelect(s, amount, feeRate).Success?
    ensures var sel := CoinSelect(s, amount, feeRate).value.selected;
      forall i, j :: 0 <= i < |sel| <= j < |s| ==> sel[i].amount >= s[j].amount
  {
  }

  /** An output with only its amount set, for the worked examples below. */
  function Coin(id: RowId, amount: nat): Utxo {
    Utxo(id, "", 0, "", "", "", BTC, amount, Confirmed, 0, 0, "", None, None, None)
  }

  /**
   * Three outputs of 50000, 30000 and 20000 at 10 sat/vB for 60000: one
   * input falls short of 60000 + 1410, two inputs cover 60000 + 2090 and
   * leave 17910 change.
   */
  lemma TwoOfThreeExample()
    ensures var s := [Coin(0, 50000), Coin(1, 30000), Coin(2, 20000)];
      CoinSelect(s, 60000, 10) == Success(Selection(s[..2], 80000, 60000, 2090, 17910))
  {
    var s := [Coin(0, 50000), Coin(1, 30000), Coin(2, 20000)];
    assert Sum(s[..1]) == 50000 by { assert s[..1][..0] == []; }
    assert Sum(s[..2]) == 80000 by { assert s[..2][..1] == s[..1]; }
    assert !Covers(s, 1, 60000, 10);
    assert Covers(s, 2, 60000, 10);
  }

  /**
   * One output of 100600 at 3 sat/vB for 100000: the estimate is 423 and
   * the raw change of 177 is dust, so the fee becomes 600 with no change.
   */
  lemma DustFoldExample()
    ensures var s := [Coin(0, 100600)];
      CoinSelect(s, 100000, 3) == Success(Selection(s, 100600, 100000, 600, 0))
  {
    var s := [Coin(0, 100600)];
    assert s[..1] == s;
    assert Sum(s) == 100600 by { assert s[..0] == []; }
  }

  /**
   * Outputs of 10000 and 1 at 10 sat/vB for 8000: the first output alone
   * covers 8000 + 1410 and is selected, although both together fall short
   * of 8000 + 2090. Failing is therefore decided prefix by prefix, not by
   * the whole set.
   */
  lemma SmallTailExample()
    ensures var s := [Coin(0, 10000), Coin(1, 1)];
      && Sum(s) < 8000 + Fee(|s|, 10)
      && CoinSelect(s, 8000, 10) == Success(Selection(s[..1], 10000, 8000, 1410, 590))
  {
    var s := [Coin(0, 10000), Coin(1, 1)];
    assert Sum(s[..1]) == 10000 by { assert s[..1][..0] == []; }
    assert Sum(s) == 10001 by { assert s[..1] == s[..|s| - 1]; }
    assert Covers(s, 1, 8000, 10);
  }
}
