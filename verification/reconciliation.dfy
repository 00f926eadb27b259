/**
 * The deposit reconciliation of `monitorAddress`: for each unspent output
 * the explorer lists at a watched address, insert it when its key is not
 * tracked yet, otherwise refresh its confirmations and status.
 */
module Reconciliation {
  import opened Wrappers
  import opened UtxoStore

  /** One entry of the explorer's `txrefs` list; `value` is in satoshi. */
  datatype TxRef = TxRef(
    txHash: string,
    txOutputN: nat,
    value: nat,
    blockHeight: int,
    confirmations: nat,
    script: string)

  /** The address being polled and what every new row at it is recorded with. */
  datatype Watch = Watch(address: string, currency: Currency, userId: string, derivationPath: string)

  function RefKey(t: TxRef, w: Watch): Key {
    Key(t.txHash, t.txOutputN, w.currency)
  }

  /** The `addUTXO` call made for an untracked txref. */
  function AsDeposit(t: TxRef, w: Watch): (d: Deposit)
    ensures DepositKey(d) == RefKey(t, w)
  {
    Deposit(t.txHash, t.txOutputN, w.userId, w.address, w.derivationPath, w.currency,
            t.value, t.blockHeight, t.confirmations, t.script)
  }

  /** The UPDATE for a tracked key: confirmations and status, nothing else. */
  function UpdateConfirmations(rows: seq<Utxo>, k: Key, confirmations: nat): (r: seq<Utxo>)
    requires WellFormed(rows)
    ensures WellFormed(r) && |r| == |rows|
    ensures forall i :: 0 <= i < |rows| ==>
      r[i] == if KeyOf(rows[i]) == k then Refresh(rows[i], confirmations) else rows[i]
  {
    match FindKey(rows, k)
    case Some(id) => rows[id := Refresh(rows[id], confirmations)]
    case None => rows
  }

  /** One iteration of the loop over `txrefs`. */
  function ApplyTxRef(rows: seq<Utxo>, w: Watch, t: TxRef): (r: seq<Utxo>)
    requires WellFormed(rows)
    ensures WellFormed(r)
  {
    if FindKey(rows, RefKey(t, w)).None? then Upsert(rows, AsDeposit(t, w))
    else UpdateConfirmations(rows, RefKey(t, w), t.confirmations)
  }

  /** The lookup before `addUTXO` is redundant: each iteration is an upsert. */
  lemma ApplyTxRefIsUpsert(rows: seq<Utxo>, w: Watch, t: TxRef)
    requires WellFormed(rows)
    ensures ApplyTxRef(rows, w, t) == Upsert(rows, AsDeposit(t, w))
  {
    var k := RefKey(t, w);
    if FindKey(rows, k).Some? {
      var id := FindKey(rows, k).value;
      var a, b := ApplyTxRef(rows, w, t), Upsert(rows, AsDeposit(t, w));
      assert |a| == |b|;
      forall i | 0 <= i < |a| ensures a[i] == b[i] {
        if i != id {
          assert KeyOf(rows[i]) != k;
        }
      }
    }
  }

  /** The whole loop, txref by txref, in list order. */
  function ReconcileAll(rows: seq<Utxo>, w: Watch, refs: seq<TxRef>): (r: seq<Utxo>)
    requires WellFormed(rows)
    ensures WellFormed(r)
  {
    if refs == [] then rows
    else ApplyTxRef(ReconcileAll(rows, w, refs[..|refs| - 1]), w, refs[|refs| - 1])
  }

  /** The keys of the listed txrefs. */
  function RefKeys(refs: seq<TxRef>, w: Watch): (ks: set<Key>)
    ensures forall t :: t in refs ==> RefKey(t, w) in ks
  {
    if refs == [] then {}
    else RefKeys(refs[..|refs| - 1], w) + {RefKey(refs[|refs| - 1], w)}
  }

  /** The row differs from `before` at most in confirmations and status. */
  predicate OnlyConfirmationsChanged(after: Utxo, before: Utxo) {
    after.(confirmations := before.confirmations, status := before.status) == before
  }

  /**
   * Rows already tracked keep everything but confirmations and status, and
   * rows whose key is not listed do not change at all; the table only grows.
   */
  lemma {:induction false} ReconcileKeepsTracked(rows: seq<Utxo>, w: Watch, refs: seq<TxRef>)
    requires WellFormed(rows)
    ensures var r := ReconcileAll(rows, w, refs);
      && |r| >= |rows|
      && (forall i :: 0 <= i < |rows| ==> OnlyConfirmationsChanged(r[i], rows[i]))
      && (forall i :: 0 <= i < |rows| && KeyOf(rows[i]) !in RefKeys(refs, w) ==> r[i] == rows[i])
  {
    if refs != [] {
      var front, t := refs[..|refs| - 1], refs[|refs| - 1];
      ReconcileKeepsTracked(rows, w, front);
      var p := ReconcileAll(rows, w, front);
      ApplyTxRefIsUpsert(p, w, t);
      var r := ReconcileAll(rows, w, refs);
      assert r == Upsert(p, AsDeposit(t, w));
      forall i | 0 <= i < |rows| ensures OnlyConfirmationsChanged(r[i], rows[i]) {
        assert OnlyConfirmationsChanged(r[i], p[i]);
      }
    }
  }

  /** After reconciliation every listed key is tracked. */
  lemma {:induction false} ReconcileTracksListed(rows: seq<Utxo>, w: Watch, refs: seq<TxRef>)
    requires WellFormed(rows)
    ensures forall k :: k in RefKeys(refs, w) ==> FindKey(ReconcileAll(rows, w, refs), k).Some?
  {
    if refs != [] {
      var front, t := refs[..|refs| - 1], refs[|refs| - 1];
      ReconcileTracksListed(rows, w, front);
      var p := ReconcileAll(rows, w, front);
      ApplyTxRefIsUpsert(p, w, t);
      var r := ReconcileAll(rows, w, refs);
      forall k | k in RefKeys(refs, w) ensures FindKey(r, k).Some? {
        if k != RefKey(t, w) {
          var j := FindKey(p, k).value;
          assert KeyOf(r[j]) == k;
        }
      }
    }
  }

  /**
   * Every row reconciliation adds has a listed key that was not tracked
   * before, belongs to the watched address, owner and derivation path, and
   * carries no lock and no spending transaction.
   */
  lemma {:induction false} ReconcileAddsOnlyUnseen(rows: seq<Utxo>, w: Watch, refs: seq<TxRef>)
    requires WellFormed(rows)
    ensures var r := ReconcileAll(rows, w, refs);
      forall i :: |rows| <= i < |r| ==>
        && KeyOf(r[i]) in RefKeys(refs, w)
        && FindKey(rows, KeyOf(r[i])).None?
        && r[i].userId == w.userId && r[i].address == w.address
        && r[i].derivationPath == w.derivationPath && r[i].currency == w.currency
        && r[i].lockedUntil.None? && r[i].lockedBy.None? && r[i].spentInTxHash.None?
  {
    if refs != [] {
      var front, t := refs[..|refs| - 1], refs[|refs| - 1];
      ReconcileAddsOnlyUnseen(rows, w, front);
      ReconcileKeepsTracked(rows, w, front);
      var p := ReconcileAll(rows, w, front);
      ApplyTxRefIsUpsert(p, w, t);
      var r := ReconcileAll(rows, w, refs);
      if |r| > |p| {
        assert FindKey(p, RefKey(t, w)).None?;
        forall j | 0 <= j < |rows| ensures KeyOf(rows[j]) != RefKey(t, w) {
          assert KeyOf(p[j]) == KeyOf(rows[j]);
        }
      }
      forall i | |rows| <= i < |r| && i < |p| ensures KeyOf(r[i]) == KeyOf(p[i]) && OnlyConfirmationsChanged(r[i], p[i]) {
      }
    }
  }

  /** Confirmations of the last txref with key `k`, if any. */
  function LastConfirmations(refs: seq<TxRef>, w: Watch, k: Key): Option<nat> {
    if refs == [] then None
    else if RefKey(refs[|refs| - 1], w) == k then Some(refs[|refs| - 1].confirmations)
    else LastConfirmations(refs[..|refs| - 1], w, k)
  }

  /** Each row refreshed with the last confirmations listed for its key. */
  function RefreshedFrom(rows: seq<Utxo>, w: Watch, refs: seq<TxRef>): (r: seq<Utxo>)
    ensures |r| == |rows|
    ensures forall i :: 0 <= i < |rows| ==> KeyOf(r[i]) == KeyOf(rows[i]) && r[i].id == rows[i].id
  {
    seq(|rows|, i requires 0 <= i < |rows| =>
      match LastConfirmations(refs, w, KeyOf(rows[i]))
      case Some(c) => Refresh(rows[i], c)
      case None => rows[i])
  }

  /** One more tracked txref refreshes its row and leaves the others as they were. */
  lemma RefreshedFromStep(rows: seq<Utxo>, w: Watch, front: seq<TxRef>, t: TxRef)
    requires WellFormed(rows) && FindKey(rows, RefKey(t, w)).Some?
    ensures WellFormed(RefreshedFrom(rows, w, front))
    ensures Upsert(RefreshedFrom(rows, w, front), AsDeposit(t, w)) == RefreshedFrom(rows, w, front + [t])
  {
    var q := RefreshedFrom(rows, w, front);
    var refs := front + [t];
    assert refs[..|refs| - 1] == front;
    var a, b := Upsert(q, AsDeposit(t, w)), RefreshedFrom(rows, w, refs);
    var j := FindKey(rows, RefKey(t, w)).value;
    assert KeyOf(q[j]) == RefKey(t, w);
    assert |a| == |b|;
    forall i | 0 <= i < |a| ensures a[i] == b[i] {
      if i != j {
        assert KeyOf(rows[i]) != RefKey(t, w);
      }
    }
  }

  /** When every listed key is tracked, the loop only refreshes, and the last txref per key wins. */
  lemma {:induction false} ReconcileTracked(rows: seq<Utxo>, w: Watch, refs: seq<TxRef>)
    requires WellFormed(rows)
    requires forall k :: k in RefKeys(refs, w) ==> FindKey(rows, k).Some?
    ensures ReconcileAll(rows, w, refs) == RefreshedFrom(rows, w, refs)
  {
    if refs != [] {
      var front, t := refs[..|refs| - 1], refs[|refs| - 1];
      assert refs == front + [t];
      ReconcileTracked(rows, w, front);
      RefreshedFromStep(rows, w, front, t);
      ApplyTxRefIsUpsert(RefreshedFrom(rows, w, front), w, t);
    }
  }

  /** The row already carries the last confirmations listed for its key. */
  predicate Settled(u: Utxo, w: Watch, refs: seq<TxRef>) {
    match LastConfirmations(refs, w, KeyOf(u))
    case Some(c) => Refresh(u, c) == u
    case None => true
  }

  /** After one pass every row carries the last confirmations listed for its key. */
  lemma {:induction false} ReconcileSettles(rows: seq<Utxo>, w: Watch, refs: seq<TxRef>)
    requires WellFormed(rows)
    ensures forall i :: 0 <= i < |ReconcileAll(rows, w, refs)| ==> Settled(ReconcileAll(rows, w, refs)[i], w, refs)
  {
    if refs != [] {
      var front, t := refs[..|refs| - 1], refs[|refs| - 1];
      ReconcileSettles(rows, w, front);
      var p := ReconcileAll(rows, w, front);
      assert forall i :: 0 <= i < |p| ==> Settled(p[i], w, front);
      ApplyTxRefIsUpsert(p, w, t);
      var r := ReconcileAll(rows, w, refs);
      var k, c := RefKey(t, w), t.confirmations;
      forall i | 0 <= i < |r| ensures Settled(r[i], w, refs) {
        if KeyOf(r[i]) != k {
          assert i < |p| && r[i] == p[i];
          assert LastConfirmations(refs, w, KeyOf(r[i])) == LastConfirmations(front, w, KeyOf(p[i]));
          assert Settled(p[i], w, front);
        } else {
          assert LastConfirmations(refs, w, KeyOf(r[i])) == Some(c);
          if i < |p| {
            assert r[i] == Refresh(p[i], c);
          } else {
            assert r[i] == Inserted(|p|, AsDeposit(t, w));
          }
          assert Refresh(r[i], c) == r[i];
        }
      }
    }
  }

  /** Polling the same txrefs again leaves the table as the first poll left it. */
  lemma ReconcileIdempotent(rows: seq<Utxo>, w: Watch, refs: seq<TxRef>)
    requires WellFormed(rows)
    ensures ReconcileAll(ReconcileAll(rows, w, refs), w, refs) == ReconcileAll(rows, w, refs)
  {
    var r := ReconcileAll(rows, w, refs);
    ReconcileTracksListed(rows, w, refs);
    ReconcileTracked(r, w, refs);
    ReconcileSettles(rows, w, refs);
    SettledRefreshIsIdentity(r, w, refs);
  }

  lemma SettledRefreshIsIdentity(r: seq<Utxo>, w: Watch, refs: seq<TxRef>)
    requires forall i :: 0 <= i < |r| ==> Settled(r[i], w, refs)
    ensures RefreshedFrom(r, w, refs) == r
  {
    var again := RefreshedFrom(r, w, refs);
    forall i | 0 <= i < |r| ensures again[i] == r[i] {
      assert Settled(r[i], w, refs);
    }
  }
}
