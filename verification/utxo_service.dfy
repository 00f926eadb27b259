/**
 * The UTXO service over its `utxos` table: every statement the service
 * runs is a method of the table, and `now` stands for CURRENT_TIMESTAMP
 * (seconds).
 */
module UtxoService {
  import opened Wrappers
  import opened UtxoStore
  import opened Availability
  import opened CoinSelection
  import opened Reconciliation

  const DefaultLockMinutes: nat := 30

  class UtxoTable {
    /** The rows of `utxos`; a row's id is its position. */
    var rows: seq<Utxo>

    ghost predicate Valid()
      reads this
    {
      WellFormed(rows)
    }

    constructor ()
      ensures Valid() && rows == []
    {
      rows := [];
    }

    /** `addUTXO`: upsert by (tx_hash, vout, currency) and return the row. */
    method AddUtxo(d: Deposit) returns (row: Utxo)
      requires Valid()
      modifies this
      ensures Valid() && rows == Upsert(old(rows), d)
      ensures row in rows && KeyOf(row) == DepositKey(d)
      ensures row.confirmations == d.confirmations && row.status == StatusFor(d.currency, d.confirmations)
    {
      rows := Upsert(rows, d);
      var id := FindKey(rows, DepositKey(d)).value;
      row := rows[id];
      if id < |old(rows)| {
        assert KeyOf(old(rows)[id]) == DepositKey(d);
      }
    }

    /**
     * `getAvailableUTXOs`: each available row exactly once, largest amount
     * first (equal amounts in id order).
     */
    function AvailableUtxos(userId: string, currency: Currency, now: int): (r: seq<Utxo>)
      reads this
      requires Valid()
      ensures SortedDesc(r) && Distinct(r)
      ensures forall u :: u in r <==> u in rows && Available(u, userId, currency, now)
      ensures forall u :: u in r ==> u.status != Locked && u.userId == userId && u.currency == currency
    {
      assert Distinct(rows) by {
        forall i, j | 0 <= i < j < |rows| ensures rows[i] != rows[j] {
          assert rows[i].id != rows[j].id;
        }
      }
      var f := Filter(rows, userId, currency, now);
      SortDescDistinct(f);
      var r := SortDesc(f);
      assert forall u :: u in r <==> u in multiset(f);
      r
    }

    /** `getAvailableBalance`: the total of the available rows, 0 when there are none. */
    function AvailableBalance(userId: string, currency: Currency, now: int): (b: nat)
      reads this
      requires Valid()
      ensures b == Sum(AvailableUtxos(userId, currency, now))
      ensures AvailableUtxos(userId, currency, now) == [] ==> b == 0
    {
      Sum(Filter(rows, userId, currency, now))
    }

    /**
     * `selectUTXOs`: the available rows, sorted again largest first, walked
     * by `SelectLargestFirst`. It only reads the table; the caller locks the
     * result separately.
     */
    method SelectUtxos(userId: string, currency: Currency, amount: nat, feeRate: nat, now: int)
      returns (r: Result<Selection, SelectionError>)
      requires Valid()
      ensures r == CoinSelect(AvailableUtxos(userId, currency, now), amount, feeRate)
      ensures r.Success? ==> forall u :: u in r.value.selected ==> u in rows && Available(u, userId, currency, now)
    {
      var available := AvailableUtxos(userId, currency, now);
      SortDescOfSorted(available);
      var sorted := SortDesc(available);
      r := SelectLargestFirst(sorted, amount, feeRate);
      if r.Success? {
        SelectionIsShortestPrefix(available, amount, feeRate);
        assert forall u :: u in r.value.selected ==> u in available;
      }
    }

    /**
     * `lockUTXOs`: the listed rows are locked for `lockMinutes` whatever
     * their status, and none of them is available afterwards.
     */
    method LockUtxos(ids: seq<RowId>, transactionId: string, now: int, lockMinutes: nat := DefaultLockMinutes)
      requires Valid()
      modifies this
      ensures Valid() && rows == LockRows(old(rows), ids, transactionId, now + lockMinutes * 60)
      ensures forall userId, currency, t, u :: u in AvailableUtxos(userId, currency, t) ==> u.id !in ids
    {
      rows := LockRows(rows, ids, transactionId, now + lockMinutes * 60);
      forall userId, currency, t, u | u in AvailableUtxos(userId, currency, t) ensures u.id !in ids {
        var i :| 0 <= i < |rows| && rows[i] == u;
      }
    }

    /** `unlockUTXOs`: the listed rows become confirmed with no lock, whatever their status. */
    method UnlockUtxos(ids: seq<RowId>)
      requires Valid()
      modifies this
      ensures Valid() && rows == UnlockRows(old(rows), ids)
    {
      rows := UnlockRows(rows, ids);
    }

    /** `markUTXOsSpent`: the listed rows become spent in `spentInTxHash`. */
    method MarkUtxosSpent(ids: seq<RowId>, spentInTxHash: string)
      requires Valid()
      modifies this
      ensures Valid() && rows == SpendRows(old(rows), ids, spentInTxHash)
      ensures forall userId, currency, t, u :: u in AvailableUtxos(userId, currency, t) ==> u.id !in ids
    {
      rows := SpendRows(rows, ids, spentInTxHash);
      forall userId, currency, t, u | u in AvailableUtxos(userId, currency, t) ensures u.id !in ids {
        var i :| 0 <= i < |rows| && rows[i] == u;
      }
    }

    /**
     * `cleanupExpiredLocks`: expired locks revert to confirmed and their
     * number is returned; the table changes exactly when that number is
     * positive, and afterwards no expired lock is left for a second run.
     */
    method CleanupExpiredLocks(now: int) returns (count: nat)
      requires Valid()
      modifies this
      ensures Valid() && rows == CleanupRows(old(rows), now)
      ensures count == CountExpired(old(rows), now)
      ensures count == 0 <==> rows == old(rows)
      ensures CountExpired(rows, now) == 0
    {
      CleanupIdempotent(rows, now);
      count := CountExpired(rows, now);
      rows := CleanupRows(rows, now);
    }

    /**
     * The reconciliation loop of `monitorAddress` over the txrefs the
     * explorer returned for the watched address.
     */
    method MonitorAddress(w: Watch, txrefs: seq<TxRef>)
      requires Valid()
      modifies this
      ensures Valid() && rows == ReconcileAll(old(rows), w, txrefs)
    {
      for i := 0 to |txrefs|
        invariant Valid()
        invariant rows == ReconcileAll(old(rows), w, txrefs[..i])
      {
        var t := txrefs[i];
        assert txrefs[..i + 1][..i] == txrefs[..i];
        var existing := FindKey(rows, RefKey(t, w));
        if existing.None? {
          var _ := AddUtxo(AsDeposit(t, w));
        } else {
          rows := UpdateConfirmations(rows, RefKey(t, w), t.confirmations);
        }
      }
      assert txrefs[..|txrefs|] == txrefs;
    }
  }
}
