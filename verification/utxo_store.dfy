/**
 * The `utxos` table of the UTXO service: one record per tracked output,
 * identified by (tx_hash, vout, currency), and the single-statement
 * updates the service runs against it, written as functions from the old
 * table to the new one.
 *
 * A table is a sequence of rows whose position is the row id (ids are
 * assigned in insertion order and rows are never deleted).
 */
module UtxoStore {
  import opened Wrappers

  /** A currency code other than the two the service knows. */
  type OtherCode = c: string | c != "BTC" && c != "LTC" witness ""

  datatype Currency = BTC | LTC | OtherCurrency(code: OtherCode)

  datatype Status = Unconfirmed | Confirmed | Locked | Spent

  type RowId = nat

  /** One row of `utxos`; amounts are integer satoshi/litoshi. */
  datatype Utxo = Utxo(
    id: RowId,
    txHash: string,
    vout: nat,
    userId: string,
    address: string,
    derivationPath: string,
    currency: Currency,
    amount: nat,
    status: Status,
    blockHeight: int,
    confirmations: nat,
    scriptPubKey: string,
    lockedUntil: Option<int>,
    lockedBy: Option<string>,
    spentInTxHash: Option<string>)

  /** The table's unique key. */
  datatype Key = Key(txHash: string, vout: nat, currency: Currency)

  /** The argument object of `addUTXO`, with the amount already in satoshi. */
  datatype Deposit = Deposit(
    txHash: string,
    vout: nat,
    userId: string,
    address: string,
    derivationPath: string,
    currency: Currency,
    amount: nat,
    blockHeight: int,
    confirmations: nat,
    scriptPubKey: string)

  function KeyOf(u: Utxo): Key {
    Key(u.txHash, u.vout, u.currency)
  }

  function DepositKey(d: Deposit): Key {
    Key(d.txHash, d.vout, d.currency)
  }

  /** The service's `minConfirmations` table; other currencies have no entry. */
  function MinConfirmations(c: Currency): (m: Option<nat>)
    ensures m.Some? <==> c == BTC || c == LTC
    ensures m.Some? ==> m.value > 0
  {
    match c
    case BTC => Some(3)
    case LTC => Some(6)
    case OtherCurrency(_) => None
  }

  /**
   * Status given to a row on insert and on every confirmation refresh.
   * A missing threshold compares false in SQL and in JavaScript alike.
   */
  function StatusFor(c: Currency, confirmations: nat): (s: Status)
    ensures s == Confirmed || s == Unconfirmed
    ensures s == Confirmed <==> (c == BTC && confirmations >= 3) || (c == LTC && confirmations >= 6)
  {
    match MinConfirmations(c)
    case Some(m) => if confirmations >= m then Confirmed else Unconfirmed
    case None => Unconfirmed
  }

  /** Row ids are positions and no two rows share a key. */
  ghost predicate WellFormed(rows: seq<Utxo>) {
    && (forall i :: 0 <= i < |rows| ==> rows[i].id == i)
    && (forall i, j :: 0 <= i < j < |rows| ==> KeyOf(rows[i]) != KeyOf(rows[j]))
  }

  /** `SELECT id FROM utxos WHERE tx_hash = .. AND vout = .. AND currency = ..` */
  function FindKey(rows: seq<Utxo>, k: Key): (r: Option<RowId>)
    ensures r.Some? ==> r.value < |rows| && KeyOf(rows[r.value]) == k
    ensures r.None? <==> forall i :: 0 <= i < |rows| ==> KeyOf(rows[i]) != k
  {
    if rows == [] then None
    else if KeyOf(rows[|rows| - 1]) == k then Some(|rows| - 1)
    else FindKey(rows[..|rows| - 1], k)
  }

  lemma FindKeyOfRow(rows: seq<Utxo>, i: nat)
    requires WellFormed(rows) && i < |rows|
    ensures FindKey(rows, KeyOf(rows[i])) == Some(i)
  {
  }

  /** The row `addUTXO` inserts for a key not yet tracked. */
  function Inserted(id: RowId, d: Deposit): (u: Utxo)
    ensures KeyOf(u) == DepositKey(d) && u.id == id
    ensures u.status == StatusFor(d.currency, d.confirmations)
    ensures u.lockedUntil.None? && u.lockedBy.None? && u.spentInTxHash.None?
  {
    Utxo(id, d.txHash, d.vout, d.userId, d.address, d.derivationPath, d.currency, d.amount,
         StatusFor(d.currency, d.confirmations), d.blockHeight, d.confirmations, d.scriptPubKey,
         None, None, None)
  }

  /**
   * The confirmation refresh of a tracked row (the ON CONFLICT branch of
   * `addUTXO` and the UPDATE of `monitorAddress`): only confirmations and
   * status change, and the status is recomputed whatever it was before.
   */
  function Refresh(u: Utxo, confirmations: nat): (r: Utxo)
    ensures r.confirmations == confirmations && r.status == StatusFor(u.currency, confirmations)
    ensures r.(confirmations := u.confirmations, status := u.status) == u
  {
    u.(confirmations := confirmations, status := StatusFor(u.currency, confirmations))
  }

  /** `addUTXO`: insert, or on a key conflict refresh confirmations and status. */
  function Upsert(rows: seq<Utxo>, d: Deposit): (r: seq<Utxo>)
    requires WellFormed(rows)
    ensures WellFormed(r)
    ensures |r| == |rows| + (if FindKey(rows, DepositKey(d)).None? then 1 else 0)
    ensures FindKey(r, DepositKey(d)).Some?
    ensures forall i :: 0 <= i < |rows| ==>
      r[i] == if KeyOf(rows[i]) == DepositKey(d) then Refresh(rows[i], d.confirmations) else rows[i]
    ensures |r| > |rows| ==> r[|rows|] == Inserted(|rows|, d)
  {
    match FindKey(rows, DepositKey(d))
    case Some(id) =>
      var r := rows[id := Refresh(rows[id], d.confirmations)];
      FindKeyOfRow(r, id);
      r
    case None =>
      var r := rows + [Inserted(|rows|, d)];
      FindKeyOfRow(r, |rows|);
      r
  }

  /** Upserting the same deposit twice is the same as upserting it once. */
  lemma UpsertIdempotent(rows: seq<Utxo>, d: Deposit)
    requires WellFormed(rows)
    ensures Upsert(Upsert(rows, d), d) == Upsert(rows, d)
  {
    var once := Upsert(rows, d);
    var id := FindKey(once, DepositKey(d)).value;
    assert Refresh(once[id], d.confirmations) == once[id];
    assert once[id := once[id]] == once;
  }

  function LockRow(u: Utxo, transactionId: string, until: int): Utxo {
    u.(status := Locked, lockedUntil := Some(until), lockedBy := Some(transactionId))
  }

  function UnlockRow(u: Utxo): Utxo {
    u.(status := Confirmed, lockedUntil := None, lockedBy := None)
  }

  function SpendRow(u: Utxo, spentInTxHash: string): Utxo {
    u.(status := Spent, spentInTxHash := Some(spentInTxHash))
  }

  /** `lockUTXOs`: every row whose id is listed is locked, whatever its status. */
  function LockRows(rows: seq<Utxo>, ids: seq<RowId>, transactionId: string, until: int): (r: seq<Utxo>)
    requires WellFormed(rows)
    ensures WellFormed(r) && |r| == |rows|
    ensures forall i :: 0 <= i < |rows| && i in ids ==>
      r[i].status == Locked && r[i].lockedUntil == Some(until) && r[i].lockedBy == Some(transactionId)
      && r[i].(status := rows[i].status, lockedUntil := rows[i].lockedUntil, lockedBy := rows[i].lockedBy) == rows[i]
    ensures forall i :: 0 <= i < |rows| && i !in ids ==> r[i] == rows[i]
  {
    seq(|rows|, i requires 0 <= i < |rows| =>
      if rows[i].id in ids then LockRow(rows[i], transactionId, until) else rows[i])
  }

  /** `unlockUTXOs`: every listed row becomes confirmed with no lock, whatever its status. */
  function UnlockRows(rows: seq<Utxo>, ids: seq<RowId>): (r: seq<Utxo>)
    requires WellFormed(rows)
    ensures WellFormed(r) && |r| == |rows|
    ensures forall i :: 0 <= i < |rows| && i in ids ==>
      r[i].status == Confirmed && r[i].lockedUntil.None? && r[i].lockedBy.None?
      && r[i].(status := rows[i].status, lockedUntil := rows[i].lockedUntil, lockedBy := rows[i].lockedBy) == rows[i]
    ensures forall i :: 0 <= i < |rows| && i !in ids ==> r[i] == rows[i]
  {
    seq(|rows|, i requires 0 <= i < |rows| =>
      if rows[i].id in ids then UnlockRow(rows[i]) else rows[i])
  }

  /** `markUTXOsSpent`: every listed row becomes spent in the given transaction. */
  function SpendRows(rows: seq<Utxo>, ids: seq<RowId>, spentInTxHash: string): (r: seq<Utxo>)
    requires WellFormed(rows)
    ensures WellFormed(r) && |r| == |rows|
    ensures forall i :: 0 <= i < |rows| && i in ids ==>
      r[i].status == Spent && r[i].spentInTxHash == Some(spentInTxHash)
      && r[i].(status := rows[i].status, spentInTxHash := rows[i].spentInTxHash) == rows[i]
    ensures forall i :: 0 <= i < |rows| && i !in ids ==> r[i] == rows[i]
  {
    seq(|rows|, i requires 0 <= i < |rows| =>
      if rows[i].id in ids then SpendRow(rows[i], spentInTxHash) else rows[i])
  }

  /**
   * No statement checks the status it overwrites, so a spent row is not
   * final: it can be locked again, unlocked back to confirmed (still
   * carrying its spending hash), or given a fresh confirmation status by a
   * deposit refresh.
   */
  lemma SpentIsNotTerminal(rows: seq<Utxo>, i: nat, ids: seq<RowId>, transactionId: string, until: int, d: Deposit)
    requires WellFormed(rows) && i < |rows| && i in ids
    requires rows[i].status == Spent && DepositKey(d) == KeyOf(rows[i])
    ensures LockRows(rows, ids, transactionId, until)[i].status == Locked
    ensures UnlockRows(rows, ids)[i].status == Confirmed
    ensures UnlockRows(rows, ids)[i].spentInTxHash == rows[i].spentInTxHash
    ensures Upsert(rows, d)[i].status != Spent
  {
  }

  /**
   * The reaper's row condition: `status = 'locked' AND locked_until < now`.
   * A NULL expiry compares unknown in SQL, so such a row is not reaped.
   */
  predicate ExpiredLock(u: Utxo, now: int) {
    u.status == Locked && u.lockedUntil.Some? && u.lockedUntil.value < now
  }

  /** `cleanupExpiredLocks`: expired locks revert to confirmed with no lock. */
  function CleanupRows(rows: seq<Utxo>, now: int): (r: seq<Utxo>)
    requires WellFormed(rows)
    ensures WellFormed(r) && |r| == |rows|
    ensures forall i :: 0 <= i < |rows| ==> r[i] == if ExpiredLock(rows[i], now) then UnlockRow(rows[i]) else rows[i]
    ensures forall i :: 0 <= i < |r| ==> !ExpiredLock(r[i], now)
  {
    seq(|rows|, i requires 0 <= i < |rows| =>
      if ExpiredLock(rows[i], now) then UnlockRow(rows[i]) else rows[i])
  }

  /** The number of rows the reaper's UPDATE returns. */
  function CountExpired(rows: seq<Utxo>, now: int): (n: nat)
    ensures n <= |rows|
  {
    if rows == [] then 0
    else CountExpired(rows[..|rows| - 1], now) + (if ExpiredLock(rows[|rows| - 1], now) then 1 else 0)
  }

  /** The reaper reports zero exactly when no row is an expired lock. */
  lemma {:induction false} CountExpiredZero(rows: seq<Utxo>, now: int)
    ensures CountExpired(rows, now) == 0 <==> forall i :: 0 <= i < |rows| ==> !ExpiredLock(rows[i], now)
  {
    if rows != [] {
      var front := rows[..|rows| - 1];
      CountExpiredZero(front, now);
      assert forall i :: 0 <= i < |front| ==> front[i] == rows[i];
    }
  }

  /**
   * The reaper changes the table exactly when it reports a positive count,
   * and a second run at the same time finds nothing.
   */
  lemma CleanupIdempotent(rows: seq<Utxo>, now: int)
    requires WellFormed(rows)
    ensures CleanupRows(rows, now) == rows <==> CountExpired(rows, now) == 0
    ensures CountExpired(CleanupRows(rows, now), now) == 0
    ensures CleanupRows(CleanupRows(rows, now), now) == CleanupRows(rows, now)
  {
    var r := CleanupRows(rows, now);
    CountExpiredZero(rows, now);
    CountExpiredZero(r, now);
    if CountExpired(rows, now) != 0 {
      var i :| 0 <= i < |rows| && ExpiredLock(rows[i], now);
      assert r[i].status != rows[i].status;
    }
  }
}
