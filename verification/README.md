# UTXO service and Redis reconnect policy

This is a Dafny model of the UTXO bookkeeping in a custodial BTC/LTC exchange backend. The model covers:

- **The `utxos` table and its status machine.** The statuses are unconfirmed, confirmed, locked and spent. The service's single-statement operations are modelled: `addUTXO`, `getAvailableUTXOs`, `getAvailableBalance`, `lockUTXOs`, `unlockUTXOs`, `markUTXOsSpent` and `cleanupExpiredLocks`.
- **Largest-first coin selection (`selectUTXOs`).** The fee is a native-segwit virtual-size estimate, and dust change is folded into the fee.
- **Deposit reconciliation in `monitorAddress`.** The table is updated from the explorer's list of unspent outputs.
- **The shape of the unsigned transaction and the per-currency network parameters (`buildTransaction`).**
- **The Redis client's `retry_strategy`.**

Layout, one module per file:

| file | module | contents |
|---|---|---|
| `wrappers.dfy` | `Wrappers` | `Option` and `Result` |
| `utxo_store.dfy` | `UtxoStore` | the row, the table's unique key, the status rule, and each SQL statement as a function from the old table to the new one |
| `availability.dfy` | `Availability` | the availability predicate, the filter, the largest-first order and the sum |
| `coin_selection.dfy` | `CoinSelection` | fee estimate, the selection as a function (`CoinSelect`), the selection walk as a method, and lemmas and worked vectors |
| `reconciliation.dfy` | `Reconciliation` | the `monitorAddress` fold over txrefs and its lemmas |
| `tx_builder.dfy` | `TxBuilder` | the network table and `buildTransaction` |
| `utxo_service.dfy` | `UtxoService` | class `UtxoTable`, which holds the rows; every service call is a method that updates them |
| `redis_retry.dfy` | `RedisRetry` | `retry_strategy` |

Modelling choices:

- **Rows.** The table is a sequence of rows, and a row's id is its position. Ids are assigned in insertion order and rows are never deleted. `WellFormed` says that ids are positions and that no two rows share (tx_hash, vout, currency).
- **Time.** `CURRENT_TIMESTAMP` is an integer parameter `now`, in seconds. A lock of `m` minutes expires at `now + m * 60`.
- **Amounts and fee rates.** Amounts are whole satoshi/litoshi (`nat`), and so is the fee rate. For a whole fee rate, `Math.ceil(Math.ceil(68k + 62 + 10.5) * feeRate)` equals `(68k + 73) * feeRate`.
- **Currencies.** A currency is `BTC`, `LTC` or any other code; `OtherCode` excludes the strings "BTC" and "LTC", so each currency has one representation. No other code has a `minConfirmations` entry, so such a row is always unconfirmed. Every currency other than LTC gets the Bitcoin network.
- **Row order.** `getAvailableUTXOs` orders rows by amount, descending. SQL leaves the order of equal amounts open; the model keeps them in id order.

The code is followed where the service's own description differs from it:

- **Fee for the [50000, 30000, 20000] vector.** At 10 sat/vB for 60000, the fee is 2090, not about 2085.
- **Spent is not final.** Lock, unlock and the confirmation refresh never look at the status they overwrite (`SpentIsNotTerminal`). In the same way, a confirmation refresh of a locked row makes it confirmed but keeps its expiry and holder; the reaper never matches it again, and it is available again once the expiry passes, with no unlock (`RefreshReleasesLock`).
- **Insufficient funds.** The failure is decided prefix by prefix. It happens exactly when no prefix covers its own fee, and then the whole set falls short too. The converse fails: a small last output can make the whole set fall short while a shorter prefix covers (`SmallTailExample`).
- **Retry cap.** The 3000 ms cap is never reached. Attempts above 10 give up first, so the delay is at most 1000 ms.

## Model

| member | source | states |
|---|---|---|
| UtxoStore.StatusFor | packages/backend/src/services/UTXOService.js:28-31 | a row is confirmed iff it is BTC with at least 3 confirmations or LTC with at least 6; otherwise it is unconfirmed, including for currencies with no threshold |
| UtxoStore.FindKey | packages/backend/src/services/UTXOService.js:354-357 | the lookup by (tx_hash, vout, currency) finds a row with that key, and finds none exactly when no row has it |
| UtxoStore.MinConfirmations | packages/backend/src/services/UTXOService.js:28-31 | the confirmation threshold exists exactly for BTC and LTC, and is positive |
| UtxoStore.Inserted | packages/backend/src/services/UTXOService.js:46-51 | the inserted row carries the deposit's key and the next id, the status rule's status, and no lock or spend |
| UtxoStore.Refresh | packages/backend/src/services/UTXOService.js:52-59 | a conflict sets confirmations and recomputes status from them; every other field (owner, address, amount, lock and spend fields) is kept |
| UtxoStore.Upsert | packages/backend/src/services/UTXOService.js:40-67 | `addUTXO` keeps the key unique and leaves the key tracked; it adds exactly one row, with the status rule and no lock, iff the key was new; otherwise only the conflicting row is refreshed and the rest are unchanged |
| UtxoStore.UpsertIdempotent | packages/backend/src/services/UTXOService.js:52-59 | adding the same deposit twice gives the same table as adding it once |
| UtxoStore.LockRows | packages/backend/src/services/UTXOService.js:200-209 | exactly the listed rows become locked until the given time by the given transaction, whatever their status; other fields and other rows are unchanged |
| UtxoStore.UnlockRows | packages/backend/src/services/UTXOService.js:217-226 | exactly the listed rows become confirmed with both lock fields cleared, whatever their status; nothing else changes |
| UtxoStore.SpendRows | packages/backend/src/services/UTXOService.js:234-243 | exactly the listed rows become spent with the spending hash recorded; nothing else changes |
| UtxoStore.SpentIsNotTerminal | packages/backend/src/services/UTXOService.js:200-243 | a spent row can be locked again, unlocked to confirmed (keeping its spending hash) or refreshed to a non-spent status |
| UtxoStore.ExpiredLock | packages/backend/src/services/UTXOService.js:450-452 | the reaper's row condition: locked with an expiry before `now`; a missing expiry never matches |
| UtxoStore.CleanupRows | packages/backend/src/services/UTXOService.js:443-454 | exactly the locked rows whose expiry is before `now` revert to confirmed with no lock; other rows are unchanged, and no expired lock is left |
| UtxoStore.CountExpired | packages/backend/src/services/UTXOService.js:462 | the number of rows the reaper's UPDATE returns, at most the number of rows |
| UtxoStore.CountExpiredZero | packages/backend/src/services/UTXOService.js:453-462 | the reported count is zero iff no row is an expired lock |
| UtxoStore.CleanupIdempotent | packages/backend/src/services/UTXOService.js:442-463 | the cleanup changes the table iff it reports a positive count; a second run at the same time reports 0 and changes nothing |
| Availability.Filter | packages/backend/src/services/UTXOService.js:93-97 | a row is returned iff it belongs to the user, is in the currency, is confirmed and its lock is absent or expired; no row is returned twice |
| Availability.RefreshReleasesLock | packages/backend/src/services/UTXOService.js:375-391 | refreshing a locked row to a confirming count makes it confirmed with its expiry and holder kept; the reaper never matches it, and after the expiry it is available |
| Availability.Available | packages/backend/src/services/UTXOService.js:93-97 | the WHERE clause of both availability queries: the owner's confirmed rows in the currency whose lock is absent or expired |
| Availability.SortDesc | packages/backend/src/services/UTXOService.js:98 | the order is a permutation of its input, sorted by amount descending, with the same total |
| Availability.SortDescOfSorted | packages/backend/src/services/UTXOService.js:139 | sorting a list that is already largest first leaves it as it is |
| UtxoService.UtxoTable.AvailableUtxos | packages/backend/src/services/UTXOService.js:89-102 | `getAvailableUTXOs` returns exactly the available rows of the table, each once, largest amount first; none of them is locked, and all belong to the user and currency |
| UtxoService.UtxoTable.AvailableBalance | packages/backend/src/services/UTXOService.js:107-119 | `getAvailableBalance` is the sum of the amounts `getAvailableUTXOs` returns, and 0 when it returns none |
| UtxoService.UtxoTable.AddUtxo | packages/backend/src/services/UTXOService.js:40-83 | the table becomes the upsert of the deposit; the row returned has the deposit's key, its confirmations and the status rule's status |
| UtxoService.UtxoTable.SelectUtxos | packages/backend/src/services/UTXOService.js:131-194 | the result is the selection over the available rows; every selected row is an available row of the table |
| UtxoService.UtxoTable.LockUtxos | packages/backend/src/services/UTXOService.js:200-212 | the table becomes `LockRows` with expiry `now + lockMinutes * 60` (30 minutes by default); afterwards no listed row is available to any user, in any currency, at any time |
| UtxoService.UtxoTable.UnlockUtxos | packages/backend/src/services/UTXOService.js:217-229 | the table becomes `UnlockRows` of the listed ids |
| UtxoService.UtxoTable.MarkUtxosSpent | packages/backend/src/services/UTXOService.js:234-246 | the table becomes `SpendRows`; afterwards no listed row is available |
| UtxoService.UtxoTable.CleanupExpiredLocks | packages/backend/src/services/UTXOService.js:442-463 | the table becomes `CleanupRows`; the returned count is the number of expired locks, it is 0 iff the table is unchanged, and no expired lock is left |
| UtxoService.UtxoTable.MonitorAddress | packages/backend/src/services/UTXOService.js:351-393 | the loop over the txrefs leaves the table equal to the reconciliation fold over the whole list |
| CoinSelection.EstimatedVSize | packages/backend/src/services/UTXOService.js:156 | the size is the ceiling of 68 per input + 2 × 31 + 10.5 vbytes, that is 68k + 73 |
| CoinSelection.Fee | packages/backend/src/services/UTXOService.js:156-157 | the fee estimate is (68k + 73) × feeRate |
| CoinSelection.FeeMonotone | packages/backend/src/services/UTXOService.js:156-157 | more inputs never lower the fee estimate |
| CoinSelection.StopLength | packages/backend/src/services/UTXOService.js:150-163 | the loop stops at the first prefix whose total covers the amount plus its fee, or at the end of the list; no shorter prefix covers |
| CoinSelection.CoinSelect | packages/backend/src/services/UTXOService.js:134-193 | "No UTXOs available" exactly on an empty list; on success a non-empty prefix of the list whose total is the input total and covers amount plus fee; an "Insufficient funds" error always reports less than it needs |
| CoinSelection.SelectLargestFirst | packages/backend/src/services/UTXOService.js:134-193 | the empty check, the accumulating loop, the final check and the dust fold return exactly `CoinSelect` of the sorted list |
| CoinSelection.NoUtxosError | packages/backend/src/services/UTXOService.js:134-136 | the result is "No UTXOs available" iff nothing is available |
| CoinSelection.InsufficientFundsError | packages/backend/src/services/UTXOService.js:165-169 | the result is "Insufficient funds" iff the list is non-empty and no prefix covers its own fee; the error then carries amount + fee(n) and the whole total, and the whole total is below amount + fee(n) |
| CoinSelection.StopFallsShort | packages/backend/src/services/UTXOService.js:150-169 | when the walk ends on a prefix that does not cover, it has taken every output, no prefix covers, and the error reports amount + fee(n) against the whole total |
| CoinSelection.WholeSetSuffices | packages/backend/src/services/UTXOService.js:165-169 | a non-empty set whose total covers amount + fee(n) never fails |
| CoinSelection.SelectionIsShortestPrefix | packages/backend/src/services/UTXOService.js:139-163 | the selection is the shortest covering prefix of the largest-first list; every shorter prefix falls short |
| CoinSelection.SelectionConserves | packages/backend/src/services/UTXOService.js:165-193 | totalInput = totalOutput + fee + change; totalOutput is the amount and totalInput is the sum of the selection; change is 0 or at least 546; raw change in (0, 546) is added to the fee |
| CoinSelection.SelectionTakesLargest | packages/backend/src/services/UTXOService.js:139-163 | every selected output is at least as large as every output left out |
| CoinSelection.TwoOfThreeExample | packages/backend/src/services/UTXOService.js:139-193 | [50000, 30000, 20000] at 10 sat/vB for 60000 selects two inputs, with fee 2090 and change 17910 |
| CoinSelection.DustFoldExample | packages/backend/src/services/UTXOService.js:171-184 | [100600] at 3 sat/vB for 100000 gives fee 600 and no change |
| CoinSelection.SmallTailExample | packages/backend/src/services/UTXOService.js:150-169 | [10000, 1] at 10 sat/vB for 8000 succeeds with one input, even though the whole set is below 8000 + fee(2) |
| Reconciliation.AsDeposit | packages/backend/src/services/UTXOService.js:361-372 | the deposit built from a txref has the key the lookup used: tx_hash, tx_output_n and the watched currency |
| Reconciliation.UpdateConfirmations | packages/backend/src/services/UTXOService.js:375-391 | only the row with the txref's key gets the new confirmations and the recomputed status; other rows are unchanged |
| Reconciliation.ApplyTxRef | packages/backend/src/services/UTXOService.js:353-392 | one iteration, insert when the key is unseen and refresh otherwise, keeps ids as positions and keys unique |
| Reconciliation.ApplyTxRefIsUpsert | packages/backend/src/services/UTXOService.js:353-392 | handling one txref (insert if unseen, otherwise update) is the same as `addUTXO` of that txref |
| Reconciliation.ReconcileAll | packages/backend/src/services/UTXOService.js:351-393 | the loop over the txrefs in list order keeps ids as positions and keys unique |
| Reconciliation.ReconcileKeepsTracked | packages/backend/src/services/UTXOService.js:352-393 | rows tracked before keep their place, key, owner, amount and lock fields; only confirmations and status may change |
| Reconciliation.ReconcileTracksListed | packages/backend/src/services/UTXOService.js:352-393 | every listed txref's key is tracked afterwards |
| Reconciliation.ReconcileAddsOnlyUnseen | packages/backend/src/services/UTXOService.js:359-372 | every added row has the key of a listed txref that was not tracked before |
| Reconciliation.ReconcileTracked | packages/backend/src/services/UTXOService.js:373-392 | when every listed key is already tracked, each row just takes the confirmations of the last txref with its key |
| Reconciliation.ReconcileSettles | packages/backend/src/services/UTXOService.js:352-393 | after reconciliation, every row with a listed key carries that txref's latest confirmations and the matching status |
| Reconciliation.ReconcileIdempotent | packages/backend/src/services/UTXOService.js:351-393 | re-polling the same txrefs leaves the table unchanged |
| TxBuilder.NetworkFor | packages/backend/src/services/UTXOService.js:262-271 | LTC gets the `Litecoin` table (pubKeyHash 0x30, scriptHash 0x32, bip32 0x019da462/0x019d9cfe, WIF 0xb0) and every other currency gets WIF 0x80 (as in packages/backend/scripts/regenerate-ltc-private-keys.js:4-5); the bech32 prefix is "ltc" iff the currency is LTC; the Bitcoin network shares no parameter with the Litecoin table |
| TxBuilder.BuildTransaction | packages/backend/src/services/UTXOService.js:259-299 | one input (tx_hash, vout) per UTXO, in order; the first output pays `toAddress`; a change output exists, and the output count is 2, iff change > 0; the network is chosen by currency |
| RedisRetry.RetryStrategy | packages/backend/src/config/redis.js:6-20 | a refused connection gives "Redis server connection refused" whatever else holds; otherwise more than an hour of retrying gives "Retry time exhausted"; otherwise more than 10 attempts gives undefined; otherwise the delay is attempt × 100 ms, at most 1000 and so within the 3000 cap, and positive from attempt 1 |
| RedisRetry.DelayNonDecreasing | packages/backend/src/config/redis.js:19 | the delay never decreases as the attempt number grows |

## Left out

- `broadcastTransaction`, `getRecommendedFeeRate` and the explorer request in `monitorAddress` (with its returned balances) are HTTP I/O. Reconciliation starts from a given txref list.
- Floating-point unit conversion (`Math.round(amount * 100000000)`, `value / 100000000`) is left out. Amounts are whole satoshi, and fractional fee rates are not modelled.
- `bitcoin.TransactionBuilder` is a library internal, and so are address validation and signing. A transaction is an abstract record of inputs, outputs and network.
- The Bitcoin network's field values are taken from the bitcoinjs-lib library, which is not part of this model. Only its WIF byte is stated in the repository.
- Concurrency and SQL atomicity are not modelled. Selection and locking are separate calls on one sequential table, and nothing excludes a second request in between.
- Logging, `updated_at` and `spent_at` are not modelled.
- `RETURNING *` of `addUTXO` is modelled as the upserted row. `cleanupExpiredLocks`' `RETURNING id, tx_hash, vout` is modelled only by the number of rows it reports.
- `LockUtxos` takes the lock length as whole, non-negative minutes; the fractional or negative values the SQL interval would also accept are not modelled.
- Errors thrown by the database are not modelled; each statement always succeeds.
- The rest of the Redis configuration (client events, `connectRedis`, `redisHelpers`) is not part of this model. Neither are the admin controller and the deposit-address model.
