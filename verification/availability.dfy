/**
 * The availability query of the UTXO service: which rows may be spent,
 * their order (largest amount first) and their total.
 */
module Availability {
  import opened UtxoStore

  /**
   * The WHERE clause of `getAvailableUTXOs` and `getAvailableBalance`:
   * the owner's confirmed rows in that currency whose lock, if any, has
   * expired.
   */
  predicate Available(u: Utxo, userId: string, currency: Currency, now: int) {
    && u.userId == userId
    && u.currency == currency
    && u.status == Confirmed
    && (u.lockedUntil.None? || u.lockedUntil.value < now)
  }

  /** Total amount of a list of rows (`SUM(amount_satoshi)`, 0 when empty). */
  function Sum(s: seq<Utxo>): nat {
    if s == [] then 0 else Sum(s[..|s| - 1]) + s[|s| - 1].amount
  }

  lemma SumAppend(s: seq<Utxo>, u: Utxo)
    ensures Sum(s + [u]) == Sum(s) + u.amount
  {
    assert (s + [u])[..|s|] == s;
  }

  predicate SortedDesc(s: seq<Utxo>) {
    forall i, j :: 0 <= i < j < |s| ==> s[i].amount >= s[j].amount
  }

  /** No row occurs twice. */
  predicate Distinct(s: seq<Utxo>) {
    forall i, j :: 0 <= i < j < |s| ==> s[i] != s[j]
  }

  /** The rows matching the WHERE clause, in id order. */
  function Filter(rows: seq<Utxo>, userId: string, currency: Currency, now: int): (r: seq<Utxo>)
    ensures forall u :: u in r <==> u in rows && Available(u, userId, currency, now)
    ensures Distinct(rows) ==> Distinct(r)
  {
    if rows == [] then []
    else
      var front := Filter(rows[..|rows| - 1], userId, currency, now);
      var last := rows[|rows| - 1];
      assert last !in rows[..|rows| - 1] || !Distinct(rows);
      assert forall u :: u in rows <==> u in rows[..|rows| - 1] || u == last;
      if Available(last, userId, currency, now) then front + [last] else front
  }

  /**
   * Inserts `x` into a list sorted largest first, after every element at
   * least as large, so that equal amounts keep their earlier order.
   */
  function InsertDesc(s: seq<Utxo>, x: Utxo): (r: seq<Utxo>)
    ensures |r| == |s| + 1
    ensures multiset(r) == multiset(s) + multiset{x}
  {
    if s == [] || s[|s| - 1].amount >= x.amount then s + [x]
    else
      assert s == s[..|s| - 1] + [s[|s| - 1]];
      InsertDesc(s[..|s| - 1], x) + [s[|s| - 1]]
  }

  lemma {:induction false} InsertSorted(s: seq<Utxo>, x: Utxo)
    requires SortedDesc(s)
    ensures SortedDesc(InsertDesc(s, x))
  {
    if !(s == [] || s[|s| - 1].amount >= x.amount) {
      var front, last := s[..|s| - 1], s[|s| - 1];
      InsertSorted(front, x);
      var r' := InsertDesc(front, x);
      forall u | u in r' ensures u.amount >= last.amount {
        assert u in multiset(r');
        assert u in front || u == x;
      }
    }
  }

  lemma {:induction false} InsertSum(s: seq<Utxo>, x: Utxo)
    ensures Sum(InsertDesc(s, x)) == Sum(s) + x.amount
  {
    if s == [] || s[|s| - 1].amount >= x.amount {
      SumAppend(s, x);
    } else {
      var front, last := s[..|s| - 1], s[|s| - 1];
      InsertSum(front, x);
      SumAppend(InsertDesc(front, x), last);
    }
  }

  /** Stable insertion sort, largest amount first. */
  function SortDesc(s: seq<Utxo>): (r: seq<Utxo>)
    ensures |r| == |s|
    ensures multiset(r) == multiset(s)
    ensures SortedDesc(r)
    ensures Sum(r) == Sum(s)
  {
    if s == [] then []
    else
      var front, last := s[..|s| - 1], s[|s| - 1];
      assert s == front + [last];
      InsertSorted(SortDesc(front), last);
      InsertSum(SortDesc(front), last);
      InsertDesc(SortDesc(front), last)
  }

  /** Sorting keeps a list free of repeats. */
  lemma {:induction false} SortDescDistinct(s: seq<Utxo>)
    requires Distinct(s)
    ensures Distinct(SortDesc(s))
  {
    if s != [] {
      var front := s[..|s| - 1];
      var last := s[|s| - 1];
      assert Distinct(front);
      SortDescDistinct(front);
      var sorted := SortDesc(front);
      assert last !in front;
      assert last !in multiset(sorted);
      InsertDistinct(sorted, last);
    }
  }

  lemma {:induction false} InsertDistinct(s: seq<Utxo>, x: Utxo)
    requires Distinct(s) && x !in s
    ensures Distinct(InsertDesc(s, x))
  {
    if !(s == [] || s[|s| - 1].amount >= x.amount) {
      var front := s[..|s| - 1];
      var last := s[|s| - 1];
      assert Distinct(front);
      InsertDistinct(front, x);
      assert last != x && last !in front;
      assert last !in multiset(InsertDesc(front, x));
    }
  }

  /**
   * A confirmation refresh of a locked row (the UPDATE of `monitorAddress`)
   * turns it confirmed but keeps its expiry and holder: the reaper never
   * matches it again, and once the expiry has passed it is available,
   * although no unlock ran.
   */
  lemma RefreshReleasesLock(u: Utxo, confirmations: nat, now: int)
    requires u.status == Locked && u.lockedUntil.Some? && u.lockedBy.Some?
    requires StatusFor(u.currency, confirmations) == Confirmed
    ensures Refresh(u, confirmations).status == Confirmed
    ensures Refresh(u, confirmations).lockedUntil == u.lockedUntil
    ensures Refresh(u, confirmations).lockedBy == u.lockedBy
    ensures !ExpiredLock(Refresh(u, confirmations), now)
    ensures u.lockedUntil.value < now ==> Available(Refresh(u, confirmations), u.userId, u.currency, now)
  {
  }

  /** Sorting a list that is already sorted largest first changes nothing. */
  lemma {:induction false} SortDescOfSorted(s: seq<Utxo>)
    requires SortedDesc(s)
    ensures SortDesc(s) == s
  {
    if s != [] {
      var front, last := s[..|s| - 1], s[|s| - 1];
      assert SortedDesc(front);
      SortDescOfSorted(front);
      assert SortDesc(s) == InsertDesc(front, last);
      InsertAfterSmaller(front, last);
      assert s == front + [last];
    }
  }

  /** An element no larger than the last goes at the end. */
  lemma InsertAfterSmaller(s: seq<Utxo>, x: Utxo)
    requires SortedDesc(s + [x])
    ensures InsertDesc(s, x) == s + [x]
  {
    if s != [] {
      assert s[|s| - 1] == (s + [x])[|s| - 1] && x == (s + [x])[|s|];
    }
  }
}
