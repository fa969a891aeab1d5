/** The scheduled `dailyAllowance` job (functions/src/index.ts): credit the
    weekly allowance to every kid whose allowance day is today, all in one
    batch. The weekday, the server clock and the batch's success are inputs. */
module Allowance {
  import opened Common
  import opened Kids

  /** The query `allowanceDay == today && weeklyAllowance > 0`. */
  predicate Due(k: Kid, today: Weekday) {
    k.allowanceDay == Some(today) && k.weeklyAllowance.Some? && k.weeklyAllowance.value > 0
  }

  function AllowanceDescription(today: Weekday): string {
    "Weekly Allowance (" + DayName(today) + ")"
  }

  /** The transaction document the batch sets: no attribution fields. */
  function AllowanceEntry(k: Kid, today: Weekday, txId: TxId, now: int): Transaction
    requires Due(k, today)
  {
    Transaction(txId, k.weeklyAllowance.value, AllowanceDescription(today), Some(now), None, None)
  }

  /** The two batch writes for one kid: `increment(weeklyAllowance)` on the
      total and one new transaction of that amount. */
  function Credit(k: Kid, today: Weekday, txId: TxId, now: int): (r: Kid)
    requires Due(k, today)
    ensures r.transactions == k.transactions + [AllowanceEntry(k, today, txId, now)]
    ensures TotalOrZero(r) == TotalOrZero(k) + k.weeklyAllowance.value
    ensures Drift(r) == Drift(k)
    ensures r == k.(total := r.total, transactions := r.transactions)
    ensures Due(r, today)
  {
    SumBySnoc(k.transactions, AllowanceEntry(k, today, txId, now), AmountOf);
    k.(total := Some(TotalOrZero(k) + k.weeklyAllowance.value),
       transactions := k.transactions + [AllowanceEntry(k, today, txId, now)])
  }

  /** One run of the job on `today`. `commits` is whether `batch.commit()`
      succeeds; a failed commit (or a failed query, caught the same way)
      changes nothing. With no kid due the job returns before committing. */
  function DailyAllowance(s: Store, today: Weekday, txId: TxId, now: int, commits: bool): (r: Store)
    ensures r.Keys == s.Keys
    ensures forall id :: id in s && !Due(s[id], today) ==> r[id] == s[id]
    ensures !commits ==> r == s
    ensures commits ==> forall id :: id in s && Due(s[id], today) ==>
              && r[id].transactions == s[id].transactions + [AllowanceEntry(s[id], today, txId, now)]
              && TotalOrZero(r[id]) == TotalOrZero(s[id]) + s[id].weeklyAllowance.value
              && r[id] == s[id].(total := r[id].total, transactions := r[id].transactions)
    ensures commits ==> forall id :: id in s && Due(s[id], today) ==> r[id] == Credit(s[id], today, txId, now)
    ensures forall id :: id in s ==> Drift(r[id]) == Drift(s[id])
  {
    if !commits then s
    else map id | id in s :: if Due(s[id], today) then Credit(s[id], today, txId, now) else s[id]
  }

  /** There is no per-day guard: a second run on the same day credits every
      due kid a second time, with a second transaction. */
  lemma DailyAllowanceTwiceCreditsTwice(s: Store, today: Weekday, tx1: TxId, tx2: TxId, now1: int, now2: int, id: KidId)
    requires id in s && Due(s[id], today)
    ensures var r := DailyAllowance(DailyAllowance(s, today, tx1, now1, true), today, tx2, now2, true);
            && TotalOrZero(r[id]) == TotalOrZero(s[id]) + 2 * s[id].weeklyAllowance.value
            && r[id].transactions == s[id].transactions
                 + [AllowanceEntry(s[id], today, tx1, now1), AllowanceEntry(s[id], today, tx2, now2)]
  {
    var r1 := DailyAllowance(s, today, tx1, now1, true);
    assert r1[id] == Credit(s[id], today, tx1, now1);
    assert Due(r1[id], today);
    assert AllowanceEntry(r1[id], today, tx2, now2) == AllowanceEntry(s[id], today, tx2, now2);
    assert s[id].transactions + [AllowanceEntry(s[id], today, tx1, now1)] + [AllowanceEntry(s[id], today, tx2, now2)]
        == s[id].transactions + [AllowanceEntry(s[id], today, tx1, now1), AllowanceEntry(s[id], today, tx2, now2)];
  }

  /** A consistent store stays consistent through a run, committed or not. */
  lemma DailyAllowanceKeepsConsistency(s: Store, today: Weekday, txId: TxId, now: int, commits: bool)
    requires forall id :: id in s ==> Consistent(s[id])
    ensures var r := DailyAllowance(s, today, txId, now, commits);
            forall id :: id in r ==> Consistent(r[id])
  {
  }

  /** A kid whose allowance is 500 cents on Mondays, starting from an empty
      ledger, has 500 cents and one "Weekly Allowance (Monday)" entry after
      a Monday run. */
  lemma MondayScenario(name: string, parent: string, txId: TxId, now: int)
    ensures var alex := Kid(name, Some("alex"), parent, Some([]), Some(false), Some(0), Some(500), Some(Monday), []);
            var r := DailyAllowance(map["a" := alex], Monday, txId, now, true);
            && r["a"].total == Some(500)
            && r["a"].transactions == [Transaction(txId, 500, "Weekly Allowance (Monday)", Some(now), None, None)]
  {
    var alex := Kid(name, Some("alex"), parent, Some([]), Some(false), Some(0), Some(500), Some(Monday), []);
    var s := map["a" := alex];
    assert Due(s["a"], Monday);
    assert AllowanceDescription(Monday) == "Weekly Allowance (Monday)";
    var r := DailyAllowance(s, Monday, txId, now, true);
    assert r["a"] == Credit(alex, Monday, txId, now);
  }
}
