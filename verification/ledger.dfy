/** The three handlers that change a kid's balance: adding a transaction
    (app/components/AddTransaction.tsx) and editing or deleting one
    (app/components/TransactionsList.tsx). Each performs two separate
    writes; `Interruption` says whether both land, or which one fails. */
module Ledger {
  import opened Common
  import opened Kids

  /** Where a two-write handler stops. A failed write throws; the handler
      catches it and shows an alert, and nothing after it runs. */
  datatype Interruption = Completes | FailsAtFirstWrite | FailsAtSecondWrite

  datatype EntryKind = Debit | Credit

  /** The add-transaction form after `parseFloat`: `amount` is `None` for
      NaN; `date` is the date picker's value. */
  datatype EntryForm = EntryForm(amount: Option<int>, description: string, kind: EntryKind, date: int)

  /** The signed-in user as the client SDK reports it. */
  datatype Signer = Signer(uid: string, displayName: Option<string>, email: Option<string>)

  /** The edit form: `amount` is `None` when its text is empty. */
  datatype EditForm = EditForm(amount: Option<int>, description: string)

  /** A debit is stored negated and a credit as entered. */
  function SignedAmount(kind: EntryKind, a: int): (r: int)
    ensures Abs(r) == Abs(a)
    ensures a > 0 ==> (r < 0 <==> kind == Debit)
    ensures a < 0 ==> (r > 0 <==> kind == Debit)
  {
    if kind == Debit then -a else a
  }

  /** The submit guard: a parsed amount that is NaN or 0, or an empty
      description, stops the handler. */
  predicate ValidEntry(form: EntryForm) {
    form.amount.Some? && form.amount.value != 0 && form.description != ""
  }

  function AttributionName(user: Option<Signer>): (r: string)
    ensures user.Some? && Truthy(user.value.displayName) ==> r == user.value.displayName.value
    ensures user.None? || !Truthy(user.value.displayName) ==> r == "Unknown Parent"
  {
    if user.Some? then OrElse(user.value.displayName, "Unknown Parent") else "Unknown Parent"
  }

  function AttributionEmail(user: Option<Signer>): (r: string)
    ensures user.Some? && Truthy(user.value.email) ==> r == user.value.email.value
    ensures user.None? || !Truthy(user.value.email) ==> r == "unknown@email.com"
  {
    if user.Some? then OrElse(user.value.email, "unknown@email.com") else "unknown@email.com"
  }

  /** The transaction document `handleSubmit` writes. Its date is the
      server's clock; the date picked in the form is not stored. */
  function NewEntry(form: EntryForm, user: Option<Signer>, now: int, newId: TxId): Transaction
    requires ValidEntry(form)
  {
    Transaction(newId, SignedAmount(form.kind, form.amount.value), form.description,
                Some(now), Some(AttributionName(user)), Some(AttributionEmail(user)))
  }

  /** `handleSubmit` of the add-transaction form: guard, read the kid,
      add the transaction document, then write `total` as the old total
      (absent read as 0) plus the signed amount. */
  function AddTransaction(s: Store, kidId: KidId, form: EntryForm, user: Option<Signer>,
                          now: int, newId: TxId, run: Interruption): (e: Effect)
    ensures e.outcome == Skipped <==> !ValidEntry(form)
    ensures e.store.Keys == s.Keys
    ensures forall id :: id in s && id != kidId ==> e.store[id] == s[id]
    ensures kidId !in s || run == FailsAtFirstWrite ==> e.store == s
    ensures e.outcome == Done <==> ValidEntry(form) && kidId in s && run == Completes
    ensures e.outcome == Done ==>
              && e.store[kidId].transactions == s[kidId].transactions + [NewEntry(form, user, now, newId)]
              && Drift(e.store[kidId]) == Drift(s[kidId])
    ensures ValidEntry(form) && kidId in s && run == FailsAtSecondWrite ==>
              && e.store[kidId].transactions == s[kidId].transactions + [NewEntry(form, user, now, newId)]
              && Drift(e.store[kidId]) == Drift(s[kidId]) - SignedAmount(form.kind, form.amount.value)
              && e.store[kidId].total == s[kidId].total
    ensures kidId in s ==> e.store[kidId] == s[kidId].(transactions := e.store[kidId].transactions,
                                                        total := e.store[kidId].total)
  {
    if !ValidEntry(form) then Effect(s, Skipped)
    else if kidId !in s then Effect(s, Alerted)
    else if run == FailsAtFirstWrite then Effect(s, Alerted)
    else
      var kid := s[kidId];
      var entry := NewEntry(form, user, now, newId);
      var newTotal := TotalOrZero(kid) + entry.amount;
      var withEntry := kid.(transactions := kid.transactions + [entry]);
      SumBySnoc(kid.transactions, entry, AmountOf);
      match run
      case FailsAtSecondWrite => Effect(s[kidId := withEntry], Alerted)
      case Completes => Effect(s[kidId := withEntry.(total := Some(newTotal))], Done)
  }

  /** The chosen date never reaches the store: two submissions differing
      only in the picked date have the same effect. */
  lemma AddTransactionIgnoresPickedDate(s: Store, kidId: KidId, form: EntryForm, date: int,
                                        user: Option<Signer>, now: int, newId: TxId, run: Interruption)
    ensures AddTransaction(s, kidId, form.(date := date), user, now, newId, run)
         == AddTransaction(s, kidId, form, user, now, newId, run)
  {
  }

  // ---------------------------------------------------------------------
  // Ledger edits on the transaction list
  // ---------------------------------------------------------------------

  /** `updateDoc` on the transaction with id `id`: new amount and
      description, every other field as it was. */
  function UpdateTx(ts: seq<Transaction>, id: TxId, amount: int, description: string): (r: seq<Transaction>)
    ensures |r| == |ts|
    ensures forall i :: 0 <= i < |ts| ==>
              r[i] == if ts[i].id == id then ts[i].(amount := amount, description := description) else ts[i]
  {
    if ts == [] then []
    else [if ts[0].id == id then ts[0].(amount := amount, description := description) else ts[0]]
         + UpdateTx(ts[1..], id, amount, description)
  }

  /** `deleteDoc` on the transaction with id `id` (a no-op when absent). */
  function RemoveTx(ts: seq<Transaction>, id: TxId): (r: seq<Transaction>)
    ensures forall t :: t in r <==> t in ts && t.id != id
    ensures !HasTx(ts, id) ==> r == ts
    ensures !HasTx(r, id)
  {
    if ts == [] then []
    else if ts[0].id == id then RemoveTx(ts[1..], id)
    else [ts[0]] + RemoveTx(ts[1..], id)
  }

  /** Removing the one entry with a given id lowers the sum by its amount. */
  lemma {:induction false} RemoveTxSum(ts: seq<Transaction>, i: int)
    requires TxIdsDistinct(ts)
    requires 0 <= i < |ts|
    ensures LedgerSum(RemoveTx(ts, ts[i].id)) == LedgerSum(ts) - ts[i].amount
  {
    var id := ts[i].id;
    if i == 0 {
      assert !HasTx(ts[1..], id) by {
        forall k | 0 <= k < |ts[1..]| ensures ts[1..][k].id != id {
          assert ts[1..][k] == ts[k + 1];
        }
      }
    } else {
      assert TxIdsDistinct(ts[1..]) by {
        forall a, b | 0 <= a < b < |ts[1..]| ensures ts[1..][a].id != ts[1..][b].id {
          assert ts[1..][a] == ts[a + 1] && ts[1..][b] == ts[b + 1];
        }
      }
      assert ts[1..][i - 1] == ts[i];
      RemoveTxSum(ts[1..], i - 1);
      assert ts[0].id != id;
    }
  }

  /** Updating the one entry with a given id moves the sum by the difference. */
  lemma {:induction false} UpdateTxSum(ts: seq<Transaction>, i: int, amount: int, description: string)
    requires TxIdsDistinct(ts)
    requires 0 <= i < |ts|
    ensures LedgerSum(UpdateTx(ts, ts[i].id, amount, description)) == LedgerSum(ts) - ts[i].amount + amount
  {
    var id := ts[i].id;
    var r := UpdateTx(ts, id, amount, description);
    if i == 0 {
      assert r[1..] == ts[1..] by {
        forall k | 0 <= k < |ts[1..]| ensures r[1..][k] == ts[1..][k] {
          assert r[1..][k] == r[k + 1];
          assert ts[1..][k] == ts[k + 1];
          assert ts[k + 1].id != id;
        }
      }
    } else {
      assert TxIdsDistinct(ts[1..]) by {
        forall a, b | 0 <= a < b < |ts[1..]| ensures ts[1..][a].id != ts[1..][b].id {
          assert ts[1..][a] == ts[a + 1] && ts[1..][b] == ts[b + 1];
        }
      }
      assert ts[1..][i - 1] == ts[i];
      UpdateTxSum(ts[1..], i - 1, amount, description);
      assert r[1..] == UpdateTx(ts[1..], id, amount, description);
      assert r[0] == ts[0];
    }
  }

  predicate ValidEdit(form: EditForm) {
    form.amount.Some? && form.description != ""
  }

  /** `handleEdit(transactionId, oldAmount)`: guard on empty fields, update
      the transaction's amount and description, then `increment` the total
      by `newAmount - oldAmount`. `oldAmount` is the amount the list shows.
      Updating a transaction that no longer exists throws. */
  function EditTransaction(s: Store, kidId: KidId, txId: TxId, oldAmount: int,
                           form: EditForm, run: Interruption): (e: Effect)
    ensures e.outcome == Skipped <==> !ValidEdit(form)
    ensures e.store.Keys == s.Keys
    ensures forall id :: id in s && id != kidId ==> e.store[id] == s[id]
    ensures kidId !in s || !HasTx(s[kidId].transactions, txId) || run == FailsAtFirstWrite ==> e.store == s
    ensures e.outcome == Done <==>
              ValidEdit(form) && kidId in s && HasTx(s[kidId].transactions, txId) && run == Completes
    ensures e.outcome == Done ==>
              && TotalOrZero(e.store[kidId]) == TotalOrZero(s[kidId]) + form.amount.value - oldAmount
              && |e.store[kidId].transactions| == |s[kidId].transactions|
    ensures e.store != s ==> ValidEdit(form) && kidId in s && e.store[kidId] == s[kidId].(
              transactions := UpdateTx(s[kidId].transactions, txId, form.amount.value, form.description),
              total := e.store[kidId].total)
    ensures ValidEdit(form) && kidId in s && HasTx(s[kidId].transactions, txId) && run != FailsAtFirstWrite ==>
              e.store[kidId].transactions == UpdateTx(s[kidId].transactions, txId, form.amount.value, form.description)
    ensures ValidEdit(form) && kidId in s && HasTx(s[kidId].transactions, txId) && run == FailsAtSecondWrite ==>
              e.store[kidId].total == s[kidId].total
  {
    if !ValidEdit(form) then Effect(s, Skipped)
    else if run == FailsAtFirstWrite || kidId !in s || !HasTx(s[kidId].transactions, txId) then Effect(s, Alerted)
    else
      var kid := s[kidId];
      var edited := kid.(transactions := UpdateTx(kid.transactions, txId, form.amount.value, form.description));
      match run
      case FailsAtSecondWrite => Effect(s[kidId := edited], Alerted)
      case Completes => Effect(s[kidId := edited.(total := Some(TotalOrZero(kid) + (form.amount.value - oldAmount)))], Done)
  }

  /** `handleDelete(transactionId, amount)`: delete the transaction document,
      then `increment` the total by `-amount`. Deleting a document that is
      not there succeeds, so a stale id still lowers the total. */
  function DeleteTransaction(s: Store, kidId: KidId, txId: TxId, amount: int, run: Interruption): (e: Effect)
    ensures e.outcome != Skipped
    ensures e.store.Keys == s.Keys
    ensures forall id :: id in s && id != kidId ==> e.store[id] == s[id]
    ensures kidId !in s || run == FailsAtFirstWrite ==> e.store == s
    ensures e.outcome == Done <==> kidId in s && run == Completes
    ensures e.outcome == Done ==> TotalOrZero(e.store[kidId]) == TotalOrZero(s[kidId]) - amount
    ensures kidId in s && run != FailsAtFirstWrite ==>
              && e.store[kidId].transactions == RemoveTx(s[kidId].transactions, txId)
              && !HasTx(e.store[kidId].transactions, txId)
    ensures kidId in s && run == FailsAtSecondWrite ==> e.store[kidId].total == s[kidId].total
    ensures kidId in s ==> e.store[kidId] == s[kidId].(transactions := e.store[kidId].transactions,
                                                        total := e.store[kidId].total)
  {
    if run == FailsAtFirstWrite || kidId !in s then Effect(s, Alerted)
    else
      var kid := s[kidId];
      var removed := kid.(transactions := RemoveTx(kid.transactions, txId));
      match run
      case FailsAtSecondWrite => Effect(s[kidId := removed], Alerted)
      case Completes => Effect(s[kidId := removed.(total := Some(TotalOrZero(kid) - amount))], Done)
  }

  // ---------------------------------------------------------------------
  // The balance invariant
  // ---------------------------------------------------------------------

  /** An edit of a present transaction, told its true old amount, keeps
      `total - sum(amounts)`; the date and every other field of every
      transaction stay as they were. */
  lemma EditPreservesDrift(s: Store, kidId: KidId, i: int, form: EditForm)
    requires kidId in s && TxIdsDistinct(s[kidId].transactions)
    requires 0 <= i < |s[kidId].transactions|
    requires ValidEdit(form)
    ensures var t := s[kidId].transactions[i];
            var e := EditTransaction(s, kidId, t.id, t.amount, form, Completes);
            && e.outcome == Done
            && Drift(e.store[kidId]) == Drift(s[kidId])
            && e.store[kidId].transactions[i] == t.(amount := form.amount.value, description := form.description)
  {
    var ts := s[kidId].transactions;
    assert HasTx(ts, ts[i].id);
    UpdateTxSum(ts, i, form.amount.value, form.description);
  }

  /** Deleting a present transaction, told its amount, keeps
      `total - sum(amounts)`. */
  lemma DeletePreservesDrift(s: Store, kidId: KidId, i: int)
    requires kidId in s && TxIdsDistinct(s[kidId].transactions)
    requires 0 <= i < |s[kidId].transactions|
    ensures var t := s[kidId].transactions[i];
            var e := DeleteTransaction(s, kidId, t.id, t.amount, Completes);
            && e.outcome == Done
            && Drift(e.store[kidId]) == Drift(s[kidId])
            && |e.store[kidId].transactions| == |s[kidId].transactions| - 1
  {
    var ts := s[kidId].transactions;
    RemoveTxSum(ts, i);
    RemoveTxLength(ts, i);
  }

  lemma {:induction false} RemoveTxLength(ts: seq<Transaction>, i: int)
    requires TxIdsDistinct(ts)
    requires 0 <= i < |ts|
    ensures |RemoveTx(ts, ts[i].id)| == |ts| - 1
  {
    var id := ts[i].id;
    if i == 0 {
      assert !HasTx(ts[1..], id) by {
        forall k | 0 <= k < |ts[1..]| ensures ts[1..][k].id != id {
          assert ts[1..][k] == ts[k + 1];
        }
      }
    } else {
      assert TxIdsDistinct(ts[1..]) by {
        forall a, b | 0 <= a < b < |ts[1..]| ensures ts[1..][a].id != ts[1..][b].id {
          assert ts[1..][a] == ts[a + 1] && ts[1..][b] == ts[b + 1];
        }
      }
      assert ts[1..][i - 1] == ts[i];
      RemoveTxLength(ts[1..], i - 1);
    }
  }

  /** Deleting an id that is no longer in the ledger (a second click, or a
      list that another editor already changed) still lowers the total,
      so the balance drifts from the ledger by the amount shown. */
  lemma DeleteStaleLowersDrift(s: Store, kidId: KidId, txId: TxId, amount: int)
    requires kidId in s && !HasTx(s[kidId].transactions, txId)
    ensures var e := DeleteTransaction(s, kidId, txId, amount, Completes);
            Drift(e.store[kidId]) == Drift(s[kidId]) - amount
  {
  }

  /** Editing from A to B and then deleting (with the B the list now shows)
      lowers the total by exactly A and removes the entry. */
  lemma EditThenDeleteNetsOldAmount(s: Store, kidId: KidId, i: int, form: EditForm)
    requires kidId in s && TxIdsDistinct(s[kidId].transactions)
    requires 0 <= i < |s[kidId].transactions|
    requires ValidEdit(form)
    ensures var t := s[kidId].transactions[i];
            var e1 := EditTransaction(s, kidId, t.id, t.amount, form, Completes);
            var e2 := DeleteTransaction(e1.store, kidId, t.id, form.amount.value, Completes);
            && TotalOrZero(e2.store[kidId]) == TotalOrZero(s[kidId]) - t.amount
            && !HasTx(e2.store[kidId].transactions, t.id)
            && Drift(e2.store[kidId]) == Drift(s[kidId])
  {
    var ts := s[kidId].transactions;
    var t := ts[i];
    EditPreservesDrift(s, kidId, i, form);
    var e1 := EditTransaction(s, kidId, t.id, t.amount, form, Completes);
    var ts1 := e1.store[kidId].transactions;
    assert ts1 == UpdateTx(ts, t.id, form.amount.value, form.description);
    assert TxIdsDistinct(ts1);
    assert ts1[i].id == t.id && ts1[i].amount == form.amount.value;
    DeletePreservesDrift(e1.store, kidId, i);
  }

  /** The add-edit-delete round trip: adding a fresh entry, editing its
      amount, then deleting it restores the ledger and the total. */
  lemma AppendEditDeleteRoundTrip(s: Store, kidId: KidId, form: EntryForm, user: Option<Signer>,
                                  now: int, newId: TxId, edit: EditForm)
    requires kidId in s && ValidEntry(form) && ValidEdit(edit)
    requires !HasTx(s[kidId].transactions, newId)
    ensures var e1 := AddTransaction(s, kidId, form, user, now, newId, Completes);
            var e2 := EditTransaction(e1.store, kidId, newId, SignedAmount(form.kind, form.amount.value), edit, Completes);
            var e3 := DeleteTransaction(e2.store, kidId, newId, edit.amount.value, Completes);
            && e3.store[kidId].transactions == s[kidId].transactions
            && TotalOrZero(e3.store[kidId]) == TotalOrZero(s[kidId])
  {
    var ts := s[kidId].transactions;
    var entry := NewEntry(form, user, now, newId);
    var e1 := AddTransaction(s, kidId, form, user, now, newId, Completes);
    assert e1.store[kidId].transactions == ts + [entry];
    assert HasTx(ts + [entry], newId) by { assert (ts + [entry])[|ts|].id == newId; }
    var e2 := EditTransaction(e1.store, kidId, newId, entry.amount, edit, Completes);
    var edited := entry.(amount := edit.amount.value, description := edit.description);
    assert e2.store[kidId].transactions == ts + [edited] by {
      var u := UpdateTx(ts + [entry], newId, edit.amount.value, edit.description);
      assert e2.store[kidId].transactions == u;
      forall k | 0 <= k < |u| ensures u[k] == (ts + [edited])[k] {
        if k < |ts| {
          assert (ts + [entry])[k] == ts[k];
          assert ts[k].id != newId;
        }
      }
    }
    RemoveTxSnocAbsent(ts, edited);
  }

  lemma {:induction false} RemoveTxSnocAbsent(ts: seq<Transaction>, t: Transaction)
    requires !HasTx(ts, t.id)
    ensures RemoveTx(ts + [t], t.id) == ts
  {
    if ts == [] {
      assert [t][1..] == [];
    } else {
      assert (ts + [t])[0] == ts[0];
      assert (ts + [t])[1..] == ts[1..] + [t];
      assert !HasTx(ts[1..], t.id) by {
        forall k | 0 <= k < |ts[1..]| ensures ts[1..][k].id != t.id {
          assert ts[1..][k] == ts[k + 1];
        }
      }
      RemoveTxSnocAbsent(ts[1..], t);
      assert ts[0].id != t.id;
      assert ts == [ts[0]] + ts[1..];
    }
  }

  /** A fresh id keeps the ledger's ids distinct. */
  lemma AddTransactionKeepsIdsDistinct(s: Store, kidId: KidId, form: EntryForm, user: Option<Signer>,
                                       now: int, newId: TxId, run: Interruption)
    requires kidId in s && TxIdsDistinct(s[kidId].transactions)
    requires !HasTx(s[kidId].transactions, newId)
    ensures TxIdsDistinct(AddTransaction(s, kidId, form, user, now, newId, run).store[kidId].transactions)
  {
    var ts := s[kidId].transactions;
    if ValidEntry(form) && run != FailsAtFirstWrite {
      var r := ts + [NewEntry(form, user, now, newId)];
      forall a, b | 0 <= a < b < |r| ensures r[a].id != r[b].id {
        if b == |ts| {
          assert r[a] == ts[a];
        } else {
          assert r[a] == ts[a] && r[b] == ts[b];
        }
      }
    }
  }
}
