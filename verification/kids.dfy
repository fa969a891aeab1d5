/** The documents of the `kids` collection and their `transactions`
    subcollection, with money as integer cents and dates as integers. */
module Kids {
  import opened Common

  /** The seven names `toLocaleString("en-US", {weekday: "long"})` produces,
      in the order the allowance form lists them. */
  datatype Weekday = Sunday | Monday | Tuesday | Wednesday | Thursday | Friday | Saturday

  function DayName(d: Weekday): string {
    match d
    case Sunday => "Sunday"
    case Monday => "Monday"
    case Tuesday => "Tuesday"
    case Wednesday => "Wednesday"
    case Thursday => "Thursday"
    case Friday => "Friday"
    case Saturday => "Saturday"
  }

  type KidId = string
  type TxId = string

  /** One ledger entry. `date` is absent only for documents written outside
      this code; `parentName`/`parentEmail` are absent on allowance credits. */
  datatype Transaction = Transaction(
    id: TxId,
    amount: int,
    description: string,
    date: Option<int>,
    parentName: Option<string>,
    parentEmail: Option<string>)

  /** A kid document together with its transactions subcollection. */
  datatype Kid = Kid(
    name: string,
    slug: Option<string>,
    parentId: string,
    sharedWith: Option<seq<string>>,
    public: Option<bool>,
    total: Option<int>,
    weeklyAllowance: Option<int>,
    allowanceDay: Option<Weekday>,
    transactions: seq<Transaction>)

  type Store = map<KidId, Kid>

  /** A kid document as a query returns it: its id and its data. */
  datatype KidDoc = KidDoc(id: KidId, data: Kid)

  /** The cached balance, absent read as 0 (`total || 0`, and the
      starting point of an `increment` on a missing field). */
  function TotalOrZero(k: Kid): int {
    k.total.GetOr(0)
  }

  function AmountOf(t: Transaction): int {
    t.amount
  }

  /** The sum of the ledger's amounts. */
  function LedgerSum(ts: seq<Transaction>): int {
    SumBy(ts, AmountOf)
  }

  /** How far the cached balance is from the ledger. Every ledger operation
      that runs to completion leaves it unchanged. */
  function Drift(k: Kid): int {
    TotalOrZero(k) - LedgerSum(k.transactions)
  }

  /** The balance invariant: cached total equals the sum of the ledger. */
  predicate Consistent(k: Kid) {
    Drift(k) == 0
  }

  predicate TxIdsDistinct(ts: seq<Transaction>) {
    forall i, j :: 0 <= i < j < |ts| ==> ts[i].id != ts[j].id
  }

  predicate HasTx(ts: seq<Transaction>, id: TxId) {
    exists i :: 0 <= i < |ts| && ts[i].id == id
  }

  /** What a client handler did: returned early at its guard, finished
      its writes, or caught an error and alerted. */
  datatype Outcome = Skipped | Done | Alerted

  /** The store after a handler, and what the handler did. */
  datatype Effect = Effect(store: Store, outcome: Outcome)

  /** Every slug some kid holds: what `where("slug", "==", s)` finds. */
  function TakenSlugs(s: Store): set<string> {
    set id | id in s && s[id].slug.Some? :: s[id].slug.value
  }
}
