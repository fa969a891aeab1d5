/** The monthly contributions report (app/parent/contributions/page.tsx):
    every debit of every listed kid inside the month, newest first, and one
    total per parent, largest first. The month's bounds are inputs. */
module Contributions {
  import opened Common
  import opened Kids
  import opened Sorting

  datatype Contribution = Contribution(
    id: TxId,
    amount: int,
    description: string,
    date: int,
    kidName: string,
    parentName: string)

  datatype ParentTotal = ParentTotal(parentName: string, total: int)

  datatype Report = Report(contributions: seq<Contribution>, parentTotals: seq<ParentTotal>)

  /** The filter: a non-zero negative amount, a date, and the date within
      `[start, end]`. */
  predicate Included(t: Transaction, start: int, end: int) {
    t.amount < 0 && t.date.Some? && start <= t.date.value <= end
  }

  /** The row built for an included transaction, with the missing-field
      defaults of the report. */
  function ToContribution(t: Transaction, kidName: string): (c: Contribution)
    requires t.date.Some?
    ensures t.amount != 0 ==> c.amount > 0
    ensures c.amount == Abs(t.amount)
    ensures c.description == (if t.description == "" then "No description" else t.description)
    ensures c.parentName == (if Truthy(t.parentName) then t.parentName.value else "Unknown Parent")
    ensures c.id == t.id && c.date == t.date.value && c.kidName == kidName
  {
    Contribution(t.id, Abs(t.amount),
                 if t.description == "" then "No description" else t.description,
                 t.date.value, kidName, OrElse(t.parentName, "Unknown Parent"))
  }

  /** One kid's rows, in ledger order. */
  function KidContributions(kidName: string, ts: seq<Transaction>, start: int, end: int): (r: seq<Contribution>)
    ensures forall c :: c in r ==> c.amount > 0 && start <= c.date <= end
    ensures forall t :: t in ts && Included(t, start, end) ==> ToContribution(t, kidName) in r
    ensures forall c :: c in r ==> exists t :: t in ts && Included(t, start, end) && c == ToContribution(t, kidName)
  {
    if ts == [] then []
    else
      var rest := KidContributions(kidName, ts[1..], start, end);
      assert forall t :: t in ts[1..] ==> t in ts;
      assert forall t :: t in ts ==> t == ts[0] || t in ts[1..];
      if Included(ts[0], start, end) then [ToContribution(ts[0], kidName)] + rest else rest
  }

  /** `c` is the row of an included transaction of one of `kids`. */
  ghost predicate FromKids(kids: seq<KidDoc>, c: Contribution, start: int, end: int) {
    exists i, t :: 0 <= i < |kids| && t in kids[i].data.transactions
      && Included(t, start, end) && c == ToContribution(t, kids[i].data.name)
  }

  /** `allContributions`: the rows of every kid, kid by kid. */
  function CollectContributions(kids: seq<KidDoc>, start: int, end: int): (r: seq<Contribution>)
    ensures forall c :: c in r ==> c.amount > 0 && start <= c.date <= end
    ensures forall i, t :: 0 <= i < |kids| && t in kids[i].data.transactions && Included(t, start, end)
              ==> ToContribution(t, kids[i].data.name) in r
    ensures forall c :: c in r ==> FromKids(kids, c, start, end)
  {
    if kids == [] then []
    else
      var first := KidContributions(kids[0].data.name, kids[0].data.transactions, start, end);
      var rest := CollectContributions(kids[1..], start, end);
      assert forall i :: 1 <= i < |kids| ==> kids[1..][i - 1] == kids[i];
      FromKidsHead(kids, first, start, end);
      FromKidsTail(kids, rest, start, end);
      first + rest
  }

  lemma FromKidsHead(kids: seq<KidDoc>, first: seq<Contribution>, start: int, end: int)
    requires kids != []
    requires first == KidContributions(kids[0].data.name, kids[0].data.transactions, start, end)
    ensures forall c :: c in first ==> FromKids(kids, c, start, end)
  {
    forall c | c in first ensures FromKids(kids, c, start, end) {
      var t :| t in kids[0].data.transactions && Included(t, start, end)
               && c == ToContribution(t, kids[0].data.name);
    }
  }

  lemma FromKidsTail(kids: seq<KidDoc>, rest: seq<Contribution>, start: int, end: int)
    requires kids != []
    requires forall c :: c in rest ==> FromKids(kids[1..], c, start, end)
    ensures forall c :: c in rest ==> FromKids(kids, c, start, end)
  {
    forall c | c in rest ensures FromKids(kids, c, start, end) {
      var i, t :| 0 <= i < |kids[1..]| && t in kids[1..][i].data.transactions
          && Included(t, start, end) && c == ToContribution(t, kids[1..][i].data.name);
      assert kids[1..][i] == kids[i + 1];
    }
  }

  function DateOf(c: Contribution): int {
    c.date
  }

  function AmountOfContribution(c: Contribution): int {
    c.amount
  }

  function NameOf(t: ParentTotal): string {
    t.parentName
  }

  function TotalOf(t: ParentTotal): int {
    t.total
  }

  /** The sum of one parent's contribution amounts. */
  function SumFor(cs: seq<Contribution>, name: string): int {
    if cs == [] then 0
    else SumFor(cs[..|cs| - 1], name) + (if cs[|cs| - 1].parentName == name then cs[|cs| - 1].amount else 0)
  }

  /** `totals[name] || 0`: the running total for `name`, 0 when absent. */
  function Lookup(ts: seq<ParentTotal>, name: string): int {
    if ts == [] then 0 else if ts[0].parentName == name then ts[0].total else Lookup(ts[1..], name)
  }

  /** The parent names present in the totals. */
  function Names(ts: seq<ParentTotal>): set<string> {
    if ts == [] then {} else {ts[0].parentName} + Names(ts[1..])
  }

  lemma {:induction false} NamesMembers(ts: seq<ParentTotal>)
    ensures forall t :: t in ts ==> t.parentName in Names(ts)
    ensures forall n :: n in Names(ts) ==> exists t :: t in ts && t.parentName == n
  {
    if ts != [] {
      NamesMembers(ts[1..]);
      assert forall t :: t in ts ==> t == ts[0] || t in ts[1..];
      assert forall t :: t in ts[1..] ==> t in ts;
    }
  }

  /** Adds `amount` to `name`'s running total, appending a new total when the
      name is not there yet; totals stay in first-seen order. */
  function AddToTotals(ts: seq<ParentTotal>, name: string, amount: int): seq<ParentTotal> {
    if ts == [] then [ParentTotal(name, amount)]
    else if ts[0].parentName == name then [ts[0].(total := ts[0].total + amount)] + ts[1..]
    else [ts[0]] + AddToTotals(ts[1..], name, amount)
  }

  /** Adding to a running total touches exactly one name's total: the
      named one grows by `amount`, a new name is appended once, and the
      overall sum grows by `amount`. */
  lemma {:induction false} AddToTotalsSpec(ts: seq<ParentTotal>, name: string, amount: int)
    requires DistinctBy(ts, NameOf)
    ensures var r := AddToTotals(ts, name, amount);
            && DistinctBy(r, NameOf)
            && Names(r) == Names(ts) + {name}
            && (forall n :: Lookup(r, n) == Lookup(ts, n) + (if n == name then amount else 0))
            && SumBy(r, TotalOf) == SumBy(ts, TotalOf) + amount
  {
    AddToTotalsNames(ts, name, amount);
    AddToTotalsLookup(ts, name, amount);
    AddToTotalsSum(ts, name, amount);
    AddToTotalsDistinct(ts, name, amount);
  }

  lemma {:induction false} AddToTotalsNames(ts: seq<ParentTotal>, name: string, amount: int)
    ensures Names(AddToTotals(ts, name, amount)) == Names(ts) + {name}
  {
    if ts != [] && ts[0].parentName != name {
      AddToTotalsNames(ts[1..], name, amount);
    }
  }

  lemma {:induction false} AddToTotalsLookup(ts: seq<ParentTotal>, name: string, amount: int)
    ensures forall n :: Lookup(AddToTotals(ts, name, amount), n) == Lookup(ts, n) + (if n == name then amount else 0)
  {
    if ts != [] && ts[0].parentName != name {
      AddToTotalsLookup(ts[1..], name, amount);
    }
  }

  lemma {:induction false} AddToTotalsSum(ts: seq<ParentTotal>, name: string, amount: int)
    ensures SumBy(AddToTotals(ts, name, amount), TotalOf) == SumBy(ts, TotalOf) + amount
  {
    var r := AddToTotals(ts, name, amount);
    if ts != [] {
      if ts[0].parentName == name {
        assert r[1..] == ts[1..];
      } else {
        AddToTotalsSum(ts[1..], name, amount);
        assert r[1..] == AddToTotals(ts[1..], name, amount);
      }
    }
  }

  lemma {:induction false} AddToTotalsDistinct(ts: seq<ParentTotal>, name: string, amount: int)
    requires DistinctBy(ts, NameOf)
    ensures DistinctBy(AddToTotals(ts, name, amount), NameOf)
  {
    var r := AddToTotals(ts, name, amount);
    if ts == [] {
    } else if ts[0].parentName == name {
      TailDistinct(ts, NameOf);
      assert r[1..] == ts[1..];
      ConsDistinct(r[0], r[1..], NameOf);
      assert r == [r[0]] + r[1..];
    } else {
      TailDistinct(ts, NameOf);
      var rest := AddToTotals(ts[1..], name, amount);
      AddToTotalsDistinct(ts[1..], name, amount);
      AddToTotalsNames(ts[1..], name, amount);
      NamesMembers(rest);
      NamesMembers(ts[1..]);
      assert forall z :: z in rest ==> NameOf(z) != NameOf(ts[0]);
      ConsDistinct(ts[0], rest, NameOf);
      assert r[1..] == rest;
    }
  }

  /** The `forEach` that builds `totals`, over the rows in order. */
  function GroupTotals(cs: seq<Contribution>): seq<ParentTotal> {
    if cs == [] then []
    else AddToTotals(GroupTotals(cs[..|cs| - 1]), cs[|cs| - 1].parentName, cs[|cs| - 1].amount)
  }

  function ParentNames(cs: seq<Contribution>): set<string> {
    set c | c in cs :: c.parentName
  }

  /** One entry per distinct parent name, holding that parent's sum, and
      the entries add up to the sum of all rows. */
  lemma {:induction false} GroupTotalsSpec(cs: seq<Contribution>)
    ensures var r := GroupTotals(cs);
            && DistinctBy(r, NameOf)
            && Names(r) == ParentNames(cs)
            && (forall n :: Lookup(r, n) == SumFor(cs, n))
            && SumBy(r, TotalOf) == SumBy(cs, AmountOfContribution)
  {
    GroupTotalsDistinct(cs);
    GroupTotalsNames(cs);
    GroupTotalsLookup(cs);
    GroupTotalsSum(cs);
  }

  lemma {:induction false} GroupTotalsDistinct(cs: seq<Contribution>)
    ensures DistinctBy(GroupTotals(cs), NameOf)
  {
    if cs != [] {
      GroupTotalsDistinct(cs[..|cs| - 1]);
      AddToTotalsDistinct(GroupTotals(cs[..|cs| - 1]), cs[|cs| - 1].parentName, cs[|cs| - 1].amount);
    }
  }

  lemma {:induction false} GroupTotalsNames(cs: seq<Contribution>)
    ensures Names(GroupTotals(cs)) == ParentNames(cs)
  {
    if cs != [] {
      var init, last := cs[..|cs| - 1], cs[|cs| - 1];
      GroupTotalsNames(init);
      AddToTotalsNames(GroupTotals(init), last.parentName, last.amount);
      assert cs == init + [last];
      assert ParentNames(cs) == ParentNames(init) + {last.parentName};
    }
  }

  lemma {:induction false} GroupTotalsLookup(cs: seq<Contribution>)
    ensures forall n :: Lookup(GroupTotals(cs), n) == SumFor(cs, n)
  {
    if cs != [] {
      var init, last := cs[..|cs| - 1], cs[|cs| - 1];
      GroupTotalsLookup(init);
      AddToTotalsLookup(GroupTotals(init), last.parentName, last.amount);
    }
  }

  lemma {:induction false} GroupTotalsSum(cs: seq<Contribution>)
    ensures SumBy(GroupTotals(cs), TotalOf) == SumBy(cs, AmountOfContribution)
  {
    if cs != [] {
      var init, last := cs[..|cs| - 1], cs[|cs| - 1];
      GroupTotalsSum(init);
      AddToTotalsSum(GroupTotals(init), last.parentName, last.amount);
      assert cs == init + [last];
      SumBySnoc(init, last, AmountOfContribution);
    }
  }

  /** With distinct names, each entry's total is the one `Lookup` finds. */
  lemma {:induction false} LookupDistinct(ts: seq<ParentTotal>, i: int)
    requires DistinctBy(ts, NameOf)
    requires 0 <= i < |ts|
    ensures Lookup(ts, ts[i].parentName) == ts[i].total
  {
    if i > 0 {
      TailDistinct(ts, NameOf);
      assert ts[1..][i - 1] == ts[i];
      LookupDistinct(ts[1..], i - 1);
    }
  }

  /** `fetchContributions` after the month bounds are known: collect, sort
      rows by date (newest first), total per parent over the sorted rows,
      then sort the totals, largest first. */
  function FetchContributions(kids: seq<KidDoc>, start: int, end: int): (r: Report)
    ensures SortedDesc(r.contributions, DateOf)
    ensures multiset(r.contributions) == multiset(CollectContributions(kids, start, end))
    ensures SortedDesc(r.parentTotals, TotalOf)
    ensures multiset(r.parentTotals) == multiset(GroupTotals(r.contributions))
  {
    var sorted := SortDesc(CollectContributions(kids, start, end), DateOf);
    Report(sorted, SortDesc(GroupTotals(sorted), TotalOf))
  }

  /** Every row of the report is an included debit, shown as a positive
      amount, and every included debit is a row. */
  lemma ReportRows(kids: seq<KidDoc>, start: int, end: int)
    ensures var r := FetchContributions(kids, start, end);
            && (forall c :: c in r.contributions ==> c.amount > 0 && start <= c.date <= end)
            && (forall i, t :: 0 <= i < |kids| && t in kids[i].data.transactions && Included(t, start, end)
                  ==> ToContribution(t, kids[i].data.name) in r.contributions)
            && (forall c :: c in r.contributions ==>
                  exists i, t :: 0 <= i < |kids| && t in kids[i].data.transactions
                    && Included(t, start, end) && c == ToContribution(t, kids[i].data.name))
  {
    var r := FetchContributions(kids, start, end);
    var all := CollectContributions(kids, start, end);
    forall c | c in r.contributions ensures c in all {
      assert c in multiset(r.contributions);
    }
    forall c | c in all ensures c in r.contributions {
      assert c in multiset(all);
    }
  }

  /** The parent totals: one per distinct parent name among the rows,
      each the sum of that parent's rows, together the sum of all rows. */
  lemma ReportTotals(kids: seq<KidDoc>, start: int, end: int)
    ensures var r := FetchContributions(kids, start, end);
            && DistinctBy(r.parentTotals, NameOf)
            && Names(r.parentTotals) == ParentNames(r.contributions)
            && (forall t :: t in r.parentTotals ==> t.total == SumFor(r.contributions, t.parentName))
            && SumBy(r.parentTotals, TotalOf) == SumBy(r.contributions, AmountOfContribution)
  {
    var r := FetchContributions(kids, start, end);
    var grouped := GroupTotals(r.contributions);
    assert r.parentTotals == SortDesc(grouped, TotalOf);
    GroupTotalsDistinct(r.contributions);
    SortDescDistinct(grouped, TotalOf, NameOf);
    GroupTotalsSum(r.contributions);
    SortDescSum(grouped, TotalOf, TotalOf);
    MultisetSameMembers(r.parentTotals, grouped);
    GroupTotalsNames(r.contributions);
    NamesOfSameMembers(r.parentTotals, grouped);
    TotalsAreSums(r.contributions, r.parentTotals);
  }

  /** Two lists with the same members name the same parents. */
  lemma NamesOfSameMembers(a: seq<ParentTotal>, b: seq<ParentTotal>)
    requires forall t :: t in a <==> t in b
    ensures Names(a) == Names(b)
  {
    NamesMembers(a);
    NamesMembers(b);
  }

  /** Every entry drawn from the grouped totals holds its parent's sum. */
  lemma TotalsAreSums(cs: seq<Contribution>, totals: seq<ParentTotal>)
    requires forall t :: t in totals ==> t in GroupTotals(cs)
    ensures forall t :: t in totals ==> t.total == SumFor(cs, t.parentName)
  {
    var grouped := GroupTotals(cs);
    GroupTotalsDistinct(cs);
    GroupTotalsLookup(cs);
    forall t | t in totals ensures t.total == SumFor(cs, t.parentName) {
      var i :| 0 <= i < |grouped| && grouped[i] == t;
      LookupDistinct(grouped, i);
    }
  }
}
