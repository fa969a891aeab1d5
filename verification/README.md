# Allowance: a Dafny model of the ledger, slug and sharing logic

Allowance is a web app where parents keep a pocket-money ledger for each of
their kids. Every kid document holds a cached balance (`total`), a URL `slug`,
an owner (`parentId`), a `sharedWith` list of co-parent emails, a `public`
dashboard flag and a weekly allowance with its weekday. A `transactions`
subcollection holds the entries. This project models the logic under the
React pages and Firebase calls, as pure functions over an abstract store:

- `Store = map<KidId, Kid>`. Each `Kid` carries its transactions as a
  sequence. Money is integer cents. Dates are integers. The weekday is an
  enum of the seven English names.
- A handler that writes once and reports a guard or an alert is a function
  `Store -> Effect`. An `Effect` pairs the new store with an `Outcome`:
  `Skipped` when the guard stops it, `Done`, or `Alerted` when a write throws.
  `KidLists.TogglePublic` has no guard, and its only failure (a missing
  document) leaves the store as it was, so it is a plain `Store -> Store`.
- A handler that writes twice also takes an `Interruption`. It says whether
  the run completes, fails at the first write or fails between the two
  writes.
- Firestore operators follow their documented meaning:
  - `increment` adds to an absent field as if it held 0.
  - `arrayUnion` and `arrayRemove` are set add and remove.
  - A batch commits all or nothing (a `commits` flag).
- Read-side pages take the `kids` collection as a sequence of documents in
  query order. A query is a filter.

Modules, one per part of the program:

| module | file | source |
|---|---|---|
| `Common` | common.dfy | `Option`, JavaScript truthiness, sums |
| `Kids` | kids.dfy | the kid and transaction documents |
| `Slugs` | slugs.dfy | `createSlug`, `generateUniqueSlug` |
| `Ledger` | ledger.dfy | add, edit and delete a transaction |
| `Allowance` | allowance.dfy | the scheduled `dailyAllowance` batch |
| `Migrations` | migrations.dfy | `onKidCreated`, `updateKidSlugs`, `migrateKids` |
| `Sorting` | sorting.dfy | descending insertion sort by a key |
| `Contributions` | contributions.dfy | the monthly contributions report |
| `KidLists` | kidlists.dfy | owned plus shared kid lists, labels, session, public toggle |
| `Sharing` | sharing.dfy | share and revoke access |
| `Routing` | routing.dfy | the `/kids` middleware |
| `Forms` | forms.dfy | add-kid form, name editor, account details |
| `Pagination` | pagination.dfy | the paged transaction list |

The central invariant is the drift `total - sum(amounts)`. The balance is
right when the drift is 0 (`Kids.Consistent`). Every completed ledger
operation keeps the drift when it is told the true amount. The model also
shows how a stale amount or an interrupted two-write handler moves it.

## Model

| member | source | states |
|---|---|---|
| Slugs.KeepSlugChars | functions/src/index.ts:7 | keeping only `[a-z0-9]` gives a slug, never lengthens, and leaves a slug as it is |
| Slugs.CreateSlug | functions/src/index.ts:6-8 | the result holds only characters a-z and 0-9 |
| Slugs.CreateSlugMatchesReference | functions/src/index.ts:6-8 | lower-casing then stripping equals the concatenation of the per-character slug of each input character |
| Slugs.CreateSlugAppend | app/parent/page.tsx:11-13 | `createSlug` distributes over concatenation |
| Slugs.CreateSlugIdempotent | app/components/KidNameEditor.tsx:24-26 | applying `createSlug` twice equals applying it once |
| Slugs.CreateSlugFixedPointIffSlug | app/components/AddKidForm.tsx:29-31 | `createSlug(s) == s` exactly when `s` is already a slug |
| Slugs.NatToStringInjective | functions/src/index.ts:179 | distinct counters print as distinct decimal strings |
| Slugs.CandidatesDistinct | functions/src/index.ts:175-181 | the candidates `base`, `base-1`, `base-2`, … are pairwise distinct |
| Slugs.GenerateUniqueSlug | functions/src/index.ts:168-184 | terminates, returns a slug no kid holds, and returns the first free candidate in probe order |
| Ledger.SignedAmount | app/components/AddTransaction.tsx:25 | a debit is stored negated and a credit as entered; the magnitude is kept |
| Ledger.AttributionName | app/components/AddTransaction.tsx:62 | the user's display name when truthy, else "Unknown Parent" |
| Ledger.AttributionEmail | app/components/AddTransaction.tsx:63 | the user's email when truthy, else "unknown@email.com" |
| Ledger.AddTransaction | app/components/AddTransaction.tsx:20-93 | an invalid entry writes nothing; a missing kid alerts before any write; on success exactly one entry is appended, the total moves by its amount and the drift is kept; an interruption between the writes appends the entry but leaves the total, shifting the drift by the amount; only the kid's ledger and total ever change |
| Ledger.AddTransactionIgnoresPickedDate | app/components/AddTransaction.tsx:27-61 | the date picked in the form never reaches the store |
| Ledger.AddTransactionKeepsIdsDistinct | app/components/AddTransaction.tsx:57-64 | a fresh document id keeps the ledger's ids distinct |
| Ledger.UpdateTx | app/components/TransactionsList.tsx:153-156 | updating an entry changes only the amount and description of the entry with that id |
| Ledger.RemoveTx | app/components/TransactionsList.tsx:132 | deleting an entry removes exactly the entries with that id, and is a no-op for an absent id |
| Ledger.RemoveTxSum | app/components/TransactionsList.tsx:132-138 | with distinct ids, removing an entry lowers the ledger sum by its amount |
| Ledger.UpdateTxSum | app/components/TransactionsList.tsx:149-162 | with distinct ids, updating an entry moves the ledger sum by new minus old |
| Ledger.RemoveTxLength | app/components/TransactionsList.tsx:132 | with distinct ids, deleting a present entry shortens the ledger by one |
| Ledger.EditTransaction | app/components/TransactionsList.tsx:145-169 | an empty field is a no-op; an absent entry alerts and writes nothing; once the first write lands the entry carries the new amount and description; on success the total moves by new minus old, while an interruption before the total write leaves the total; only the ledger and total change |
| Ledger.DeleteTransaction | app/components/TransactionsList.tsx:127-143 | once the first write lands the entry is gone; on success the total drops by the amount given, while an interruption before the total write leaves the total; only the kid's ledger and total ever change |
| Ledger.EditPreservesDrift | app/components/TransactionsList.tsx:149-162 | an edit told the true old amount keeps the drift and changes no other field of the entry |
| Ledger.DeletePreservesDrift | app/components/TransactionsList.tsx:127-138 | a delete told the true amount keeps the drift |
| Ledger.DeleteStaleLowersDrift | app/components/TransactionsList.tsx:132-138 | deleting an id no longer in the ledger still lowers the total, so the drift moves by the amount shown |
| Ledger.EditThenDeleteNetsOldAmount | app/components/TransactionsList.tsx:127-162 | editing from A to B then deleting lowers the total by exactly A and removes the entry |
| Ledger.AppendEditDeleteRoundTrip | app/components/AddTransaction.tsx:47-71 | add, edit, then delete of a fresh entry restores both the ledger and the total |
| Allowance.Credit | functions/src/index.ts:70-81 | one credit appends the "Weekly Allowance (day)" entry, raises the total by the allowance and keeps the drift |
| Allowance.DailyAllowance | functions/src/index.ts:34-93 | when the batch commits each due kid receives exactly one `Credit` (total and ledger only) and the others are untouched; a failed commit changes nothing; every drift is kept |
| Allowance.DailyAllowanceTwiceCreditsTwice | functions/src/index.ts:43-86 | a second run on the same day credits each due kid a second time |
| Allowance.DailyAllowanceKeepsConsistency | functions/src/index.ts:57-86 | a consistent store stays consistent |
| Allowance.MondayScenario | functions/src/index.ts:45-81 | example: a kid due on Monday with 500 gets total 500 and one entry described "Weekly Allowance (Monday)" |
| Migrations.OnKidCreated | functions/src/index.ts:148-165 | `public` becomes false; the slug is replaced only when falsy, then by the first candidate of `createSlug(name)` in probe order that no kid holds |
| Migrations.UpdateKidSlugs | functions/src/index.ts:11-27 | only falsy slugs change, each to `createSlug(name)`; every other field is kept |
| Migrations.UpdateKidSlugsIdempotent | functions/src/index.ts:11-27 | a second run of `updateKidSlugs` changes nothing |
| Migrations.UpdateKidSlugsAgreesWithMigrate | functions/src/index.ts:18-21 | `updateKidSlugs` fills in the same slug as `migrateKids` for every kid |
| Migrations.UpdateKidSlugsCanDuplicate | functions/src/index.ts:18-21 | "Sam" and "sam!" both receive the slug "sam" |
| Migrations.MigrateKid | functions/src/index.ts:193-225 | each missing or ill-typed field gets its default; well-formed fields are kept; a well-formed kid is unchanged |
| Migrations.MigrateKids | functions/src/index.ts:187-236 | every kid is migrated, and the count is the number of kids that needed it |
| Migrations.MigrateKidLeavesOnlyEmptySlugs | functions/src/index.ts:198-200 | after a migration a kid still needs one exactly when its name normalises to "" |
| Migrations.MigrateKidsIdempotent | functions/src/index.ts:187-225 | a second run writes the same store |
| Migrations.MigrateKidsSecondRunCount | functions/src/index.ts:222-225 | a second run counts exactly the kids whose name normalises to "" |
| Sorting.InsertDesc | app/parent/contributions/page.tsx:151 | inserting into a descending list keeps it sorted and adds exactly one element |
| Sorting.SortDesc | app/parent/contributions/page.tsx:168 | the result is sorted descending by the key and is a permutation of the input |
| Sorting.SortDescSum | app/parent/contributions/page.tsx:156-168 | sorting keeps any sum over the elements |
| Sorting.SortDescDistinct | app/parent/contributions/page.tsx:168 | sorting keeps keys distinct |
| Contributions.ToContribution | app/parent/contributions/page.tsx:133-140 | the row keeps the entry's id and date and the kid's name; its amount is the magnitude, positive for a non-zero amount; an empty description becomes "No description" and a falsy parent name "Unknown Parent" |
| Contributions.KidContributions | app/parent/contributions/page.tsx:112-142 | a kid's rows are exactly the rows of its included transactions, each positive and within the month |
| Contributions.CollectContributions | app/parent/contributions/page.tsx:112-142 | the rows are exactly the rows of every included transaction of every kid |
| Contributions.AddToTotalsSpec | app/parent/contributions/page.tsx:158-164 | adding a row to the totals keeps names distinct and adds its amount to its parent only |
| Contributions.GroupTotalsSpec | app/parent/contributions/page.tsx:156-165 | one total per distinct parent name, equal to that parent's sum; the grand total is kept |
| Contributions.LookupDistinct | app/parent/contributions/page.tsx:156-165 | with distinct names, a parent's looked-up total is its entry's total |
| Contributions.FetchContributions | app/parent/contributions/page.tsx:112-168 | rows newest first and a permutation of the collected rows; totals largest first and a permutation of the grouped totals |
| Contributions.ReportRows | app/parent/contributions/page.tsx:112-151 | every included transaction of every kid yields a row, and every row comes from an included transaction; rows are positive and within the month |
| Contributions.ReportTotals | app/parent/contributions/page.tsx:156-168 | one total per parent equal to that parent's sum, and the totals add up to the rows |
| KidLists.MapSetSpec | app/parent/page.tsx:88-89 | `Map.set` on a list with distinct ids keeps them distinct, adds the id, and replaces or appends the record |
| KidLists.DedupSpec | app/parent/page.tsx:88-89 | the merge has distinct ids, the same id set as its input, and for each id the last record with it |
| KidLists.DedupOfDistinct | app/kids/page.tsx:54-59 | a list whose ids are already distinct is unchanged |
| KidLists.MergeKidsIsReference | app/parent/contributions/page.tsx:77-78 | the merge equals the owned list with each record overlaid by its shared copy, followed by the shared kids not owned |
| KidLists.QueryMembers | app/parent/page.tsx:51-87 | the owned query returns exactly the kids with that parent, and the shared query exactly those shared with that email |
| KidLists.UserKids | app/kids/page.tsx:40-60 | distinct ids; an id is present exactly when some kid with it is owned by or shared with the user, and every returned record is such a stored kid document |
| KidLists.OwnerLabel | app/parent/page.tsx:234 | "Owner" exactly when the kid's parent is the user, otherwise "Shared Access" |
| KidLists.TogglePublic | app/parent/page.tsx:166-178 | only the `public` field of that kid changes, to the requested value |
| KidLists.TogglePublicRoundTrip | app/parent/page.tsx:166-171 | toggling away and back restores the store |
| KidLists.VerifySession | app/kids/page.tsx:19-38 | no cookie or a failed verification gives no user; the email comes from the claims, else from the first Google identity |
| KidLists.KidsPage | app/kids/page.tsx:62-86 | no user exactly when the page redirects to /parent; a verified user with an email always gets a rendered list, which has distinct ids and holds the user's kids |
| KidLists.DashboardKids | app/parent/page.tsx:51-103 | distinct ids; an id is present exactly when its kid is owned by or shared with the user, and every returned record is such a stored kid document |
| Sharing.ArrayUnion | app/components/ShareAccess.tsx:23-26 | the email is present afterwards; nothing else is added or lost; an existing list is extended or kept; no duplicate is introduced |
| Sharing.ArrayRemove | app/components/ShareAccess.tsx:41-44 | the email is absent afterwards; every other entry is kept; no duplicate is introduced |
| Sharing.Share | app/components/ShareAccess.tsx:17-34 | an empty email writes nothing; a missing kid alerts; otherwise only `sharedWith` changes, gaining the email |
| Sharing.Revoke | app/components/ShareAccess.tsx:36-51 | nothing without confirmation; a missing kid alerts; otherwise only `sharedWith` changes, losing the email |
| Sharing.RemoveAfterUnion | app/components/ShareAccess.tsx:23-44 | removing an email just added to a list that lacked it restores the list |
| Sharing.ShareThenRevokeRestores | app/components/ShareAccess.tsx:17-51 | sharing with a new email then revoking it restores the store |
| Sharing.ShareIdempotent | app/components/ShareAccess.tsx:23-26 | sharing twice with the same email writes the same store as sharing once |
| Routing.Middleware | app/middleware.ts:4-21 | a bare `/kids` without a cookie redirects to /parent; `/kids/…` without a cookie passes on; with a cookie, or on any other path, there is no response |
| Routing.MiddlewareAgreesWithPage | app/middleware.ts:6-13 | the middleware's redirect never changes what `/kids` serves |
| Routing.KidsRenderedOnlyWithSession | app/kids/page.tsx:62-66 | `/kids` renders a list only for a cookie the verifier accepts |
| Forms.AddKidNameChange | app/components/AddKidForm.tsx:33-38 | a name edit always overwrites the slug with `createSlug(name)` |
| Forms.AddKidSlugChange | app/components/AddKidForm.tsx:40-44 | a slug edit stores `createSlug` of the typed value, which is a slug and equals the value when that already is one |
| Forms.AddKidCheck | app/components/AddKidForm.tsx:46-68 | an empty slug gives no availability; otherwise the slug is available exactly when no kid holds it |
| Forms.AddKidSlugStaysNormal | app/components/AddKidForm.tsx:33-44 | after any sequence of edits and checks the form's slug is still a slug |
| Forms.NewKid | app/components/AddKidForm.tsx:76-83 | a new kid has no entries and a consistent zero balance |
| Forms.AddKidSubmit | app/components/AddKidForm.tsx:70-92 | submit is skipped exactly when a field is empty or availability is not true; otherwise a private, unshared kid with the given name, slug and owner is created, with total 0 and an empty ledger |
| Forms.AddKidTrustsEarlierCheck | app/components/AddKidForm.tsx:70-83 | a slug checked free earlier is written even if another kid took it since |
| Forms.EditorNameChange | app/components/KidNameEditor.tsx:28-35 | a name edit regenerates the slug only while it still equals the initial slug |
| Forms.EditorSlugChange | app/components/KidNameEditor.tsx:37-41 | a slug edit stores `createSlug` of the typed value, which is a slug and equals the value when that already is one; nothing else changes |
| Forms.EditorCheck | app/components/KidNameEditor.tsx:43-62 | an empty or unchanged slug is available without a lookup; otherwise availability is that no kid holds it |
| Forms.EditorSlugStaysNormal | app/components/KidNameEditor.tsx:28-41 | after any edits the slug is the initial one or a slug |
| Forms.EditorSlugFollowsNameOnce | app/components/KidNameEditor.tsx:28-35 | once a name edit changed the slug, later name edits leave it alone |
| Forms.EditorSubmit | app/components/KidNameEditor.tsx:64-84 | the guard; a success writes exactly the name and slug, and redirects to /parent/kid/slug only when the slug changed |
| Forms.EditorSaveUnchanged | app/components/KidNameEditor.tsx:65-77 | saving an untouched editor rewrites the same values and does not redirect |
| Forms.SaveAccountDetails | app/components/AccountDetails.tsx:20-38 | an empty name or slug alerts with no write; otherwise only the name and slug change, to the raw values |
| Forms.SaveAccountDetailsIdempotent | app/components/AccountDetails.tsx:20-38 | saving the same name and slug twice leaves the store and the outcome as saving once |
| Forms.SaveAccountDetailsCurrentValues | app/components/AccountDetails.tsx:20-38 | saving the values the kid already has succeeds and leaves the store unchanged |
| Forms.SaveAccountDetailsCanDuplicate | app/components/AccountDetails.tsx:26-31 | no uniqueness check: another kid's slug is written as given |
| Forms.SaveAccountDetailsKeepsRawSlug | app/components/AccountDetails.tsx:28-31 | "Sam!" is stored as typed, and is not a slug |
| Pagination.Fetch | app/components/TransactionsList.tsx:88-112 | a page is the next at most 10 entries from the cursor; `hasMore` exactly when it holds 10; the cursor advances by its length |
| Pagination.CursorLeadsToNextPage | app/components/TransactionsList.tsx:90-107 | fetching after the last visible entry of page k gives page k+1 |
| Pagination.OnSnapshot | app/components/TransactionsList.tsx:51-71 | a snapshot shows the first page and its `hasMore` and replaces the cache with it, but keeps the page number |
| Pagination.LoadPrev | app/components/TransactionsList.tsx:77-86 | prev at page 1 is a no-op; with the previous page cached it shows that page's entries and `hasMore` and decrements the page; with no cached page it is a no-op |
| Pagination.LoadNext | app/components/TransactionsList.tsx:88-118 | without a cursor nothing happens; on success it shows the fetched page and its `hasMore`, appends it to the cache and increments the page |
| Pagination.LoadNextAlignedAtEnd | app/components/TransactionsList.tsx:113-118 | at the last cached page, next keeps the cache aligned with the true pages |
| Pagination.TwoPagesForward | app/components/TransactionsList.tsx:51-118 | snapshot, next, next on at least 30 entries shows page 3 with an aligned cache |
| Pagination.BackThenForward | app/components/TransactionsList.tsx:77-118 | from page 3, prev then next three times leaves two copies each of pages 3 and 4 in the cache, and page 4's entries on page 5 |
| Pagination.NextAfterPrevRepeatsPage | app/components/TransactionsList.tsx:113-118 | as written, going forward after a prev shows page 4's entries labelled as page 5 |
| Pagination.SnapshotStrandsPaging | app/components/TransactionsList.tsx:62-66 | as written, a snapshot on page 3 shows page 1's entries and leaves prev and next stuck |
| Pagination.OnSnapshotFixed | app/components/TransactionsList.tsx:62-66 | resetting the page with the cache gives an aligned state on page 1 |
| Pagination.LoadNextFixed | app/components/TransactionsList.tsx:113-118 | the fetched page, shown with its `hasMore`, replaces every cache entry after the current page, and the page number moves up by one |
| Pagination.NextFixedKeepsAligned | app/components/TransactionsList.tsx:88-118 | the corrected next keeps the cache aligned |
| Pagination.PrevKeepsAligned | app/components/TransactionsList.tsx:77-86 | prev keeps an aligned cache aligned |
| Pagination.StepFixedKeepsAligned | app/components/TransactionsList.tsx:51-118 | every corrected event keeps the cache aligned |
| Pagination.RunFixed | app/components/TransactionsList.tsx:51-118 | with the corrections, after any events the list shows exactly the true page for its page number |
| Pagination.FixedListShowsTruePage | app/components/TransactionsList.tsx:51-118 | from any start, the corrected list always shows entries `10(p-1)` to `10p` of the ordered ledger on page p |

## Left out

- Rendering, hooks, effects, alert and confirm dialogs, and the debounce timer are left out. A slug check runs on the current slug, and a confirm is a boolean parameter (`Sharing.Revoke`); deleting a transaction treats the confirm as given.
- Firestore I/O is left out. The store is a map with sequential, atomic per-call semantics. Network and permission failures are left out. Of the data-caused throws, `updateDoc` on a missing document is modelled; a throw from a malformed field is not (see the `Migrations` lines below).
- Concurrency is left out. AddTransaction reads `total` and writes `old + amount` (a read-modify-write, app/components/AddTransaction.tsx:47-71). It can lose an update against the `increment`-based paths when two clients race. Only single-threaded sequences are modelled.
- Floating point, `parseFloat` and `toFixed` are left out. Amounts are integer cents, and a `NaN` parse is the `None` amount of the entry form.
- The clock and calendar are inputs: the weekday `toLocaleString` gives, `serverTimestamp`, and the month window of the contributions page.
- Firestore's 500-operation batch cap is left out for `dailyAllowance`, `updateKidSlugs` and `migrateKids`.
- Logging, `testAllowance` and the JSON replies of the HTTP functions are left out: they report and do not decide.
- Auth and session plumbing, rate limiting, static pages, and the single-field forms (AutoAllowance, KidSettings, DashboardVisibility, DeleteKid) are not part of this model. Only the weekday enum comes from AutoAllowance.
- `createSlug` is copied four times in the source (functions/src/index.ts, app/parent/page.tsx, app/components/KidNameEditor.tsx, app/components/AddKidForm.tsx). The copies are identical and are modelled once as `Slugs.CreateSlug`. `toLowerCase` is modelled per character: ASCII capitals plus the two non-ASCII characters whose lower case contains a-z (U+0130 and U+212A).
- `Slugs.GenerateUniqueSlug` takes the set of taken slugs as input; `checkSlugExists` becomes a membership test.
- `KidLists.KidsPage`: when a verified user has no email at all, the page's `array-contains` query receives `undefined`, which Firestore rejects. That case is modelled as `QueryFails`, without modelling the error page.
- `Pagination.Fetch` takes the ordered ledger and an offset cursor. A Firestore document cursor is not modelled, and a failed fetch is the `Next(false)` event.
- The new kid's slug is not checked again at commit time (`Forms.AddKidTrustsEarlierCheck`).
- AccountDetails writes the slug raw, without normalising it (`Forms.SaveAccountDetailsKeepsRawSlug`).
- AddTransaction sets `total` directly to the old total plus the amount; it does not use `increment`.
- Migrations.OnKidCreated: a kid's `name` is always a string here. In the source a missing or non-string name makes `createSlug` throw (functions/src/index.ts:6-8, 158-160), so the trigger writes nothing, not even `public: false`.
- Migrations.UpdateKidSlugs: a kid's `name` is always a string here. In the source one kid without a slug and with a missing or non-string name makes `createSlug` throw (functions/src/index.ts:18-21), and the whole batch is abandoned before its commit.
- Migrations.MigrateKids: the same holds: a kid that needs a slug but has no string name makes the source throw (functions/src/index.ts:6-8, 197-200), and nothing is committed.
- Contributions.FetchContributions: the totals keep first-seen order before the stable sort by total. In the source `Object.entries` lists integer-like keys first, in ascending order (app/parent/contributions/page.tsx:156-164). So parents named "2" then "1" with equal totals come out as "1", "2" there and as "2", "1" here.
- Contributions.ReportTotals: every parent name is an ordinary key here. In the source a parent named `__proto__` writes to the object's prototype and gets no total (app/parent/contributions/page.tsx:156-160), so there the totals need not add up to the rows.

## Findings

| source | as written | input that shows it | evidently intended | confidence | as-written member | corrected member |
|---|---|---|---|---|---|---|
| app/components/TransactionsList.tsx:113-118 | `loadPage('next')` appends the fetched page at the end of the page cache, whatever the current page | 50 or more transactions; next, next, prev, next, next, next | the cache slot for the new page number is overwritten, so page p always shows entries `10(p-1)` to `10p` | medium, not executed | Pagination.NextAfterPrevRepeatsPage | Pagination.LoadNextFixed |
| app/components/TransactionsList.tsx:62-66 | the live snapshot resets the page cache to the first page but leaves `currentPage` as it was | 30 or more transactions; next, next, then any change that fires the snapshot | `currentPage` is reset to 1 together with the cache | medium, not executed | Pagination.SnapshotStrandsPaging | Pagination.OnSnapshotFixed |
