# Scheduled obligations of the `finance` backend, in Dafny

The `finance` backend keeps accounts, categories, transactions and transfers per user. It also
keeps **scheduled** transactions and transfers: obligations that recur every N days, weeks,
months or years. An obligation either repeats forever or ends after a fixed number of
repeats. "Paying" one writes a real transaction or transfer into the ledger. It then advances
the schedule to its next due date, or retires it once the last repeat is paid.

This project models that engine in both of the repository's generations.

- **Current generation.** A single scheduled table holds both kinds, tagged Transaction or
  Transfer (`routes/scheduled_transactions.rs`, `utils/mod.rs`,
  `controllers/scheduled_transactions.rs`). The modules are `Recurrence`, `ScheduleValidator`,
  `ScheduleStore`, `Joins`, `ScheduledTransactions` and `ScheduleListing`. The feed of an
  account's transactions and transfers (`routes/transactions.rs`) is `TransactionRoutes`. The
  account balance is `Balance`.
- **First generation.** It has separate scheduled-transaction and scheduled-transfer tables
  (`routes_scheduled_transactions.rs`, `routes_scheduled_transfers.rs`, `utils.rs`,
  `controller_scheduled_transactions.rs`). The modules are `LegacyModels`, `LegacyStore`,
  `LegacyJoins`, `LegacyScheduledTransactions`, `LegacyScheduledTransfers`, `LegacyListing`,
  and `MonthWalker` for its hand-written month arithmetic.
- **In-memory models.** `account.rs` and `category.rs` are `Accounts` and `Categories`.

Shared pieces:

- `Calendar` is the proleptic Gregorian calendar. A date-time is a day number counted from
  1970-01-01 plus a second of the day. Conversion from civil dates is proved to round-trip.
- `Sequences` and `Sorting` give sums, filters and the stable sort-then-reverse that the
  listings use.
- `Iteration` is k-fold function application.
- `Database` is the ledger tables and their user-scoped queries.
- `Wrappers` is `Option` and the HTTP-status `Result`.

Accounts, categories and the schedule tables are maps keyed by serial id. Ledger transactions
and transfers are sequences in insertion order, each numbered by a serial counter that only
moves forward: `Database.Valid` requires ids that increase along the sequence and stay below
the counter, so a new row's id is never one already in use, even after deletions leave gaps.
Every query also filters on the owning user. The
`Database` query functions return their rows in insertion order. The routes that list rows
(the account feed and both scheduled listings) instead take each query's result as a `seq`
parameter. A query predicate ties that parameter to the tables: the rows the query selects,
each once, in the order its `order by` clause fixes. These predicates are
`TransactionRoutes.IsFeedQuery`, `ScheduleListing.IsListingQuery`,
`LegacyListing.IsTransactionsQuery` and `LegacyListing.IsTransfersQuery`. Rows the clause
leaves tied, and the transfer queries that have no clause, may come in any order. Which rows
the feed holds is proved not to depend on that order (`TransactionRoutes.QueryFeedPermutation`).

Panics become preconditions:

- the `unwrap`s on the repeat columns when paying are `PayPanicFree`. What the validators
  store is proved to satisfy it. Where it does not, a lemma shows the panic
  (`PatchToRepeatingKeepsNoCount`, `PostedWithoutCountIsUnpayable`);
- the `expect`s when turning a transfer into a feed row are `TransfersShowable` of the
  transfer queries' rows, equivalent to `FeedShowable` of the account
  (`TransactionRoutes.QueryShowable`). No member proves it of a reachable ledger. The
  transfer and account routes that would have to maintain it are not part of this model.

Behaviours of the code that are modelled as written:

- **Transfers in the feed.** `create_transaction_from_transfer` picks the origin account only
  for the `Expense` category type. The feed passes `TransferExpense` for outgoing transfers, so
  both outgoing and incoming transfer rows name the destination account
  (`TransactionRoutes.FeedOutgoingRows`).
- **Month stepping.** The first generation's `add_one_month_to_naive_date_time` adds the
  length of the *following* month, so January 1st of a common year steps to January 29th.
  It also tests the year, not the month, against 12, so a step taken in the year 12 measures
  a month of the year 13. This is `MonthWalker.JanuaryFirstStepsToJanuary29` and
  `MonthWalker.YearTwelveJanuaryAddsTwentyEight`.
- **Legacy transaction pay.** The first generation's scheduled-transaction pay records every
  payment at the schedule's creation date, not its next date
  (`LegacyScheduledTransactions.PaysRepeatTheCreationDate`).
- **Legacy update.** The first generation's update of a scheduled transaction does not write
  `infinite_repeat` (`LegacyStore.UpdateTransaction`).

## Model

| member | source | states |
|---|---|---|
| Categories.AsStr | src/category.rs:10-15 | the two category types have the names "Expense" and "Income", and parsing the name gives the type back |
| Categories.FromStr | src/category.rs:17-23 | exactly "Expense" and "Income" parse, to their types; every other string gives None |
| Categories.New | src/category.rs:34-40 | a new category has the type and name given and an empty id |
| Categories.NewWithId | src/category.rs:42-48 | the type, name and id are kept; with an empty id it is the same category `new` builds |
| Accounts.New | src/account.rs:13-18 | a new account has the name given, no transactions and balance 0 |
| Accounts.AddTransaction | src/account.rs:20-22 | adding keeps the earlier transactions in order and puts the new one last |
| Accounts.Balance | src/account.rs:24-35 | the loop's total is the Income values minus the Expense values |
| Accounts.AddTransactionMovesBalance | src/account.rs:20-35 | adding an Income transaction raises the balance by its value; adding an Expense lowers it by its value |
| Accounts.BalanceOrderIndependent | src/account.rs:24-35 | two accounts holding the same transactions in any order have the same balance |
| Calendar.CivilFromDays | src/utils.rs:32-46 | every day number is the number of exactly one valid civil date, the one returned |
| Calendar.CivilRoundTrip | src/utils.rs:32-46 | a valid date converted to its day number and back is the same date |
| Calendar.DayNumberInjective | src/utils.rs:32-46 | two valid dates with the same day number are equal |
| Calendar.AddDays | src/utils.rs:48-50 | adding n days moves the instant by n·86400 seconds and keeps the time of day |
| Calendar.ShiftMonths | src/utils/mod.rs:21-26 | shifting by n months moves the year·12+month index by n, clamps the day to the target month's length, keeps the time of day, and shifting by 0 is the identity |
| Recurrence.CalculateNextDate | src/utils/mod.rs:13-32 | a one-off keeps its date; count 0 keeps the date; Days and Weeks move the day by count·interval (times 7 for weeks); Months and Years move the month index by count·interval (times 12 for years); the time of day is kept |
| Recurrence.WeeksAreSevenDays | src/utils.rs:11-30 | every n weeks is the same date as every 7·n days |
| Recurrence.OnlyTheProductMatters | src/utils.rs:11-30 | the next date depends on count and interval only through their product |
| Recurrence.DaysAndWeeksMonotone | src/utils/mod.rs:13-19 | with a non-negative interval, later repeats of a Days or Weeks schedule never fall earlier |
| MonthWalker.GetDaysFromMonth | src/utils.rs:32-46 | a month lasts 28–31 days: February 29 exactly in leap years, April, June, September and November 30, the rest 31 |
| MonthWalker.AddOneMonth | src/utils.rs:74-90 | one step adds 28 to 31 days and keeps the time of day |
| MonthWalker.AddOneMonthAddsFollowingMonth | src/utils.rs:74-90 | outside year 12, one step adds the length of the month after the date's month |
| MonthWalker.YearTwelveJanuaryAddsTwentyEight | src/utils.rs:78-82 | in January of year 12 a step adds 28 days, not the 29 of that leap February |
| MonthWalker.JanuaryFirstStepsToJanuary29 | src/utils.rs:74-90 | in a common year, one month after January 1st is January 29th |
| MonthWalker.DecemberStepAddsJanuary | src/utils.rs:83-86 | a step from December adds 31 days, January's length |
| MonthWalker.MonthStepsBounds | src/utils.rs:64-72 | k steps add between 28·k and 31·k days and keep the time of day |
| MonthWalker.MonthStepsAdditive | src/utils.rs:64-72 | a steps after b steps are a+b steps |
| MonthWalker.AddMonthsToNaiveDateTime | src/utils.rs:64-72 | the loop applies the one-month step `months` times, none for a non-positive count |
| MonthWalker.AddYearsToNaiveDateTime | src/utils.rs:52-62 | the nested loops apply the one-month step twelve times per year |
| Database.GetAccount | src/database/accounts.rs:36-43 | an account is found exactly when it exists and belongs to the user |
| Database.GetCategory | src/database/categories.rs:46-53 | a category is found exactly when it exists and belongs to the user |
| Database.InsertTransaction | src/database/transactions.rs:18-25 | the row is appended unchanged under the counter's id, which no stored transaction has in a valid ledger; the counter advances, the ledger stays valid and nothing else changes |
| Database.InsertTransfer | src/database/transfers.rs:6-13 | the row is appended unchanged under the counter's id, which no stored transfer has in a valid ledger; the counter advances, the ledger stays valid and nothing else changes |
| Database.JoinedOf | src/database/transactions.rs:27-39 | exactly the user's transactions on the account whose category and account rows exist, each with its own category and account: every returned row qualifies and every qualifying transaction is returned |
| Database.TransfersOf | src/database/transfers.rs:15-33 | exactly the user's transfers leaving (or entering) the account: every returned transfer qualifies and every qualifying transfer is returned |
| Joins.CreateScheduledTransactionJoin | src/utils/mod.rs:61-152 | the join succeeds exactly when the accounts (and category) its kind needs exist for the owner; the result names them, and leaves the other kind's columns empty |
| Joins.CreateTransactionJoin | src/utils/mod.rs:154-173 | a feed row carries the transaction's columns with its category's and account's names and no transfer origin |
| Joins.CreateTransactionFromTransfer | src/utils/mod.rs:34-59 | a transfer's feed row is on the origin account only for the Expense type and otherwise on the destination; it names the origin as "from" and carries no category |
| Balance.SignedTotal | src/utils/mod.rs:180-189 | the loop over joined transactions gives the Income values minus the Expense values; transfer categories add nothing |
| Balance.TransferTotal | src/utils/mod.rs:193-201 | the loops over transfers give the sum of their values |
| Balance.GetAccountBalance | src/utils/mod.rs:175-204 | the balance is the account's Income minus Expense transactions, minus what leaves in transfers, plus what enters |
| Balance.BalanceOrderIndependent | src/utils.rs:249-278 | the balance does not depend on the order the queries return rows in |
| Balance.TransferCategoriesCountNothing | src/utils.rs:254-263 | transactions whose category is a transfer type do not change the balance |
| ScheduleStore.GetScheduled | src/database/scheduled_transactions.rs:37-45 | a scheduled row is found exactly when it exists and belongs to the user |
| ScheduleStore.InsertScheduled | src/database/scheduled_transactions.rs:17-24 | the row is stored under the next serial id, readable by its owner, and every earlier row is kept |
| ScheduleStore.UpdateScheduled | src/database/scheduled_transactions.rs:47-69 | the update happens exactly when the user owns the row; only that row changes, to the new columns under the same id and the same owner (the update sets no `user_id`), and the user reads it back |
| ScheduleStore.DeleteScheduled | src/database/scheduled_transactions.rs:71-76 | the delete happens exactly when the user owns the row; it returns the row, and afterwards no user can read it |
| ScheduleValidator.ValidateRepeat | src/routes/scheduled_transactions.rs:120-170 | the repeat columns pass exactly when a repeating schedule has a frequency, an interval, and an end or infinite flag; the result starts at count 0 with next date equal to the creation date |
| ScheduleValidator.ValidateScheduledTransaction | src/routes/scheduled_transactions.rs:120-244 | a payload passes exactly when its repeat rules and its kind's account rules hold (a transfer needs two distinct accounts of the user); the stored row names exactly the accounts its kind needs |
| ScheduleValidator.WellFormedIsPayable | src/routes/scheduled_transactions.rs:79-92 | every row the validator can produce can be paid without a panic |
| ScheduledTransactions.Materialize | src/routes/scheduled_transactions.rs:24-72 | the payment is written exactly when its payload is complete and names the user's accounts (and category); a transaction answers BadRequest for a missing id and NotFound for a foreign one, a transfer BadRequest for both |
| ScheduledTransactions.RecordedKeepsAcceptance | src/routes/scheduled_transactions.rs:24-72 | recording a payment adds exactly one ledger row and leaves accounts and categories untouched |
| ScheduledTransactions.Pay | src/routes/scheduled_transactions.rs:15-118 | a missing schedule is NotFound with nothing changed; an accepted payment is recorded; a one-off or final repeat is deleted, otherwise the count goes up by one and the next date is recomputed from the creation date; InternalServerError never happens |
| ScheduledTransactions.PayStep | src/routes/scheduled_transactions.rs:79-116 | paying a repeating schedule before its end leaves it readable, one repeat further on, with one more ledger row |
| ScheduledTransactions.PaysAdvance | src/routes/scheduled_transactions.rs:79-116 | k accepted payments before the end advance the schedule by k repeats and add k ledger rows |
| ScheduledTransactions.LastPay | src/routes/scheduled_transactions.rs:81-84 | paying the final repeat deletes the schedule and adds one ledger row |
| ScheduledTransactions.FinitePaysRetire | src/routes/scheduled_transactions.rs:79-92 | a schedule ending after n more repeats is still there after n−1 payments and gone after n, with n ledger rows written |
| ScheduledTransactions.OneOffPaysOnce | src/routes/scheduled_transactions.rs:75-77 | a one-off is returned and deleted by its first payment; a second payment is NotFound |
| ScheduledTransactions.Post | src/routes/scheduled_transactions.rs:246-263 | BadRequest exactly when validation fails; otherwise the validated row is stored under the next id and is payable |
| ScheduledTransactions.GetWithId | src/routes/scheduled_transactions.rs:309-326 | NotFound exactly when the user has no such schedule; the join succeeds when its accounts exist and carries the stored repeat columns |
| ScheduledTransactions.PostThenGet | src/routes/scheduled_transactions.rs:246-326 | reading back a posted schedule gives what the post returned |
| ScheduledTransactions.Patch | src/routes/scheduled_transactions.rs:265-298 | NotFound for a missing schedule, BadRequest for an invalid payload, and otherwise the row is replaced by the validated payload (count reset to 0, next date the creation date) and stays payable |
| ScheduledTransactions.Delete | src/routes/scheduled_transactions.rs:328-337 | NotFound exactly when the user has no such schedule; otherwise it is returned and can no longer be read |
| ScheduleListing.JoinAll | src/controllers/scheduled_transactions.rs:11-20 | the joined rows exist exactly when every row joins, one per row in query order |
| ScheduleListing.QueryJoinsResolve | src/database/scheduled_transactions.rs:26-35 | some row of the user's listing query fails to join exactly when some stored schedule of the user does |
| ScheduleListing.QueryJoinsCover | src/controllers/scheduled_transactions.rs:11-20 | the joins of the query's rows are the joins of the user's stored schedules, every one present, none twice |
| ScheduleListing.SortedJoinsCover | src/controllers/scheduled_transactions.rs:11-23 | any reordering of those joins still holds each of the user's schedules exactly once |
| ScheduleListing.GetAllScheduledTransactions | src/controllers/scheduled_transactions.rs:6-26 | over the user's listing query: None exactly when some schedule the user owns does not join; otherwise one entry per owned schedule (its join), none twice, a permutation of the joined rows, newest creation date first, equal dates in reverse query order |
| Sorting.NewestFirst | src/controllers/scheduled_transactions.rs:22-23 | sort-by-key then reverse is a permutation, in non-increasing key order, with equal keys in reverse input order |
| Sorting.SortIsStable | src/controllers/scheduled_transactions.rs:22 | sorting keeps the order of elements with equal keys |
| Sorting.InsertSorted | src/controllers/scheduled_transactions.rs:22 | inserting into a sorted sequence keeps it sorted |
| TransactionRoutes.TransactionRows | src/routes/transactions.rs:44-46 | the first loop gives one feed row per joined transaction, in query order |
| TransactionRoutes.TransferRows | src/routes/transactions.rs:50-58 | the transfer loops give one feed row per transfer, in query order |
| TransactionRoutes.FeedTransactionRows | src/routes/transactions.rs:40-46 | the feed starts with the account's transactions, each on its own account and category |
| TransactionRoutes.FeedOutgoingRows | src/routes/transactions.rs:48-52 | outgoing transfers follow as TransferExpense rows on the destination account, from the origin |
| TransactionRoutes.FeedIncomingRows | src/routes/transactions.rs:54-58 | incoming transfers come last as TransferIncome rows on the destination account, from the origin |
| TransactionRoutes.QueryShowable | src/utils/mod.rs:34-41 | every transfer the two transfer queries return can be shown exactly when the account's feed can |
| TransactionRoutes.QueryFeedPermutation | src/routes/transactions.rs:40-58 | whatever order the three queries return rows in, the unsorted feed holds the same rows |
| TransactionRoutes.GetTransactions | src/routes/transactions.rs:36-67 | over the three query results: NotFound exactly when the user has no such account; otherwise the feed rows, newest date first, equal dates in reverse feed order, and the same rows whatever order the queries returned |
| TransactionRoutes.Post | src/routes/transactions.rs:12-34 | NotFound when the account or the category is not the user's; otherwise the row is appended under the ledger's counter id, which no stored transaction has, and a valid ledger stays valid |
| TransactionRoutes.PostedTransactionInFeed | src/routes/transactions.rs:12-67 | a posted transaction shows in its account's feed, whatever order the feed's queries return |
| LegacyStore.GetTransfer | src/db_scheduled_transfers.rs:38-47 | a scheduled transfer is found exactly when it exists and belongs to the user |
| LegacyStore.InsertTransfer | src/db_scheduled_transfers.rs:17-24 | the row is stored under the next serial id and is readable by its owner |
| LegacyStore.UpdateTransfer | src/db_scheduled_transfers.rs:49-68 | the update happens exactly when the user owns the row; only that row changes, keeping its id and owner (the update sets no `user_id`), and the user reads it back |
| LegacyStore.DeleteTransfer | src/db_scheduled_transfers.rs:70-75 | the delete happens exactly when the user owns the row, which no user can read afterwards |
| LegacyStore.GetTransaction | src/db_scheduled_transactions.rs:40-51 | a scheduled transaction is found exactly when the user owns it and its category and account rows exist (inner joins) |
| LegacyStore.InsertTransaction | src/db_scheduled_transactions.rs:17-24 | the row is stored under the next serial id, owned by its user |
| LegacyStore.UpdateTransaction | src/db_scheduled_transactions.rs:53-71 | the update writes every column except infinite_repeat and the owner, which keep their stored values, so the user still owns the row |
| LegacyStore.DeleteTransaction | src/db_scheduled_transactions.rs:73-78 | the delete happens exactly when the user owns the row, which no user can own afterwards |
| LegacyJoins.CreateScheduledTransferJoin | src/utils.rs:119-151 | the join succeeds exactly when both accounts are the owner's and names them |
| LegacyJoins.CreateLegacyScheduledTransactionJoin | src/utils.rs:201-226 | the join carries the schedule's columns with its category's and account's ids and names |
| LegacyJoins.ScheduledTransactionToJoin | src/utils.rs:153-175 | a listing entry of type Transaction names its account and no transfer accounts |
| LegacyJoins.ScheduledTransferToJoin | src/utils.rs:177-199 | a listing entry of type Transfer names both accounts and no single account |
| LegacyScheduledTransfers.Pay | src/routes_scheduled_transfers.rs:15-82 | NotFound for a missing schedule or a foreign payload account, with nothing changed; otherwise the transfer is recorded, a one-off or final repeat is deleted, and a running schedule goes one repeat further with its next date recomputed |
| LegacyScheduledTransfers.PayKeepsWellFormed | src/routes_scheduled_transfers.rs:43-72 | paying a well-formed schedule that keeps running leaves it well formed with the count up by one |
| LegacyScheduledTransfers.ValidateScheduledTransfer | src/routes_scheduled_transfers.rs:84-152 | the payload passes exactly when its repeat rules hold; the row copies its fields, starts at count 0 and next date the creation date |
| LegacyScheduledTransfers.Post | src/routes_scheduled_transfers.rs:155-172 | NotFound exactly when an account is not the user's, BadRequest when the repeat rules fail; otherwise the row is stored under the next id and can be paid without a panic |
| LegacyScheduledTransfers.GetWithId | src/routes_scheduled_transfers.rs:175-187 | every failure is NotFound; success exactly when the user owns the schedule and both its accounts resolve |
| LegacyScheduledTransfers.Patch | src/routes_scheduled_transfers.rs:190-217 | NotFound when the schedule or an account is missing; otherwise the validated payload replaces the row but the stored repeat count is kept |
| LegacyScheduledTransfers.PatchToRepeatingKeepsNoCount | src/routes_scheduled_transfers.rs:190-217 | patching a one-off into a repeating schedule leaves it without a count, so its next payment would panic |
| LegacyScheduledTransfers.Delete | src/routes_scheduled_transfers.rs:220-225 | NotFound exactly when the user has no such schedule; otherwise it is returned and can no longer be read |
| LegacyScheduledTransactions.Advance | src/routes_scheduled_transactions.rs:42-57 | Days moves the next date by interval days, Weeks by 7·interval days; Months and Years take 28 to 31 days per month stepped; the time of day is kept |
| LegacyScheduledTransactions.Pay | src/routes_scheduled_transactions.rs:16-81 | NotFound for a missing schedule; otherwise a transaction is recorded, and the schedule is deleted when the count reaches its end or else counted and advanced |
| LegacyScheduledTransactions.PaysRepeatTheCreationDate | src/routes_scheduled_transactions.rs:22-31 | two successive payments record the same date, the schedule's creation date |
| LegacyScheduledTransactions.StepMatchesAnchoredDaysAndWeeks | src/routes_scheduled_transactions.rs:44-49 | for days and weeks, stepping the stored next date agrees with recomputing it from the creation date |
| LegacyScheduledTransactions.PayTracksAnchoredDaysAndWeeks | src/routes_scheduled_transactions.rs:33-76 | a day- or week-based schedule whose next date is on the anchored grid stays on it after a payment |
| LegacyScheduledTransactions.Post | src/routes_scheduled_transactions.rs:84-111 | NotFound unless the account and category are the user's; otherwise the row is stored under the next id |
| LegacyScheduledTransactions.PostedWithoutCountIsUnpayable | src/routes_scheduled_transactions.rs:84-111 | a schedule posted without a repeat count would panic on its first payment |
| LegacyScheduledTransactions.GetWithId | src/routes_scheduled_transactions.rs:127-132 | every failure is NotFound; success exactly when the schedule and its rows exist, naming its account and category |
| LegacyScheduledTransactions.GetScheduledTransactions | src/routes_scheduled_transactions.rs:114-124 | one joined entry per queried row, in query order: the entry the by-id read builds from that row, so with its account and category ids (and `ListingAgreesWithGet` applies to the result) |
| LegacyScheduledTransactions.ListingAgreesWithGet | src/routes_scheduled_transactions.rs:114-132 | every listed entry is what reading that schedule by id returns |
| LegacyScheduledTransactions.Patch | src/routes_scheduled_transactions.rs:135-165 | NotFound unless the account, category and schedule are the user's; otherwise the row is rewritten with its stored infinite-repeat flag kept |
| LegacyScheduledTransactions.Delete | src/routes_scheduled_transactions.rs:168-173 | NotFound exactly when the user has no such schedule; otherwise it is returned and can no longer be read |
| LegacyListing.TransferEntries | src/controller_scheduled_transactions.rs:17-27 | the transfer entries exist exactly when every scheduled transfer joins, one per row in query order |
| LegacyListing.TransactionEntriesFromStore | src/controller_scheduled_transactions.rs:12-15 | every transaction entry is the entry of a scheduled transaction of the user, none twice |
| LegacyListing.TransactionEntriesComplete | src/db_scheduled_transactions.rs:26-38 | every scheduled transaction the user's query finds has its entry |
| LegacyListing.TransferEntriesFromStore | src/controller_scheduled_transactions.rs:17-27 | every transfer entry is the entry of a scheduled transfer of the user, none twice |
| LegacyListing.TransferEntriesComplete | src/db_scheduled_transfers.rs:26-36 | every scheduled transfer of the user has its entry when all of them join |
| LegacyListing.TransferQueryResolves | src/db_scheduled_transfers.rs:26-36 | a row of the transfers query fails to join exactly when a scheduled transfer of the user does |
| LegacyListing.EntryTypes | src/utils.rs:153-199 | transaction entries have type Transaction, transfer entries type Transfer |
| LegacyListing.MergedDistinct | src/controller_scheduled_transactions.rs:10-27 | a transaction and a transfer entry never clash, since their types differ even when their ids agree |
| LegacyListing.MergedListsUserSchedules | src/controller_scheduled_transactions.rs:6-27 | the merged entries list the user's schedules: one per schedule, nothing else, none twice |
| LegacyListing.ListsUserSchedulesPermutation | src/controller_scheduled_transactions.rs:29-30 | reordering the entries keeps them a listing of the user's schedules |
| LegacyListing.GetAllScheduledTransactions | src/controller_scheduled_transactions.rs:6-33 | over the user's two queries: None exactly when some scheduled transfer of the user does not join; otherwise one entry per scheduled transaction found and per scheduled transfer, none twice, newest creation date first, equal dates in reverse of the merged order |
| LegacyListing.EntriesAreTagged | src/utils.rs:153-199 | every merged entry's type agrees with the accounts it names |

## Left out

- HTTP routing, JSON, authentication and the database connection are left out. The user id
  is a parameter. The `app_users` inner join in the first generation's queries is left out:
  it cannot drop a row whose owner is the caller.
- Where a query's `order by` leaves rows tied, or it has none, the database's order is not
  fixed. The listing routes take the query results as `seq` parameters, and their ordering
  contracts are stated relative to the order given.
- Dates are compared to the second. chrono's sub-second part is not modelled, so rows that
  differ only below the second count as equal dates in every sort.
- `TransactionRoutes.GetTransactions`: the `expect`s in `create_transaction_from_transfer`
  (`src/utils/mod.rs:37-41`) are assumed not to fire. The route requires that every returned
  transfer's accounts exist for the user. A ledger where they do not, which would abort the
  request, is outside its contract.
- The model uses unbounded integers. `i32` overflow of ids, values, counts and balances, and
  `i64` overflow of the in-memory balance, are not modelled.
- chrono panics on out-of-range dates are not modelled. `Calendar.ShiftMonths` relies on
  chronoutil clamping the day to the target month's length. The crate is not part of this
  model.
- `sort_by_key` is modelled as a stable insertion sort on sequences. It has the same result
  as any stable sort: non-decreasing keys with equal keys in input order.
- The `InternalServerError` branches after an update or a join of a row just validated are
  modelled, and the contracts prove them unreachable.
- The first-generation route files do not match the structs beside them:
  - `NewScheduledTransaction` literals omit `infinite_repeat`;
  - `PostScheduledTransaction` lacks the count and next date the post route copies;
  - `NewScheduledTransfer` in `models_db.rs` has other fields.
  The model follows what the route code reads and writes.
- `LegacyScheduledTransactions.Post`: it stores no infinite-repeat flag, because the route's
  literal sets none.
- Neither validator checks that the interval is at least 1, and the model does not add that
  check. `Recurrence.DaysAndWeeksMonotone` assumes a non-negative interval.
- `LegacyScheduledTransactions.StepMatchesAnchoredDaysAndWeeks`: stepping by months
  (`MonthWalker`) and shifting from the creation date (`Calendar.ShiftMonths`) differ, so
  the agreement is proved for days and weeks only.
- `Recurrence.CalculateNextDate`: for Months and Years the contract states the month index
  and, through `Calendar.ShiftMonths`, the clamped day, not a closed form of the date.
- `ScheduledTransactions.PayTimes` and `PayOnce` exist only for stating repeated payments.
  They are not source operations.
- `routes.rs` and `routes_transactions.rs` repeat the feed and balance logic of
  `routes/transactions.rs` and `utils.rs`. They are modelled once.
- The transfer and account CRUD routes, and the get, patch and delete routes of a single
  ledger transaction (`src/routes/transactions.rs:69-110`), are not scheduled obligations and
  are not modelled. The ledger's serial counters allow for the gaps a deletion leaves.
  Likewise the auth, JWT and category routes.
