# envelope-buddy in Dafny

envelope-buddy is a Discord bot for envelope budgeting. Each envelope has an
allocation for the month and a running balance. An envelope is either
*shared* (no owner) or *individual* (one owner, a Discord user id). Spending
and deposits are logged as transactions. Products are named unit prices
charged to an envelope. A monthly update either resets each balance to the
allocation or rolls the allocation over onto the balance.

The repository holds two generations of the same bot, and this project models
both as separate module families.

* **The rusqlite generation**: the store under `src/db/`, and the command
  handlers under `src/commands/`.
  * Store modules: `StoreV1`, `EnvelopesV1`, `TransactionsV1`,
    `SystemStateV1`, `ProductsV1`.
  * Handler modules: `UtilsV1`, `EnvelopeCommandsV1`,
    `TransactionCommandsV1`, `ProductCommandsV1`.
  * `src/db.rs` and `src/commands.rs` are older copies of the same functions.
    Each operation is modelled once, and the rows below cite both copies
    where they hold the same code.
* **The sea-orm generation**: the core under `src/core/`, and the bot
  commands under `src/bot/commands/`.
  * Core modules: `StoreV2`, `EnvelopeCore`, `TransactionCore`,
    `MonthlyCore`, `ProductCore`, `ReportCore`.
  * Bot command modules: `EnvelopeBot`, `ProductBot`, `TransactionBot`.
* **Shared helpers**:
  * `Wrappers` (Option and Result);
  * `Floats` (the `f64` values the program tests for NaN and infinity, plus
    `clamp` and `round`);
  * `Text` (trim, zero padding, string order);
  * `Sorting` (filters, ORDER BY, dedup);
  * `Calendar` (proleptic Gregorian dates, `%Y-%m-%d` text and parsing).

## How the model is built

* **The database is a `class Store`.** Its tables are `seq` fields, plus the
  next id of each table. `Valid()` is the invariant the schema and the code
  keep between them. It differs per store:
  * in the rusqlite store (`StoreV1.Store.Valid`), ids are distinct and below
    the next id in every table; no two envelope rows, soft-deleted ones
    included, share a name and owner; an envelope is individual exactly when
    it has an owner; product names are distinct; every transaction and
    product names an envelope row; and no two system-state rows share a key;
  * in the sea-orm store (`StoreV2.Store.Valid`), ids are distinct and below
    the next id in every table, and every transaction names an envelope row.
    Nothing ties a product to an envelope, and nothing makes names or the
    system-state key unique there.
* **Each operation that writes is a method.** It `modifies` the store, and
  its `ensures` states the whole new state through specification functions:
  `AddToBalance`, `Upsert`, `RollAll`, `MarkDeleted` and others. Each method
  keeps `Valid()`.
* **Each refusal is a pure function.** Examples are `CreateRefusal`,
  `UpdateRefusal` and `PriceCheck`. It returns the first error in the
  source's own order, so the error paths are stated as exactly as the
  successes.
* **A Discord reply is a constructor of a reply datatype.** The text the bot
  prints is not modelled.
* **The outside world is passed in as parameters:**
  * the clock (`now`, `today`);
  * the configured users and nicknames;
  * the failure of a store write (`failAt`, the index of the write that
    fails).

## Model

| member | source | states |
|---|---|---|
| StoreV1.Store.constructor | src/db/schema.rs:6-57 | a fresh database has empty tables and satisfies the store invariant |
| StoreV1.KeyUnique | src/db/schema.rs:25-33 | in a valid envelope table, two rows with one name and one owner are the same row, soft-deleted rows included; the older copy at src/db.rs:52-60 is the same |
| EnvelopesV1.InstanceMatchIsKey | src/db/envelopes.rs:396-404 | on rows where individual means owned, the `IFNULL(user_id,'')` lookup with the individual flag is exactly the lookup by (name, owner) |
| EnvelopesV1.InsertEnvelope | src/db/schema.rs:11-33 | an insert is refused for a taken (name, owner); otherwise it appends the row with the next id and leaves the other rows alone |
| EnvelopesV1.UserOrShared | src/db/envelopes.rs:194-246 | the active row of that name owned by the caller if one exists, else the active shared row; never a deleted row; the older copy at src/db.rs:271-323 is the same |
| EnvelopesV1.UserOrSharedNeverForeign | src/db/envelopes.rs:1220-1293 | on a valid table the lookup never returns another user's individual envelope |
| EnvelopesV1.ActiveById | src/db/envelopes.rs:249-274 | the active row with that id, or none when the id is missing or deleted |
| EnvelopesV1.AllActive | src/db/envelopes.rs:161-191 | exactly the active rows, ordered by name and then owner |
| EnvelopesV1.WithBalance | src/db/envelopes.rs:277-294 | the row with that id gets the new balance, and every other field and row is kept |
| EnvelopesV1.WithBalanceValid | src/db/envelopes.rs:277-294 | a balance write keeps the table valid |
| EnvelopesV1.UpdateEnvelopeBalance | src/db/envelopes.rs:277-294 | the store's envelope table becomes `WithBalance`, and nothing else changes; the older copy at src/db.rs:326-343 is the same |
| EnvelopesV1.ManageSkipsActive | src/db/envelopes.rs:411-420 | with an active instance of that name and owner, the outcome is Skipped and the table is unchanged |
| EnvelopesV1.ManageReenablesDeleted | src/db/envelopes.rs:449-503 | a soft-deleted instance comes back active; omitted attributes keep their old values; the balance becomes the effective allocation; no other row changes; the older copy at src/db.rs:611-614 is the same |
| EnvelopesV1.ManageCreatesNew | src/db/envelopes.rs:504-550 | with no row of that name and owner, one active row is appended with the next id, defaults "uncategorized"/0/false, and balance equal to the allocation; the older copy at src/db.rs:650-653 is the same |
| EnvelopesV1.ManageRefusesFlagChange | src/db/envelopes.rs:460-473 | with no active row of that key, a request whose individual flag contradicts the owner (individual without a user, shared with one) is refused with the flag-mismatch error |
| EnvelopesV1.ManagePreservesValid | src/db/envelopes.rs:384-550 | every success keeps the table valid and leaves an active row of that name and owner |
| EnvelopesV1.ManageConsistentSucceeds | src/db/envelopes.rs:384-550 | consistent arguments on a valid table never give an error |
| EnvelopesV1.ManageKeepsOtherRows | src/db/envelopes.rs:384-550 | rows of another name or another owner are untouched |
| EnvelopesV1.ManageInstance | src/db/envelopes.rs:384-550 | the method's result and new table are those of the instance step |
| EnvelopesV1.CreateOrReenableEnvelope | src/db/envelopes.rs:563-625 | a shared request runs one instance step, an individual one runs user 1's and then user 2's, and any error restores the table as it was; the older copy at src/db.rs:694-756 is the same |
| EnvelopesV1.CreateOrReenableCommits | src/db/envelopes.rs:595-622 | on a valid table the request always commits and stays valid; every requested owner ends with an active row of that name; other names are untouched |
| EnvelopesV1.SeedKeepsActive | src/db/envelopes.rs:35-50 | seeding an instance whose row is active changes nothing |
| EnvelopesV1.SeedReactivates | src/db/envelopes.rs:62-76 | seeding a soft-deleted instance re-activates it, with the configured category, allocation, rollover and a balance equal to the allocation |
| EnvelopesV1.SeedInstanceValid | src/db/envelopes.rs:23-152 | seeding keeps the table valid and leaves an active row for the instance |
| EnvelopesV1.SeedOne | src/db/envelopes.rs:23-152 | the store method computes the instance step's table |
| EnvelopesV1.SeedEstablishesConfig | src/db/envelopes.rs:11-158 | after seeding, every configured entry has an active row per owner (both users for an individual entry); rows that were active stay active; the table stays valid |
| EnvelopesV1.SeedInitialEnvelopes | src/db/envelopes.rs:11-158 | the store method runs every entry in order; the older copy at src/db.rs:88-235 is the same |
| EnvelopesV1.SeedTwoConfigsGivesThreeRows | src/db/envelopes.rs:699-774 | one shared and one individual entry seeded into an empty table give exactly three active rows: shared, user 1, user 2 |
| EnvelopesV1.AllActiveOfActive | src/db/envelopes.rs:161-191 | when every row is active the listing holds all of them |
| EnvelopesV1.SoftDeleteTarget | src/db/envelopes.rs:297-370 | a row found is active, has that name, and is the caller's own or a shared one; the caller's own active row is always found |
| EnvelopesV1.SoftDeleteFindsUserOrShared | src/db/envelopes.rs:334-369 | on a valid table, soft delete refuses only when no own or shared active row of that name exists |
| EnvelopesV1.SoftDeleteTwice | src/db/envelopes.rs:857-861 | after a delete the deleted key is no longer active, and a second delete finds a row exactly when the one deleted was the caller's own and an active shared row of that name exists |
| EnvelopesV1.MarkDeletedEffect | src/db/envelopes.rs:344-354 | marking one row deleted keeps the table valid and deactivates exactly its key |
| EnvelopesV1.SoftDeleteEnvelope | src/db/envelopes.rs:297-370 | the store method marks the target row deleted and answers whether it found one; the older copy at src/db.rs:456-529 is the same |
| TransactionsV1.CreateTransaction | src/db/transactions.rs:8-40 | exactly one row is appended with the next id and the given envelope, amount, description, user, message id, type and date, and that id is returned; no balance changes; only an envelope id naming no row is refused, with a foreign-key violation; the older copy at src/db.rs:346-378 is the same |
| TransactionsV1.PrunedIffEarlier | src/db/transactions.rs:52-57 | for printable dates, comparing the date texts is comparing the dates |
| TransactionsV1.PruneOldTransactions | src/db/transactions.rs:43-64 | deletes the selected rows and returns their number; the older copy at src/db.rs:407-428 is the same |
| TransactionsV1.PruneKeepsExactlyLaterRows | src/db/transactions.rs:43-64 | exactly the rows dated before the cutoff are gone; every row on or after it stays unaltered; the count is the number removed |
| TransactionsV1.MonthSpendingIsTotalOfSelected | src/db/transactions.rs:67-89 | the month's spending is the sum of exactly the `spend` rows of that envelope in that month; the older copy at src/db.rs:431-453 is the same |
| TransactionsV1.MonthSpendingNoneSelected | src/db/transactions.rs:78-82 | with no matching row the sum is 0 |
| TransactionsV1.MonthSpendingAfterAppend | src/db/transactions.rs:78-82 | a new row adds its amount exactly when it is a spend of that envelope in that month; deposits and other envelopes do not count |
| TransactionsV1.MonthKeySelectsMonth | src/db/transactions.rs:76-80 | the zero-padded `YYYY-MM` key selects exactly the rows of that calendar month |
| SystemStateV1.StateValue | src/db/system_state.rs:7-15 | the value of the row with the key, or none when no row holds it |
| SystemStateV1.Upsert | src/db/system_state.rs:18-30 | the table keeps its length when the key is present and grows by one row otherwise |
| SystemStateV1.SetSystemStateValue | src/db/system_state.rs:18-30 | the store's state table becomes the upsert, and the other tables are unchanged; the older copy at src/db.rs:392-404 is the same |
| SystemStateV1.GetAfterSet | src/db/system_state.rs:18-30 | after a set, a get of that key returns the value written |
| SystemStateV1.SetKeepsOtherKeys | src/db/system_state.rs:23-27 | a set leaves every other key's value unchanged |
| SystemStateV1.UpsertKeepsKeysUnique | src/db/schema.rs:50 | a set never creates a second row for a key |
| ProductsV1.Join | src/db/products.rs:36-66 | a product joined with its envelope's name, or none when no envelope row matches |
| ProductsV1.Joined | src/db/products.rs:95-125 | the joined rows in table order; a product without an envelope drops out |
| ProductsV1.ProductByName | src/db/products.rs:36-66 | the joined row of the product of that name, or none |
| ProductsV1.ProductById | src/db/products.rs:69-92 | the joined row of the product with that id, or none |
| ProductsV1.ListAllProducts | src/db/products.rs:95-125 | every joined product, sorted by name, and a permutation of the join |
| ProductsV1.AllProductNames | src/db/products.rs:162-181 | the product names, sorted ascending, one per product |
| ProductsV1.ListingHasEveryProduct | src/db/products.rs:318-380 | under the catalogue invariant both listings have one entry per product |
| ProductsV1.InsertProduct | src/db/products.rs:8-33 | a negative price is refused first, then a taken name, then an envelope id naming no row; otherwise one row is appended with the next id |
| ProductsV1.AddProduct | src/db/products.rs:8-33 | the store method returns the new id, or the refusal with nothing changed |
| ProductsV1.WithPrice | src/db/products.rs:128-146 | the row with that id gets the new price, and every other row and field is kept |
| ProductsV1.UpdateProductPrice | src/db/products.rs:128-146 | a negative price is refused with nothing changed; otherwise the rows with that id are repriced and their number returned |
| ProductsV1.DeleteProductByName | src/db/products.rs:149-159 | the rows of that name are removed and their number returned |
| ProductsV1.DuplicateNameRefused | src/db/products.rs:259-265 | a second product of a taken name is refused, and the catalogue is unchanged |
| ProductsV1.AddedProductFound | src/db/products.rs:221-267 | a product just added is found by name, with its price and its envelope's name |
| ProductsV1.DeleteByNameRemovesOne | src/db/products.rs:443-487 | deleting by name removes 1 row for an existing product and 0 otherwise, and the name then no longer resolves |
| ProductsV1.UpdateUnknownIdChangesNothing | src/db/products.rs:431-437 | an update of an unknown id affects 0 rows and changes nothing |
| UtilsV1.CurrentMonthDateInfo | src/commands/utils.rs:9-30 | today's year, month and day, and the month's calendar length, in 28..31 with the day inside it; the older copy at src/commands.rs:24-45 is the same |
| UtilsV1.SpentForIndicator | src/commands/utils.rs:57 | the amount used up, `max(0, allocation - balance)`, never negative |
| UtilsV1.ExpectedPace | src/commands/utils.rs:58-63 | the daily allocation times the day; 0 without a positive allocation |
| UtilsV1.PaceWithinAllocation | src/commands/utils.rs:58-63 | within the month the pace lies between 0 and the allocation, and reaches the allocation on the last day |
| UtilsV1.PaceExample | src/commands/envelope.rs:594-599 | 500 allocated on day 15 of 31 gives the pace 7500/31, which is 241.94 to two decimals |
| UtilsV1.StatusOf | src/commands/utils.rs:65-73 | ⚪ exactly when the allocation is not positive; the older copy at src/commands.rs:80-88 is the same |
| UtilsV1.StatusBands | src/commands/utils.rs:65-73 | for a positive allocation, 🟢 never has more used than the pace, 🔴 always has more, and 🟡 lies within 10% of the pace on either side |
| UtilsV1.StatusByMoney | src/commands/utils.rs:65-73 | for a positive allocation, 🟢 exactly when ten times the used amount times the month's days is at most nine times the allocation times the day, 🔴 exactly when it exceeds eleven times that, 🟡 exactly in between; the older copy at src/commands.rs:80-88 is the same |
| UtilsV1.StatusMonotoneInBalance | src/commands/utils.rs:57-73 | a higher balance never gives a worse status |
| UtilsV1.FullEnvelopeIsGreen | src/commands/utils.rs:57-73 | an envelope holding its whole positive allocation is 🟢 |
| UtilsV1.StatusExample | src/commands/utils.rs:65-73 | on day 15 of 31 with 500 allocated, 200 used is 🟢, 250 is 🟡 and 300 is 🔴 |
| UtilsV1.OwnerLabelNamesOwner | src/commands/utils.rs:43-53 | "(Shared)" without an owner; a configured user's nickname (user 1 first); else the last four characters of the id, or the whole id when it is shorter |
| UtilsV1.ReportFieldData | src/commands/utils.rs:33-85 | the field is named by the envelope and its owner label; it carries the month's actual spending, the pace and the status judged from allocation minus balance |
| EnvelopeCommandsV1.PruneCutoff | src/commands/envelope.rs:137-141 | the cutoff is the first of the current month minus 395 days, exactly 395 days earlier |
| EnvelopeCommandsV1.MonthlyUpdate | src/commands/envelope.rs:80-164 | a month already recorded changes nothing; otherwise balance writes, then the prune, then the month key; a failure at write k leaves the first k writes in place and nothing after them; the older copy at src/commands.rs:432-516 is the same |
| EnvelopeCommandsV1.RolloverEnvelopes | src/commands/envelope.rs:120-135 | the loop writes each listed envelope's rolled balance in order and counts it; a failure at write k stops after k writes |
| EnvelopeCommandsV1.ApplyRolloversEffect | src/commands/envelope.rs:122-130 | the writes hit exactly the listed rows; a listed row gets its rolled balance and every other row is unchanged |
| EnvelopeCommandsV1.MonthlyRolloverEffect | src/commands/envelope.rs:120-135 | a full pass gives every active envelope balance + allocation (rollover) or the allocation; soft-deleted rows are untouched; the count is the number of active rows |
| EnvelopeCommandsV1.UpdateRunsOncePerMonth | src/commands/envelope.rs:88-105 | after a completed update, a later one is skipped exactly while the date stays in the same calendar month |
| EnvelopeCommandsV1.CheckCreate | src/commands/envelope.rs:212-227 | refuses, in order: a blank name, a negative given allocation, a blank given category; the older copy at src/commands.rs:581-596 is the same |
| EnvelopeCommandsV1.CreateEnvelope | src/commands/envelope.rs:188-256 | a refused check changes nothing; otherwise the result is create-or-re-enable with the two configured users, which on a valid table always succeeds with two outcomes for an individual request and one otherwise |
| EnvelopeCommandsV1.CheckEdit | src/commands/envelope.rs:378-407 | at least one attribute; an active own-or-shared envelope of that name for the target user; a user argument only for an individual one; Ok carries the id to be edited |
| EnvelopeCommandsV1.EditTargetsOwnerFirst | src/commands/envelope.rs:385-407 | on a valid table a user argument only selects that user's own individual envelope, and the edit always goes ahead when the target user has an active envelope of that name |
| TransactionCommandsV1.LedgerTarget | src/commands/transaction.rs:31-72 | refuses an amount of 0 or less, an unknown name, or another user's individual envelope; otherwise the own-or-shared envelope |
| TransactionCommandsV1.OwnerCheckIsDefensive | src/commands/transaction.rs:59-72 | on a valid table the ownership refusal never fires |
| TransactionCommandsV1.Spend | src/commands/transaction.rs:13-149 | a refusal changes nothing; otherwise balance − amount with no overdraft check, and one `spend` row of the positive amount; the older copy at src/commands.rs:105-239 is the same |
| TransactionCommandsV1.AddFunds | src/commands/transaction.rs:154-274 | a refusal changes nothing; otherwise balance + amount, and one `deposit` row of the positive amount; the older copy at src/commands.rs:244-362 is the same |
| TransactionCommandsV1.WriteAndLog | src/commands/transaction.rs:74-97 | the envelope's new absolute balance is written, then one log row with the positive amount and the direction as its type |
| TransactionCommandsV1.KeepsEnvelopeId | src/commands/transaction.rs:88-97 | the balance write keeps the envelope's id, so the log insert cannot be refused |
| TransactionCommandsV1.LoggedSpendCountsInMonth | src/commands/transaction.rs:88-97 | a logged spend in the reported month adds its amount to that month's spending; a deposit never does |
| ProductCommandsV1.CheckAddPrice | src/commands/product.rs:77-102 | refuses, in order: a blank name, a negative total, a quantity (default 1) of 0 or less; otherwise the unit price |
| ProductCommandsV1.UnitPrice | src/commands/product.rs:102 | the unit price is never negative, and times the quantity it is the total |
| ProductCommandsV1.CheckUpdatePrice | src/commands/product.rs:493-510 | a quantity (default 1) of 0 or less is refused first, then a negative total; otherwise the unit price, never negative, times the quantity gives the total |
| ProductCommandsV1.ProductAdd | src/commands/product.rs:64-189 | the checks, the author's own-or-shared envelope, then add_product with the unit price; a taken name is a reply |
| ProductCommandsV1.ProductUpdate | src/commands/product.rs:482-586 | the checks, the product by name (none is a reply), then the new unit price on that product |
| ProductCommandsV1.UpdateReachesProduct | src/commands/product.rs:503-527 | a product that resolves by name is always reached by the price write |
| ProductCommandsV1.UsePlan | src/commands/product.rs:284-381 | a plan that goes ahead has a positive quantity (default 1), is for the product of that name, and charges an active envelope |
| ProductCommandsV1.UsePlanChargesRightEnvelope | src/commands/product.rs:325-381 | a shared template is charged itself; an individual template charges the author's own envelope of that name, which is found when it exists |
| ProductCommandsV1.BalanceAfterUse | src/commands/product.rs:384-400 | the new balance is the old one minus price × quantity; an overdraft is allowed |
| ProductCommandsV1.UseProduct | src/commands/product.rs:264-461 | a refusal changes nothing; otherwise the balance drops by the cost and one `spend` row of the cost is logged, described as the product and quantity |
| ProductCommandsV1.ProductDelete | src/commands/product.rs:602-645 | "deleted" when a row went and "not found" when none did |
| EnvelopeCore.AllActive | src/core/envelope.rs:19-26 | exactly the rows that are not soft-deleted, sorted by name, as a permutation |
| EnvelopeCore.SharedByName | src/core/envelope.rs:38-60 | none for no active shared match, the row for one, and `DuplicateSharedEnvelope` with the count for more; individual rows never match |
| EnvelopeCore.ByNameAndUser | src/core/envelope.rs:69-81 | an active row of that name owned by that user, or none exactly when there is no such row |
| EnvelopeCore.ById | src/core/envelope.rs:90-98 | a row with that id (soft-deleted ones too), or none exactly when no row has it |
| EnvelopeCore.AllCategories | src/core/envelope.rs:107-121 | the categories of active rows, sorted, each exactly once; a category used only by deleted rows is absent |
| EnvelopeCore.CreateRefusal | src/core/envelope.rs:143-158 | refuses, in order: a blank name (`Config`), `allocation < 0` (`InvalidAmount`), an individual envelope without an owner |
| EnvelopeCore.CreateLetsNonFiniteThrough | src/core/envelope.rs:149-151 | NaN and +∞ pass the `< 0` test |
| EnvelopeCore.CreateEnvelope | src/core/envelope.rs:133-174 | a refusal changes nothing; otherwise one row with the next id, the trimmed name, balance 0 and not deleted |
| EnvelopeCore.TrimmedNameKept | src/core/envelope.rs:143-156 | a name that is not blank trims to a non-empty name, and trimming that name again keeps it |
| EnvelopeCore.AddToBalance | src/core/envelope.rs:207-214 | the rows with that id get the delta added, and every other row is kept |
| EnvelopeCore.AddToBalanceCompose | src/core/envelope.rs:400-421 | two updates in a row are one update by their sum, as in the test where 0, +75, +25 and −30 end at 70 |
| EnvelopeCore.AddToBalanceInverse | src/core/envelope.rs:195-224 | adding the negated delta undoes an update |
| EnvelopeCore.ByIdAfterAdd | src/core/envelope.rs:207-223 | the row read back after an update is the row before it with the delta added |
| EnvelopeCore.UpdateEnvelopeBalanceAtomic | src/core/envelope.rs:195-224 | the balance moves by the delta; the result is the updated row, or `EnvelopeNotFound` for an unknown id |
| TransactionCore.CheckAmount | src/core/transaction.rs:37-43 | 0, NaN and ±∞ are refused with `InvalidAmount`; every other amount passes |
| TransactionCore.LiveById | src/core/transaction.rs:48-59 | the envelope with that id unless it is missing or soft-deleted |
| TransactionCore.CreateRefusal | src/core/transaction.rs:37-69 | the amount check, then `EnvelopeNotFound`, then `InsufficientFunds(balance, −amount)` when balance + amount < 0; none exactly when all pass |
| TransactionCore.CreateTransaction | src/core/transaction.rs:28-92 | a refusal writes nothing; otherwise one row with the signed amount and the next id, and the balance moves by the amount |
| TransactionCore.DepositIntoOverdrawnRefused | src/core/transaction.rs:61-69 | the funds guard ignores the sign: a deposit of 20 into an envelope at −40 is refused with `InsufficientFunds(-40, -20)` |
| TransactionCore.TransactionsFor | src/core/transaction.rs:99-109 | exactly that envelope's rows, newest first, as a permutation of them |
| TransactionCore.TransactionById | src/core/transaction.rs:116-124 | the row with that id, or none exactly when no row has it |
| TransactionCore.DeleteRefusal | src/core/transaction.rs:131-153 | an unknown id is refused, then a transaction whose envelope row is gone |
| TransactionCore.DeleteTransaction | src/core/transaction.rs:131-163 | a refusal writes nothing; otherwise the row goes and its amount comes off its envelope's balance |
| TransactionCore.RemoveTransaction | src/core/transaction.rs:154-159 | the two writes: the row is deleted and its amount is subtracted from the balance |
| TransactionCore.DeleteUndoesCreate | src/core/transaction.rs:131-163 | deleting a transaction just recorded restores the log and every balance |
| TransactionCore.FirstDepositExample | src/core/transaction.rs:404-421 | 0 + 50 = 50 for a first deposit |
| MonthlyCore.LastUpdateDate | src/core/monthly.rs:76-93 | no row gives none; the stored value parsed as `%Y-%m-%d`; unparsable text gives a `Config` error |
| MonthlyCore.UpdateNeeded | src/core/monthly.rs:58-66 | needed exactly when no date is stored, or the year or the month differs from now's |
| MonthlyCore.SetLastMonthlyUpdateDate | src/core/monthly.rs:100-131 | only the system-state table changes, to the table SetDate gives, which reads back as the date written and keeps one row for the key |
| MonthlyCore.DateRoundTrip | src/core/monthly.rs:295-305 | a date written is the date read back |
| MonthlyCore.SetDateKeepsOneRow | src/core/monthly.rs:308-331 | re-setting keeps exactly one row for the key |
| MonthlyCore.UpdateOncePerMonth | src/core/monthly.rs:485-499 | once a date is written, a later check asks for an update exactly when the later date is in another month |
| MonthlyCore.ActiveInOrder | src/core/monthly.rs:165-168 | the visited envelopes are exactly the active rows, as many as the table holds |
| MonthlyCore.ProcessMonthlyUpdates | src/core/monthly.rs:147-216 | no update needed gives none and changes nothing; otherwise every active balance and then the date are written in one transaction; a failure anywhere rolls all of it back |
| MonthlyCore.RollEnvelopes | src/core/monthly.rs:171-202 | the loop writes and records each listed envelope in order, counting rollover or reset |
| MonthlyCore.WriteBalance | src/core/monthly.rs:180-184 | one envelope's balance column is written |
| MonthlyCore.MonthlyEffect | src/core/monthly.rs:459-482 | a full pass gives every active envelope its rolled balance and leaves soft-deleted ones untouched |
| MonthlyCore.SummaryCounts | src/core/monthly.rs:187-215 | total = rollover count + reset count = the number of active envelopes |
| MonthlyCore.RolloverExamples | src/core/monthly.rs:564-598 | 50 + 100 rolls to 150, 75 resets to 200, and −25 rolls to 75 |
| ProductCore.ActiveProducts | src/core/product.rs:21-28 | exactly the rows not soft-deleted, sorted by name, as a permutation |
| ProductCore.ProductByName | src/core/product.rs:37-47 | an active product of that name, or none exactly when no such row exists |
| ProductCore.ProductById | src/core/product.rs:55-63 | a product with that id, soft-deleted ones too, or none |
| ProductCore.CheckProduct | src/core/product.rs:83-95 | refuses, in order: a blank name, `price < 0`, a price that is not finite |
| ProductCore.CreateProduct | src/core/product.rs:76-109 | a refusal changes nothing; otherwise one row with the next id, the trimmed name, the price, the envelope id, not deleted |
| ProductCore.CreatedIsFound | src/core/product.rs:257-274 | a created product is found by its trimmed, non-empty name unless an older active product has it |
| ProductCore.UpdateRefusal | src/core/product.rs:122-153 | the shared checks, then an id with no row or a deleted row (`ProductNotFound`) |
| ProductCore.Revise | src/core/product.rs:155-161 | the row with that id gets the trimmed name and new price, and every other row is kept |
| ProductCore.UpdateProduct | src/core/product.rs:122-162 | a refusal changes nothing; otherwise the product table becomes `Revise` and the updated row is returned |
| ProductCore.UpdateReadBack | src/core/product.rs:296-316 | on distinct ids the row read back carries the new name and price |
| ProductCore.DeleteRefusal | src/core/product.rs:172-185 | an id with no row or a soft-deleted row is refused |
| ProductCore.MarkDeleted | src/core/product.rs:187-190 | the row with that id is marked deleted, and every other row is kept |
| ProductCore.DeleteProduct | src/core/product.rs:172-191 | a refusal changes nothing; otherwise the row is soft-deleted and stays in the table |
| ProductCore.DeleteHides | src/core/product.rs:339-356 | after a delete the product is gone from the active list and name lookups, a second delete is refused, and the row count is unchanged |
| ReportCore.CalculateProgress | src/core/report.rs:98-104 | 0 for a zero allocation; otherwise progress × allocation = balance × 100 |
| ReportCore.ProgressMeaning | src/core/report.rs:98-104 | for a positive allocation: negative exactly when overdrawn, 0 exactly when empty, 100 exactly when full |
| ReportCore.ProgressExamples | src/core/report.rs:172-204 | 100/100 is 100, 50/100 is 50, 0/100 is 0, −25/100 is −25, any balance over 0 allocation is 0 |
| ReportCore.FilledShare | src/core/report.rs:117-127 | the exact filled share of the clamped progress lies between 0 and the bar's length |
| ReportCore.BarCounts | src/core/report.rs:117-127 | filled + empty = length (default 10), and filled is the share's nearest integer |
| ReportCore.BarCountsEnds | src/core/report.rs:207-229 | at or below 0 the bar is empty, at or above 100 it is full |
| ReportCore.BarCountsMonotonic | src/core/report.rs:117-127 | more progress never fills fewer cells |
| ReportCore.ProgressBar | src/core/report.rs:117-131 | length + 2 characters: brackets, filled cells first, then empty ones |
| ReportCore.ProgressBarExamples | src/core/report.rs:207-229 | the bars of 100, 50, 0 and −25 at length 10 |
| ReportCore.SignedAmount | src/core/report.rs:141-147 | "+" exactly for amounts ≥ 0 (0 included), "−" otherwise, and the printed magnitude with the sign gives the amount back |
| ReportCore.GenerateEnvelopeReport | src/core/report.rs:44-81 | unknown id gives `EnvelopeNotFound`; otherwise the envelope, spent + remaining = allocation, the progress, and the first `limit` (default 10) rows of the envelope's newest-first listing |
| ReportCore.ReportExample | src/core/report.rs:249-269 | allocation 100 and balance 75 give 75% progress, 25 spent and 75 remaining |
| EnvelopeBot.ExpectedPercent | src/bot/commands/envelope.rs:47-75 | the elapsed share of the month in percent, day × 100 / month length; in (0, 100], and 100 exactly on the last day |
| EnvelopeBot.SpentPercent | src/bot/commands/envelope.rs:76-81 | 0 without a positive allocation; otherwise spent% × allocation = (allocation − balance) × 100 |
| EnvelopeBot.SpentComplementsProgress | src/bot/commands/envelope.rs:76-81 | the spent percentage is 100 minus the report's progress |
| EnvelopeBot.StatusByAmount | src/bot/commands/envelope.rs:76-88 | for a positive allocation and any expected percentage x, 🟢 exactly when the money spent is at most x percent of the allocation, 🔴 exactly when it exceeds x + 20 percent of it |
| EnvelopeBot.StatusOnTrackCases | src/bot/commands/envelope.rs:76-90 | no allocation, or a balance at least the allocation, is 🟢 |
| EnvelopeBot.StatusMonotonic | src/bot/commands/envelope.rs:76-90 | a lower balance never gives a better status |
| EnvelopeBot.StatusExamples | src/bot/commands/envelope.rs:84-90 | on 15 April with 100 allocated, 50 left is 🟢, 35 is 🟡 and 20 is 🔴 |
| EnvelopeBot.Resolve | src/bot/commands/envelope.rs:418-434 | the user's own envelope first, else the shared one; none exactly when neither exists; the duplicate error exactly when there is no own one and several shared ones |
| EnvelopeBot.OwnerFor | src/bot/commands/envelope.rs:340-345 | the author for an individual envelope, nobody for a shared one |
| EnvelopeBot.ExistingCheck | src/bot/commands/envelope.rs:357-371 | an active envelope of that name and owner, and the shared duplicate error for shared ones |
| EnvelopeBot.CreateEnvelopeCommand | src/bot/commands/envelope.rs:328-401 | refuses NaN, infinite and negative allocations, then an existing envelope of the name as typed, then a blank name; otherwise the row with the trimmed name is appended and returned |
| EnvelopeBot.CreateEnvelopeCommandTrimmed | src/bot/commands/envelope.rs:328-401 | the same steps with the check on the trimmed name; a created shared envelope is then the one the shared lookup finds, a created individual one the one its owner's lookup finds |
| EnvelopeBot.UntrimmedCheckAdmitsDuplicate | src/bot/commands/envelope.rs:357-362 | as written, " Food" passes the check next to an active shared "Food", and the shared lookup then reports a duplicate |
| EnvelopeBot.CommandAdmitsDuplicate | src/bot/commands/envelope.rs:357-362 | by CreateEnvelopeCommand's contract, a shared " Food" next to an active shared "Food" is created, and the shared lookup of "Food" then fails as a duplicate |
| EnvelopeBot.TrimmedCheckKeepsSharedUnique | src/core/envelope.rs:156-170 | with the check on the trimmed name, a created shared envelope is the only active shared envelope of its name |
| EnvelopeBot.TrimmedCheckFindsOwn | src/core/envelope.rs:156-170 | with the check on the trimmed name, a created individual envelope is the one its owner's lookup finds |
| EnvelopeBot.MarkEnvelopeDeleted | src/bot/commands/envelope.rs:424-434 | the row with that id is marked deleted, and every other row is kept |
| EnvelopeBot.DeleteEnvelopeCommand | src/bot/commands/envelope.rs:409-442 | the resolved envelope is marked deleted and nothing else changes; an unknown name is a reply, a duplicate shared name an error |
| EnvelopeBot.DeleteHides | src/bot/commands/envelope.rs:409-442 | after a delete no active row has the id, no lookup returns it, and other rows are kept |
| EnvelopeBot.ApplyChanges | src/bot/commands/envelope.rs:490-514 | the given fields are replaced and the omitted ones kept |
| EnvelopeBot.ApplyChangesIdempotent | src/bot/commands/envelope.rs:490-514 | applying the same changes twice is applying them once, and no changes keep the row |
| EnvelopeBot.ReviseEnvelope | src/bot/commands/envelope.rs:490-514 | the row with that id gets the given fields and every other row is kept |
| EnvelopeBot.GivenAllocation | src/bot/commands/envelope.rs:460-480 | a given numeric allocation is written unchanged, and nothing is written for the allocation otherwise |
| EnvelopeBot.UpdateEnvelopeCommand | src/bot/commands/envelope.rs:449-526 | at least one field; a given allocation must be finite and not negative; then the resolved envelope gets exactly the given fields |
| ProductBot.PriceCheck | src/bot/commands/product.rs:57-80 | refuses, in order: a NaN or infinite total, a negative total, a NaN or infinite quantity (default 1), a quantity of 0 or less; none exactly when all pass; product_update repeats these checks at src/bot/commands/product.rs:200-221 |
| ProductBot.UnitPrice | src/bot/commands/product.rs:80 | unit × quantity = total, and a non-negative total gives a non-negative unit price |
| ProductBot.CheckedUnitPrice | src/bot/commands/product.rs:221 | once the checks pass, the unit price is not negative and times the quantity (default 1) gives the total |
| ProductBot.UnitPriceExamples | src/bot/commands/product.rs:80 | 6.99 for one, 12 for a dozen is 1, 7.50 for three is 2.50 |
| ProductBot.ProductAddCommand | src/bot/commands/product.rs:42-145 | a blank name, the price checks, then the envelope; otherwise the core creates the product with the unit price, linked to that envelope |
| ProductBot.ProductUpdateCommand | src/bot/commands/product.rs:190-252 | the price checks, then the product by name (none is a reply); the core then writes the unit price with the product's own name |
| ProductBot.ProductUpdateKeepsName | src/bot/commands/product.rs:231 | on distinct ids, product_update keeps a trimmed name and changes only the price |
| ProductBot.ProductDeleteCommand | src/bot/commands/product.rs:256-284 | the active product of that name is soft-deleted by the core; none is a reply |
| ProductBot.ProductTarget | src/bot/commands/product.rs:353-403 | a shared template is itself; an individual template is the target user's own envelope of its name, else `EnvelopeNotFound`; an unknown id is `EnvelopeNotFound` |
| ProductBot.TotalCost | src/bot/commands/product.rs:323 | never negative for a non-negative price, and zero exactly when the price or the quantity is zero |
| ProductBot.UseProductCommand | src/bot/commands/product.rs:292-350 | a quantity (default 1) of 0 or less or an unknown product is a reply; otherwise the core records −(price × quantity) as `use_product` against the resolved envelope of the target user (default the author) |
| ProductBot.OverdraftWarningMeansRefusal | src/bot/commands/product.rs:406-419 | the overdraft warning fires exactly when the core then refuses the charge for insufficient funds |
| ProductBot.FreeProductRefused | src/bot/commands/product.rs:323-343 | a product of price 0 passes the checks, but using it is refused with `InvalidAmount` |
| ProductBot.ProgressBarCells | src/bot/commands/product.rs:467-481 | no allocation for 0 or less; otherwise the clamped percentage, filled the nearest integer to its tenth, and filled + empty = 10 |
| ProductBot.UsageBarAgreesWithReport | src/bot/commands/product.rs:467-481 | the usage bar fills as many cells as the report's bar of length 10 |
| TransactionBot.TargetUser | src/bot/commands/transaction.rs:49-61 | the author without a nickname; the named user for a known nickname; none exactly for an unknown one |
| TransactionBot.SpendCommand | src/bot/commands/transaction.rs:23-101 | refuses NaN/∞, then ≤ 0, then an unknown nickname, then a missing own envelope, each with no writes; otherwise the core's refusal, or a `spend` row of −amount under the author and the balance moved by it |
| TransactionBot.AddFundsCommand | src/bot/commands/transaction.rs:109-187 | the same checks; otherwise an `addfunds` row of +amount and the balance moved by it |
| TransactionBot.Record | src/bot/commands/transaction.rs:37-92 | the shared body of both commands, stated by `LedgerEffect` |
| TransactionBot.SharedNeverReached | src/bot/commands/transaction.rs:71-80 | when every active envelope of that name is shared, the lookup finds nothing: there is no shared fallback |
| TransactionBot.SpendThenAddFunds | src/bot/commands/transaction.rs:83-92 | spending an amount and adding it back restores every balance |
| TransactionBot.LedgerRefusals | src/core/transaction.rs:61-69 | a spend is refused exactly when it would overdraw, with the balance and the amount; adding funds to an envelope not overdrawn is never refused |
| TransactionBot.TwoUsersIndependent | src/bot/commands/transaction.rs:343-405 | Alice spending 50 from her "Groceries" leaves it at 50 and Bob's at 100 |
| Calendar.PredOrdinal | src/commands/utils.rs:20 | the day before a date is exactly one day earlier in day-number terms |
| Calendar.DaysInMonthAgree | src/bot/commands/envelope.rs:47-60 | the day before next month's first, and the span between the two firsts, both give the month's length in 28..31 |
| Calendar.KnownMonthLengths | src/commands/utils.rs:105-130 | February 2024 has 29 days, April 2023 has 30, and December has 31 |
| Calendar.SubtractDaysOrdinal | src/commands/envelope.rs:140 | going `n` days back lowers the day number by exactly `n` |
| Calendar.FormatDateOrder | src/db/transactions.rs:52-56 | for years 0 to 9999, comparing `%Y-%m-%d` texts compares the dates |
| Calendar.FormatMonthEqual | src/db/transactions.rs:76-80 | two dates have one `YYYY-MM` key exactly when they are in one month |
| Calendar.MonthKeysAgree | src/commands/envelope.rs:87 | chrono's `%Y-%m` and the `{:04}-{:02}` key coincide for years 0 to 9999 |
| Calendar.ParseDate | src/core/monthly.rs:84-89 | a parsed date is a real calendar date in years 0 to 9999 |
| Calendar.ParseFormat | src/core/monthly.rs:100-131 | what the program writes it parses back to the same date |
| Calendar.ParseSound | src/core/monthly.rs:84-89 | what the parser accepts is the program's own text of the date it returns |
| Text.TrimEmptyIffBlank | src/core/envelope.rs:143 | a trimmed string is empty exactly when the input is all white space |
| Text.TrimIdempotent | src/core/envelope.rs:156 | trimming twice changes nothing |
| Text.Pad | src/db/transactions.rs:76 | the zero-padded numeral is all digits, at least one and at least `width` long |
| Text.PadValue | src/db/transactions.rs:76 | the zero-padded numeral reads back as the number |
| Text.LastChars | src/commands/utils.rs:49 | the last `n` characters, or the whole string when it is shorter |
| Floats.Clamp | src/core/report.rs:121 | the value clamped into the range, unchanged inside it |
| Floats.RoundHalfAway | src/core/report.rs:122 | the nearest integer of a non-negative value, a half rounded up |

## Left out

- Money is a mathematical `real`. `f64` rounding is not modelled, and neither is the `{:.2}` formatting of amounts.
- NaN and infinity are modelled (`Floats.F64`) where the source tests for them. Where the source would store them, the model takes a real:
  - the rusqlite handlers test only `<= 0.0`;
  - the sea-orm `create_envelope` tests only `< 0.0`.
- The text of replies, embeds and logs is not modelled: a reply is a constructor. The report, envelope-info, list and help commands only format text.
- The cache, autocomplete, suggestion queries, Discord context and concurrency are not modelled. Neither is the mutex around the rusqlite connection.
- The clock, the local date, the UTC timestamps and the configured users are parameters.
- A store error is modelled only where it changes what persists: the `failAt` parameter of the two monthly updates. Read errors are not modelled.
- chrono's parse-error text is not modelled. The `Config` message keeps only its fixed prefix.
- `users::resolve_nickname` is not part of this model. TransactionBot takes the nickname table as a map.
- The bot's `get_envelope_by_name` is not part of this model. ProductBot takes its result as the `fallback` parameter.
- `update_envelope_attributes` is not part of this model. EnvelopeCommandsV1.CheckEdit stops at the id it would write.
- The sea-orm schema is not part of this model, so no unique constraint on envelope or product names is assumed there. `create_product` does not check its envelope id, and neither does the model.
- Product timestamps are not modelled.
- Calendar.ParseDate: accepts only the four-digit, two-digit, two-digit `YYYY-MM-DD` text. chrono's `%Y-%m-%d` also takes one-digit months and days ("2024-1-5") and signed or longer years; the model reports those as a `Config` error.
- Seeding V2 envelopes from configuration is not part of the core.
- The V2 `update` command is only a call to `process_monthly_updates`, which MonthlyCore.ProcessMonthlyUpdates models, plus its summary text.
- The doc comment of bot `spend` promises a fallback to a shared envelope. The code has none, and the model follows the code (TransactionBot.SharedNeverReached).
- The rusqlite `delete_envelope` handler is `soft_delete_envelope` plus reply text (EnvelopesV1.SoftDeleteEnvelope).

## Findings

| source | as written | input that shows it | evidently intended | confidence | as-written member | corrected member |
|---|---|---|---|---|---|---|
| src/bot/commands/envelope.rs:357-362 | the duplicate check looks up the untrimmed name, while `create_envelope` in src/core/envelope.rs:156-170 stores the trimmed one | an active shared "Food", then a request for a shared envelope named " Food" (EnvelopeBot.CommandAdmitsDuplicate) | the check compares the name that will be stored, so no second active shared "Food" can appear | not executed | EnvelopeBot.CreateEnvelopeCommand | EnvelopeBot.CreateEnvelopeCommandTrimmed |
