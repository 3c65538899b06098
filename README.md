# FIRELight persistence core in Dafny

This is a model of the persistence layer of FIRELight, a personal finance tracker. It
keeps three tables in one SQLite store:

- **ledgers**: books of account, one of which is the default;
- **categories**: income and expense categories, some shipped with the app (system categories);
- **transactions**: dated income or expense amounts, each in one ledger and one category.

The store also keeps a schema-version marker and a process-wide handle that is either open or not.

The model covers:

- startup (`initDatabase`): run the migrations, create the default ledger on first run, and upsert
  every shipped system category while keeping the user's `is_active` choice;
- the category repository;
- the ledger repository;
- the transaction repository, including month listings grouped by day, monthly statistics, the
  months that hold data and the latest month.

## How the model is laid out

- `Types` holds the record types: ledgers, categories, transactions, and the create and update
  inputs, whose optional fields become `Option`.
- `SystemCategories` holds the shipped catalogue.
- `Database.Store` is a class whose fields are the open flag, the version marker, whether the
  tables exist, and the three tables. Each table is a sequence of rows in insertion order.
- `CategoryService`, `LedgerService` and `TransactionService` take the store as a parameter,
  just as each service function calls `getDatabase()`.
- Queries are functions that read the store. Writes are methods that modify only the table they touch.
- Every service operation on a closed store returns `Err(NotInitialized)`, the error of `getDatabase()`.
  `getDefaultLedgerId` reads the handle directly instead, so on its own it fails with `Err(NullHandle)`,
  which stands for the TypeError of dereferencing the null handle.
- A thrown error becomes an `Err` value.
- The random id and the clock become `id` and `now` parameters. Each clock read in the source
  is its own parameter: startup takes one for the default ledger and one for the category sync. A fresh id is required to be
  absent from its table.
- `Tables` gives the SQL idioms that the services share:
  - `WHERE` is `Filter`;
  - `WHERE id = ?` is `Lookup`, the first match in table order;
  - `DELETE ... WHERE id = ?` is `RemoveKey`;
  - `ORDER BY` is `Sorting.SortBy`, a stable insertion sort.
- `Text` gives string ordering, `padStart`, `split`, and digit strings and their numbers.

`updateCategory` refreshes `updated_at` only when at least one field is written
(src/services/categoryService.ts:168-187). An input that names no applicable field leaves the row
untouched; for a system category this includes an input that names only `name`/`icon`.

## Model

| member | source | states |
|---|---|---|
| Types.TypeName | src/types/index.ts:31 | the type's stored name parses back to the same type |
| Types.ParseTransactionType | src/types/index.ts:31 | exactly the strings "income" and "expense" are transaction types |
| Types.NewLedger | src/types/index.ts:86 | a created ledger carries every input field unchanged, plus the given id and both timestamps |
| Types.BoolToFlag | src/services/categoryService.ts:119 | a boolean is stored as 0 or 1 and reads back as the same boolean |
| SystemCategories.SystemCategoryIdsDistinct | src/config/systemCategories.ts:35-123 | no two shipped categories share an id, which the upsert relies on |
| SystemCategories.ExpenseIdsHaveTypePrefix | src/config/systemCategories.ts:36-92 | every shipped expense id has the form `sys_expense_{key}` with a non-empty key |
| SystemCategories.IncomeIdsHaveTypePrefix | src/config/systemCategories.ts:94-122 | every shipped income id has the form `sys_income_{key}` with a non-empty key |
| SystemCategories.SystemCategoryIdsHaveTypePrefix | src/config/systemCategories.ts:16-29 | every shipped id is `sys_{type}_{key}`, where `{type}` is the entry's own type |
| SystemCategories.SystemSortOrdersCountFromZero | src/config/systemCategories.ts:35-123 | 12 entries: 8 expense categories with sort orders 0..7, then 4 income categories with sort orders 0..3 |
| SystemCategories.NoSystemCategoryDeprecated | src/config/systemCategories.ts:35-123 | no shipped entry sets `deprecated`, so every one is stored with flag 0 |
| SystemCategories.SystemIconIsFirstCharacterOfName | src/config/systemCategories.ts:35-123 | every shipped icon is the first character of its name |
| Database.MigratedVersion | src/services/database.ts:71-145 | after migrating, the version is at least `SCHEMA_VERSION` and never lower than before; a store below the target is set to exactly `SCHEMA_VERSION`; a store already at or past the target is left alone |
| Database.MigrateTwice | src/services/database.ts:82 | a second migration run changes nothing and does not run migration v1 again |
| Database.DefaultLedgerRow | src/services/database.ts:161-168 | the bootstrap ledger is the default, has sort order 0, and carries the given id and time |
| Database.FirstDefault | src/services/database.ts:152-154 | the default-ledger query finds a ledger marked default, and finds none exactly when no ledger is marked |
| Database.BootstrapLedgers | src/services/database.ts:151-171 | afterwards a default exists; an existing default leaves the table unchanged; otherwise exactly one default ledger is appended |
| Database.BootstrapIdempotent | src/services/database.ts:156-159 | bootstrapping twice gives the same table as bootstrapping once |
| Database.UpsertInserts | src/services/database.ts:191-192 | a definition whose id is absent becomes a new last row with `is_system = 1` and `is_active = 1` |
| Database.UpsertUpdates | src/services/database.ts:193-198 | on an id conflict, only name, icon, sort order, deprecated and `updated_at` are rewritten in place |
| Database.Upsert | src/services/database.ts:190-209 | the upsert inserts a row exactly when the id is absent, keeps id, active flag, system flag, type and creation time of every row, leaves other rows alone, makes the row carry the definition, and keeps ids unique |
| Database.SyncAll | src/services/database.ts:189-210 | reconciling never removes a row and adds at most one row per definition |
| Database.SyncAllPreserves | src/services/database.ts:193-198 | every existing category keeps its id, active flag, system flag, type and creation time through the whole sync |
| Database.SyncAllLeavesOthers | src/services/database.ts:189-210 | a category that no definition names comes out unchanged |
| Database.SyncAllAddsSystemRows | src/services/database.ts:191-192 | every row the sync adds is a system category and is active |
| Database.SyncAllKeepsUnique | src/services/database.ts:193 | the sync keeps category ids unique |
| Database.SyncAllStep | src/services/database.ts:189 | syncing the first `i+1` definitions is syncing the first `i`, then upserting the next one |
| Database.AppliedWhenSame | src/services/database.ts:193-198 | rows that differ only in `updated_at` carry the same definitions |
| Database.UpsertApplied | src/services/database.ts:193-198 | re-upserting a definition already in place changes only `updated_at` |
| Database.UpsertKeepsApplied | src/services/database.ts:193 | upserting one id leaves the row of any other definition as it was |
| Database.SyncAppliesAll | src/services/database.ts:189-210 | after a sync with distinct ids, every definition is present and carries its name, icon, sort order and deprecated flag |
| Database.SyncOverApplied | src/services/database.ts:189-210 | syncing definitions already in place changes only `updated_at` |
| Database.SyncIdempotent | src/services/database.ts:182-213 | syncing the same definitions twice gives the rows of one sync, apart from `updated_at` |
| Database.CatalogueApplied | src/services/database.ts:182-213 | after startup, every shipped system category is present with its current definition |
| Database.Store.constructor | src/services/database.ts:19-20 | the handle starts closed, at version 0, with no tables and empty rows |
| Database.Store.GetDatabase | src/services/database.ts:26-31 | a closed store raises "not initialized"; an open one gives its tables |
| Database.Store.Init | src/services/database.ts:37-54 | opens the store, migrates the version, bootstraps the default ledger (at its own clock reading) and reconciles the catalogue (at a second, independent one); transactions are untouched, a default ledger id can be read, and every shipped category is applied |
| Database.Store.Close | src/services/database.ts:59-65 | closes the handle; closing a closed handle changes nothing |
| Database.Store.RunMigrations | src/services/database.ts:71-145 | sets the version to its migrated value and creates the tables exactly when migration v1 runs (version below 1) |
| Database.Store.InitDefaultLedger | src/services/database.ts:151-171 | the ledgers table becomes its bootstrapped form |
| Database.Store.SyncSystemCategories | src/services/database.ts:182-213 | the categories table becomes its reconciled form and nothing else changes |
| Database.Store.SyncDefinitions | src/services/database.ts:189-210 | one upsert per definition, in order, gives `SyncAll` of the old table |
| Database.Store.GetDefaultLedgerId | src/services/database.ts:218-228 | gives the id of a ledger marked default; fails with "default ledger not found" exactly when none is marked; a closed store fails on the null handle (`NullHandle`), not with "not initialized" |
| CategoryService.ToCategory | src/services/categoryService.ts:36-41 | converting a raw row keeps its id and sort order |
| CategoryService.ToRaw | src/services/categoryService.ts:20-31 | a stored category's flags are 0 or 1 |
| CategoryService.RawRoundTrip | src/services/categoryService.ts:36-41 | converting to a raw row and back gives the category again; a raw row with 0/1 flags survives the reverse trip |
| CategoryService.OrdersArePreorders | src/services/categoryService.ts:55-72 | both category `ORDER BY` clauses are total preorders |
| CategoryService.ActiveCategories | src/services/categoryService.ts:47-60 | exactly the active, non-deprecated categories of the type, each as often as in the table, in ascending sort order |
| CategoryService.ManagedCategories | src/services/categoryService.ts:66-77 | exactly the non-deprecated categories of the type; active ones come first, then ascending sort order |
| CategoryService.GetActiveCategories | src/services/categoryService.ts:47-60 | fails only on a closed store; otherwise gives the active listing |
| CategoryService.GetAllCategories | src/services/categoryService.ts:66-77 | fails only on a closed store; otherwise gives the management listing |
| CategoryService.GetCategoryById | src/services/categoryService.ts:83-92 | finds a category with that id whatever its flags, and finds none exactly when no row has that id |
| CategoryService.MaxSortOrder | src/services/categoryService.ts:105-108 | none exactly when the type has no category; otherwise the largest sort order of that type |
| CategoryService.NextSortOrder | src/services/categoryService.ts:109 | above every sort order of the type: 0 for an empty type, otherwise the maximum plus one |
| CategoryService.CreateCategory | src/services/categoryService.ts:97-138 | appends one custom, non-deprecated category with the input's fields, the next sort order of its type, and the given id and time |
| CategoryService.PatchCategory | src/services/categoryService.ts:157-187 | a system category takes only the active flag and sort order; a custom one also name and icon; type and flags never change; no applicable field means no change; otherwise `updated_at` is refreshed |
| CategoryService.PatchIdempotent | src/services/categoryService.ts:157-187 | applying the same update twice gives the result of applying it once |
| CategoryService.ReplaceIsUpdateWhere | src/services/categoryService.ts:190-193 | rewriting the one row with a unique id is the `UPDATE ... WHERE id = ?` and keeps ids unique |
| CategoryService.CollectUpdates | src/services/categoryService.ts:157-187 | reports whether any field applies and, if so, the patched row |
| CategoryService.UpdateCategory | src/services/categoryService.ts:144-196 | a missing id gives null and no change; otherwise the row becomes its patched form and is returned as stored |
| CategoryService.ToggleTwice | src/services/categoryService.ts:201-208 | a toggle flips the active flag; two toggles restore every field but `updated_at` |
| CategoryService.ToggleCategoryStatus | src/services/categoryService.ts:201-208 | a missing id gives null; otherwise the category is updated with its active flag flipped |
| CategoryService.LastIndexOf | src/services/categoryService.ts:219 | the last position of an id in the list, or none exactly when it is absent |
| CategoryService.Reordered | src/services/categoryService.ts:219-224 | every listed category gets as sort order the last position of its id in the list (the update that runs last wins), with a new `updated_at`; unlisted categories are unchanged |
| CategoryService.ReorderFollowsList | src/services/categoryService.ts:213-225 | with distinct ids, the category at list position k gets sort order k |
| CategoryService.LastIndexOfExtend | src/services/categoryService.ts:219 | extending the list by one id moves that id's last position to the end |
| CategoryService.SetSortOrder | src/services/categoryService.ts:220-223 | one `UPDATE ... SET sort_order` rewrites only rows with that id and keeps ids unique |
| CategoryService.ReorderCategories | src/services/categoryService.ts:213-225 | the listed updates, applied one by one, give the reordered table |
| CategoryService.CategoryUsage | src/services/categoryService.ts:244-247 | the count is zero exactly when no transaction uses the category |
| CategoryService.DeleteCategory | src/services/categoryService.ts:231-257 | a missing id gives false; a system category and a category in use fail (the latter with its count) and leave the table; otherwise exactly that row is removed |
| CategoryService.DeleteKeepsReferences | src/services/categoryService.ts:249-255 | a delete that passes the in-use guard leaves every transaction's category resolvable |
| CategoryService.Removable | src/services/categoryService.ts:267-274 | the cleanup selects exactly the inactive custom categories that no transaction uses |
| CategoryService.Kept | src/services/categoryService.ts:283-286 | after the cleanup, exactly the other categories remain, with ids still unique |
| CategoryService.CleanupPartitions | src/services/categoryService.ts:263-290 | the kept and removed categories together account for every row |
| CategoryService.CleanupIdempotent | src/services/categoryService.ts:263-290 | a second cleanup finds nothing to remove |
| CategoryService.CleanupUnusedCategories | src/services/categoryService.ts:263-290 | deletes the removable categories and returns how many there were |
| CategoryService.IsCategoryNameExists | src/services/categoryService.ts:295-310 | true exactly when a non-deprecated category of the type has the name and is not the excluded id (an empty excluded id excludes nothing) |
| LedgerService.GetDefaultLedger | src/services/ledgerService.ts:14-30 | finds a ledger marked default (the one whose id `getDefaultLedgerId` gives), or none exactly when no ledger is marked |
| LedgerService.GetAllLedgers | src/services/ledgerService.ts:35-47 | every ledger exactly once, in ascending sort order |
| LedgerService.GetLedgerById | src/services/ledgerService.ts:52-68 | finds a ledger with that id, or none exactly when no row has it |
| LedgerService.CreateLedger | src/services/ledgerService.ts:73-99 | appends one ledger carrying the input's fields, the given id and time |
| LedgerService.PatchLedger | src/services/ledgerService.ts:115-141 | every named field is replaced and the others kept; no named field means no change; otherwise `updated_at` is refreshed |
| LedgerService.PatchLedgerIdempotent | src/services/ledgerService.ts:115-141 | applying the same update twice gives the result of applying it once |
| LedgerService.UpdateLedgerRows | src/services/ledgerService.ts:144-147 | the `UPDATE ... WHERE id = ?` patches exactly the rows with that id and keeps ids unique |
| LedgerService.UpdateLedger | src/services/ledgerService.ts:104-150 | the table is updated and the stored row returned: the patched ledger, or null for a missing id |
| LedgerService.LedgerUsage | src/services/ledgerService.ts:169-172 | the count is zero exactly when no transaction is in the ledger |
| LedgerService.DeleteLedger | src/services/ledgerService.ts:156-182 | a missing id gives false; the default ledger fails whether or not it is in use; a ledger in use fails with its count; otherwise exactly that row is removed |
| LedgerService.DefaultSurvivesDelete | src/services/ledgerService.ts:164-166 | a successful ledger delete never removes the last default ledger |
| LedgerService.DeleteKeepsLedgerReferences | src/services/ledgerService.ts:174-180 | a delete that passes the in-use guard leaves every transaction's ledger resolvable |
| TransactionService.ResolveLedger | src/services/transactionService.ts:71 | a non-empty ledger id is used as given; otherwise the default ledger's id; fails when the store is closed or no default exists |
| TransactionService.NewTransaction | src/services/transactionService.ts:73-99 | the new row carries the input's fields, the resolved ledger, the given id and time, and an empty note when none is given |
| TransactionService.CreateTransaction | src/services/transactionService.ts:65-100 | a resolved ledger appends the new transaction, which can be found by its id; a failed resolution changes nothing |
| TransactionService.GetTransactionById | src/services/transactionService.ts:105-112 | finds a transaction with that id, or none exactly when no row has it |
| TransactionService.NewestFirstIsPreorder | src/services/transactionService.ts:157 | `ORDER BY date DESC, created_at DESC` is a total preorder that puts later dates first |
| TransactionService.Selected | src/services/transactionService.ts:121-152 | the `WHERE` clause keeps exactly the rows of the ledger that match the month or date range, the type and the category |
| TransactionService.Listing | src/services/transactionService.ts:156-159 | the matching rows, each as often as in the table, newest date first and, within a date, newest creation first |
| TransactionService.GetTransactions | src/services/transactionService.ts:117-160 | fails exactly as the ledger resolution does; otherwise gives the listing for the resolved ledger |
| TransactionService.MonthFilterIgnoresRange | src/services/transactionService.ts:125-140 | with a year and month, the date range is ignored |
| TransactionService.MonthFilterSelectsDate | src/services/transactionService.ts:125-129 | for four-digit years and `YYYY-MM-DD` dates, the month filter selects exactly the dates with that year and month |
| Text.MonthFilterSelectsMonth | src/services/transactionService.ts:126-129 | the `LIKE '{year}-{MM}%'` prefix matches a `YYYY-MM-DD` date exactly when its year and month are the given ones |
| Text.MonthPrefixOfDate | src/services/transactionService.ts:224-225 | a date's own year and month rebuild its first seven characters |
| Text.IntToString | src/services/transactionService.ts:127 | `String` of an integer is a non-empty decimal string, with a leading '-' exactly for negatives |
| Text.PadStart2 | src/services/transactionService.ts:126 | `padStart(2, '0')` keeps the string as its suffix, fills up to two characters with '0', and leaves longer strings alone |
| Text.MonthPrefix | src/services/transactionService.ts:224-225 | for a month 1..12, the prefix is the year's digits plus three characters (`-MM`) |
| Text.Split | src/services/transactionService.ts:354 | `split` gives at least one part and no part holds the separator |
| Text.StrLeReflexive | src/services/transactionService.ts:157 | every string is no greater than itself |
| Text.PaddedMonth | src/services/transactionService.ts:126 | `padStart(2, '0')` of a month 1..12 is two digits that read back as the month |
| Text.DigitsRoundTrip | src/services/transactionService.ts:127 | the decimal string of a number reads back as that number |
| Text.SplitJoin | src/services/transactionService.ts:354 | joining the parts of a `split` with the separator gives the string back |
| Text.ToNumber | src/services/transactionService.ts:354 | `Number` of a digit string is its non-negative value; other strings are not numbers |
| Text.SplitIsoDate | src/services/transactionService.ts:354 | a `YYYY-MM-DD` date splits on '-' into year, month and day |
| Text.StrLeTotal | src/services/transactionService.ts:157 | the string order used by `ORDER BY` and `localeCompare` compares any two strings |
| Text.StrLeTransitive | src/services/transactionService.ts:209 | the string order is transitive |
| Text.StrLeAntisymmetric | src/services/transactionService.ts:325 | two strings each no greater than the other are equal |
| TransactionService.TotalsAccount | src/services/transactionService.ts:192-198 | the income total plus the expense total is the sum of all amounts |
| TransactionService.TotalConcat | src/services/transactionService.ts:233-234 | the total of two row sequences together is the sum of their totals |
| TransactionService.TotalPermutation | src/services/transactionService.ts:233-234 | a total does not depend on row order |
| TransactionService.InMonth | src/services/transactionService.ts:236-238 | exactly the ledger's rows whose date starts with the month prefix |
| TransactionService.GetMonthlyStats | src/services/transactionService.ts:217-246 | fails exactly as the ledger resolution does; otherwise the count, income total and expense total of the month's rows, all zero for a ledger with no rows |
| TransactionService.MonthSelectionIsInMonth | src/services/transactionService.ts:125-129 | the month filter of the listing selects exactly the rows the statistics aggregate |
| TransactionService.StatsAgreeWithListing | src/services/transactionService.ts:223-245 | the statistics count and totals equal those of the month listing |
| TransactionService.OnDateMembers | src/services/transactionService.ts:177-183 | a day's rows are exactly the listed rows with that date |
| TransactionService.OnDateAbsent | src/services/transactionService.ts:180 | a date that no row has has no rows |
| TransactionService.OnDateAppend | src/services/transactionService.ts:181 | one more row joins its own date's group, at the end |
| TransactionService.GroupStep | src/services/transactionService.ts:179-183 | adding a row to its date's group, or opening a group for a new date, keeps every group equal to its date's rows in order |
| TransactionService.GroupByDate | src/services/transactionService.ts:177-183 | the map holds, for each distinct date in first-seen order, exactly that date's rows in listing order |
| TransactionService.DayTotals | src/services/transactionService.ts:189-198 | the income total and the expense total of a day's rows |
| TransactionService.DayGroups | src/services/transactionService.ts:186-206 | one group per date in the map's key order, each with its rows and totals |
| TransactionService.LaterDayIsPreorder | src/services/transactionService.ts:209 | the date-descending comparison is a total preorder |
| TransactionService.SortedDatesDistinct | src/services/transactionService.ts:209 | sorting the groups keeps their dates distinct |
| TransactionService.SortedGroupsHoldTheirDay | src/services/transactionService.ts:200-205 | every sorted group holds its date's rows (at least one) and their totals |
| TransactionService.EveryRowHasGroup | src/services/transactionService.ts:179-183 | every listed row has a group with its date |
| TransactionService.SortedGroupsByDay | src/services/transactionService.ts:186-211 | the sorted groups are one per date, later dates first, each with exactly that date's rows and their totals |
| TransactionService.GetTransactionsByMonth | src/services/transactionService.ts:165-212 | fails exactly as the month listing does; otherwise groups that listing by day, later days first |
| TransactionService.PatchTransaction | src/services/transactionService.ts:261-295 | every named field except the ledger is replaced; no named field means no change; otherwise `updated_at` is refreshed |
| TransactionService.PatchTransactionIdempotent | src/services/transactionService.ts:261-295 | applying the same update twice gives the result of applying it once |
| TransactionService.UpdateTransactionRows | src/services/transactionService.ts:290-293 | the `UPDATE ... WHERE id = ?` patches exactly the rows with that id and keeps ids unique |
| TransactionService.UpdateTransaction | src/services/transactionService.ts:251-296 | the table is updated and the stored row returned: the patched transaction, or null for a missing id |
| TransactionService.DeleteTransaction | src/services/transactionService.ts:301-311 | reports whether a row existed; afterwards no row has the id, and exactly one row fewer remains when one did |
| TransactionService.MonthsOf | src/services/transactionService.ts:322-324 | exactly the distinct `YYYY-MM` prefixes of the ledger's dates, each once |
| TransactionService.LaterMonthIsPreorder | src/services/transactionService.ts:325 | the month-descending comparison is a total preorder |
| TransactionService.MonthsWithData | src/services/transactionService.ts:321-329 | exactly the ledger's months, each once, latest first |
| TransactionService.GetMonthsWithData | src/services/transactionService.ts:317-330 | fails exactly as the ledger resolution does; otherwise the ledger's months, latest first |
| TransactionService.LatestDate | src/services/transactionService.ts:342-348 | none exactly when the ledger has no rows; otherwise a date of one of its rows |
| TransactionService.LatestDateIsLatest | src/services/transactionService.ts:345 | no row of the ledger has a later date |
| TransactionService.ParseIsoDate | src/services/transactionService.ts:354 | a `YYYY-MM-DD` date parses to its numeric year and month |
| TransactionService.ParseWithoutDash | src/services/transactionService.ts:354 | a date without '-' gives an undefined month and the `Number` of the whole string as the year |
| TransactionService.GetLatestTransactionMonth | src/services/transactionService.ts:336-356 | null exactly when the ledger has no rows; otherwise the parsed year and month of a row no row of the ledger is later than |
| TransactionService.MonthNoLaterThanLatest | src/services/transactionService.ts:342-354 | no month of the ledger's rows is later than the latest date's month |
| TransactionService.LatestMonthLeadsMonths | src/services/transactionService.ts:321-355 | for `YYYY-MM-DD` dates, the latest row's month is the first entry of the months with data |

## Left out

- SQLite itself: SQL text, indexes and the on-disk file are not modelled. `DATABASE_NAME` is a
  constant only. `PRAGMA user_version` is the `userVersion` field. The schema is the
  `tablesCreated` flag.
- Migration atomicity: a failing migration step, and the marker not advancing after one, are not
  modelled. Store-unavailable errors at open are not modelled either.
- `generateUUID` (src/utils/uuid.ts) is not part of this model. Ids are parameters, required
  absent from their table.
- The clock (`new Date().toISOString()`) is a `now` parameter.
- Console logging, `async` and `await` are left out. Startup runs its steps in order.
- Amounts are exact reals. Floating-point rounding of `+=` and `SUM` is not modelled.
- `Number()` is modelled only for digit strings (their value) and the empty string (0). Every
  other string is NaN. Signs, decimals, exponents and whitespace are not modelled.
- String ordering (`ORDER BY` on TEXT and `localeCompare`) is code-point order. Locale collation
  is not modelled.
- `LIKE 'prefix%'` is a prefix match. SQLite's ASCII case-folding does not matter here, because
  the pattern holds only digits and '-'.
- Rows that `ORDER BY` leaves tied, and rows found without `ORDER BY`, come in table (insertion)
  order. SQLite does not promise that order.
- Nothing keeps the number of default ledgers at one, and neither does the source.
  `createLedger` and `updateLedger` can mark a second ledger default.
- Categories and ledgers that transactions reference are not checked on insert. The source has
  no foreign keys.
- `updateTransaction` accepts `ledger_id` in its input type but never writes it. The model keeps
  the ledger too.
- The month parameters of `getTransactions`, `getMonthlyStats` and `getTransactionsByMonth` are
  integers. `String(year)` of a non-integer number is not modelled.
- The UI (app/), the theme store and the re-exports in src/services/index.ts are outside the
  core.
