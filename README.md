# Dashboard financeiro — a verified model of its bookkeeping core

The dashboard keeps, per year and month, the revenue, expense, notes and revenue
target of seven fixed business categories. A PHP endpoint (`backend/api.php`)
stores them in four MySQL tables (`categories`, `years`, `months`,
`monthly_categories`). A React client (`frontend/src/App.tsx`) shows and edits them.

This project models the parts of both that decide what gets stored and shown:

- **Seeding.** `ensureCategories` writes the preset catalogue only while the
  catalogue is empty. `ensureYear` adds a missing year with its twelve named months
  and one zeroed row per (month, catalogue code).
- **Month update.** The `month` PUT runs its loop of `UPDATE` statements over the
  patches it is sent.
- **Read side.** `loadYear` groups the joined rows into month objects. `loadMonth`
  builds the one month object for a (year, month).
- **Request checks.** A year or month that is 0 (falsy) gives a 400, and so does a
  `categories` member that is not an array.
- **Client helpers.** The client builds offline month and year templates and sums a
  month's totals. It lists years newest first, picks the next year to add, finds the
  selected month and updates the store after a save.
- **Login.** `handleLogin` picks a role from the typed name and password.

## Layout

- `wrappers.dfy`: `Option`.
- `catalogue.dfy`: the preset categories and month names. Server and client both
  carry a copy.
- `ordering.dfy`: the two orders the program asks for.
  - Years newest first: `ORDER BY year DESC` and `sort((a, b) => b - a)`.
  - Codes ascending: `ORDER BY code`.
- `api_tables.dfy`: the four tables as a value.
  - The store invariant "no partial years" (`Wellformed`).
  - The state each server write leads to, as functions.
- `api_views.dfy`: the join rows, and the grouping loops of `loadYear` and
  `loadMonth` as methods: `loadYear` is proved equal to `Group`, `loadMonth` to `ViewsOf`.
- `api_store.dfy`: the `Store` class.
  - Its fields are the four tables.
  - Its seeding and update methods change them statement by statement. Each is
    proved to end in the state the `ApiTables` function describes.
  - It has one method per request handler.
- `app.dfy`: the client's data helpers and the `saveChanges` updater.
- `app_login.dfy`: the role decision of `handleLogin`.

## Model

| member | source | states |
|---|---|---|
| ApiTables.SeedCategoriesFirstWriteWins | backend/api.php:133-157 | A non-empty catalogue is left untouched. An empty one ends up with exactly the seven preset (code, label) pairs, and nothing else changes. |
| ApiTables.SeedExistingYear | backend/api.php:159-166 | Seeding a year that exists does nothing beyond the catalogue step. |
| ApiTables.SeedYearIdempotent | backend/api.php:159-209 | A second `ensureYear` for the same year changes nothing. |
| ApiTables.SeedYearKeepsOtherMonths | backend/api.php:168-206 | Seeding a year adds or changes no `years` or `months` row of any other year. |
| ApiTables.SeedYearKeepsOtherEntries | backend/api.php:168-206 | Seeding a year adds or changes no `monthly_categories` row of any other year. |
| ApiTables.SeedNewYearMonths | backend/api.php:168-198 | A new year gets exactly twelve new months, 1..12, named Janeiro..Dezembro in calendar order. |
| ApiTables.SeedNewYearEntries | backend/api.php:171-206 | A new year gets 12 × \|catalogue\| new rows, one per (month, code), all zero with empty notes. |
| ApiTables.SeedCategories | backend/api.php:133-157 | After the catalogue step the catalogue is not empty, and years, months and rows are untouched. |
| ApiTables.SeedYear | backend/api.php:159-209 | After `ensureYear` the year exists, the catalogue is the seeded one, and no year, month or row was removed. |
| ApiTables.SeedYearWellformed | backend/api.php:159-209 | Seeding keeps the no-partial-years invariant: every year has all twelve months and a row for every (month, code), and nothing dangles. |
| ApiTables.ApplyPatches | backend/api.php:98-109 | The update loop never adds or removes a row. |
| ApiTables.PatchIsolation | backend/api.php:88-109 | A row of another (year, month), or one whose code no patch names, keeps its values. |
| ApiTables.PatchRoundTrip | backend/api.php:98-109 | The row a patch names holds that patch's values when no later patch names it. Missing amounts read as 0 and missing notes as "". |
| ApiTables.PatchLastWriteWins | backend/api.php:98-109 | Of two consecutive patches for one code, only the second shows. |
| ApiTables.PatchWithoutRow | backend/api.php:88-109 | A patch whose code has no row in that month has no effect: `UPDATE` never inserts. |
| ApiTables.UpdateMonthWellformed | backend/api.php:86-110 | A month PUT keeps the no-partial-years invariant. |
| ApiTables.UpdateMonthTables | backend/api.php:86-110 | Apart from its rows, a month PUT leaves the seeded store as it is, and it keeps the rows' key set. |
| Api.Store.EnsureCategories | backend/api.php:133-157 | The insert loop over the preset leaves the store in the state `SeedCategories` describes. |
| Api.Store.EnsureYear | backend/api.php:159-209 | The nested month/code insert loops leave the store in the state `SeedYear` describes. |
| Api.Store.SeedMonths | backend/api.php:193-206 | After the month loop, `months` gains exactly the twelve seeded rows and `monthly_categories` gains exactly the seeded rows for the current catalogue. |
| Api.Store.SeedMonthEntries | backend/api.php:199-205 | The inner loop adds one zeroed row per catalogue code for the month. |
| Api.Store.ApplyUpdates | backend/api.php:98-109 | The `UPDATE` loop leaves `monthly_categories` as `ApplyPatches` says and the other tables untouched. |
| Api.Store.GetYears | backend/api.php:36-40 | Returns every stored year exactly once, strictly newest first. |
| Api.Store.PostYears | backend/api.php:42-50 | Year 0 gives "Ano invalido." and writes nothing. Otherwise the year is seeded and echoed back. A store without partial years stays so. |
| Api.Store.GetYear | backend/api.php:53-62 | Year 0 gives "Ano invalido." and writes nothing. Otherwise the year is seeded and the reply is its twelve month objects, with every catalogue category in code order. |
| Api.Store.GetMonth | backend/api.php:64-74 | A year or month of 0 gives "Ano ou mes invalido." and writes nothing. Otherwise the year is seeded; months 1..12 return their month object and any other month number returns nothing. |
| Api.Store.PutMonth | backend/api.php:76-112 | A year or month of 0, or a `categories` that is not an array, gives "Payload invalido." and writes nothing. An absent list only seeds the year. A list seeds the year and then applies the patches in order. A store without partial years stays so. |
| ApiViews.MonthQuery | backend/api.php:248-259 | The month query returns nothing for a month without a `months` row. Otherwise it returns one row per joined code, all of that month. |
| ApiViews.MonthQueryCodes | backend/api.php:248-259 | In a seeded month of a well-formed store, the query joins every catalogue code under the month's name, and there is at least one. |
| ApiViews.MonthQueryRows | backend/api.php:248-259 | In a seeded month, row i is the i-th catalogue code in code order with its caption and stored values. |
| ApiViews.AddRowShape | backend/api.php:225-242 | One loop turn keeps every month object already opened in place, with its id and name; appends the row's category to its month when that month is open and leaves the other months untouched; and opens a new month, holding only the row's category, exactly when the row's month is not open yet. |
| ApiViews.GroupLength | backend/api.php:224-245 | There are never more month objects than rows. |
| ApiViews.LoadYear | backend/api.php:224-245 | The loop over the rows builds exactly `Group(rows)`. |
| ApiViews.GroupIds | backend/api.php:224-245 | `loadYear` opens one month object per distinct month number of the rows and no other. |
| ApiViews.GroupCategories | backend/api.php:224-245 | Each month object is named after its first row and lists exactly its rows, in row order. |
| ApiViews.GroupCount | backend/api.php:224-245 | Every row becomes exactly one category object. |
| ApiViews.GroupAscending | backend/api.php:211-245 | Rows in month order (`ORDER BY m.month`) give month objects in ascending id order. |
| ApiViews.GroupAppendBlock | backend/api.php:224-245 | Appending the rows of a month not seen before adds exactly one month object at the end. |
| ApiViews.GroupBlocks | backend/api.php:224-245 | Grouping consecutive blocks of months 1..n gives one month object per block, in block order. |
| ApiViews.RowsOfEmpty | backend/api.php:224-245 | A month has rows exactly when its number occurs among the rows. |
| ApiViews.LoadYearComplete | backend/api.php:211-246 | For a seeded year of a well-formed store, `loadYear` returns months 1..12 in order, each with one category per catalogue code. |
| ApiViews.LoadMonth | backend/api.php:248-284 | No rows give nothing. Otherwise the result is the first row's month number and name, with one category object per row, in order. |
| Ordering.SortedDesc | backend/api.php:37-38 | The years, strictly descending, each exactly once. |
| Ordering.SortedCodes | backend/api.php:171 | The codes in strictly ascending code order, each exactly once. |
| Catalogue.PresetTableKeys | backend/api.php:135-143 | The preset is keyed by exactly the seven preset codes. |
| Catalogue.PresetTableSize | backend/api.php:135-143 | The preset holds seven distinct codes. |
| Catalogue.PresetCodesDistinct | backend/api.php:135-143 | No two preset rows share a code. |
| Catalogue.PresetPrefixStep | backend/api.php:150-156 | Inserting the next preset row adds exactly that (code, label) pair. |
| App.CreateMonthTemplate | frontend/src/App.tsx:94-106 | The template carries the given id, that month's Portuguese name and one line per preset category. |
| App.CreateYearTemplate | frontend/src/App.tsx:108-112 | Twelve months, the i-th being the template of month i + 1. |
| App.MonthTemplateShape | frontend/src/App.tsx:94-106 | A month template has the given id, its Portuguese name, and the seven preset categories in preset order, all zero with empty notes. |
| App.ReduceIsSum | frontend/src/App.tsx:398-403 | The left fold `reduce` equals its start value plus the sum of the field over the lines. |
| App.MonthTotals | frontend/src/App.tsx:398-403 | Revenue, expense and target are the sums over the month's lines. An absent target counts as 0. The result is revenue minus expense. |
| App.TemplateTotalsZero | frontend/src/App.tsx:94-106 | A fresh template totals to zero in every field. |
| App.AvailableYears | frontend/src/App.tsx:394 | Every loaded year exactly once, strictly newest first. |
| App.SeqMax | frontend/src/App.tsx:478 | `Math.max` of a non-empty list is an element of it and no smaller than any element. |
| App.NextYearIsNew | frontend/src/App.tsx:477-478 | The new year is one past the newest loaded year, or one past the selected year when none is loaded. It is above every loaded year, so it is never one already loaded. |
| App.NextYear | frontend/src/App.tsx:478 | The next year is above every loaded year, and is the selected year plus one when none is loaded. |
| App.FirstIndex | frontend/src/App.tsx:497 | `findIndex` gives the first month with the id, or -1 exactly when there is none. |
| App.FindMonthIndex | frontend/src/App.tsx:497 | The search loop returns what `findIndex` returns. |
| App.SelectedMonth | frontend/src/App.tsx:395-396 | A month is found exactly when one of the selected year's months (the year's list, `MonthsOfYear`, empty when the year is not loaded) has the selected id. It is the first such month, the one the save updater changes. |
| App.UpdatedStore | frontend/src/App.tsx:494-503 | The updated store holds the old years plus the selected one, and the selected year's list keeps its length. |
| App.UpdateStore | frontend/src/App.tsx:494-503 | The updater's copy-and-assign steps produce the store `UpdatedStore` describes. |
| App.SaveChanges | frontend/src/App.tsx:484-503 | With no month selected (null or 0), nothing is sent and the store is unchanged. Otherwise the PUT carries year, month and edited lines, and the store is updated. |
| App.UpdateKeepsOtherYears | frontend/src/App.tsx:494-503 | Other years are untouched. The selected year is present afterwards, even if it was absent before. |
| App.UpdateTouchesOneMonth | frontend/src/App.tsx:496-501 | In the selected year only the first month with the id changes, and only its lines. The list keeps its length. |
| App.UpdateWithoutMatch | frontend/src/App.tsx:497-501 | With no month of that id, the year's list is stored back unchanged (or as [] when absent). |
| App.UpdateThenSelect | frontend/src/App.tsx:494-503 | After a save, the selected month shows the edited lines. |
| Login.RoleFor | frontend/src/App.tsx:447-455 | A role is granted only with that role's exact password, and only to a name that normalises to one of the two account names. |
| Login.TrimStart | frontend/src/App.tsx:448 | Only leading ECMAScript white space is removed, and the result does not start with any. |
| Login.TrimEnd | frontend/src/App.tsx:448 | Only trailing ECMAScript white space is removed, and the result does not end with any. |
| Login.TrimEnds | frontend/src/App.tsx:448 | The trimmed name neither starts nor ends with white space. |
| Login.TrimIgnoresPadding | frontend/src/App.tsx:448 | White space added on either side does not change the trimmed name. |
| Login.LoginIgnoresPadding | frontend/src/App.tsx:447-455 | The role does not depend on white space around the user name. |
| Login.LoginIgnoresCase | frontend/src/App.tsx:447-455 | The role does not depend on the case of the user name's Latin letters. |
| Login.LoginAccounts | frontend/src/App.tsx:447-455 | "diretoria" with "14133*" is exactly the read-only role, "financeiro" with "JMLmaisforte26" exactly the editing role, and everything else is refused. |
| Login.LoginAcceptsVariants | frontend/src/App.tsx:447-455 | Any capitalisation of an account name, padded with white space, logs in with that account's password. |
| Login.LoginExamplesRefused | frontend/src/App.tsx:447-455 | For example, for every user name, the user password with a leading space and the admin password lower-cased are refused, and the admin password does not open the `diretoria` account. |

## Left out

- Routing and transport are not modelled: the endpoint switch, 405, 404, OPTIONS/CORS, PDO connection errors (500), and JSON encoding and decoding. Each handler is a method that takes already-decoded arguments.
- PHP's `(int)` coercion of request parameters is not modelled: a year or month arrives as an integer, and 0 stands for missing or falsy input.
- PHP's `(float)` casts, the DECIMAL columns and JavaScript numbers are not modelled: money is an unbounded integer, so rounding is out of scope.
- Transactions, concurrent requests and database failures are not modelled: each write sequence runs to completion on its own.
- The database collation is not modelled: codes are compared as exact strings and ordered by code point. `ORDER BY code` (backend/api.php:171, 220, 257) sorts that way. The same holds for the `category_code = :code` key match of the month `UPDATE` (backend/api.php:95) and for the joins (backend/api.php:217-218, 254-255). Under a case-insensitive collation, such as MySQL's default for utf8mb4, a patch coded "ic" would update the IC row. `ApiTables.PatchWithoutRow` and `ApiTables.PatchIsolation` treat such a patch as naming no row.
- The join queries are not modelled as SQL. `ApiViews.MonthQuery` computes them from the tables. `ApiViews.YearQuery` computes the year query as the month queries for months 1..12 in turn, which is the same result under the store invariant, since no `months` row lies outside 1..12.
- Api.Store.GetYear: requires the no-partial-years invariant, which the seeding code maintains, so the reply can be stated in full.
- Api.Store.GetMonth: requires the no-partial-years invariant, for the same reason.
- App.CreateMonthTemplate: requires a month number in 1..12. The client only calls it from `createYearTemplate`, with 1..12.
- Login.Lower: lower-cases only A–Z. No other character lower-cases to a letter of "diretoria" or "financeiro", so the login decision is unaffected.
- `money`, `CircularProgress` and all rendering are not modelled: they are presentation only.
- The client's fetch layer is not modelled (`apiUrl`, `apiRequest`, `loadYear`, `loadInitialData`). `App.SaveChanges` returns the PUT it would send instead of sending it.
- App.SaveChanges: assumes the PUT succeeds. `apiRequest` throws on a non-OK reply (frontend/src/App.tsx:84-86), and `saveChanges` awaits the PUT before calling `setData` (frontend/src/App.tsx:486-494). So a failed save leaves the store unchanged, while the model always returns `UpdatedStore`.
- The timed login steps (`setTimeout`, `setLoginStep`) are not modelled.
- The `c.revenue || 0` guard of `monthTotals` only matters for NaN or absent amounts. Only an absent `targetRevenue` is modelled.
- A seeded month lists its categories in code order, not in preset order, because `loadYear`/`loadMonth` order by `c.code`. The model follows the code: `ApiViews.MonthQueryRows` states the code order.
