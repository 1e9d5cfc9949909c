# Request-tracking server: a verified model of its database handlers

The server is the back end of a help-desk application. Employees send
requests (заявки) about problems. Specialists, each with a job title, accept
and complete them. Administrators maintain:

- the catalogue of job titles and problem types, which come in pairs sharing one id;
- the statuses a request can be in;
- the departments.

The server is a set of HTTP handlers over a PostgreSQL database. This project
models what those handlers do to the tables and what they answer.

The model has these modules:

- `Schema`: the rows of the tables and the error answers.
- `Table`: what one `SELECT`, `INSERT`, `UPDATE` or `DELETE` by primary key does to a table keyed by id, and the row count it reports.
- `PairedCatalog`: the job-title/problem-type catalogue and its id allocator.
  - The allocator reads both `MAX` values through a `UNION ALL` and scans the result rows.
  - `SqlMax` and `PairIdFromRows` are the two loops. `SqlMax` is proved against `IsSqlMax`, the meaning of SQL's `MAX`. `PairIdFromRows` is proved to give one more than the largest id the rows report.
  - `Server.Database.AllocatePairId` combines them, and `UnionAllGivesNextPairId` proves the result is `NextPairId`.
- `RequestUpdate`: the dynamically built `UPDATE request` statement.
  - It is modelled as a list of `SET` clauses with numbered placeholders and a parameter list.
  - It has its own execution semantics.
  - The builder is proved to produce a statement whose execution is the intended update.
- `Reports`: the four report queries, as ghost functions over the tables.
  - The average completion time per month, measured from acceptance or from sending.
  - The request count per problem type.
  - The per-month status counts.
  - Each comes with lemmas on grouping, ordering and counts.
- `Calendar` and `Ordering`: support for `EXTRACT(MONTH/YEAR …)` and for `ORDER BY`.
  - Timestamps are whole hours since 1970-01-01 00:00 on the proleptic Gregorian calendar.
  - Years are numbered as `EXTRACT(YEAR …)` numbers them, with no year 0: 1 BC is -1.
  - `ORDER BY` is a generic sort of a finite set by a strict total order, with three instances: integers, (year, month) pairs, and byte-wise string order.
- `Server`: the class `Database`.
  - Its fields are the tables and the serial sequences.
  - Its methods are the writing handlers.
  - Each method states the whole new state.
  - Each method keeps the invariant `Valid()`: job titles and problem types are paired, and every generated id lies below its sequence.

Where the code and the intended behaviour differ, the model follows the code:

- `PUT /api/request/:id` and `PUT /api/JobProblem/:id` answer success even when no row has the id.
- `DELETE /api/departments/:id` answers success whether or not a row was removed.
- Pair ids are reused. The allocator hands out one more than the largest id in use, so after the pair with the highest id is deleted, the next create receives that id again (`PairedCatalog.CreateAfterDeleteReusesId`). The intended allocator never reuses an id.
- `DELETE /api/jobproblem/:id` is not all-or-nothing. When only one half of a pair exists, it removes that half and still answers failure (`PairedCatalog.DeleteHalfPair`).
- `PUT /api/request/:id` does not check that the acceptance date comes no later than the completion date, so an update can leave the dates out of order (`RequestUpdate.UpdateMayDisorderDates`).
- `POST /api/specialists` does not check that the job title it names exists. The model stores the specialist and its `resolves` row whatever the job-title id is.

## Model

| member | source | states |
|---|---|---|
| Table.Lookup | functions/server.js:182-201 | A read by id succeeds exactly when the id is present and returns that row; otherwise the answer is not found (404). |
| Table.Insert | functions/server.js:276-280 | An insert succeeds exactly when the key is free. It adds just that row and keeps every other row. A taken key fails as a duplicate (500). |
| Table.UpdateRow | functions/server.js:929-941 | An update by id reports 1 row when the id is present and 0 otherwise. It keeps the key set, writes the value at the id and leaves every other row as it was. |
| Table.DeleteRow | functions/server.js:629-636 | A delete by id reports 1 row when the id was present and 0 otherwise. It removes just that key and keeps every other row. |
| Table.UpdateRowIdempotent | functions/server.js:873-885 | Repeating the same rename gives the same table and the same row count. |
| Table.DeleteThenGone | functions/server.js:664-677 | After a delete the id is not found, and a second delete removes nothing and reports 0 rows. |
| Table.StoreAddsRow | functions/server.js:506-511 | Storing a row under a free id adds exactly that row and keeps all others. |
| PairedCatalog.MaxOrZero | functions/server.js:492-503 | The scanned maximum is non-negative, bounds every id, and is 0 or one of the ids. |
| PairedCatalog.MaxOrZeroIs | functions/server.js:492-503 | Any value with those three properties is the scanned maximum. |
| PairedCatalog.NextPairId | functions/server.js:492-503 | The allocated id is at least 1, is used in neither table, and exceeds every id in both tables. |
| PairedCatalog.SqlMax | functions/server.js:484-489 | `MAX` over a table's ids is NULL for an empty table and otherwise the largest id. |
| PairedCatalog.PairIdFromRows | functions/server.js:492-503 | The scan over the result rows yields one more than the largest reported id, or 1 when no positive id is reported. |
| PairedCatalog.UnionAllReports | functions/server.js:484-489 | The two `UNION ALL` rows report exactly the two `MAX` values that are not NULL. |
| PairedCatalog.MaxOfMaxes | functions/server.js:484-503 | The largest of the two tables' `MAX` values (or 0) is the maximum over both tables. |
| PairedCatalog.UnionAllGivesNextPairId | functions/server.js:484-503 | Reading both `MAX` values through the `UNION ALL` and scanning gives `NextPairId`. Both values arrive under the first column name, so the second comparison never fires and the result is still right. |
| PairedCatalog.LookupPair | functions/server.js:576-620 | Not found exactly when neither table has the id. Otherwise each half is present exactly when its table has the id, with that table's name. |
| PairedCatalog.ListPairs | functions/server.js:526-542 | The inner join lists exactly the ids present in both tables, each with its job-title name and problem-type name. |
| PairedCatalog.CreateThenLookup | functions/server.js:475-523 | The created id was free in both tables, and looking it up afterwards returns both new names. |
| PairedCatalog.CreateKeepsOtherRows | functions/server.js:505-511 | Creation adds exactly one row to each table, under the new id, and changes no existing row. |
| PairedCatalog.CreateKeepsPairing | functions/server.js:475-523 | On paired tables creation keeps them paired, and the key set grows by exactly the new id. |
| PairedCatalog.CreatePair | functions/server.js:475-523 | The new id exceeds every id in either table. Each table gains exactly one row under it, holding the given name, and keeps every other row. |
| PairedCatalog.CreateAllCounts | functions/server.js:492-503 | Creating pairs one after another over ids 1..n hands out n+1, n+2, … in order, and the tables then hold ids 1..n+k. |
| PairedCatalog.CreateNext | functions/server.js:492-503 | Over tables holding exactly the ids 1..n, a create receives n+1 and leaves the ids 1..n+1. |
| PairedCatalog.CreateAllIds | functions/server.js:492-503 | Creations one after another over ids 1..n receive n+1, n+2, … in order. |
| PairedCatalog.CreateAllKeys | functions/server.js:492-503 | After those creations the tables hold exactly the ids 1..n plus the number created. |
| PairedCatalog.CreateAfterDeleteReusesId | functions/server.js:492-503 | With one pair under id 1, a create gets 2, deleting 2 succeeds, and the next create gets 2 again: ids are reused. |
| PairedCatalog.CreateAllFromEmpty | functions/server.js:492-503 | Starting from empty tables, the k-th created pair gets id k. |
| PairedCatalog.UpdateKeepsPairing | functions/server.js:545-573 | A rename keeps both key sets and the pairing. A present pair then reads back with the new names, and repeating the rename changes nothing. |
| PairedCatalog.UpdatePair | functions/server.js:545-573 | A rename keeps both key sets. Each half present under the id takes its new name. Every other row is unchanged. |
| PairedCatalog.DeleteOnPaired | functions/server.js:685-705 | On paired tables the delete succeeds exactly when the id exists, and the tables stay paired. |
| PairedCatalog.DeleteHalfPair | functions/server.js:690-700 | When only one half exists, the delete reports failure (404) yet still removes that half. |
| PairedCatalog.DeletePair | functions/server.js:685-705 | The delete succeeds exactly when both halves exist. It removes the id from both tables and keeps every other row. |
| PairedCatalog.ListPairsOnPaired | functions/server.js:526-542 | On paired tables the listing has one entry per job title. |
| RequestUpdate.Execute | functions/server.js:226-228 | The statement fails exactly when a placeholder is unbound or a parameter does not fit its column. Otherwise it keeps the key set and changes no row except the one addressed by the `WHERE` parameter. |
| RequestUpdate.ApplySetsAppend | functions/server.js:208-220 | Running two lists of `SET` clauses one after the other equals running their concatenation. |
| RequestUpdate.ApplySetsExtend | functions/server.js:208-224 | Appending parameters leaves the meaning of the existing clauses unchanged. |
| RequestUpdate.ApplyOneMore | functions/server.js:212-220 | A clause whose placeholder is the next parameter number assigns that parameter to its column. |
| RequestUpdate.ApplySets | functions/server.js:208-224 | The `SET` clauses change only status, description and the two dates. A column no clause names keeps its value, and no clause clears a date. |
| RequestUpdate.UpdatedRequest | functions/server.js:205-220 | The intended update sets status and description, sets each date only when given and keeps it otherwise, and leaves problem, specialist and send date alone. |
| RequestUpdate.UpdateRequestTable | functions/server.js:224-228 | The intended table keeps its key set, rewrites the request under the id if there is one, and keeps every other request. |
| RequestUpdate.ExecuteIntended | functions/server.js:208-228 | A statement that performs the body's assignments and addresses the request id executes as the intended update of that request. |
| RequestUpdate.FirstClauses | functions/server.js:208-210 | The first two clauses set the status and the description from parameters 1 and 2. |
| RequestUpdate.AddDateClause | functions/server.js:212-220 | Appending a date clause numbered after the current parameters performs that date's assignment as well. |
| RequestUpdate.AddWhereParameter | functions/server.js:222-224 | Appending the id parameter keeps the assignments performed. |
| RequestUpdate.BuildUpdate | functions/server.js:208-224 | The built statement is well numbered and its last parameter is the request id. On every table its execution is exactly the intended update: status and description always, each date only when given. |
| RequestUpdate.UpdateChangesOnlyTarget | functions/server.js:203-235 | The update keeps the key set and every other request. In the target request it sets status and description, writes the given dates and keeps the rest. |
| RequestUpdate.UpdateNeverClearsDates | functions/server.js:212-220 | An absent date leaves the stored date unchanged, so a date once set is never cleared. |
| RequestUpdate.UpdateKeepsDatesOrdered | functions/server.js:212-220 | When the written dates are in order with each other and with the stored ones, acceptance stays no later than completion. |
| RequestUpdate.UpdateMayDisorderDates | functions/server.js:217-220 | The handler does not check date order: a completion date before the stored acceptance date is stored as given. |
| Calendar.DaysBeforeMonth | functions/server.js:724 | Days before a month lie in the year, and are zero exactly for January. |
| Calendar.YearAndOffset | functions/server.js:808-809 | Day d counted from year y is day r.1 of year r.0: the days of the years from y to r.0 plus r.1 make d, and r.1 lies within that year. |
| Calendar.DaysBetweenStep | functions/server.js:808-809 | Starting the count one year later skips exactly that year's days. |
| Calendar.DaysBetweenAdd | functions/server.js:808-809 | Day counts between years add up through any intermediate year. |
| Calendar.DaysBetweenCovers | functions/server.js:808-809 | Between the first days of two years lie at least the days of the earlier year. |
| Calendar.YearAndOffsetUnique | functions/server.js:808-809 | Any year and in-range offset that add up to day d are the ones `YearAndOffset` returns. |
| Calendar.Year | functions/server.js:809 | `EXTRACT(YEAR …)` is never 0. Read as an astronomical year, it is the year whose days, counted from 1970, hold the timestamp's day. |
| Calendar.YearOfOneBC | functions/server.js:809 | A timestamp on the first day of 1 BC is reported as year -1, not 0. |
| Calendar.YearKeepsOrder | functions/server.js:809 | The year numbering keeps the order of astronomical years, so `ORDER BY year` is unaffected. |
| Calendar.MonthFrom | functions/server.js:724 | The month found is the one whose day range contains the day of year. |
| Calendar.Month | functions/server.js:724 | `EXTRACT(MONTH …)` of a timestamp is the month number, from 1 to 12, whose day range holds the timestamp's day of the year. |
| Ordering.SortedBy | functions/server.js:733-734 | The rows of a finite set in `ORDER BY` order: each element once, nothing else, strictly ascending. |
| Ordering.LeastExists | functions/server.js:733-734 | A non-empty finite set has a least element under a strict total order. |
| Ordering.RowsFollowKeys | functions/server.js:733-734 | Rows built one per sorted key carry exactly those keys, in the same ascending order. |
| Ordering.IntLessIsStrictTotal | functions/server.js:733-734 | Ordering by month number is a strict total order. |
| Ordering.YearMonthLessIsStrictTotal | functions/server.js:816 | Ordering by year, then month, is a strict total order. |
| Ordering.LexLessIsStrictTotal | functions/server.js:792 | Ordering problem names byte by byte is a strict total order. |
| Ordering.LexLess | functions/server.js:792 | A proper prefix sorts before the longer string, and nothing sorts before its own prefix. |
| Ordering.LexLessAtFirstDifference | functions/server.js:792 | At the first position where two names differ, that character decides the order. |
| Reports.LeastId | functions/server.js:713-715 | The first row of the status lookup is a member of the set no larger than any other. |
| Reports.CompletedStatusId | functions/server.js:713-719 | The lookup fails exactly when no status is named "Выполнена" or the first one has id 0, which JavaScript treats as missing. On success the id names that status, is non-zero and is the least such id. |
| Reports.Duration | functions/server.js:725 | A duration exists exactly when the completion date and the chosen start date are both non-NULL. |
| Reports.Durations | functions/server.js:725 | `AVG` sees at most one value per row, and no values at all exactly when every row's duration is NULL. |
| Reports.Average | functions/server.js:725 | `AVG` is NULL exactly when no duration is non-NULL. |
| Reports.GroupIds | functions/server.js:729-732 | The group's ids, each once: exactly the requests with the status completed in that month. |
| Reports.RowsAt | functions/server.js:726-727 | The rows under a list of ids, one per id, in the same order. |
| Reports.GroupRows | functions/server.js:729-732 | The group's rows, one per group id, in id order. |
| Reports.InGroup | functions/server.js:729-730 | A request falls in a month's group only for a month number from 1 to 12. |
| Reports.GroupNonEmpty | functions/server.js:729-731 | A month's group is non-empty exactly when some request of the status was completed in that month. |
| Reports.MonthRow | functions/server.js:722-734 | A month's row carries that month, and it has an average only when the month's group has a request. |
| Reports.SortedMonths | functions/server.js:729-734 | The listed months are exactly the requested months that have a group, in strictly ascending order. |
| Reports.MonthRows | functions/server.js:722-734 | One result row per listed month, carrying that month. |
| Reports.MonthRowsAreMonthRow | functions/server.js:722-734 | Each result row is the month's group average. |
| Reports.AverageReport | functions/server.js:722-734 | A month appears exactly when it was requested and has a group. Rows ascend by month, and each row holds its month's group average. |
| Reports.MonthRowsHoldAverages | functions/server.js:722-734 | Each row built for a list of months is the output row of the month it carries. |
| Reports.AverageTimeReport | functions/server.js:708-744 | The report fails exactly when the status lookup fails. Otherwise it is the grouped average for the completed status. |
| Reports.AverageReportLists | functions/server.js:722-734 | A month is listed exactly when it was requested and some request with the completed status was completed in it. |
| Reports.AverageReportMonthRange | functions/server.js:724 | Every listed month is between 1 and 12. |
| Reports.SumBounds | functions/server.js:725 | A sum of n values within [lo, hi] lies within [n·lo, n·hi]. |
| Reports.AverageBounds | functions/server.js:725 | The average of non-empty values within [lo, hi] lies within [lo, hi]. |
| Reports.QuotientBounds | functions/server.js:725 | A quotient by a positive count of a total within [n·lo, n·hi] lies within [lo, hi]. |
| Reports.DurationsBounded | functions/server.js:725 | Dropping NULL durations keeps the bounds of the rest. |
| Reports.MonthAverageWithinBounds | functions/server.js:725 | When every request in the group took between lo and hi hours, the month's average lies between lo and hi. |
| Reports.DurationsFromSendKeepAll | functions/server.js:765 | Measured from sending, every completed request contributes a duration. |
| Reports.FromSendAlwaysAveraged | functions/server.js:748-781 | In the specialist report every listed month has a non-NULL average. |
| Reports.DurationsEmptyWithoutAccept | functions/server.js:725 | Measured from acceptance, requests with no acceptance date contribute nothing. |
| Reports.DurationsNonEmptyWithAccept | functions/server.js:725 | One completed request with an acceptance date yields a duration. |
| Reports.FromAcceptNullIffNoneAccepted | functions/server.js:722-734 | The month's average from acceptance is NULL exactly when no request of the group has an acceptance date. |
| Reports.MayFirst1970 | functions/server.js:724 | Hour 2883 after the epoch falls in May. |
| Reports.SampleMonths | functions/server.js:729-734 | With one request completed in May, asking for May and June lists only May. |
| Reports.SampleMayRow | functions/server.js:725 | That request, accepted at hour 2880 and completed at hour 2883, averages 3 hours. |
| Reports.OneRequestInMay | functions/server.js:708-744 | The whole report for that database is one row: May, 3.0 hours. |
| Reports.OfType | functions/server.js:787-793 | The requests counted for a name are among the joined requests. |
| Reports.TypeNames | functions/server.js:787-793 | The grouped names are exactly those with at least one joined request. |
| Reports.SortedNames | functions/server.js:787-793 | The names are listed each once, in byte order. |
| Reports.TypeRows | functions/server.js:787-793 | Each row carries its name and the number of joined requests of that problem name. |
| Reports.RequestTypeReport | functions/server.js:785-800 | The rows ascend by name, a name appears exactly when it has a joined request, and each count is the number of such requests. |
| Reports.TypeCountsPositive | functions/server.js:787-793 | Every listed count is at least 1. |
| Reports.CountsAddUp | functions/server.js:787-793 | Over distinct names, the counts add up to the size of the union of their groups. |
| Reports.OfTypesSnoc | functions/server.js:791 | Adding a name not yet listed adds exactly its requests, disjoint from those already counted. |
| Reports.SortedNamesDistinct | functions/server.js:791-792 | Each name is listed once. |
| Reports.SortedNamesCoverJoin | functions/server.js:789-791 | Every joined request has its problem name among the listed names. |
| Reports.TypeCountsPartition | functions/server.js:787-793 | The counts add up to the number of requests whose problem exists. Requests with an unknown problem are dropped by the inner join. |
| Reports.WithStatus | functions/server.js:810-812 | The requests counted under a status name are among the period's joined requests. |
| Reports.Periods | functions/server.js:806-817 | The periods listed are exactly the (year, month) pairs of send dates with a joined request. |
| Reports.SortedPeriods | functions/server.js:814-816 | Those periods, each once, ordered by year and then month. |
| Reports.PeriodRows | functions/server.js:806-817 | Each row holds the counts of its period. |
| Reports.PeriodCounts | functions/server.js:810-812 | A period's row reports that period. Each of its three counts is the number of the period's joined requests whose status has that name, so requests in other statuses count in none. |
| Reports.MonthlyRowPeriods | functions/server.js:806-817 | The report has one row per listed period, and the i-th row reports the i-th period. |
| Reports.MonthlyReportOrdered | functions/server.js:816 | The rows ascend by year and then month. |
| Reports.MonthlyReportLists | functions/server.js:813-815 | A (year, month) has a row exactly when some request joined with its status was sent in it. |
| Reports.MonthlyReportCounts | functions/server.js:810-812 | Each row holds the three status counts of its own (year, month). |
| Reports.MonthlyStatusReport | functions/server.js:806-817 | The report has as many rows as there are periods with a request joined with its status. |
| Reports.SendPeriod | functions/server.js:808-809 | A request's period has a month from 1 to 12 and a year other than 0. Read astronomically, that year's days hold its send date. |
| Reports.WithStatusDisjoint | functions/server.js:810-812 | No request is counted under two different status names. |
| Reports.StatusCountsBounded | functions/server.js:810-812 | The three counts of a period add up to at most its number of requests. |
| Reports.InhabitedPeriodMonth | functions/server.js:808 | A period that has a request has a month from 1 to 12. |
| Reports.MonthlyRowsAreNonEmpty | functions/server.js:806-817 | Every row has a month from 1 to 12 and at least one request behind it. |
| Server.Database.constructor | functions/server.js:28-34 | The database starts with the given tables and sequences. |
| Server.Database.AllocatePairId | functions/server.js:484-503 | The two `MAX` reads and the scan yield `NextPairId` of the current tables, changing nothing. |
| Server.Falsy | functions/server.js:953-955 | A name that passes the check is present and non-empty; an absent or empty name is refused with 400. |
| Server.Database.CreatePair | functions/server.js:475-523 | The allocated id and the two inserts produce exactly `PairedCatalog.CreatePair` of the old tables, and return its id. Nothing else changes, and pairing and the sequence bounds are kept. |
| Server.Database.UpdatePair | functions/server.js:545-573 | Both tables become `PairedCatalog.UpdatePair` of the old ones, nothing else changes, and the invariant is kept. |
| Server.Database.DeletePair | functions/server.js:685-705 | The tables and the answer are `PairedCatalog.DeletePair` of the old tables, nothing else changes, and the invariant is kept. |
| Server.Database.UpdateRequest | functions/server.js:203-235 | Building and running the statement leaves the request table as the intended update of the old one, and nothing else changes. |
| Server.Database.DeleteRequest | functions/server.js:664-682 | Success exactly when the request existed. The table loses just that id. |
| Server.Database.CreateSpecialist | functions/server.js:271-296 | The sequence advances by one. On success the specialist is stored under the old sequence value and a resolves row (job-title id, new id) is appended. Under the invariant the insert always succeeds. |
| Server.Database.DeleteSpecialist | functions/server.js:624-642 | Success exactly when the specialist existed. The table loses just that id. |
| Server.Database.CreateStatus | functions/server.js:950-968 | A missing or empty name is refused (400) with nothing changed. Otherwise the name is stored under the next serial id. Under the invariant the insert always succeeds. |
| Server.Database.RenameStatus | functions/server.js:925-948 | Not found (404) exactly when no status has the id. The table becomes the rename of the old one. |
| Server.Database.DeleteStatus | functions/server.js:645-661 | Success exactly when the status existed. The table loses just that id. |
| Server.Database.CreateDepartment | functions/server.js:893-911 | A missing or empty name is refused (400) with nothing changed. Otherwise the new row's id, the old sequence value, is returned. Under the invariant the insert always succeeds. |
| Server.Database.RenameDepartment | functions/server.js:873-890 | Success exactly when the department existed, otherwise not found (404). The table becomes the rename of the old one. |
| Server.Database.DeleteDepartment | functions/server.js:842-851 | The department is removed if present, and nothing else changes. |

## Left out

- E-mail sending (`/api/send-email`) and login with bcrypt and JWT are external services and cryptography. They are not part of this model.
- Express wiring, CORS, body parsing, listening and the connection pool are not modelled. Transactions are modelled as atomic steps, and the concurrent `Promise.all` of the pair rename runs as two sequential updates. Concurrent requests (two pair creations reading the same `MAX`) are not modelled.
- Read-only lookups and listings are left out: workers, job titles, specialists, problems, statuses, departments, `/api/requests/:specialistId` and `/api/all-requests`. The office handlers are left out too. The reads that are modelled are `GET /api/request/:id` through `Table.Lookup`, `GET /api/JobProblem/:id` through `PairedCatalog.LookupPair`, and `GET /api/JobProblem` through `PairedCatalog.ListPairs`. `Table.Lookup` also stands for the other single-row reads by id.
- Reports.AverageTimeReport: `AVG` is computed over exact reals, not PostgreSQL's numeric or floating-point arithmetic. Timestamps are whole hours, so durations are whole hours rather than `EPOCH` seconds divided by 3600. Time zones are not modelled.
- Reports.AverageTimeReport: the requested months are taken as already parsed integers. The splitting of the query string and `Number()` (which can give `NaN`) are not modelled, nor is the 500 answer when `months` is absent (the failing `split` is caught by the handler's `try`).
- Reports.CompletedStatusId: `rows[0]` of an unordered `SELECT` is taken to be the least id with the name. SQL leaves the row order unspecified.
- Ordering.LexLess: problem names are ordered by code point, as under the C collation. Locale-specific collations are not modelled.
- Server.Database.CreateSpecialist: the second insert (into `resolves`) is modelled as always succeeding. Only primary-key conflicts fail an insert. The two inserts are not transactional in the source; nothing would undo the first if the second failed.
- Server.Database.CreatePair, Server.Database.CreateSpecialist, Server.Database.CreateStatus, Server.Database.CreateDepartment: ids and sequence values are unbounded integers. In the source they are fixed-width SQL integers. An insert that fails because its id is past the column's or the sequence's maximum is not modelled. In the source such a failure gives `ROLLBACK` and 500 for a pair and 500 for the others.
- Foreign keys and `NOT NULL` constraints are not part of this model. So no insert fails for a missing referenced row. Likewise Server.Database.DeleteSpecialist, Server.Database.DeleteStatus, Server.Database.DeleteRequest and Server.Database.DeletePair never fail because another row references the deleted one. A specialist created through `POST /api/specialists` always has such a `resolves` row.
- Reports.FromSendAlwaysAveraged, Reports.MonthlyStatusReport: the send date of a request is taken to be always set (`sendDate` is not optional). The column's constraints are not part of this model. A NULL send date would give no duration in the specialist report, and a NULL (year, month) group in the monthly report.
- Server.Database.RenameStatus, Server.Database.RenameDepartment: a missing (`undefined`) name in the body becomes SQL NULL in the source. The model takes the new name as a string.
- Server.Database.UpdateRequest: a missing (`undefined`) status or description in the body is bound as SQL NULL in the source. The model takes them as an integer and a string. A missing date is modelled, as the absent date it is.
- Server.Database.CreatePair: a missing job title or problem type in the body is bound as SQL NULL in the source. The model takes both names as strings. Its two inserts cannot fail in the model, since the new id is free in both tables, so the `ROLLBACK` branch of the handler is never reached.
- Server.Database.UpdatePair: a missing job title or problem type in the body is bound as SQL NULL in the source. The model takes both new names as strings.
- Server.Database.CreateStatus, Server.Database.CreateDepartment: only a missing or empty string counts as falsy. Non-string bodies (`0`, `false`) are not modelled.
- There is no request-creation handler in the server, so no operation creates requests.
