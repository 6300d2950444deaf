# Marks portal store, modelled in Dafny

The marks portal is an Express server over one SQLite database with three
tables: `students`, `subjects` and `marks`. This project models that
database as one object, `Store.Database`. The object holds the three tables
as sequences of rows in rowid order. It also holds the AUTOINCREMENT counters
and a clock that stands in for `CURRENT_TIMESTAMP`. Every `/api` route of
`server.js` except GET /api/marks is one method or function on that object,
run as one atomic step. Its contract states what the route does to the tables
and what it returns. GET /api/marks only reads, and is `Queries.FetchMarks`
applied to the marks and students tables. The SQL queries behind the routes
are pure functions over the tables.

- `rows.dfy` (module `Rows`): generic table algebra. `Select` is a WHERE
  clause, `Drop` is a DELETE by key, `KeysOf` gives a table's key values.
  `DistinctBy` is a UNIQUE constraint and `IncreasingBy` says ids or times
  grow along the table. Lemmas say how deletes and appends keep these
  properties.
- `schema.dfy` (module `Schema`): the row types, the keys of
  the UNIQUE constraints, the request bodies (an absent field is `None`) and
  the errors.
- `queries.dfy` (module `Queries`): how query-string values choose a WHERE
  clause. A value is truthy in JavaScript's sense: present and not `""`. A
  parameter bound as `undefined` becomes NULL and equals nothing. The module
  also has the `marks JOIN students` join, the marks fetch, the report's
  row selection and the newest-first page of the student list.
- `report.dfy` (module `Report`): the `GROUP BY s.category` aggregation as a
  function, the reference counts `Tally`/`TallyAll`, and the `reduce` over
  the category rows as a method with a loop.
- `upsert.dfy` (module `Upsert`): the marks table seen as a map from its
  UNIQUE key to the stored values (`MarkView`). `ApplyRecords` is a reference
  definition of the bulk upsert on that map. Lemmas say that the last
  complete record of a key wins and that untouched keys keep their values.
- `store.dfy` (module `Store`): the class `Database` with its invariant
  `Valid()` (the three UNIQUE constraints, increasing ids below the
  counters, increasing student creation times) and one member per route.

Modelling choices:
- `created_at` is a counter that grows with every insert. Ordering by
  `created_at DESC` is therefore the reverse of table order.
- `INSERT OR REPLACE` deletes the row holding the record's key. It then
  appends a new row with a fresh id and creation time, as SQLite's REPLACE
  does.
- A record with a missing field is not applied. For a NOT NULL column that
  has no default, SQLite's REPLACE falls back to ABORT for that statement.
- Foreign keys are not enforced, because the code never turns them on. A
  mark may name a missing student, and such a mark drops out of every join.
  Deleting a student or a subject leaves its marks in place.
- SQL gives no order to `GROUP BY` output or to unordered `SELECT`s. The
  model returns groups in order of first appearance and rows in rowid order.

## Model

| member | source | states |
|---|---|---|
| `Store.Database.constructor` | server.js:21-61 | a fresh database has three empty tables that satisfy every UNIQUE constraint, and ids start at 1 |
| `Store.Database.InsertStudent` | server.js:99-115 | a missing field fails with NOT NULL; an existing `reg_number` fails with UNIQUE; either failure leaves the whole store unchanged; otherwise exactly one row is appended and its new id is returned; the constraints still hold |
| `Store.Database.DeleteStudent` | server.js:117-127 | the table loses exactly the rows with that id; an absent id leaves it unchanged; the size drops by one or zero; marks and subjects are untouched; there is no failure path |
| `Store.Database.InsertSubject` | server.js:150-166 | a missing field fails with NOT NULL; an existing (year, department, subject_code) fails with UNIQUE and changes nothing; otherwise exactly one row is appended and its id is returned |
| `Store.Database.DeleteSubject` | server.js:168-178 | the table loses exactly the rows with that id; an absent id leaves it unchanged; students and marks are untouched |
| `Store.Database.UpsertMark` | server.js:204-210 | a complete record replaces the row holding its composite key with a new row that has a fresh id; an incomplete record changes nothing; the marks key stays unique |
| `Store.Database.BulkUpsert` | server.js:201-220 | the keyed view of marks ends as the records applied in list order; rows whose key no complete record carries are unchanged; keys stay unique; a body without a list is an error and changes nothing |
| `Upsert.ApplyRecords` | server.js:208-211 | the reference for the loop, records applied in list order: a stored key is never removed |
| `Upsert.ApplyRecordsKeys` | server.js:208-211 | after the records, the stored keys are exactly the old keys plus the keys of the complete records |
| `Upsert.LastRecordWins` | server.js:204-211 | after applying the records, a key stores the values of the last complete record that carries it |
| `Upsert.UntouchedKeyKept` | server.js:204-211 | a key that no complete record carries keeps its presence and its value |
| `Upsert.StoredRowIsLastRecord` | server.js:57 | after a bulk upsert, the key of the last record with that key is held by exactly one row, and that row has the record's subject name and marks |
| `Upsert.ViewDrop` | server.js:204 | removing the rows of a key removes exactly that key from the keyed view |
| `Upsert.ViewKeys` | server.js:57 | the keys of the view are exactly the keys present in the marks table |
| `Upsert.ViewOfDistinct` | server.js:57 | under the UNIQUE key, the view holds each row's own subject name and marks |
| `Store.Database.ListStudents` | server.js:74-97 | three filters exactly when year, department and section are all truthy; two when only year and department are; none when either of those is missing; the rows all match, appear strictly newest first, number min(10, matching), and every matching row left out is older than every row returned |
| `Queries.NewestFirst` | server.js:88 | `ORDER BY created_at DESC LIMIT n` over a table in time order: the page has min(n, size) rows |
| `Queries.NewestFirstPage` | server.js:88 | `ORDER BY created_at DESC LIMIT n` over a time-ordered table gives min(n, size) rows of the table, strictly newest first, that are newer than every row left out |
| `Store.Database.ListSubjects` | server.js:130-148 | the year and department filter applies exactly when both are truthy; the result is exactly the matching subjects, in id order, so each appears once; with no filter it is the whole table |
| `Queries.RosterFilter` | server.js:313-318 | the parameter check passes exactly when year, department and section are all truthy, and fails with the missing-filter error otherwise; the filter then matches exactly the students whose year, department and section equal the values |
| `Store.Database.ClassRoster` | server.js:310-327 | the request is an error exactly when year, department or section is absent or empty; otherwise the result is exactly the students of that class, in id order, so each appears once, with no cap; the store is only read |
| `Queries.JoinMark` | server.js:187 | the join rows of one mark pair it with exactly the students whose id is its `student_id` |
| `Queries.Join` | server.js:185-187 | the join pairs each mark with exactly the student rows whose id is its `student_id`; a mark with no such student gives no row |
| `Queries.JoinMarkAtMostOne` | server.js:187 | with unique student ids, a mark joins one student row if its `student_id` is in the table and none otherwise |
| `Queries.JoinIncreasing` | server.js:185-187 | over a marks table in id order with unique student ids, the join lists each mark at most once, in id order |
| `Queries.FetchMarks` | server.js:181-199 | the result holds exactly the joined rows equal on all five parameters; if any parameter is absent the result is empty |
| `Queries.FetchMarksOnce` | server.js:181-199 | over a marks table in id order, with unique student ids, no mark appears twice in the fetch result |
| `Queries.ScopeOf` | server.js:265-270 | the section condition is dropped exactly when the value is the string `"all"`; otherwise the student's section must equal the value, and an absent value is not `"all"` |
| `Queries.ReportRows` | server.js:262-285 | the report counts exactly the joined rows that match assessment, year, department and subject code; the section must match too unless it is `"all"` |
| `Queries.ReportRowsOnce` | server.js:272-285 | over a marks table in id order, with unique student ids, each counted mark appears in exactly one joined row: no mark twice, and as many rows as counted marks |
| `Report.Tally` | server.js:273-276 | the counts of one category balance: pass + fail = total, and total is at most the number of rows |
| `Report.TallyAll` | server.js:273-276 | over all matched rows, total is the number of rows and pass + fail = total |
| `Report.GroupByCategory` | server.js:272-285 | `GROUP BY s.category` gives at most one row per matched mark, and no rows exactly when no mark matched |
| `Report.GroupByCategoryCorrect` | server.js:272-285 | one row per category, with distinct categories; the categories are exactly those of the matched marks; each row counts its category's marks (pass for marks >= 40, fail for marks < 40), and pass + fail = total |
| `Report.GroupSums` | server.js:294-299 | summing the category rows gives the total, pass and fail counts over all matched marks |
| `Report.SumCategoryRows` | server.js:294-299 | the in-place `reduce` gives the field-wise sum of the category rows; if every row balances, so do the totals |
| `Report.PassPercentage` | server.js:304 | the percentage is the 0 case exactly when the grand total is 0, and otherwise the ratio pass/total |
| `Store.Database.PerformanceReport` | server.js:259-307 | the category rows are the grouping of the matched marks; totals are their sum and equal the counts over all matched marks, so the grand total is the number of distinct marks the WHERE clause selects, with each mark counted once, and pass + fail = total; the percentage is 0 exactly when that total is 0 |
| `Store.Database.Stats` | server.js:223-256 | the three dashboard counts are the sizes of the three tables |
| `Rows.DropAbsent` | server.js:120 | deleting an id that no row carries leaves the table as it was |
| `Rows.DropPresent` | server.js:120 | under a unique key, deleting a present key removes exactly one row |
| `Rows.Select` | server.js:318 | a WHERE clause returns exactly the rows that satisfy it |
| `Rows.Drop` | server.js:171 | a DELETE by key keeps exactly the rows whose key differs |

## Left out

- HTTP plumbing: routing, CORS, body parsing, static files and the
  single-page fallback (server.js:10-15, server.js:329-332). Also the port,
  the database path and `listen` (server.js:8, server.js:18,
  server.js:335-338). These are I/O, not logic of the store.
- Opening the database, the logging callbacks and the nested asynchronous
  callbacks (server.js:63-71, server.js:230-255). Each route is modelled as
  one atomic step.
- SQLite's error message texts and HTTP status codes. Errors are the kinds in
  `DbError`. Failures of the database itself (I/O, busy, a failing
  `finalize`) are not modelled. Routes that only fail that way, such as the
  deletes and the lists, have no failure path in the model.
- `Report.PassPercentage`: the floating-point division and `toFixed(2)`
  formatting (server.js:304) are not modelled. The model keeps the
  zero-total case and the exact ratio pass/total.
- Real timestamps. `CURRENT_TIMESTAMP` has a resolution of one second, so two
  students created in the same second tie under `ORDER BY created_at`. The
  model's clock never ties.
- `Store.Database.BulkUpsert`: records are modelled as plain values. A
  `null` element of the list makes `mark.student_id` throw partway through
  the loop. Which records were already issued at that point is not
  modelled. A number, string or boolean element reads every field as
  `undefined`, fails NOT NULL and is not applied, as the model has it. Per-record SQLite errors are not reported either. A malformed
  record is simply not applied.
- `Store.Database.UpsertMark`: states the new rows of the table. Its effect
  on the keyed view is proved where the bulk loop calls it, not in its own
  contract.
- SQLite type affinity and JSON value types. Every text column is a Dafny
  string, and `student_id` and `marks` are integers. A number sent for a text
  column, a string or fraction sent for `marks`, a repeated query parameter
  (which Express turns into an array) and a non-numeric `:id` are not
  modelled. An `:id` is an integer here.
