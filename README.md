# Lab materials ledger: issue/return reconciliation in Dafny

This project models the core of a lab-inventory web application: the engine
that reconciles *issue* and *return* requests against a ledger of borrowing
entries and the stock of each component.

A request is keyed by a context: component, lab, campus, person and purpose.
The engine looks up the single *open* ledger entry of that context, meaning
one whose status is "Issued" or "Partially Returned".

- An **issue** checks that the component has enough stock. It then grows the
  open entry, or opens a new one, and takes the units off the stock.
- A **return** needs an open entry with something pending. The quantity may
  not exceed what is pending. The return grows the entry's returned counter
  and puts the units back on the stock.
- Both recompute `pending = issued - returned` and the status from the two
  counters. Both record the stock before and after the action. Issue notes
  replace the old notes only when non-empty; return notes are appended as a
  `"\nReturn: …"` line.
- Every failure is a typed error, and a failing request changes nothing.

A small classifier labels each component "Out of Stock", "Low Stock" or
"In Stock" from its quantity and minimum stock level.

The application has two storage variants with the same rules. The SQL one
(`app.py`) passes the lab id as sent and the stripped campus to the lookup,
even when empty. The document-store
one (`models.py`) first turns an empty lab or campus into "absent".

Layout:

- `inventory.dfy` (module `Inventory`): records, errors, and the
  document-store key normalisation.
- `stock_level.dfy` (module `StockLevel`): the stock classifier and the
  in-place enrichment loop.
- `reconcile.dfy` (module `Reconcile`): the rules of one commit as functions
  on the two tables (`ApplyIssue`, `ApplyReturn`), the ledger invariant, and
  lemmas about one commit.
- `conservation.dfy` (module `Conservation`): what holds over any stream of
  requests. Stock plus the units on loan is constant, and the invariant is
  kept.
- `ledger.dfy` (module `LedgerDb`): the `Ledger` class. It holds the entry
  table and the component table. Its methods update them in place, one
  atomic commit each, and are proved against `ApplyIssue`/`ApplyReturn`.
  It also holds the transaction form's input checks.

The ledger invariant (`Reconcile.LedgerValid`) has two parts. First, every
row has `0 < issued`, `0 <= returned <= issued`, `pending == issued - returned`,
and the status that `StatusOf(issued, returned)` gives. Second, each context
has at most one open row.

The SQL variant writes its open-status filter as the keyword `status__in`
inside `filter_by` (app.py:568, app.py:626). That is not a column of the
transaction table. Read as written, SQLAlchemy's `filter_by` rejects the
unknown keyword with an exception that is not a ValueError. That exception
escapes the form's `except ValueError` (app.py:527), on every return and on
every issue that passes the stock check. The model deliberately uses the
intended predicate "status is Issued or Partially Returned", which the
document-store query states (models.py:315).

The input checks sit in the form handler, not in the engine (app.py:456-512).
Before them the form strips campus, person, purpose and notes of surrounding
whitespace (app.py:433-436); the lab id is taken as sent. The checks are the
positive-quantity check, the required lab, component, person and purpose, and
the component lookup. The model keeps them there
(`LedgerDb.Screen`, `LedgerDb.Ledger.AddTransaction`), so the engine methods
take an existing component and a positive quantity.

A query's `.first()` / `find_one` returns some matching row. The model takes
the first one in table order. When the invariant holds, that row is the only
open row of its context (`Reconcile.FindOpenUnique`).

## Model

| member | source | states |
|---|---|---|
| `Inventory.Normalize` | models.py:338 | an empty or absent value becomes absent; any other value is kept; the result is never the empty string |
| `Inventory.DocContext` | models.py:337-338 | the document-store key keeps component, person and purpose, and never stores an empty lab or campus |
| `Inventory.DocContextAgrees` | models.py:409-410 | two raw keys give the same stored key exactly when they agree once an empty lab or campus is read as absent, so issue and return key the same way |
| `StockLevel.Classify` | app.py:272-292 | "Out of Stock" iff quantity <= 0, "Low Stock" iff 0 < quantity <= minimum, "In Stock" iff quantity is above both; a NULL quantity or minimum counts as 0 |
| `StockLevel.Badge` | app.py:272-290 | the label is "Out of Stock", "Low Stock" or "In Stock" under the same conditions as `Classify`, and the CSS class is "out", "low" or "instock" exactly with the matching label |
| `StockLevel.ClassifyMonotone` | app.py:277-285 | more stock never gives a worse state, and a higher minimum never gives a better one |
| `StockLevel.EnrichWithStatus` | models.py:239-259 | every component of the listing gets the state `Classify` gives for its own quantity and minimum; no other field changes |
| `Reconcile.OpenByName` | models.py:315 | a row is open exactly when its stored status name is "Issued" or "Partially Returned", the names the lookup filters on |
| `Reconcile.FindOpen` | models.py:306-317 | returns the first row whose context equals the key and whose status is open; returns nothing iff no such row exists |
| `Reconcile.FindOpenUnique` | app.py:561-569 | on a valid ledger the lookup returns the context's open row, whichever row it is |
| `Reconcile.OnlyOpenRow` | app.py:561-569 | on a valid ledger no other row of the context is open |
| `Reconcile.IssueStatusAgrees` | app.py:573-576 | the status the issue path writes equals the status the counters determine, iff the row has returns or something pending |
| `Reconcile.ReturnStatusAgrees` | app.py:647-649 | after a return, the status written is the one the counters determine |
| `Reconcile.ApplyIssue` | app.py:550-612 | fails with InsufficientStock(qty, stock) iff qty exceeds the stock, with a NULL stock read as 0; on success the stock becomes stock - qty, which is never negative; the component's other fields and all other components are unchanged; the written row has the request's context |
| `Reconcile.ApplyReturn` | app.py:615-668 | fails with NoMatchingTransaction iff no open row exists; on success it writes the open row and adds qty to the stock; the component's other fields and all other components are unchanged |
| `Reconcile.IssueCreatesEntry` | models.py:367-387 | with no open row, an issue appends a row with issued = pending = qty, returned = 0, status Issued, the given notes, and the stock before and after; the old rows are kept |
| `Reconcile.IssueGrowsEntry` | models.py:344-366 | with an open row, an issue grows issued by qty and keeps returned; pending becomes issued - returned; status is Issued while returned is 0, else Completed or Partially Returned by pending; notes are replaced only by non-empty notes; no other row changes |
| `Reconcile.ReturnErrors` | models.py:416-432 | NoMatchingTransaction iff no open row; NothingPending iff its pending <= 0; ExceedsPending(qty, pending) iff 0 < pending < qty; success iff none of these |
| `Reconcile.ReturnUpdatesEntry` | app.py:647-663 | a successful return grows returned by qty and keeps issued; pending becomes issued - returned; Completed iff pending <= 0, else Partially Returned; the return note is appended and the old notes are kept; the stock before and after is recorded |
| `Reconcile.ApplyIssuePreservesValid` | models.py:319-396 | an issue with qty > 0 keeps the ledger invariant; rows keep their context, counters never decrease, and a Completed row is never touched |
| `Reconcile.ApplyReturnPreservesValid` | models.py:398-465 | a return with qty > 0 keeps the ledger invariant under the same history guarantees |
| `Reconcile.NothingPendingUnreachable` | models.py:426-427 | on a valid ledger a return never fails with NothingPending |
| `Reconcile.IssueThenReturnRestoresStock` | models.py:434-465 | an issue followed by a return of the same quantity on the same context is always accepted and restores the stock; on a context with no open row, the new row ends Completed |
| `Reconcile.ReopenAfterCompletion` | app.py:589-608 | once a return completes a row, the next issue on that context opens a new row in state Issued and leaves the completed row unchanged |
| `Conservation.IssueConserves` | app.py:550-612 | an accepted issue leaves stock plus units on loan unchanged for every component |
| `Conservation.ReturnConserves` | app.py:615-668 | an accepted return leaves stock plus units on loan unchanged for every component |
| `Conservation.RunConserves` | app.py:609-612 | after any stream of requests, accepted or rejected, stock plus units on loan of every component is what it was |
| `Conservation.RunStock` | models.py:389-396 | after any stream of requests, stock = initial stock - units issued + units returned, counting accepted requests only |
| `Conservation.RunPreservesValid` | app.py:510-523 | any stream of requests with positive quantities keeps the ledger invariant and never rewrites history |
| `LedgerDb.Strip` | app.py:433-436 | the result is the input with its leading and trailing whitespace removed: the input is whitespace, then the result, then whitespace; the result neither starts nor ends with whitespace, and is empty iff the input is all whitespace |
| `LedgerDb.StripIdempotent` | app.py:433-436 | stripping a stripped value changes nothing |
| `LedgerDb.FormContext` | app.py:432-436 | the key the form passes on keeps the component and the lab id as sent, and its campus, person and purpose are `Strip` of the submitted ones, so stripping again changes nothing; the person is empty iff it was all whitespace |
| `LedgerDb.FormContextAgrees` | app.py:433-435 | two submissions reach the same key exactly when they agree on campus, person and purpose once stripped |
| `LedgerDb.PaddedNameStrips` | app.py:434 | " Bob" and "Bob " both strip to "Bob", so they key the same borrower |
| `LedgerDb.BlankIsMissing` | app.py:489-490 | a person or purpose made only of whitespace is reported as missing once the earlier checks pass |
| `LedgerDb.Screen` | app.py:456-512 | the form checks run in order (quantity > 0, lab given, component given, person and purpose given, component exists) on the stripped person and purpose, and the first failure is the error reported |
| `LedgerDb.Ledger.constructor` | database.py:78-100 | a freshly created, empty transactions table over the given components satisfies the ledger invariant |
| `LedgerDb.Ledger.Issue` | app.py:550-612 | updates the tables in place exactly as `ApplyIssue` prescribes: on error nothing changes; the invariant and history are kept |
| `LedgerDb.Ledger.Return` | app.py:615-668 | updates the tables in place exactly as `ApplyReturn` prescribes: on error nothing changes; the invariant and history are kept |
| `LedgerDb.Ledger.CreateIssue` | models.py:319-396 | the document-store issue under the normalised key; on success the written row stores no empty lab or campus |
| `LedgerDb.Ledger.AddReturn` | models.py:398-465 | the document-store return under the same normalised key as CreateIssue |
| `LedgerDb.Ledger.AddTransaction` | app.py:428-534 | a screened-out request or an unknown type changes nothing and reports its error; otherwise it is exactly an issue or a return on `FormContext` of the fields, with the notes stripped |

## Left out

- Web routing, templates, flash messages, redirects and login are not modelled. Nor are the dashboard, report and listing queries, or lab, category and component CRUD.
- Parsing the quantity with `int(...)` and its ValueError is left out. The quantity is taken as an integer.
- Timestamps are omitted (`issue_date`, `date`, `last_updated`, taken from a clock). A row's identity is its position in the table, not a database id or ObjectId.
- Database transactions and concurrency are left out. Each request is one atomic step of the `Ledger` methods, and an error leaves both tables unchanged. The storage layer must make the real commit atomic and serialised.
- Integer columns are unbounded here. The SQL schema's 32-bit INT overflow is not modelled.
- `LedgerDb.Ledger.Issue`, `LedgerDb.Ledger.Return`: these require qty > 0 instead of handling other quantities. Their callers in the SQL variant reject qty <= 0 first (app.py:456 before app.py:514-516, app.py:696 before app.py:700).
- `LedgerDb.Ledger.CreateIssue`, `LedgerDb.Ledger.AddReturn`: the document-store methods have no caller in the repository, so nothing visible guards them. The model gives them the same qty > 0 precondition as the SQL form's guard. Without it, a qty = 0 issue would open a row with nothing issued, which breaks the ledger invariant. A negative return would pass both pending checks and lower the returned counter and the stock (models.py:429-438).
- `LedgerDb.Ledger.AddTransaction`, `Reconcile.FindOpen`: the model matches keys by exact equality of the strings as submitted. The SQL lookup compares in the database instead, which differs in three ways.
  - Campus, person and purpose are VARCHAR columns declared without a collation (database.py:83-85). Their comparison follows the server's default collation. MySQL's defaults ignore letter case, so "Alice" and "alice" share an open row there but not in the model. `utf8mb4_0900_ai_ci` (MySQL 8) also ignores accents and counts trailing spaces. The older PAD SPACE defaults ignore trailing spaces.
  - `lab_id` is an INT column (database.py:82). The form sends the lab id as a string, which the database converts, so "3" and "03" reach the same row there but not in the model.
  - The document-store variant converts the lab id with `ObjectId(lab_id)` (models.py:311, models.py:337). That raises an exception on an id that is not 24 hex characters. The model takes any lab value.
- `LedgerDb.Strip`: removes only the ASCII characters `str.strip()` removes (space, tab, line feed, vertical tab, form feed, carriage return, U+001C to U+001F). Python also removes the non-ASCII whitespace characters, such as U+0085, U+00A0 and U+3000.
- The return form on an existing transaction (app.py:680-712) is not modelled separately. It calls the same return with that row's own key after rejecting qty <= 0.
- Display strings: the classifier's label, CSS class, `status_label` and empty `status_detail` all come from the one `stockState` value. `StockLevel.Badge` gives the label and class, `Status.Name` the stored status names.
