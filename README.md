# Parcel store

A model of the parcel store of the `tracker` repository. The store is a data-access layer over one
table, `parcel`, with the columns number (primary key, assigned by the database), client, status,
address and created_at. It offers six operations:

- `Add` inserts a parcel and returns the number the database assigned.
- `Get` looks a parcel up by number and fails with a distinguishable "not found" error.
- `GetByClient` lists the parcels of one client.
- `SetStatus` overwrites a status unconditionally.
- `SetAddress` and `Delete` take effect only while the parcel is still in its initial "registered"
  status; otherwise they do nothing and still succeed.

The model has two modules:

- `ParcelTable` (`parcel_table.dfy`) holds the values: `Parcel`, `Row`, the table as
  `map<int, Row>`, the error kinds, and one function per SQL statement. Each function maps the
  table before the statement to the table after it, and its `WHERE` clause becomes the condition
  under which a row is touched. The lemmas relating several statements are here too.
- `Tracker` (`parcel_store.dfy`) holds the class `ParcelStore`. Its field `table` is the table
  behind the database handle, and its methods change it by exactly the matching statement.
  - `lastNumber` stands for the engine's number allocation. `Valid()` keeps every stored number in
    `1..lastNumber`, so the next number handed out is fresh and positive.
  - What the database engine reports for a call is a parameter of that call. `fault` says the
    statement failed. `InsertOutcome` covers the two failure points of `Add`.

The status constants are declared in a file that is not part of this model. They appear here as
the strings `"registered"` and `"sent"`, and only their being different matters.

Two points of the code shape the contracts:
- The query in `GetByClient` has no `ORDER BY`, so the contract promises no order.
- `Add` can fail after its row has been written: `LastInsertId` fails after `Exec` succeeded.
  The caller then gets an error while the row stays in the table. The model keeps this branch
  as `IdUnavailable`.

## Model

| member | source | states |
|---|---|---|
| `ParcelTable.AsParcel` | parcel.go:36-37 | a scanned parcel carries the row's number and exactly that row's columns (`RowOf` inverts it) |
| `ParcelTable.InsertRow` | parcel.go:16-20 | the INSERT adds exactly one row, under the fresh number, holding the parcel's client, status, address and created_at; every earlier row is unchanged |
| `ParcelTable.UpdateStatus` | parcel.go:72-74 | the row with that number gets the new status whatever its previous status; no other row or column changes, and an absent number changes nothing |
| `ParcelTable.UpdateAddress` | parcel.go:80-83 | the address changes if and only if the row exists with the registered status; otherwise the table is unchanged; no other row or column changes |
| `ParcelTable.DeleteRow` | parcel.go:89-91 | the row disappears if and only if it exists with the registered status; all other rows, and a row with any other status, stay present and unchanged |
| `ParcelTable.OncePerNumber` | parcel.go:54-62 | a result with as many distinct numbers as elements lists every number once |
| `ParcelTable.ClientNumbersAfterInsert` | parcel_test.go:128-141 | adding a parcel for a client grows that client's selection by its new number, and by one in size; adding for another client leaves it unchanged |
| `ParcelTable.ClientNumbersAfterUpdates` | parcel.go:71-94 | status and address updates never change any client's selection; a delete removes at most the deleted number from it |
| `ParcelTable.DeleteUndoesAdd` | parcel_test.go:37-54 | deleting a registered parcel right after adding it gives back the table as it was before the add |
| `ParcelTable.DeleteIdempotent` | parcel.go:88-94 | a repeated delete of the same number changes nothing |
| `ParcelTable.Lifecycle` | parcel.go:71-94 | add registered, change address, set status to sent: a later address change and delete are no-ops and the row keeps the first new address and the sent status |
| `Tracker.ParcelStore.constructor` | parcel.go:11-13 | a store over an existing table whose numbers are positive and already handed out |
| `Tracker.ParcelStore.Add` | parcel.go:15-31 | on success it returns a positive number absent before the call; `Get` of that number then yields the added parcel with that number; a failed `Exec` leaves the table and the number counter unchanged; the counter never goes back; a failed `LastInsertId` reports an error although the row was inserted |
| `Tracker.ParcelStore.Get` | parcel.go:33-43 | succeeds exactly when the number is stored, with that number and exactly the stored columns; an absent number gives `NotFound` and no parcel; an engine failure gives `StorageFailure` |
| `Tracker.ParcelStore.GetByClient` | parcel.go:45-69 | returns every parcel of the client exactly once, each equal to its stored row, and nothing else; an empty result when there are none; an engine failure gives `StorageFailure`; the table is not changed |
| `Tracker.ParcelStore.SetStatus` | parcel.go:71-77 | the table becomes `UpdateStatus` of the old table and `Get` then shows the new status; on failure nothing changes |
| `Tracker.ParcelStore.SetAddress` | parcel.go:79-86 | the table becomes `UpdateAddress` of the old table; it succeeds whether or not the guard held; on failure nothing changes |
| `Tracker.ParcelStore.Delete` | parcel.go:88-94 | the table becomes `DeleteRow` of the old table; after deleting a registered parcel `Get` gives `NotFound`; any other parcel stays |

No statement changes a row's number, client or created_at. The number is the map key. Each
statement function's `ensures KeepsIdentity(t, t')` covers the client and created_at.

## Left out

- The `database/sql` calls (`Exec`, `Query`, `QueryRow`, `Scan`, `sql.Named`, `rows.Close`,
  `rows.Err`, `LastInsertId`) and the SQL engine. They are replaced by the table and by the
  per-call failure parameters.
- How SQLite picks a new number. The model only promises a fresh positive number, drawn from a
  counter that never goes back. It does not model SQLite reusing the largest number after that
  row was deleted.
- `GetByClient` can fail in `Query`, in one `Scan` or in `rows.Err`. All three return no parcels
  and an error, so the model has a single `fault` parameter for them.
- The cursor's order. The model scans in number order, as a table without an index on client
  would, but its contract promises no order.
- Go's `nil` slice versus an empty slice, and the zero `Parcel{}` returned beside an error. An
  error result here simply carries no value.
- Numbers written into the table by anything other than the engine's allocation. The model
  assumes every stored number was assigned by the engine, so it is positive and at most the
  counter. This holds while the store is the table's only writer. An explicitly inserted number
  of zero or below cannot be represented.
- The conversion of the 64-bit `LastInsertId` to `int`: numbers are unbounded integers.
- Concurrency and isolation, which the database engine handles. Each call is one atomic step.
- The definitions of `Parcel`, `ParcelStatusRegistered` and `ParcelStatusSent` are not part of
  this model. They are declared here from their uses.
- The test harness: random client ids, timestamp formatting and assertions.
