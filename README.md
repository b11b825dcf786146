# Value records: a verified model of the record table

The service keeps one table, `values`, whose rows have an integer primary key
`id` and two integer columns, `current_value` and `default_value`. Four
handlers work on it: list every row, create a row, overwrite both columns of a
row, and restore a row's current value to its default. This project models
that table as a map from primary key to row, and proves what each handler
does to it.

- `records.dfy` (module `Records`): the row (`ValueRecord`, the `Values`
  model class) and its dictionary shape (`ToDict`, the `to_dict` method),
  with `FromDict` reading a dictionary back to show that nothing is lost.
- `ids.dfy` (module `Ids`): facts about finite sets of primary keys: the
  least key, the keys in ascending order, and that a free key always exists.
- `store.dfy` (module `ValueStore`): the list handler as two functions,
  `AllRecords` (the query for every row) and `ListValues` (each record as
  its dictionary); the three writing handlers as functions on the table
  (`CreateStep`, `UpdateStep`, `RestoreStep`), each returning the new table
  and the handler's `Result` (`Ok(record)` or `NotFound`); then the class
  `Store`, whose field `rows` the methods `CreateValue`, `UpdateValue` and
  `RestoreDefault` change in place, each proved to perform exactly its
  function's transition. `GetValues` changes nothing and promises the
  listing's contents up to order: one entry per row, every entry a stored
  row, every row present.
  The lookup query shared by update and restore is the helper `Find`;
  its behaviour is stated in the `UpdateStep` and `RestoreStep` contracts.
  The invariant `WellKeyed` (every row is stored under its own id) stands for
  the primary key.

Each handler commits on its own, so each method is one atomic transition of
`rows`. The refresh after each commit re-reads the row just written and is
the identity on the map. A client method, `Scenario`, runs the handlers in
sequence: create (5, 0), update to (10, 0), restore gives current value 0;
restoring id 999 on an empty table fails and changes nothing.

## Model

| member | source | states |
|---|---|---|
| `Records.ToDict` | app.py:30-35 | the dictionary has exactly the keys `id`, `current_value`, `default_value`, and reading it back yields the record |
| `Records.ToDictInjective` | app.py:30-35 | two records have the same dictionary if and only if they are the same record |
| `Records.DictRoundTrip` | app.py:30-35 | every dictionary with exactly those three keys is the dictionary of the record read from it |
| `Ids.LeastExists` | app.py:57 | every non-empty set of primary keys has a least key; ordering support for `SortedIds`, which fixes the order of the query |
| `Ids.Least` | app.py:57 | the least key of a non-empty set is a member and no key is below it; ordering support for `SortedIds` |
| `Ids.SortedIds` | app.py:57 | the keys of a set, each exactly once, strictly ascending |
| `Ids.FreshIdExists` | app.py:26 | whatever keys are taken, some key is still free for a new row |
| `ValueStore.AllRecords` | app.py:57 | the query returns as many records as rows, each equal to the row stored under its id, every row present, no id twice |
| `ValueStore.ListValues` | app.py:58 | one dictionary per record, in the same order, each with the three keys and reading back as its record |
| `ValueStore.ListingEntriesStored` | app.py:55-58 | the listing has one entry per row, and every entry reads back as a row stored under its own id |
| `ValueStore.ListingComplete` | app.py:55-58 | every stored row appears in the listing as its dictionary |
| `ValueStore.CreateStep` | app.py:91-103 | create adds exactly one row, under an id not held before, stores and returns it with the given values; every existing row is unchanged; the primary-key invariant is kept |
| `ValueStore.UpdateStep` | app.py:60-74 | a missing id gives NotFound and leaves the table unchanged; otherwise the row keeps its id, holds both given values and is returned, no other row changes and no row is added or removed |
| `ValueStore.RestoreStep` | app.py:76-88 | a missing id gives NotFound and leaves the table unchanged; otherwise the row's current value becomes its own default value, the default value and id stay, the row is returned and no other row changes |
| `ValueStore.RestoreIdempotent` | app.py:85 | restoring twice yields the same record and the same table as restoring once |
| `ValueStore.UpdateThenRestore` | app.py:70-85 | after an update, restore sets the current value to the default value the update wrote |
| `ValueStore.CreateThenFind` | app.py:96-103 | fetching a freshly created id returns the record with the values it was created with |
| `ValueStore.UpdateThenList` | app.py:55-74 | after an update, the listing shows the record with exactly the new values |
| `ValueStore.MissingIdNotFound` | app.py:66-83 | for an id not in the table, update and restore both give NotFound and change nothing |
| `ValueStore.Store.constructor` | app.py:38 | the table as the first schema creation leaves it is empty and satisfies the primary-key invariant |
| `ValueStore.Store.GetValues` | app.py:55-58 | the list handler returns one entry per row, every entry reads back as a row stored under its own id, and every stored row appears as its dictionary |
| `ValueStore.Store.CreateValue` | app.py:91-103 | the create handler picks any id not in the table and performs the create transition in place |
| `ValueStore.Store.UpdateValue` | app.py:60-74 | the update handler performs the update transition in place and returns its result |
| `ValueStore.Store.RestoreDefault` | app.py:76-88 | the restore handler performs the restore transition in place and returns its result |

## Left out

- The HTTP layer: the application object, the routes, the `/` greeting (app.py:41, 51-53), the mapping of NotFound to status 404 and the `message` strings in the responses. The handlers return a `Result` instead.
- Request validation (app.py:14-20) and its 422 response: the body types belong to a foreign library; in the model, the inputs are plain `int` parameters.
- The engine, the SQLite file and the schema creation (app.py:8-11, 38): storage I/O. The constructor stands for an empty, newly created table.
- ValueStore.Store.constructor: stands for the table as the first schema creation leaves it, empty; on a later start the creation keeps an existing table and its rows. The handler contracts hold from any state satisfying the primary-key invariant, so nothing else depends on this.
- Session acquire and release (app.py:44-49): resource lifetime around I/O.
- The refresh after each commit (app.py:73, 87, 102): it re-reads the row just written, which is the identity on the map.
- The database's actual id numbering: `CreateValue` takes any id the table does not hold; the model claims freshness only.
- Order of the listing: the database promises no order (it is insertion order in practice); `AllRecords` fixes ascending id order as one possible order. The properties proved about the listing (one entry per row, every row present) do not depend on it.
- Integer width: columns are unbounded integers; the database's 64-bit limit and its overflow error are not modelled.
- Concurrent writers and last-writer-wins: each handler is one atomic transition; interleavings between requests are the host's and the database's concern.
- Storage errors (connectivity or integrity failures): they propagate unhandled from the database and are not modelled.
