# License-key server: the key table and its lifecycle

The server issues license keys, binds each one to a hardware identifier (HWID) on its first use, counts
uses against a per-key limit, and expires keys by time. All of its state is one table of `Key` rows
(`id`, `key`, `hwid`, `usage_limit`, `expiration_date`, `uses`). Two variants of the server share that table
design. `app.py` has five handlers: create, use, check by HWID, delete all, and list. It also runs a sweeper
every second. `index.py` has only create and list, and sweeps once a minute.

The model is three modules:

- `Keys` (`keys.dfy`) holds the pure part. It defines the `Key` record and the `/keys` summary. It defines
  when a record is bound (`Bound`: a stored HWID that is neither null nor empty) and when it has expired
  (`Expired`: `expiration < now`, strict). `First` is the `filter_by(...).first()` lookup. `NextId` is the id
  the store hands out. `ValidTable` is the table invariant: ids positive and strictly increasing, and `uses`
  never above the limit once counted. `Survivors` is what one sweeper tick leaves, and `DeleteExpired` is the
  tick's deletion loop. `Summaries` is the listing. The lemmas about these live here too.
- `AppServer` (`app_server.dfy`) is a class `KeyTable` whose field `records: seq<Key>` is the table. It has
  one method per handler of `app.py` plus one sweeper tick. Every method keeps `Valid()` and states the new
  table for each outcome. Four client methods replay concrete request sequences against these contracts.
- `IndexServer` (`index_server.dfy`) is the same table with the three operations of `index.py`.

Time is an integer clock, passed to each operation as `now`. Minutes are integers on that clock. Request
fields that may be missing are `Option`s. The handlers read them with `data.get`, which gives `None` for an
absent field. The HTTP answers are the datatypes `UseOutcome`, `CheckOutcome` and `CreateOutcome`, and
their `Status()` gives the status code.

The model follows the code as written, in particular:

- `use_key` checks HWID mismatch before expiry. An expired record bound to another device therefore
  answers 403 mismatch and is not deleted.
- Nothing validates `usage_limit` or the lifetime. A limit of 0 or less refuses every use. A negative
  lifetime makes a key that has already expired.
- A record counts as bound only when its HWID is truthy. A record holding `""` can be rebound by any
  device, and a use without an `hwid` field stores null.
- `filter_by(hwid=None)` compiles to `IS NULL`. So `/check_hwid` without an `hwid` finds the first record
  whose HWID is null (never used, or last used without an hwid) and reports it valid. A record holding `""`
  is skipped by that query even though it counts as unbound (`MissingHwidScenario`).
- Key values are not unique. Lookups take the first match in table order.

## Model

| member | source | states |
|---|---|---|
| `Keys.Bound` | app.py:58 | the truthiness test: a null or empty stored HWID is unbound, any other string is bound |
| `Keys.Expired` | app.py:62 | expired means `now > expiration`, the same relation as `expiration < now` at app.py:121 and the test at app.py:84; `expiration == now` is live |
| `Keys.Selects` | app.py:79 | `filter_by` equality: a null key selects nothing; a null HWID selects exactly the records whose HWID is null, not those holding `""`; a present HWID selects equal HWIDs; a present key selects equal keys |
| `Keys.NewKey` | app.py:33-37 | the new row has a null HWID (so it is unbound), is unused and valid, has id `NextId`, above every other id, takes the given limit (default 1) and expiration `now + minutes` (default 60), and is live at `now` exactly when the lifetime is not negative |
| `Keys.CreateOutcome.Status` | app.py:41 | created answers 201; the failed insert answers 500 |
| `AppServer.UseOutcome.Status` | app.py:56-73 | success answers 200, an unknown key 404, and mismatch, expiry and limit 403 |
| `AppServer.CheckOutcome.Status` | app.py:82-89 | a valid HWID answers 200, an unknown one 404, an expired record 403 |
| `Keys.Survivors` | app.py:121-123 | no record left by a tick is expired, every survivor was in the table, and the table never grows |
| `Keys.First` | app.py:53 | `.first()`: the result is the index of a selected record with no selected record before it, and `None` exactly when no record is selected |
| `Keys.MaxId` | app.py:14 | is at least every id in the table, and is either 0 or an id that occurs in it |
| `Keys.NextId` | index.py:14 | the id of a new row is positive and larger than every id already in the table |
| `Keys.AppendNewKeyValid` | index.py:37-39 | appending the new row keeps the table invariant |
| `Keys.RemoveAt` | app.py:63 | deleting a record removes exactly that one and keeps the others in order |
| `Keys.RemoveAtValid` | app.py:85 | deleting one record keeps the table invariant |
| `Keys.DeletionKeepsBindings` | app.py:58-59 | a table obtained only by deleting keeps every bound record's HWID |
| `Keys.DeleteExpired` | app.py:122-123 | the loop that deletes expired records one by one leaves exactly `Survivors` |
| `Keys.SurvivorsMembership` | app.py:121 | a record survives a tick if and only if it was in the table and `expiration >= now` |
| `Keys.SurvivorsValid` | app.py:120-124 | a tick keeps the table invariant, so survivors stay in their original id order |
| `Keys.SurvivorsIdempotent` | index.py:68-71 | a second tick at the same `now` removes nothing |
| `Keys.AllExpiredSweepsEverything` | index.py:68-70 | when every record has expired, one tick empties the table |
| `Keys.NoneExpiredSweepsNothing` | index.py:68 | when no record has expired (including `expiration == now`), a tick changes nothing |
| `Keys.Summaries` | app.py:104-114 | the listing has one summary per record, in table order, with all six columns copied |
| `Keys.ListingDeterminesTable` | index.py:49-59 | the listing loses nothing: equal listings come only from equal tables |
| `AppServer.KeyTable.constructor` | app.py:21-22 | on a fresh database the table starts empty and valid |
| `AppServer.KeyTable.CreateKey` | app.py:30-41 | with a key, appends one row with the next id, that key, no HWID, `uses = 0`, the given limit (default 1) and `expiration = now + minutes` (default 60), leaving existing rows unchanged; without one, answers 500 and changes nothing |
| `AppServer.KeyTable.UseKey` | app.py:49-73 | unknown key: 404, no change. Bound to another device: 403, no change, even if expired. Expired: deletes exactly that record. Limit reached: no change. Otherwise: `uses + 1` and HWID set on that record only. Also: `uses` grows only below the limit, bindings are kept, the invariant holds |
| `AppServer.KeyTable.CheckHwid` | app.py:76-89 | no record with that HWID: 404, no change. First match expired: only it is deleted. Otherwise: returns its key, no change |
| `AppServer.KeyTable.DeleteAll` | app.py:92-99 | the table becomes empty and the count is its previous size |
| `AppServer.KeyTable.GetKeys` | app.py:102-115 | returns `Summaries` of the table and modifies nothing |
| `AppServer.KeyTable.SweepTick` | app.py:120-124 | the table becomes `Survivors(old table, now)` and stays valid |
| `AppServer.LimitOfTwoScenario` | app.py:67-73 | with limit 2, two uses by one device succeed and the third answers limit reached |
| `AppServer.ExpiryBoundaryScenario` | app.py:62-65 | a key with `expiration == now` is usable; one past it is deleted on use, leaving one row |
| `AppServer.MismatchBeforeExpiryScenario` | app.py:58-62 | an expired key bound to another device answers mismatch and is not deleted |
| `AppServer.MissingHwidScenario` | app.py:78-79 | a check without an HWID skips a record holding `""` and reports the first record whose HWID is null (never used, or last used without an hwid) valid |
| `IndexServer.KeyTable.constructor` | index.py:21-22 | on a fresh database the table starts empty and valid |
| `IndexServer.KeyTable.CreateKey` | index.py:29-43 | with a key, appends one row with the next id, that key, no HWID, `uses = 0`, the given limit (default 1) and `expiration = now + minutes` (default 60), leaving existing rows unchanged; without one, answers 500 and changes nothing |
| `IndexServer.KeyTable.GetKeys` | index.py:46-62 | returns `Summaries` of the table and modifies nothing |
| `IndexServer.KeyTable.SweepTick` | index.py:67-71 | the table becomes `Survivors(old table, now)` and stays valid |
| `IndexServer.SweepScenario` | index.py:67-71 | a tick removes exactly the expired row, a second tick removes nothing, and the survivor is listed unchanged |

## Left out

- HTTP layer: Flask routing, `request.json` parsing, `jsonify` and page serving. Handlers become methods, and responses become outcome values with a status code.
- Storage engine: SQLAlchemy and SQLite, the database URL, sessions, commit and rollback. Each handler is one atomic update of `records`.
- Storage failures: the 500 answers of `delete_all_keys` and of `index.py`'s `except` branches that the storage library raises, apart from the missing-key insert failure.
- AppServer.KeyTable.CreateKey: `usage_limit` and `expiration_minutes` are unbounded integers, so two 500 answers are not modelled and the model answers `Created` there: a lifetime that puts the expiration date outside years 1 to 9999 (`datetime` raises `OverflowError` at app.py:35, unhandled), and a limit too large for a 64-bit SQLite `INTEGER`, which fails at the commit (app.py:39).
- IndexServer.KeyTable.CreateKey: the same two failures (index.py:35 and index.py:39), which index.py:42-43 turns into 500, are not modelled either; the model answers `Created`.
- Row order: queries without `ORDER BY` are taken to return rows in rowid order, so table order is id order.
- Ids: a new row gets one past the largest id present, or 1 in an empty table. This is SQLite's rowid rule, and the engine itself is not modelled.
- The 50-character limit on the string columns: SQLite does not enforce it.
- Persisted rows: the database is the file `keys.db`, and `create_all` only creates a missing table, so a restarted server keeps its rows. The model starts from a fresh, empty database; rows persisted by an earlier run are assumed to satisfy `ValidTable`.
- Sweeper thread: the daemon thread, its endless loop and the 1 s / 60 s sleeps. Only one tick is modelled.
- Concurrency: races between concurrent uses, and between the sweeper and request-time deletions. The code has no locking, and the model is sequential.
- Real time: `datetime.now()` and `timedelta`, including fractional minutes. These become an integer clock.
- Field types: a JSON `null` for `usage_limit` or `expiration_minutes`, non-numeric values there, and non-string values for `key` or `hwid`. A numeric field is either absent (the default applies) or an integer, and `key` and `hwid` are absent or strings.
