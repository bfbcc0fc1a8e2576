# Inventory items store: a Dafny model of the upsert and the date-range read

This project models `database_operations/crud.py` of an inventory service backed by one
MySQL table, `items (id, name, category, price, last_updated_dt)`:

- `insert_item` is an upsert keyed by `name`. It checks that the request holds `name`,
  `category` and `price`. It looks up the first row with that name. When one exists, it
  rewrites `category` and `price` of the rows carrying that row's id and replies with the
  id as plain hex (`bytes.hex()`). Otherwise it appends a row with a fresh version-4 UUID
  and replies with the id's hyphenated UUID text (`str(uuid)`). Any error rolls the
  transaction back, and the pool connection is released on every path.
- `get_items_within_date_range` selects the rows whose `last_updated_dt` lies in
  `[dt_from, dt_to]`, inclusive at both ends. With no match it replies with the message
  "No items found within the specified date range". Otherwise it rewrites, in place, every
  bytes value of every fetched dictionary: 16 bytes become that UUID, any other length
  becomes "Invalid encoding".

Modules:

- `Wrappers` (`wrappers.dfy`): `Option` and `Result`.
- `UuidCodec` (`uuid_codec.dfy`): bytes, the two text renderings of an id, the
  version/variant stamping of section 5.4 of RFC 9562, and their inverses.
- `ItemsTable` (`items_table.dfy`): rows, the SQL statements as functions on the rows in
  table order, fetched records and the per-value rewrite.
- `Crud` (`crud.dfy`): the class `Database` (committed rows, connections in use) with the
  two operations as methods, the specification function `Upsert`, and the lemmas.

Inputs the program takes from outside are parameters of `InsertItem`:
- `random`: the 16 bytes `uuid.uuid4()` draws.
- `toTwoDecimals`: `"{:.2f}".format(float(price))`, with None when `float` raises.
- `fault`: which database step, if any, raises.
- `columnDefault`: the `last_updated_dt` the database gives a row inserted without one.

## Model

| member | source | states |
|---|---|---|
| `Crud.Database.InsertItem` | database_operations/crud.py:5-43 | the reply and the committed table are those of `Upsert` on the old table; the number of connections in use is the same after every path |
| `Crud.Upsert` | database_operations/crud.py:5-43 | one `insert_item` call on the committed rows: a failure leaves them as they were; a success keeps their number or adds exactly one; every existing row keeps its id and name |
| `Crud.UpsertMissingKeys` | database_operations/crud.py:11-12 | a request missing `name`, `category` or `price` fails with the missing-key error and the table is unchanged |
| `Crud.UpsertFailsOnlyByRollback` | database_operations/crud.py:11-41 | the call fails exactly when a key is missing, the price is not a number or a database step raises, and a failure leaves the table as it was |
| `Crud.UpsertUpdatesExisting` | database_operations/crud.py:15-28 | for a stored name: reply is the hex of the first matching row's id; no row added; that row keeps id and name and gets the new category and price; id, name and `last_updated_dt` of every row are kept; rows with another id are untouched (with distinct ids, every other row) |
| `Crud.UpsertInsertsNew` | database_operations/crud.py:29-38 | for a new name: exactly one row is appended after the unchanged old rows, with the stamped version-4 id, the name, the category and the formatted price; reply is that id's UUID text |
| `Crud.UpsertKeepsNamesUnique` | database_operations/crud.py:15-38 | at most one row per name is preserved by every call |
| `Crud.UpsertKeepsIdsUnique` | database_operations/crud.py:29-36 | distinct ids stay distinct when the drawn id is not already stored |
| `Crud.UpsertTwiceSameName` | database_operations/crud.py:15-38 | two calls with one new name leave one row with that name, the first call's id and the second call's category and price; the replies are the UUID text and the hex of that id, equal once hyphens are removed |
| `Crud.UpsertReplyShape` | database_operations/crud.py:28-38 | with 16-byte stored ids, a successful reply is 32 lower-case hex digits on the update path and 36 characters with hyphens exactly at 8, 13, 18 and 23 on the insert path |
| `Crud.Database.GetItemsWithinDateRange` | database_operations/crud.py:45-68 | replies with the message exactly when no row is in range, and never with an empty item list; otherwise with the in-range rows, in the model's table order, each rewritten by `DecodeRecord` |
| `Crud.RangeReplyItem` | database_operations/crud.py:50-68 | each replied dictionary comes from a stored in-range row: its id is that row's UUID, or "Invalid encoding" when not 16 bytes; its name, category and price are the row's |
| `ItemsTable.FirstByName` | database_operations/crud.py:15-18 | finds the first row with the name in the model's table order; None exactly when no row has it |
| `ItemsTable.SetWhereIdChangesOnlyCategoryAndPrice` | database_operations/crud.py:23-26 | the UPDATE never changes `id`, `name` or `last_updated_dt`, sets category and price on rows with the id, and leaves the others equal |
| `ItemsTable.SetWhereId` | database_operations/crud.py:23-26 | the UPDATE keeps the number of rows; its effect per row is stated by `SetWhereIdChangesOnlyCategoryAndPrice` |
| `ItemsTable.Fetch` | database_operations/crud.py:47-54 | the dictionary of one selected row has exactly the keys `id`, `name`, `category`, `price`, in that order |
| `ItemsTable.FetchAll` | database_operations/crud.py:54 | `fetchall()` yields one dictionary per selected row |
| `ItemsTable.DecodeRecord` | database_operations/crud.py:61-68 | the inner loop's result keeps the number of fields; keys and values per field are stated by `DecodeRecordShape` |
| `ItemsTable.DecodeAll` | database_operations/crud.py:60-68 | the outer loop's result keeps the number of records |
| `ItemsTable.RowsInRange` | database_operations/crud.py:50-54 | a row is selected exactly when it is stored and its `last_updated_dt` is non-NULL and between the bounds inclusive; empty exactly when no row is in range |
| `ItemsTable.RowsInRangeAllMatch` | database_operations/crud.py:50-54 | when every row is in range the select returns the whole table in order |
| `ItemsTable.DecodeValue` | database_operations/crud.py:62-68 | no bytes value survives the rewrite |
| `ItemsTable.DecodeValueCases` | database_operations/crud.py:62-68 | 16 bytes become that UUID, other bytes become "Invalid encoding", other values pass through |
| `ItemsTable.DecodeRecordShape` | database_operations/crud.py:60-68 | the rewrite keeps the number, order and keys of the fields, leaves no bytes, and keeps every non-bytes field |
| `ItemsTable.DecodeAllIdempotent` | database_operations/crud.py:60-68 | rewriting the rewritten records changes nothing |
| `UuidCodec.Hex` | database_operations/crud.py:28 | `bytes.hex()` has two characters per byte, all lower-case hex digits |
| `UuidCodec.HexAt` | database_operations/crud.py:28 | digits 2k and 2k+1 are the high and low nibble of byte k |
| `UuidCodec.HexRoundTrip` | database_operations/crud.py:28 | parsing `bytes.hex()` gives back the bytes |
| `UuidCodec.HexInjective` | database_operations/crud.py:28 | different ids never share a hex reply |
| `UuidCodec.UuidText` | database_operations/crud.py:38 | `str(UUID)` is 36 characters, hyphens exactly at 8, 13, 18, 23, hex digits elsewhere |
| `UuidCodec.UuidTextRoundTrip` | database_operations/crud.py:38 | parsing `str(UUID)` gives back the 16 bytes |
| `UuidCodec.HexAndUuidTextOfSameId` | database_operations/crud.py:28-38 | the two replies for one id differ (32 against 36 characters) and agree once the hyphens are removed |
| `UuidCodec.Uuid4` | database_operations/crud.py:31-32 | the stamped id is version 4, variant 10, and keeps every other bit of the random bytes |
| `UuidCodec.Uuid4KeepsVersion4` | database_operations/crud.py:31-32 | stamping leaves a version-4 id unchanged |

## Left out

- `total_price` (database_operations/crud.py:71): a floating-point sum of `float(price)`, not modelled; the date-range reply carries the items only.
- Price formatting: `"{:.2f}".format(float(...))` is the parameter `toTwoDecimals`, applied identically on both branches; its floating-point rounding is not modelled.
- Randomness: the 16 random bytes of `uuid.uuid4()` are a parameter; collisions are not handled by the code and are not excluded by the model (`UpsertKeepsIdsUnique` assumes a fresh draw).
- SQL row order: the model returns rows in table order, while MySQL promises no order without `ORDER BY`; with repeated names `fetchone()` may return any matching row, and the order of the date-range reply is unspecified.
- SQL name comparison: `name = %s` is exact string equality in the model, while the column's collation may treat names differing in case, accents or, under PAD SPACE, trailing spaces as equal.
- Schema constraints: no uniqueness constraint on `id` or `name` is modelled, since the schema is not part of this model.
- Request values are strings; a JSON number for `price` is covered only through `toTwoDecimals`, and non-string `name` or `category` values are not modelled.
- Fetched values: `id` is always bytes, `name` and `category` text, `price` a DECIMAL; NULL columns other than `last_updated_dt` are not modelled.
- Faults of `insert_item` are a parameter naming the step that raises (SELECT, the write, or COMMIT); a failure while acquiring the connection or opening the cursor is not modelled.
- Crud.Database.GetItemsWithinDateRange: has no error outcome; a MySQL error raised by `execute` or `fetchall` propagates to the caller in the code, and that path is not modelled.
- Concurrency: `async`/`await`, waiting for a free pool connection, and the race between two callers inserting the same new name are out; the model is sequential.
- The connection of `get_items_within_date_range` is scoped by `async with` and not counted.
- `last_updated_dt` is never written by the code; a new row gets the column's default, given as a parameter.
- `app.py` (HTTP handlers), `database_operations/database.py` (pool configuration) and `database_operations/models.py` (pydantic schemas) are not part of this model.
