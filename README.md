# Raffle slot ledger

A Dafny model of the slot ledger behind a small raffle web application
(`server.js`). The `participantes` table maps a slot id to one row with
`nombre`, `telefono`, `status`, `cobrador` and `validado`. An id with no
row is a free slot. The model covers the four handlers that read or write this table:

- `POST /api/rifa`: one write, arbitrated by the caller's admin flag.
  - A guest may only write an id that has no row.
  - An admin writing `status 'libre'` deletes the row.
  - Every other write is a full-replace upsert, and `validado` is kept only for an admin.
- `POST /api/import`: admin only, array only. Then an upsert per record, in order, inside one
  transaction that is committed, or rolled back when beginning it, a write or the commit fails.
- `GET /api/rifa`: every row, keyed by `id.toString().padStart(2, '0')`.
- `GET /api/export`: admin only. A CSV text made of a byte-order mark, a
  header line, and one line per row by ascending id.

Requests run one at a time. The session flag `isAdmin` is a parameter of
each handler. A storage failure is a parameter too: `fault` for
`POST /api/rifa`, and for the import a per-record predicate `fails` plus `beginFails` and `commitFails`.

Layout:
- `text.dfy` (module `Text`): `Number.prototype.toString` on a
  non-negative id below 2^53, `String.prototype.padStart` with a one-character fill,
  and a decimal reader used to prove that keys never collide.
- `ledger.dfy` (module `Ledger`): the table as `map<nat, Slot>`, the
  upsert, the write arbitration (`WriteEffect`) and the import
  transaction (`ImportAll`, `Transaction`, `ImportEffect`), all as functions with lemmas.
- `views.dfy` (module `Views`): the listing object and the CSV export as
  functions. It adds a comma splitter that reads an export line back, and a newline count.
- `server.dfy` (module `Server`): class `Participantes`, whose field `rows` the
  handlers update in place. Each handler method is proved against the functions above.

Three points of server.js that the model keeps as they are:
- The code does not tie a stored row to an occupied slot. A guest writing
  `status 'libre'` to a free id falls through to the upsert and stores a
  `'libre'` row (server.js:79-92, `GuestMayStoreLibre`). An import stores whatever status it is given.
- The lookup (server.js:76) and the write (server.js:85-92) are two separate
  queries. The model is sequential and says nothing about concurrent claims.
  `SecondGuestClaimRefused` is about two writes taken one after the other.
- The last CSV column is written `Si`/`No` (server.js:109).

## Model

| member | source | states |
|---|---|---|
| Text.Decimal | server.js:63 | `id.toString()`: at least one digit, all digits; one digit exactly when id < 10; a leading '0' only for 0 |
| Text.PadStart | server.js:63 | `padStart` with a one-character fill: length is max(length, width), the original string is the suffix, every character before it is the fill |
| Text.ListKey | server.js:62-64 | the listing key has at least two digits, is '0' followed by the digit for id < 10, and is the plain decimal otherwise |
| Text.ListKeyRoundTrip | server.js:62-64 | reading a listing key back as a decimal number gives the id |
| Text.ListKeyInjective | server.js:62-64 | distinct ids get distinct keys, so no row of the listing overwrites another |
| Ledger.Arbitrate | server.js:79-81 | only a guest is refused, and only for an id that has a row; the delete branch is taken exactly when an admin sends 'libre' |
| Ledger.Upsert | server.js:85-92 | INSERT ... ON DUPLICATE KEY UPDATE: the id gets a row holding exactly the submitted fields and the given validado; every other row is unchanged and no row disappears |
| Ledger.WriteEffect | server.js:72-98 | POST /api/rifa: a guest write to an id with a row is refused and changes nothing; every other write succeeds; an admin 'libre' write leaves no row for the id; any other accepted write fully replaces the row with validado = isAdmin && validado; no other id changes |
| Ledger.ReleaseIdempotent | server.js:81-83 | an admin 'libre' write applied twice gives the same outcome and table as applied once |
| Ledger.GuestNeverValidates | server.js:91 | after a guest write, every validated row was already there, unchanged |
| Ledger.GuestMayStoreLibre | server.js:79-92 | a guest write with status 'libre' to a free id is accepted and stores a 'libre' row |
| Ledger.SecondGuestClaimRefused | server.js:76-92 | of two guest writes to the same free id, one after the other, the first is stored (validado false) and the second is refused |
| Ledger.ImportAll | server.js:140-147 | the upserts of the records in order; an import never deletes a row (with ImportAllKeys, ImportAllUntouched and ImportAllLastWins, what it stores) |
| Ledger.ImportAllKeys | server.js:140-147 | after the import upserts, an id has a row exactly when it had one before or some record names it |
| Ledger.ImportAllUntouched | server.js:140-147 | a row that no record names is left as it was |
| Ledger.ImportAllLastWins | server.js:140-147 | the last record with a given id is the one stored, with its validado as given |
| Ledger.Transaction | server.js:139-153 | the transaction's working table exists exactly when no record's write fails, and is then the in-order fold of the upserts |
| Ledger.ImportEffect | server.js:130-158 | POST /api/import: a non-admin gets 401 and a non-array gets 400, both with the table unchanged; a failing beginTransaction, a failing record or a failing commit rolls the table back to its prior state; otherwise the table is the in-order upsert fold and the count is the number of records |
| Views.ListKeys | server.js:62-64 | every id of the table gets its padded key, and every key has at least two digits |
| Views.ListKeysReadBack | server.js:62-64 | every key of the listing is a digit string naming an id of the table |
| Views.Listing | server.js:58-69 | the listing object's keys are exactly the padded ids, and each holds its row field for field |
| Views.ListingStep | server.js:61-64 | adding one row to the listing object keeps the entries of the rows already added |
| Views.WriteThenList | server.js:58-98 | after an accepted write that stores a row, the listing holds the submitted record under its padded key, with validado as the permission rule leaves it |
| Views.SortedIds | server.js:106 | ORDER BY id ASC returns each id of the table once |
| Views.SortedIdsCovers | server.js:106 | no id of the table is missing from the export order |
| Views.SortedIdsAscending | server.js:106 | the ids come strictly ascending |
| Views.ExportText | server.js:106-110 | the export text starts with the BOM and header line |
| Views.CsvFields | server.js:109 | one field per column of the header, six in all |
| Views.CsvLine | server.js:109 | an export line ends with its newline |
| Views.CsvLineEnds | server.js:109 | an export line opens with the plain id and a comma and closes with Si or No and the newline |
| Views.CsvLines | server.js:108-110 | the lines of the `forEach`: no text without rows, and otherwise the text ends on a complete line |
| Views.CsvLineReadBack | server.js:109 | an export line ends with a newline and, split at commas, gives the plain id, nombre and telefono in double quotes, status, cobrador and Si/No, provided no stored text holds a comma |
| Views.CsvLineHasOneNewline | server.js:109 | an export line holds exactly one newline when no stored text holds one |
| Views.CsvLinesNewlines | server.js:108-110 | the lines of k rows hold exactly k newlines |
| Views.ExportLineCount | server.js:106-110 | the export text has exactly one line per row plus the header line |
| Views.ExportReadBack | server.js:106-110 | split at newlines, the export text is the column names, then the line of each id in ascending order, then nothing after the last newline, when no stored text holds a newline |
| Server.Participantes.Delete | server.js:82 | DELETE removes the id's row and keeps every other row |
| Server.Participantes.InsertOrUpdate | server.js:85-92 | the table becomes Upsert of the old table |
| Server.Participantes.Write | server.js:72-98 | with a failing query: 500, and the table is unchanged; otherwise the outcome and the new table are WriteEffect of the old table |
| Server.Participantes.RunTransaction | server.js:139-153 | when every write succeeds, the table is the transaction's working table of the old table; on the first failing write the transaction is void and the table is rolled back to the old one |
| Server.Participantes.Import | server.js:130-158 | the outcome and the new table are ImportEffect of the old table, including the rollback after a failing beginTransaction or commit |
| Server.Participantes.List | server.js:58-69 | the object built row by row, in any order, is Listing of the table |
| Server.Participantes.Export | server.js:101-117 | a guest gets 403; an admin gets ExportText of the table, built by appending one line per sorted id |

## Left out

- Login, check-auth, logout and the session cookie settings (server.js:38-54, 13-21): the admin flag is a parameter.
- The MySQL pool, the start-up connection check, `getConnection` and `release` (server.js:24-35, 137, 154-157). A failure of `getConnection` at line 137 falls outside the `try` and is not modelled.
- Concurrency between requests, including the race between the lookup (line 76) and the write (lines 85-92): the model is sequential.
- HTTP status codes, headers and the `res.json`/`res.send` mechanics: they become the `WriteOutcome`, `ImportOutcome` and `ExportOutcome` values.
- `GET /api/export-json` (server.js:119-127): a raw dump with no logic.
- Static file serving and `app.listen` (server.js:12, 160).
- A failed SELECT in `GET /api/rifa` or `GET /api/export` (500): these handlers change nothing, and only their success path is modelled.
- SQL type coercion: `validado` is a bool, so 1/0 and truthy JavaScript values are not distinguished. Missing or `null` fields are not modelled, because every field is a string. Ids are non-negative integers below 2^53 (any INT column), so a negative, fractional or non-numeric id is out of scope. Above 2^53 a JavaScript number no longer holds every BIGINT id exactly, so two ids could share a listing key, and from 10^21 `toString` writes exponent notation.
- Ledger.ImportEffect: a failing write is a predicate of the record alone, so a failure that depends on the table's state or on the record's position is not modelled. Elements of the array that are not records count as failing records. A `rollback` that itself throws (server.js:151) is not modelled.
- Text.PadStart: only a one-character fill string is modelled, which is the only kind the source uses.
- Views.CsvLineReadBack: the read-back needs text without commas. The source escapes nothing, so a comma in `status` or `cobrador`, or a double quote in `nombre` or `telefono`, changes how a CSV reader splits the line.
- Views.ExportLineCount: the count needs text without newlines, for the same reason.
