# Error-reporting service: request handling over the `errors` table

This project models the core of a small Express service (`server.js`) that stores
error reports in an SQLite table and hands them back by time range. Three parts
are modelled:

- **The authentication gate.** `authenticate` compares the second space-separated
  field of the `Authorization` header with `AUTH_TOKEN`. The token comes from the
  environment, or is `SUPER_SECRET_KEY` when that variable is unset or empty.
- **Ingestion.** `POST /registerError` appends one row to the append-only `errors`
  table. The row gets an AUTOINCREMENT id and a server-side timestamp.
- **Range query.** `GET /returnErrors` validates `start` and `finish` with
  `Date.parse`. It answers 400 and echoes both raw values when either is invalid.
  Otherwise it returns the rows whose timestamp lies in `[start, finish]`,
  inclusive at both ends.

Modules:

- `Wrappers` (`wrappers.dfy`): the `Option` type.
- `Auth` (`auth.dfy`): JavaScript's `split(' ')` with its inverse `Join`, the token
  fallback and the header check, plus lemmas characterising the accepted headers.
- `Store` (`store.dfy`): the table as a value (`Table(rows, nextId)`). It covers the
  schema rules (`Valid`), `CREATE TABLE IF NOT EXISTS`, `INSERT` and the `BETWEEN`
  filter, with lemmas.
- `Service` (`service.dfy`): the class `ErrorService`. Its fields are `rows` and
  `nextId`, and its handler methods are specified against the `Store` functions.

Outside pieces are parameters:

- `Date.parse(s)` is not NaN: the constant `dateParses: string -> bool`.
- The point in time the store compares a query bound with: `boundTime: string -> Time`.
- The server clock: the `now` argument.
- A storage error reported by SQLite: the `fault: Option<string>` argument. `Some`
  gives the 500 response with that message.
- `Time` is an integer; only its order is used.
- The stored payload is an opaque type `Payload`.

## Model

| member | source | states |
|---|---|---|
| Auth.AuthToken | server.js:7 | The token is never empty. It is the environment value when that value is set and non-empty, and `SUPER_SECRET_KEY` otherwise. |
| Auth.JoinSplit | server.js:20 | Joining the fields of `split(' ')` with the separator gives back the header: splitting loses nothing. |
| Auth.SplitJoin | server.js:20 | Splitting the join of space-free fields gives back exactly those fields. |
| Auth.SplitNoSeparator | server.js:20 | Text without a space splits into the single field it is. |
| Auth.SplitAfterField | server.js:20 | A space-free word followed by a space becomes field `[0]`, and the rest splits on its own. |
| Auth.MissingHeaderRejected | server.js:19-21 | No header, or an empty header (falsy in JavaScript), is rejected for every token. |
| Auth.NoSpaceRejected | server.js:20 | A header with no space has no field `[1]` and is rejected. |
| Auth.AcceptsAnyScheme | server.js:20 | Any space-free scheme word, then a space, then the token, then nothing or space-led text, is accepted. The scheme word is never checked. |
| Auth.AcceptedShape | server.js:19-23 | Conversely, every accepted header has that shape, and the token inside contains no space. Together with AcceptsAnyScheme this gives an if-and-only-if. |
| Auth.EmptyFieldRejected | server.js:20 | With the configured token (line 7), a header whose second field is empty is rejected, because the token is never empty. |
| Auth.BearerWithoutTokenRejected | server.js:20 | The header `Bearer ` is rejected under every environment. |
| Auth.DefaultTokenAccepted | server.js:7 | With `AUTH_TOKEN` unset, `Bearer SUPER_SECRET_KEY` is accepted (the documented weak default). |
| Store.EmptyTable | server.js:11-15 | A new table has no rows and satisfies the table rules. |
| Store.CreateTableIfNotExists | server.js:11-15 | After the schema step the table exists. An existing table is kept unchanged with all its rows. A missing one is created empty. |
| Store.CreateTableIdempotent | server.js:11 | Running the schema step twice equals running it once. |
| Store.Insert | server.js:31 | An insert (under the schema at lines 12-14) adds exactly one row and leaves earlier rows unchanged. The new row holds the payload and the current time. It preserves the table rules, and the new id is greater than every existing id. |
| Store.BetweenSelects | server.js:55 | A row is returned exactly when it is stored and `lo <= timestamp <= hi`: inclusive at both ends, in both directions. |
| Store.BetweenKeepsOrder | server.js:55 | The selected rows keep storage order, so their ids still strictly increase. |
| Store.BetweenAppend | server.js:55 | Filtering two stretches of rows gives the two filtered stretches, concatenated. |
| Store.EmptyInterval | server.js:55 | When `start` is after `finish`, nothing is selected. |
| Store.QueryAfterInsert | server.js:55 | After an insert (line 31), a range query returns its earlier answer, then the new row exactly when its timestamp is in range. |
| Store.InsertAllFreshIds | server.js:31 | Under the AUTOINCREMENT key of line 12, N successive inserts add exactly N rows and keep earlier rows. They assign the consecutive fresh ids `nextId .. nextId+N-1`, and the table rules still hold. |
| Service.ErrorService.constructor | server.js:7-15 | At start-up the token is resolved with the fallback, and the schema step runs on the database file, which may already hold rows. |
| Service.ErrorService.RegisterError | server.js:29-37 | A rejected request gets 401 and leaves the table unchanged. A storage error gives 500 with its message and leaves the table unchanged. Otherwise the table becomes `Insert(old, body, now)` and the reply is the success message. |
| Service.ErrorService.ReturnErrors | server.js:39-61 | A rejected request gets 401 and no rows. Otherwise, an invalid or missing `start` or `finish` gives 400 echoing both raw values, whatever the store would do. Otherwise a storage error gives 500. Otherwise the reply is exactly the rows with `start <= timestamp <= finish`, in ascending id order. |
| Service.ErrorService.Test | server.js:63-65 | An authenticated probe gets 200 `ok`, and any other probe gets 401. |

## Left out

- Express routing, `express.json()` body parsing, `app.listen` and console logging
  (server.js:1-4, 27, 67-69): framework I/O with no logic of its own.
- `Date.parse`: a JavaScript builtin. It is the uninterpreted parameter `dateParses`.
- The comparison SQLite makes in `BETWEEN`. SQLite compares the raw query strings
  with the stored `CURRENT_TIMESTAMP` text, and the model does not capture that text
  comparison or SQL type affinity. It compares abstract times instead, with
  `boundTime` giving the time a bound stands for. An ISO-8601 bound such as
  `2024-01-01T00:00:00Z` compared as text with `2024-01-01 00:00:00` may not behave
  like a time comparison.
- Payload serialisation: how sqlite3 stores the bound `req.body` object is library
  behaviour. The payload is opaque and no round-trip is claimed.
- Causes of storage failure, the asynchronous callbacks and concurrency between
  requests: a failure is the `fault` argument. Repeated inserts are modelled only
  one after another (`InsertAllFreshIds`).
- SQLite's AUTOINCREMENT limit (failure once the largest 64-bit rowid is used): the
  model's ids are unbounded integers. Running out of ids would be a storage fault.
- Timestamps that never decrease as ids grow: this holds only when the server clock
  behaves, and the code does not enforce it, so it is not stated.
- A `/getLast` (most recent N) endpoint: `server.js` has no such handler. The
  round-trip from `registerError` through `getLast` therefore has nothing to model.
- The static landing page at `/`: `server.js` has no such route.
