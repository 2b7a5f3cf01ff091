# Notes API: a Dafny model

This project models the backend of a small notes application. Express
handlers serve `/api/notes`: GET lists notes with an optional search, POST
creates a note, PUT rewrites one, and DELETE removes one. Each handler checks
its request and then runs one parameterised SQLite statement against the
`notes` table, whose schema is in `database.js`. The repository holds two
revisions of the handlers. `index.js` is the current one, and `server.js`
is an earlier one with weaker checks. Both are modelled against the same
table, so that their differences can be stated as lemmas.

The modules are:

- `Wrappers`: `Option` and `Result`.
- `JsStrings`: the JavaScript behaviour the checks rely on. This covers the
  truthiness of an optional string, `a || b`, and `String.prototype.trim`
  with the ECMAScript WhiteSpace and LineTerminator sets.
- `JsNumbers`: `parseInt(s)` with no radix. It skips leading whitespace,
  reads an optional sign, switches to hexadecimal after `0x` or `0X`, and
  reads the longest run of digits. When no digit is found the result is NaN,
  written `None`.
- `SqlLike`: `column LIKE '%term%'`, an ASCII case-insensitive substring
  test.
- `NotesTable`: the `notes` table as a class. Its fields are:
  - the rows, as a map from id to note;
  - the AUTOINCREMENT counter;
  - a logical clock that stands for CURRENT_TIMESTAMP;
  - a ghost set of every id ever issued.

  Its methods are `Insert`, `UpdateById`, `DeleteById` and `Select`.
  `UpdateById` and `DeleteById` return the changed-row count. `Select` scans
  the rows in rowid order and sorts each matching row into a newest-first
  listing. `Connection.Initialize` models `CREATE TABLE IF NOT EXISTS`.
- `Http`: the routed request and the JSON response bodies.
- `NotesApi`: the handlers of `index.js` and its fallback 404 route.
- `LegacyNotesApi`: the handlers of `server.js`.
- `Revisions`: lemmas relating the two revisions.

A failing storage engine is a `fails` parameter of each table operation.
When it is set, the statement reports an I/O error and changes nothing. Every
handler then answers 500 with its fixed message.

Some behaviours of the code are easy to miss:

- **Whitespace-only category.** `index.js:53` stores
  `(category || 'Others').trim()`. A category of only whitespace is
  therefore stored as `""`, not as "Others"
  (`Revisions.BlankCategoryWitness`).
- **Order of checks in PUT.** `index.js:70-76` checks title and
  description before the id. A request that fails both checks gets the
  title/description error.
- **`parseInt` on `0x`.** `parseInt` switches to hexadecimal after a
  leading `0x`. So `"0x"` and `"0xg"` fail the id check although they
  start with a digit, and `"0x1f"` passes it (`JsNumbers.ParseIntIsInteger`).
- **Ids with trailing letters.** An id followed by letters, such as
  `"7abc"`, passes the id check of `index.js:74`. The raw string is what
  gets bound to `WHERE id = ?`. SQLite cannot convert it to a number, so it
  names no row and the answer is 404, not 400
  (`NotesApi.SuffixedIdAcceptedButNamesNoRow`).

## Model

| member | source | states |
|---|---|---|
| JsStrings.OrElse | server.js:52 | `category \|\| 'Others'` is the category when it is present and not "", and the fallback otherwise; the result is truthy exactly when the category or the fallback is |
| JsStrings.OrElseAbsorbs | server.js:52 | with a non-empty fallback, applying `\|\| fallback` a second time changes nothing |
| JsStrings.TrimmedTruthy | index.js:44 | `!x.trim()` holds exactly when `x` is all whitespace; a truthy trim comes from a truthy string; the strings `!x` accepts but `!x.trim()` rejects are the non-empty all-whitespace ones |
| JsStrings.Trim | index.js:44 | the trim is no longer than its input; it is empty exactly when the input is all whitespace; it has no whitespace at either end |
| JsStrings.TrimIsSlice | index.js:53 | the trim is a slice `s[i..j]` of its input, and every character outside the slice is whitespace |
| JsStrings.TrimOfTrimmed | index.js:53 | a string with no whitespace at either end is its own trim |
| JsStrings.TrimIdempotent | index.js:53 | trimming twice gives the same result as trimming once |
| JsNumbers.ParseIntOfDecimal | index.js:74 | `parseInt` reads back any integer's decimal numeral `String(n)`, after any leading whitespace and before any suffix that starts with neither a digit nor `x` |
| JsNumbers.ParseIntSkipsWhitespace | index.js:74 | prepending whitespace does not change what `parseInt` returns |
| JsNumbers.ParseIntOfDigits | index.js:99 | a non-empty string of decimal digits, leading zeros included, passes the id check and reads as the number it denotes |
| JsNumbers.ParseNumeralNeedsDigit | index.js:74 | after the whitespace, `parseInt` finds a number only when an optional sign is followed by a decimal digit |
| JsNumbers.ParseIntIsInteger | index.js:74 | `Number.isInteger(parseInt(s))` holds exactly when, after whitespace and sign, `s` has a decimal digit that does not start a `0x` prefix, or a `0x` prefix followed by a hex digit |
| SqlLike.ContainsFolded | index.js:26-27 | `value LIKE '%term%'`: the empty term matches every value, and a term longer than the value matches none |
| SqlLike.ContainsFoldedIffOccurs | index.js:26-27 | `LIKE '%term%'` holds exactly when the term occurs at some position of the value, ignoring ASCII case |
| SqlLike.NoMatchWithoutFirstChar | index.js:26-27 | a value with no character equal to the term's first character, ignoring case, does not match |
| SqlLike.ExactOccurrenceMatches | index.js:26-27 | a value containing the term verbatim matches it |
| NotesTable.KeyOf | index.js:103-105 | the value bound to `WHERE id = ?` is a key only when it is an optional sign followed by at least one decimal digit and nothing else, and the key is negative only after a `-` |
| NotesTable.KeyOfDecimal | index.js:81-84 | a path id written as `String(n)` for an integer `n` is bound as the key `n`, so it selects the row with that id |
| NotesTable.ParseIntOfKey | index.js:92 | when a path id names a row, `parseInt(id)` is that row's id, so the response id is the affected row |
| NotesTable.NewerCount | index.js:30 | the insertion point of a row in a newest-first listing: every entry before it was created later, and the entry at it was not |
| NotesTable.InsertKeepsOrder | index.js:30 | inserting a row at its insertion point keeps the listing ordered by `created_at` descending |
| NotesTable.ListingDeterminate | index.js:30 | when creation times are distinct, any two results of the same `SELECT ... ORDER BY created_at DESC` are equal |
| NotesTable.Table.constructor | database.js:12-21 | a newly created table is empty, and its first id is 1 |
| NotesTable.Table.Insert | database.js:14-19 | an engine failure or a NULL title or description changes nothing; otherwise the returned id is new and greater than every id ever issued, the missing category defaults to "Others", and `created_at` equals `updated_at`, which is the new time |
| NotesTable.Table.UpdateById | index.js:78-84 | an id naming no row gives a count of 0 and changes nothing; otherwise only that row changes: title, description, category and `updated_at` are set, while id and `created_at` are kept |
| NotesTable.Table.DeleteById | index.js:103-105 | an id naming no row gives a count of 0 and changes nothing; otherwise exactly that row is removed; the id counter is unchanged, so ids are not reused |
| NotesTable.Table.Select | index.js:22-32 | the result holds exactly the matching rows, each once with its stored values, ordered by `created_at` descending; an engine failure is an error |
| NotesTable.Connection.constructor | database.js:5 | the connection holds the table the database file already has, or none |
| NotesTable.Connection.Initialize | database.js:12-23 | afterwards a valid table exists; an existing table keeps its rows and counter, so running it again changes nothing; without one, an empty table is created |
| NotesApi.HasText | index.js:44 | `x?.trim()` is truthy exactly when `x` is present and not all whitespace |
| NotesApi.BodyAccepted | index.js:44-46 | the body check passes exactly when title and description are both present and not blank |
| NotesApi.StoredCategory | index.js:53 | the stored category is "Others" when the category is missing or ""; it is "" exactly when the category is whitespace only; it never has whitespace at either end |
| NotesApi.NamingIdsAreAccepted | index.js:74-76 | every path id that names a row passes the id check |
| NotesApi.IdAccepted | index.js:99-101 | `Number.isInteger(parseInt(id))` holds only when, after whitespace and sign, the id has a decimal digit, and it holds for every id that can name a row |
| NotesApi.SuffixedIdAcceptedButNamesNoRow | index.js:74-84 | a numeral followed by "abc" passes the id check, parses to that number, and names no row |
| NotesApi.SearchFilter | index.js:25-28 | the filter lists a row exactly when the search is absent or "", or the row's title, category or description contains the term |
| NotesApi.Get | index.js:20-39 | 500 on an engine failure; otherwise 200 with exactly the rows the search selects, newest first; the table is never changed |
| NotesApi.Post | index.js:41-64 | a blank title or description gives 400 and changes nothing; 500 changes nothing; 201 adds exactly one row, with a fresh id, trimmed fields and the normalised category, and echoes the raw title and description with `category \|\| 'Others'` |
| NotesApi.Put | index.js:66-94 | the body is checked before the id; 400 and 500 change nothing; 404 happens exactly when the checks pass and no row has the id; otherwise only that row is rewritten, `created_at` is kept, and the answer carries `parseInt(id)` |
| NotesApi.Delete | index.js:96-115 | 400 for an id `parseInt` cannot read; 404 happens exactly when the id is readable and names no row; otherwise exactly that row is removed and the answer carries its id |
| NotesApi.DeleteTwice | index.js:110-113 | a second DELETE of an id the first DELETE removed answers 404 "Note not found" |
| NotesApi.Handle | index.js:20-120 | an unmatched request gets 404 "Route not found"; a non-success response never changes the table, and neither does GET; a successful POST adds exactly the row at the fresh id, with trimmed fields, a successful PUT rewrites exactly the named row, and a successful DELETE removes exactly it; if every row had a non-empty title and description before, every row has them after; the id counter, the issued ids and the clock never go back, a successful POST issues the fresh id and ticks the clock, a successful PUT ticks the clock, and a successful DELETE leaves both as they were |
| LegacyNotesApi.StoredCategory | server.js:52 | the stored category is the category as sent, or "Others" when it is missing or "", and never "" |
| LegacyNotesApi.SearchFilter | server.js:21-24 | the filter lists a row exactly when the search is absent or "", or the row's title or category contains the term |
| LegacyNotesApi.Get | server.js:14-36 | 500 on an engine failure; otherwise 200 with exactly the rows the two-column search selects, newest first; the table is never changed |
| LegacyNotesApi.Post | server.js:39-59 | a falsy title or description gives 400 and changes nothing; 201 returns only the fresh id and a message, and stores the fields untrimmed |
| LegacyNotesApi.Put | server.js:62-89 | the id is not checked: 404 happens exactly when the body passes and no row has the id; a success rewrites only that row, and the body has no id |
| LegacyNotesApi.Delete | server.js:92-109 | the id is not checked: 404 happens exactly when no row has the id; a success removes only that row, and the body has no id |
| LegacyNotesApi.Handle | server.js:14-109 | there is no fallback route, so an unmatched request gets Express's own 404; a non-success response never changes the table; a successful POST adds exactly the row at the fresh id, with the fields as sent, a successful PUT rewrites exactly the named row, and a successful DELETE removes exactly it; if every row had a non-empty title and description before, every row has them after; the id counter, the issued ids and the clock never go back, a successful POST issues the fresh id and ticks the clock, a successful PUT ticks the clock, and a successful DELETE leaves both as they were |
| Revisions.BodyCheckStricter | index.js:44-46 | every body the current check accepts, the earlier check accepts too |
| Revisions.BodyCheckDifference | server.js:43-45 | the bodies that the earlier check `!title \|\| !description` accepts and the current one rejects are exactly those whose title and description are both present and not "", with at least one of them all whitespace |
| Revisions.BlankTitleWitness | server.js:67-69 | a one-space title passes the earlier check and fails the current one |
| Revisions.CategoriesDifferIffPadded | index.js:53 | the current stored category is the trim of the earlier one, and the two differ exactly when the category is truthy and has whitespace at its first or last character |
| Revisions.BlankCategoryWitness | index.js:53 | for a category of two spaces, the earlier revision stores it as sent and the current one stores "" |
| Revisions.AgreeWithoutSurroundingWhitespace | server.js:52 | on fields with no whitespace at either end, both revisions accept the same bodies and store the same values |
| Revisions.SearchWidened | index.js:26 | every row the earlier search lists, the current search lists too |
| Revisions.DescriptionOnlyWitness | server.js:22 | a note with "milk" only in its description is listed by the current search and not by the earlier one |
| Revisions.RejectedIdsNameNoRow | server.js:95-105 | every id the current revision rejects with 400 names no row; by `LegacyNotesApi.Delete`, the earlier revision therefore answers 404 for it when the engine does not fail |

## Left out

- Express, CORS and body-parser wiring, `app.listen` and `process.exit`
  (index.js:1-11, 123-128; server.js:1-11, 112-114) are framework plumbing.
  Route matching is replaced by the `Route` datatype that the handlers
  dispatch on.
- The invalid-JSON middleware (index.js:12-17) depends on body-parser's
  error objects. It is not modelled.
- Opening the SQLite file, start-up failures and console logging
  (database.js:5-10, 23-29, every `console.error`) are I/O. The connection
  starts from a given table, or none.
- Asynchronous callbacks and concurrent requests are not modelled. Each
  request is one atomic step on the table.
- SQL semantics beyond what the statements spell out are not modelled. `%`
  and `_` in a search term are LIKE wildcards in SQLite, but the model treats
  them as literal characters. Case folding covers ASCII letters only, as
  SQLite's default LIKE does.
- NotesTable.KeyOf: SQLite's numeric affinity is not modelled. A bound id
  names a row only when it is an optional sign followed by decimal digits.
  Text that SQLite cannot convert to a number, such as `"7abc"`, names no
  row in both. Text that SQLite converts to an integer after skipping
  surrounding whitespace or reading a fraction or exponent also names no
  row in the model: for `" 7"`, `"7 "`, `"7."`, `"7.0"` and `"7e0"` the
  model answers 404 where SQLite would match row 7.
- SQLite rowids are 64-bit, so AUTOINCREMENT fails with SQLITE_FULL once the
  largest rowid has been used. The model's id counter `nextId` is an
  unbounded integer and never runs out.
- Timestamps are a logical clock. It ticks on each insert and on each update
  that matches a row. Wall-clock seconds resolution, and so tied `created_at`
  values and their unspecified order, are not modelled.
- JavaScript strings are sequences of UTF-16 code units, while a Dafny
  `string` holds Unicode scalar values. A lone surrogate in a request cannot
  be represented. No modelled behaviour depends on this: every whitespace
  character and every digit that the checks look at is in the Basic
  Multilingual Plane.
- Floating point is not modelled. `parseInt` results are exact integers, so
  `Infinity` and the loss of precision above 2^53 are out of scope.
- Request bodies are optional strings only. A non-string title or
  description, on which `.trim()` throws, is not modelled. Neither is a
  search given as an array.
- The `./Database` module path in server.js:4, which differs in case from
  `database.js`, is module loading and not logic.
