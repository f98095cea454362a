# Login backend: account credential logic

A model of the account logic of a small Express + MySQL login server
(`server.js`). The server exposes three routes over one `users` table:

- `POST /api/signup` checks five request fields in a fixed order, hashes the
  password with bcrypt, rejects an e-mail that is already registered, inserts
  one row and answers 201 with the new AUTO_INCREMENT id.
- `POST /api/login` checks two fields, looks the row up by e-mail, compares the
  password with the stored hash and answers with the row's id, name and phone.
  An unknown e-mail and a wrong password get the same 401 answer.
- `GET /api/users` lists every row without its password hash.

The model has six modules:

- `Wrappers` (`wrappers.dfy`) holds the `Option` type. A request field that the
  body lacks is `None`, and so is a stored phone that is NULL.
- `JsString` (`js_string.dfy`) gives the JavaScript string behaviour the
  handlers depend on. It has the whitespace set shared by the regex class `\s`
  and by `trim()`, `trim()` itself, and `length` counted in UTF-16 code units.
- `Email` (`email.dfy`) models `isValidEmail`. It reads the language of
  `^[^\s@]+@[^\s@]+\.[^\s@]+$` off the pattern. It then proves that this
  language equals a structural test, `HasEmailShape`: no whitespace, exactly
  one `@` with a non-empty part before it, and after it a `.` that is neither
  first nor last. `IsValidEmail` decides membership by that test.
- `Validation` (`validation.dfy`) models the handlers' guard chains. Each is a
  list of checks in the handler's order, where the first failing check decides.
  JavaScript truthiness `!x` of a field is "absent or the empty string".
- `Accounts` (`accounts.dfy`) holds the table as a value: rows, replies, the
  e-mail lookup, and the login and listing routes as functions. bcrypt is a
  `Hasher` value made of two opaque functions. The only property assumed of it
  is `RoundTrips`: a password always compares equal to a hash made from it.
- `UsersTable` (`users_table.dfy`) holds the table as a class, `UserStore`. It
  keeps the rows and the next id, and its invariant is e-mail uniqueness plus
  increasing ids. `Signup` changes the table, through `Register` once the form
  is valid; `Login` and `ListAll` only read it.

Three behaviours of the handlers that the model keeps as written:

- The signup handler requires a phone (server.js:94). An absent or empty phone
  fails with "Please fill in all fields".
- The signup handler hashes the password (server.js:115) before it checks for
  a registered e-mail (server.js:122-129). Hashing is a pure function here, so
  the order cannot be observed.
- bcrypt promises the round trip, but not that a different password fails: it
  reads at most 72 bytes of a password. So the model assumes only the round
  trip.

## Model

| member | source | states |
|---|---|---|
| `JsString.IsWhitespace` | server.js:232 | The characters `\s` matches, and `trim()` at server.js:98 removes, are exactly the ECMAScript WhiteSpace table (TAB, VT, FF, ZWNBSP and the Zs space separators) plus the LineTerminator table (LF, CR, LS, PS). |
| `JsString.Trim` | server.js:98 | `name.trim()` neither starts nor ends with whitespace. It is empty exactly when the name is all whitespace, and it is the part of the name between the leading and the trailing whitespace. |
| `JsString.Leading` | server.js:98 | The leading run that `trim()` drops is all whitespace and is followed by a non-whitespace character. |
| `JsString.Trailing` | server.js:98 | The trailing run that `trim()` drops is all whitespace and is preceded by a non-whitespace character. |
| `JsString.Utf16Length` | server.js:106 | `length` counts UTF-16 code units: between one and two per character, and exactly one per character when none lies outside the Basic Multilingual Plane. |
| `Email.IsValidEmail` | server.js:231-234 | `isValidEmail` accepts exactly the strings in the language of `^[^\s@]+@[^\s@]+\.[^\s@]+$`. |
| `Email.EmailShapeMatchesPattern` | server.js:232 | The structural test (no whitespace, one `@` with something before it, an inner `.` after it) accepts exactly the language of the pattern (both directions). |
| `Email.ValidEmailHasPatternParts` | server.js:232 | An address that passes the structural test splits into a run, `@`, a run, `.`, and a run, where each run is free of whitespace and `@`. |
| `Email.PatternPartsMakeValidEmail` | server.js:232 | Any such split joins into an address that passes the structural test. |
| `Validation.Filled` | server.js:94 | `!field` is false exactly when the field is present and its `length` is not 0, which is JavaScript truthiness of a string. The same test is made at server.js:159. |
| `Validation.FirstFailure` | server.js:94-112 | A guard chain passes exactly when every guard passes. Otherwise it answers the message of a failing guard that has only passing guards before it. |
| `Validation.ValidateSignup` | server.js:94-112 | Signup validation passes exactly when all five fields are filled, the trimmed name has at least 2 code units, the e-mail is valid, the password has at least 6 code units, and the confirmation equals the password. Otherwise it answers one of the five signup messages. |
| `Validation.SignupFirstFailureWins` | server.js:94-112 | Signup answers "Please fill in all fields", "Name must be at least 2 characters", "Please enter a valid email address", "Password must be at least 6 characters" or "Passwords do not match", for the first check that fails, in that order. It is valid exactly when all five checks hold. |
| `Validation.LoginFirstFailureWins` | server.js:159-169 | Login answers the presence message, then the e-mail message, then the generic "Invalid email or password" for a password shorter than 6 code units. It is valid exactly when all three checks hold. |
| `Validation.ValidateLogin` | server.js:159-169 | Login validation passes exactly when both fields are filled, the e-mail is valid and the password has at least 6 code units. Otherwise it answers "Please fill in all fields", "Please enter a valid email address" or "Invalid email or password", and never a signup-only message. |
| `Validation.SignupValidImpliesLoginValid` | server.js:159-169 | Credentials that pass signup validation also pass login validation. |
| `Accounts.FindByEmail` | server.js:176-179 | The lookup finds nothing exactly when no row has the e-mail. What it finds is a row of the table with that e-mail. |
| `Accounts.FindUnique` | server.js:57 | With unique e-mails, looking up a row's e-mail returns that row. |
| `Accounts.FindAfterAppend` | server.js:132-135 | After one row is appended, a lookup changes only for that row's e-mail, and only if no earlier row had it. |
| `Accounts.Authenticate` | server.js:159-200 | Login answers only 200, 400 or 401. It answers 400 exactly when validation fails, with that message. Every 401 carries "Invalid email or password". A 200 comes from a row with the submitted e-mail whose hash accepts the password, and it reports that row's id, name and phone-or-null. Conversely, a well-formed login whose e-mail is found and whose password the hasher accepts for that row answers 200. |
| `Accounts.LoginSucceedsIff` | server.js:181-200 | With unique e-mails, a well-formed login for an existing e-mail succeeds exactly when the hasher accepts the password. The success reply carries that row's id, name and phone. |
| `Accounts.UnknownEmailLooksLikeWrongPassword` | server.js:181-192 | An unknown e-mail and a wrong password for a known e-mail get the identical reply: 401 "Invalid email or password". |
| `Accounts.ShortLoginPasswordIgnoresTable` | server.js:167-169 | A well-formed login with a password shorter than 6 gets 400 "Invalid email or password" for any table and any hasher. |
| `Accounts.LoginAfterRegister` | server.js:115-141 | When the hasher round-trips, an account just added for a fresh e-mail logs in with its own password. The reply is 200 with its id, name and phone. |
| `Accounts.RegisterKeepsOtherLogins` | server.js:132-135 | Appending a row leaves the login answer for every other e-mail unchanged. |
| `Accounts.ListUsers` | server.js:218-219 | The listing has one entry per row, in table order, and each entry is that row's projection. |
| `Accounts.ListHidesPasswordHashes` | server.js:218 | Tables that differ only in password hashes (and update times) produce the same listing, so the listing reveals nothing about the hashes. |
| `Accounts.ListAfterRegister` | server.js:218 | A newly added row is listed last, after the earlier entries, which are unchanged. |
| `UsersTable.UserStore.constructor` | server.js:54-61 | A new table is empty, its ids start at 1, and it satisfies the invariant. |
| `UsersTable.UserStore.Signup` | server.js:89-141 | The method keeps the invariant (unique e-mails, increasing ids). A validation failure answers 400 with its message and leaves the table unchanged. Otherwise it answers as `Register`: a registered e-mail answers 400 "Email already registered" and leaves the table unchanged. A fresh e-mail appends exactly one row with the next id, the name, e-mail, `hash(password, salt)` and phone, and answers 201 with the welcome message and that id. That account can then log in. |
| `UsersTable.UserStore.Register` | server.js:114-141 | For a validated form, the method keeps the invariant. A registered e-mail answers 400 "Email already registered" and changes nothing. Otherwise it appends the new row with the next id and answers 201 with that id, and the new account then logs in with its own password. |
| `UsersTable.UserStore.Login` | server.js:154-200 | Login answers as `Authenticate` on the current table and changes nothing. |
| `UsersTable.UserStore.ListAll` | server.js:213-219 | Listing answers 200 with the projection of every row and changes nothing. |
| `UsersTable.SignupLoginSession` | server.js:89-219 | Session: signing Jo up answers 201 with id 1. The same signup again answers 400 "Email already registered". A wrong password answers 401, and the right one answers 200 with name "Jo" and phone "1234567890". A signup with password "abc" answers 400 "Password must be at least 6 characters". The final listing holds Jo's account alone, so neither rejected signup added a row. |

## Left out

- Express setup, CORS, body parsing, static files and the listen/startup chain (server.js:1-15, 237-244): framework I/O.
- The MySQL pool, connection acquire/release and the SQL text: the table is an in-memory sequence of rows instead.
- `initializeDatabase`, the schema bootstrap and the `ALTER TABLE ... ADD COLUMN phone` migration with its errno 1060 handling (server.js:29-84): DDL against an external server. Rows from before the migration appear only as rows whose `phone` is `None`.
- bcrypt internals: salting, cost factor 10, the 72-byte input limit and constant-time comparison. The salt is a parameter, the hash and compare functions are opaque, and only the round trip is assumed.
- Concurrent duplicate registrations and the database's UNIQUE backstop under races (server.js:57): the model is sequential, and its pre-check keeps e-mails unique.
- The 500 "Server error" paths (server.js:147-150, 206-209, 224-227) and console logging: they arise only from database or library exceptions.
- The clock: `created_at` and `updated_at` are a `Timestamp` parameter. No operation in scope updates a row.
- MySQL's column collation: e-mails are compared exactly. The server's default collation compares them case-insensitively, both in `WHERE email = ?` and in the UNIQUE index.
- Column widths: `VARCHAR(100)` for name and e-mail, `VARCHAR(20)` for phone, and the 32-bit `INT` id. An over-long value or an id overflow would surface as a database error, which is a 500 path; ids are unbounded here.
- Request fields of a type other than string (numbers, objects in the JSON body): fields are either absent or strings.
- The `success` flag of each JSON body: it is true exactly for the `Created`, `LoggedIn` and `UserList` bodies and false for `Fail`, so it is not stored separately.
