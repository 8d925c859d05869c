# Offline authentication store of the goldensport backend

This project models the file-storage mode of the authentication routes in
`backend/routes/auth.js`: the branch every handler takes while the MongoDB connection is
down. In that mode the handlers work on one module-level array of user records, `users`,
which is loaded from `users.json` at start-up and rewritten after every change.

- **Signup** checks that username, email and password are present. It refuses a duplicate
  email or username. Otherwise it appends a record with a bcrypt hash and answers 201.
- **Login** finds the first record with the email and compares the password. On success it
  issues a JWT signed over the record's id.
- **Validate** reads a `Bearer ` authorization header and verifies the JWT. It answers 200
  only when the token's id belongs to a stored record.
- **Google sign-in** verifies a Google ID token. It reuses the record with that email, or
  appends a new record whose id is the Google subject id. The new record's username is made
  from the display name and the last four characters of the subject id.

The model has these parts:

- `Users` (users.dfy): the record type, `Find` (`Array.prototype.find`), and the
  email-uniqueness invariant.
- `Text` (text.dfy): the string operations. These are JavaScript's `\s`, `replace`,
  `toLowerCase`, `slice(-4)`, `Number.prototype.toString` for `Date.now()`, and the
  bearer-header parse.
- `Auth` (auth.dfy): the class `AuthStore`, which holds the `users` sequence and has one
  method per route. Each method returns a status and a JSON body.
- `Properties` (properties.dfy): properties over several requests. Each is a client method
  that creates a store and reasons only from the route methods' contracts.

The library calls are fields of the `Primitives` datatype, each a total function: bcrypt
`hash`/`compare`, jsonwebtoken `sign`/`verify`, and Google's `verifyIdToken`. The handlers
never check what these functions do. The multi-request properties assume two facts about
them: `HashSound` (compare accepts exactly the hashed password) and `TokenSound` (a token
verifies to the id it was signed over).

Other inputs become method parameters: the clock (`Date.now()`, the ISO creation date), the
salt bcrypt draws, and `Math.random()`.

The model follows the code in these points:

- The offline signup answers 201 with `{message, user: {username, email}}` and issues no token.
- A duplicate signup gets status 400, the same status as a missing field.
- Google-created records take the Google subject id as their `id`.
- Google sign-in does not check that the new username is unused, so usernames are not
  unique across the store. `Properties.GoogleUsernameClash` exhibits this. Email uniqueness
  is kept by every route.
- Record ids are not guaranteed unique either. Signup ids are millisecond timestamps, and
  Google ids are subject ids. Validate only asks whether some record has the id.

## Model

| member | source | states |
|---|---|---|
| Users.Find | backend/routes/auth.js:109 | `users.find(p)`: the index returned holds a record satisfying `p` and no earlier record does; None exactly when no record satisfies `p` |
| Users.FindEmail | backend/routes/auth.js:109-110 | the email lookup finds nothing exactly when no record has the email, and otherwise returns the first record with it |
| Users.FirstEmail | backend/routes/auth.js:199-201 | whenever some record has the email there is a first such record, the one `find` returns |
| Users.HasEmail | backend/routes/auth.js:109 | the condition under which `users.find(u => u.email === email)` finds a record: some record has the email |
| Users.HasId | backend/routes/auth.js:146 | the condition under which `users.find(u => u.id === decoded.id)` finds a record: some record has the id |
| Users.HasConflict | backend/routes/auth.js:60 | the duplicate test of signup: some record has the email or the username |
| Users.UniqueEmailIsFirst | backend/routes/auth.js:109 | under email uniqueness, any record with the email is the one `find` returns |
| Users.OnlyRecordWithEmail | backend/routes/auth.js:199 | under email uniqueness, the record `find` returns is the only one with that email |
| Users.AppendKeepsUniqueEmails | backend/routes/auth.js:60-76 | appending a record whose email is new keeps emails unique |
| Users.AppendKeepsUniqueUsernames | backend/routes/auth.js:60-76 | appending a record that passes signup's duplicate check keeps usernames unique |
| Text.IsWhitespace | backend/routes/auth.js:205 | the characters of JavaScript's `\s`: the ECMAScript WhiteSpace and LineTerminator code points |
| Text.RemoveWhitespace | backend/routes/auth.js:205 | `replace(/\s+/g, '')` leaves no whitespace, never lengthens, and is the identity on whitespace-free strings |
| Text.RemoveWhitespaceCounts | backend/routes/auth.js:205 | removing whitespace deletes every whitespace character and keeps every occurrence of every other character |
| Text.RemoveWhitespaceAppend | backend/routes/auth.js:205 | removing whitespace distributes over concatenation |
| Text.RemoveWhitespaceIdempotent | backend/routes/auth.js:205 | removing whitespace twice equals removing it once |
| Text.LowerChar | backend/routes/auth.js:205 | a lowered character is never an ASCII capital; capitals move up by 32 code points ('A' 65 to 'a' 97), all else is unchanged |
| Text.ToLower | backend/routes/auth.js:205 | `toLowerCase` keeps the length and lowers each character in place |
| Text.ToLowerAppend | backend/routes/auth.js:205 | lowering distributes over concatenation |
| Text.LowerKeepsWhitespace | backend/routes/auth.js:205 | lowering a character never changes whether it is whitespace |
| Text.LowerRemoveCommute | backend/routes/auth.js:205 | stripping then lowering the name equals lowering then stripping it |
| Text.Slice | backend/routes/auth.js:205 | `slice(start)` returns a suffix; a negative start keeps the last `-start` characters (the whole string if it is shorter), a non-negative one drops the first `start` characters |
| Text.SliceLastFour | backend/routes/auth.js:205 | `slice(-4)` is the last four characters, or the whole string when it is shorter |
| Text.GoogleUsername | backend/routes/auth.js:205 | a synthesised username is as long as the stripped name plus the last up-to-four characters of the subject id, ends with exactly those characters, and its name part has no whitespace and no ASCII capitals (what the name part is: Text.GoogleUsernameName) |
| Text.GoogleUsernameName | backend/routes/auth.js:205 | the name part of a synthesised username is the whitespace-stripped display name, each character lowered in place |
| Text.GoogleUsernameCollides | backend/routes/auth.js:205 | two distinct Google users ("Al", subject 101234; "a l", subject 201234) both get the username "al1234" |
| Text.DigitChar | backend/routes/auth.js:69 | the character for a digit below 10 is the decimal digit of that value |
| Text.Decimal | backend/routes/auth.js:69 | `Date.now().toString()` is a non-empty string of decimal digits, with no leading zero except for 0 itself |
| Text.DecimalRoundTrip | backend/routes/auth.js:69 | reading the digits of a timestamp's id back gives the timestamp |
| Text.DecimalInjective | backend/routes/auth.js:69 | different timestamps give different signup ids |
| Text.StartsWith | backend/routes/auth.js:128 | `startsWith(prefix)`: the string is at least as long as the prefix and begins with it |
| Text.BearerToken | backend/routes/auth.js:128-132 | a token is read only from a present header that starts with "Bearer ", and the header is then "Bearer " followed by that token |
| Text.BearerTokenRoundTrip | backend/routes/auth.js:132 | every header "Bearer t" yields exactly the token t |
| Auth.Present | backend/routes/auth.js:40 | a request field passes `!field` when it is there and is not the empty string |
| Auth.NewGoogleUser | backend/routes/auth.js:203-211 | the record created for a new Google user: id and googleId are the subject id, the synthesised username, the payload email, the hash of a random password, avatar is the picture |
| Auth.AuthStore.constructor | backend/routes/auth.js:14-24 | the store starts as the records loaded at start-up |
| Auth.AuthStore.Signup | backend/routes/auth.js:36-80 | a missing or empty field gives 400 with the store unchanged; an existing email or username gives 400 with the store unchanged; otherwise 201 with only `{username, email}`, and one record is appended (id from the clock, password `hash(password, salt)`) with earlier records unchanged; email and username uniqueness are preserved |
| Auth.AuthStore.Login | backend/routes/auth.js:88-117 | missing field gives 400; unknown email gives 404; for the first record with the email, a failed `compare` gives 400 "Wrong password" and a match gives 200 with `{username, email}` and a token signed over the record's id; when emails are unique, this holds for any record with the email; the store is never modified |
| Auth.AuthStore.Validate | backend/routes/auth.js:125-157 | a missing or non-"Bearer " header gives 401; a token that fails verification gives 401; an id matching no record gives 401; otherwise 200 `{valid: true}`; only 200 or 401 are answered and the store is never modified |
| Auth.AuthStore.Google | backend/routes/auth.js:159-227 | missing token gives 400; failed verification gives 500; a known email appends nothing and answers with that record and a token for its id; an unknown email with a name appends exactly one record with `id = googleId`, the synthesised username, `avatar = picture` and `googleId` set; an unknown email without a name gives 500 and changes nothing; success leaves the email in the store; email uniqueness is preserved, and when it held before, the answer is built from the one record with the payload email |
| Properties.LocalAccountLifecycle | backend/routes/auth.js:36-157 | from any store without a conflict: signup gives 201; a second signup with the same email gives 400; login with another password gives 400 "Wrong password"; login with the signup password gives 200 and a token over the new id; validating that token gives 200 |
| Properties.GoogleSignInIsIdempotent | backend/routes/auth.js:199-221 | from any store, a second Google sign-in with the same token adds no record and gives the same status and the same user fields; the first call adds at most one record. The token strings are also equal here, because `sign` depends on the id alone (see Properties.GoogleSignInIsIdempotent under "Left out") |
| Properties.GoogleUsernameClash | backend/routes/auth.js:199-214 | a signup of "al1234" followed by a Google sign-in of "a l" with subject 201234 leaves emails unique but two records sharing a username |

## Left out

- The MongoDB branches (`readyState === 1`, `User.findOne`, `findById`, `save`). They depend on the `models/User` schema and its indexes, which are not part of this model. The store here is always in file-storage mode.
- Loading `users.json` and `saveUsers`. File reading and writing is I/O: the initial records are a constructor parameter, and a failed write, which the source logs and ignores, changes nothing in memory.
- bcrypt, jsonwebtoken and google-auth-library are abstract functions in `Primitives`. Token expiry needs a clock, so an expired token is one that `verify` rejects. The signing secret is fixed. The model assumes `JWT_SECRET` is set: without it `jwt.sign` throws, the catch answers 500, and verification falls back to a hard-coded secret.
- Properties.GoogleSignInIsIdempotent: its promise that the two answers are equal includes the token strings. That holds only because `sign` is modelled without the `iat`/`exp` claims that `jwt.sign` embeds, and the Google verifier is modelled without a clock. In the source, tokens issued in different seconds differ, and the second verification can fail once the Google ID token has expired. What the program guarantees is the rest: the same status and user fields, a token over the same id, and no new record.
- bcrypt only uses the first 72 bytes of a password. `HashSound` ignores this, and only the multi-request properties assume it.
- `Date.now()`, `new Date().toISOString()`, the bcrypt salt and `Math.random().toString(36)` are method parameters.
- Concurrent requests are not modelled. Each handler runs as one atomic step. In the source, signup awaits `bcrypt.genSalt` and `bcrypt.hash` between its `users.find` check and its `users.push` (lines 60-76). Google sign-in awaits `bcrypt.hash` between its check and its push (lines 199-212).
- The generic `catch` paths that answer 500 on library exceptions are not modelled. The one exception that the store contents decide is modelled: a new Google user without a `name`.
- Request fields are optional strings. A field holding JSON of another type (a number, an object) is not modelled, and neither is a token payload without an `id`.
- Google payload `email` and `sub` are always strings here. A token whose payload lacks them is not modelled.
- Text.ToLower: lowers ASCII `A`-`Z` only, because full Unicode case mapping is out of reach; other letters are left as they are, where JavaScript's `toLowerCase` would also lower them.
- Strings are sequences of Unicode scalar values. JavaScript counts UTF-16 code units, so `slice(-4)` differs for characters outside the Basic Multilingual Plane.
- `backend/server.js` (Express bootstrap, CORS, static files, `listen`) has no logic to model.
- `api/auth/[...slug].js`, the serverless variant of the same routes, is not part of this model.
