# StemUp signup and login, modelled in Dafny

StemUp is a small marketing site. It has two pieces of logic:

- **The signup form** (`src/app/signup/page.tsx`). Its password checker holds seven boolean flags in a
  `validations` record, updates them as the user types, and enables the submit button only when
  every flag is true and the email contains `@`.
- **The credential store**. This is one `users` table (`src/db/schema.ts`) with three handlers on it:
  - `src/pages/api/signup.ts` registers a user. It handles the preflight, checks that both fields
    are present, checks for a duplicate, and then hashes and inserts.
  - `src/api/signup/route.ts`, the `api/signup` route, also registers a user. It has no presence
    check, and its 500 message is "Failed to create account".
  - `src/api/login/route.ts` authenticates. It looks the email up, compares hashes, and answers an
    unknown email and a wrong password with the same 401.

Modules, one per source file or collaborator:

| module | file | models |
|---|---|---|
| `Messages` | messages.dfy | the decoded request body (`Payload`), JSON fields, store faults, and `(status, body)` responses |
| `Hashing` | hashing.dfy | bcrypt as a `Hasher` value (`hash`, `compare`), the cost constant 10, and the predicates `Sound` (round trip) and `Conceals` (digest ≠ plaintext) |
| `Wrappers` | wrappers.dfy | the `Option` type |
| `Schema` | schema.dfy | `UserRow`, the column constraints as `TableInvariant`, how a value is assigned to a `varchar(255)` column (`ToVarchar`), the `where email = ?` selection `Lookup`, and `SelectRows`, the select every route runs on a query parameter |
| `Database` | database.dfy | the table as a class `UsersTable` updated in place, with a `Select` (the shared `Schema.SelectRows` on its current rows) and an all-or-nothing `Insert` that enforces the constraints |
| `SignupApi` | signup_api.dfy | the `POST` handler of `src/pages/api/signup.ts` |
| `SignupRoute` | signup_route.dfy | the `POST` handler of `src/api/signup/route.ts` |
| `LoginRoute` | login_route.dfy | the `post` handler of `src/api/login/route.ts`, as a function of the table |
| `SignupForm` | signup_form.dfy | the rule predicates, the `validations` record, and the page state `SignUpPage` with `ValidatePassword`, `HandleChange` and `IsFormValid` |
| `Flows` | flows.dfy | signup followed by login, and the five-step walkthrough on a fresh table |

Inputs from the environment are parameters:

- the random bcrypt salt (`salt`);
- the database clock (`now`);
- a lost connection during the select or the insert (`fault`).

A handler's thrown error is its catch-all 500.

The two signup handlers are modelled separately, each as written. Their 500 messages differ:
"Internal server error" in `pages/api`, "Failed to create account" in the `api/signup` route. The
`OPTIONS` branch inside the `pages/api` `POST` handler is modelled as written, as a request-method input.

PostgreSQL behaviour that shapes the answers, modelled in `Schema` and `Database`:

- Text cannot hold U+0000. A query parameter containing it is refused, so the select throws and
  the handler answers 500.
- A value assigned to a `varchar(255)` column may be longer than 255 characters when everything
  past the limit is spaces. It is then cut to 255 characters and stored. Any other longer value is
  refused.
- An absent field binds as SQL NULL. `email = NULL` matches no row, and inserting NULL into a
  NOT NULL column is refused.

One consequence: with the password field absent, the login route answers a registered email with
500 "Login failed" (bcrypt throws on the missing password) and an unregistered one with 401. Its
two credential failures look alike only when a password is sent.

## Model

| member | source | states |
|---|---|---|
| `Schema.Lookup` | src/pages/api/signup.ts:34-38 | The selection returns only rows with that email, all taken from the table. It is empty exactly when no row has the email. With unique emails it returns at most one row. |
| `Schema.ToVarchar` | src/db/schema.ts:5-6 | A value is stored exactly when it holds no U+0000 and every character past the limit is a space. The stored value fits the limit, is a prefix of the input with only spaces cut off. It is the input itself when the input already fits, and exactly its first `limit` characters when the input is longer. |
| `Schema.LookupUnique` | src/db/schema.ts:5 | Under the unique-email constraint, a registered email selects exactly its own row. |
| `Schema.LookupAppend` | src/pages/api/signup.ts:46-51 | Appending a row changes the selection of that row's email only, and only by adding that row. |
| `Schema.AppendKeepsInvariant` | src/db/schema.ts:4-6 | A row with a new email, a fresh id and in-bounds lengths keeps emails unique, ids unique and every column within varchar(255). |
| `Database.UsersTable.constructor` | src/db/schema.ts:3-9 | The table starts empty, satisfies its constraints, and its identity sequence starts at 1. |
| `Schema.SelectRows` | src/pages/api/signup.ts:34-38 | The select throws exactly when the parameter holds U+0000. Otherwise every returned row is in the table and holds that email. A NULL parameter returns nothing. A string parameter returns nothing exactly when no row has that email. |
| `Database.UsersTable.Insert` | src/db/schema.ts:4-8 | The insert succeeds exactly when the connection is up, the email is non-null, both values can be assigned to their `varchar(255)` columns (no U+0000, only spaces past 255 characters), and the assigned email is not yet present. On success exactly one row is appended. It holds the assigned values, the id comes from the store, and both timestamps are `now`. The constraints still hold. On failure nothing changes. |
| `SignupApi.Post` | src/pages/api/signup.ts:7-67 | `OPTIONS` gives 204 with no body. A missing or unreadable body gives 500 "Internal server error". An absent or empty email or password gives 400 "Email and password are required", before any lookup. A failed select, or an email holding U+0000, gives 500. An existing email gives 400 "Email already registered" and the row is not overwritten. A rejected insert gives 500: a lost connection, a value that cannot be assigned to its column, or an email that collides once cut to 255 characters. In every one of these cases the table is unchanged. Otherwise: 201 `{success: true, user: {email}}` naming the stored email, and exactly one new row holding the email and `hash(10, salt, password)` as their columns store them. No strength rule is applied to the password. Under `Conceals`, for a digest that fits its 255-character column, the stored value is not the plaintext. The table invariant is kept throughout. |
| `SignupRoute.Post` | src/api/signup/route.ts:7-49 | Any failure gives 500 "Failed to create account": an unreadable body, a failed select, an email holding U+0000, an absent password, an absent email (NOT NULL), or a rejected insert (as for `SignupApi.Post`). There is no presence check, so an empty email is an ordinary key. A registered email gives 400 "Email already registered" with the table unchanged. Otherwise: 201 naming the stored email, and exactly one new row holding the stored email and digest. Under `Conceals`, for a digest that fits its 255-character column, the stored value is not the plaintext. |
| `LoginRoute.Post` | src/api/login/route.ts:7-66 | The only answers are 200, 401 "Invalid credentials" and 500 "Login failed". An unreadable body, a failed select or an email holding U+0000 gives 500. An absent email, or one no row holds, gives 401. A known email with an absent password gives 500, because bcrypt throws. A known email whose row's digest does not verify the password gives 401. Otherwise the answer is 200 naming that email. With unique emails, 200 is equivalent to the existence of a row for that email whose digest verifies the password. The handler is a function of the table, so the table is never modified. |
| `LoginRoute.FailuresIndistinguishable` | src/api/login/route.ts:16-40 | When a password is sent, an unknown email and a wrong password for a known email both give the same response: status 401 and the same body. |
| `LoginRoute.MissingPasswordRevealsRegistration` | src/api/login/route.ts:16-29 | When the password is absent, a registered email gives 500 and an unregistered one gives 401. The two answers differ, so the status tells whether an email is registered. |
| `LoginRoute.RegisteredPasswordLogsIn` | src/api/login/route.ts:12-53 | Round trip: once a row holding `hash(10, salt, p)` has been appended for an email that was not yet present and holds no U+0000, logging in with `(email, p)` gives 200, assuming the hasher's round trip `Sound`. |
| `LoginRoute.LaterSignupKeepsLogin` | src/api/login/route.ts:12-14 | Registering another email does not change the answer to an existing login. |
| `Flows.SignupThenLogin` | src/pages/api/signup.ts:45-59 | For a digest that fits its column, a 201 from the `pages/api` signup guarantees a 200 from logging in with the same pair when the email has at most 255 characters. A longer email (padded with spaces) is stored cut, and logging in with the original gets 401. A duplicate signup leaves the table untouched. |
| `Flows.RouteSignupThenLogin` | src/api/signup/route.ts:27-41 | The same two outcomes after a 201 from the `api/signup` route. |
| `Flows.OneRowLogins` | src/api/login/route.ts:12-53 | On the table holding only a@b.com's row: the right password gives 200, a wrong password gives 401, and an unknown email gives 401. |
| `Flows.Walkthrough` | src/pages/api/signup.ts:34-59 | On a fresh table: register a@b.com gives 201, registering it again gives 400, the right password gives 200, a wrong password gives 401, and an unknown email gives the identical 401. |
| `SignupForm.Utf16Length` | src/app/signup/page.tsx:38 | `password.length` counts UTF-16 code units: `|s|` plus the number of positions holding a character outside the Basic Multilingual Plane. So it lies between `|s|` and `2·|s|`, and equals `|s|` exactly when every character is in that plane. |
| `SignupForm.BmpLengthRule` | src/app/signup/page.tsx:38 | For Basic Multilingual Plane text, `validLength` holds exactly when 8 ≤ `|password|` ≤ 20. |
| `SignupForm.AstralCharactersCountTwice` | src/app/signup/page.tsx:38 | Four characters outside the Basic Multilingual Plane already pass the length rule. |
| `SignupForm.CapitalsAndDigitsLackLetter` | src/app/signup/page.tsx:33-36 | A password of only `A`–`Z` and `0`–`9` fails `hasLetter`, because that rule tests `a`–`z` only. |
| `SignupForm.VisibleAsciiIsNotWhitespace` | src/app/signup/page.tsx:37 | No visible ASCII character is in the `\s` set. |
| `SignupForm.ExampleAccepted` | src/app/signup/page.tsx:33-38 | "Secret1!" satisfies all six password rules. |
| `SignupForm.ExampleRejected` | src/app/signup/page.tsx:33-36 | "secret1!" has no capital and "SECRET1!" has no lowercase letter. "Secret1-_" has no special character, because `-` and `_` are outside the special set. |
| `SignupForm.ExampleSpaced` | src/app/signup/page.tsx:37 | A space counts as whitespace, so it fails `hasNoSpace`. |
| `SignupForm.SubmitGate` | src/app/signup/page.tsx:58-60 | While the flags are in sync with the form data, "all seven flags true and `@` in the email" is equivalent to three conditions together: the password meets all six rules, the confirmation equals it, and the email contains `@`. |
| `SignupForm.GetValidationColor` | src/app/signup/page.tsx:62-65 | The result is gray exactly when the field is untouched, whatever the validity. Otherwise it is green when valid and red when not. |
| `SignupForm.SignUpPage.constructor` | src/app/signup/page.tsx:11-25 | All fields start empty. Every flag starts false except `hasNoSpace`. The state is in sync and the submit gate is closed. |
| `SignupForm.SignUpPage.ValidatePassword` | src/app/signup/page.tsx:30-41 | All seven flags are replaced by the rules judged on the new password. `passwordsMatch` becomes equality with the current confirmation. The form data is untouched. |
| `SignupForm.SignUpPage.HandleChange` | src/app/signup/page.tsx:43-56 | Only the named field is stored. An email edit changes no flag. A password edit recomputes all six rules and re-compares with the confirmation. A confirmation edit changes only `passwordsMatch`, which becomes equality with the current password. The in-sync invariant is preserved. |
| `SignupForm.SignUpPage.IsFormValid` | src/app/signup/page.tsx:58-60 | In a synced state, the button is enabled exactly when the password meets the policy, the confirmation equals it, and the email contains `@`. |

## Left out

- HTTP: headers, CORS header contents and JSON (de)serialisation are left out. The decoded body is an input. Text that is not JSON makes `request.json()` throw, and JSON `null` parses but makes the destructuring throw; both are `Unreadable`. Any other JSON value that is not an object yields two absent fields. A JSON field is modelled as absent/null or a string; numbers, booleans and nested values inside the object are not modelled.
- Strings are sequences of Unicode scalar values. A JavaScript string is a sequence of UTF-16 code units and can hold an unpaired surrogate (from a `"\ud800"` escape in the JSON or from an input value); the model cannot represent such a string, so no field, password or email here contains one.
- bcrypt internals are left out: salt generation, the work factor's effect, constant-time comparison, and the 72-byte input limit. The hasher is an arbitrary pair of functions. Its round trip (`Sound`) and its never returning the plaintext (`Conceals`) are assumptions, stated as preconditions where they are used.
- The database driver is not part of this model. An absent email reaching `eq(usersTable.email, email)` is taken to bind as SQL NULL, which matches no row. An absent password reaching bcrypt is taken to throw.
- The race between two concurrent registrations of one email is left out. Only the database's unique constraint guards it. Handlers run one at a time here.
- Timestamp values come from the database clock and are a parameter. No code path updates a row, so `created_at` and `updated_at` keep the values written at insert.
- Database.UsersTable.Insert: a rejected insert leaves the identity sequence where it was, whereas PostgreSQL may consume a value. Only distinctness of ids is claimed.
- Which request methods the framework dispatches to which export is not modelled. This includes whether it ever calls a `POST` export for `OPTIONS`, and whether it calls the lower-case `post` export of the login route.
- `handleSubmit`, `fetch`, router navigation, `isSubmitting`, the error banner and all rendering are left out. This includes the "Passwords match" indicator and the login page's form.
- React state timing is simplified: each edit is one event and completes before the next, so the closures in `validatePassword` and `handleChange` see the current state. `handleChange` is modelled for the three input names the page renders.
