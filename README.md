# PGDEM authentication service, modelled in Dafny

PGDEM is a school-sports management platform for the province of Malanje. Its
authentication service (`auth.ts`) keeps an in-memory account table,
`MOCK_USERS`, keyed by e-mail. The table is seeded with three institutional
accounts: a super-admin, the Cacuso coordinator and one school. It offers two
operations:

- **registerRequest** inserts a school (`ESCOLA`) account under an e-mail that
  is not yet a key. It refuses an e-mail that is already a key with
  "Este email já está registado.".
- **login** looks the e-mail up and compares the stored password with the
  supplied one. On a match it returns the stored record without its password,
  together with a session token. Otherwise it fails with
  "Email ou palavra-passe incorretos.".

The model has two modules:

- `JsText` (`js_text.dfy`) models the JavaScript string built-ins the service
  uses:
  - `toLowerCase` on the ASCII and Latin-1 letters;
  - the Latin-1 range that `btoa` accepts;
  - the decimal rendering of `Date.now()` in the token's template literal.
- `Auth` (`auth.dfy`) holds the records, the seed table and the
  specification functions `Authenticate` and `NewAccount`. It also holds the
  class `AuthService`. The class's `users` map is `MOCK_USERS`. Its method
  `RegisterRequest` updates the map in place. Its method `Login` only reads
  the map and is proved equal to `Authenticate`. The object invariant `Valid`
  says three things of every stored account:
  - only a school account names a school;
  - every non-super-admin account names a municipality;
  - every municipality id is lower-case.

Where the code and its declared types disagree, the model follows the code:

- The returned `User` has no `email` field, although the `User` interface
  declares one. The stored records never had an e-mail field, and only the
  password is removed from them.
- A login with correct credentials still fails when the e-mail has a character
  above U+00FF, because `btoa` throws while it encodes the token.
- A registration that omits the optional password stores an absent password,
  and no string ever matches it.
- `lastLogin` is the time the account was seeded or registered. A login does
  not update it.

Randomness, clocks and the token's base64 encoding are parameters or kept
abstract:

- the random account id is a parameter;
- the ISO timestamps are parameters;
- `Date.now()` is a `nat` parameter;
- a token is kept as the text that `btoa` encodes, which loses nothing
  because base64 is injective.

## Model

| member | source | states |
|---|---|---|
| `JsText.ToLower` | auth.ts:87 | The result has the input's length and no upper-case letter. Characters that are not upper-case letters are unchanged. Each upper-case letter becomes the lower-case letter that maps back to it. |
| `JsText.ToLowerOfLowerCase` | auth.ts:87 | Lower-casing a string with no upper-case letter returns it unchanged. |
| `JsText.ToLowerIdempotent` | auth.ts:87 | Lower-casing twice gives the same string as lower-casing once. |
| `JsText.ToLowerIgnoresCase` | auth.ts:87 | Two submissions that differ only in letter case ("Malanje" and "malanje") give the same municipality id. |
| `JsText.Decimal` | auth.ts:68 | The rendering of `Date.now()` is a non-empty string of decimal digits with no leading zero. |
| `JsText.DecimalRoundTrip` | auth.ts:68 | Reading those digits back gives the number again. |
| `JsText.Latin1Append` | auth.ts:68 | `btoa` accepts a concatenation exactly when it accepts both parts. |
| `Auth.Seed` | auth.ts:34-59 | Every seeded account is well formed, has password "123" and the load time as `lastLogin`. An account has a `schoolId` exactly when its role is ESCOLA. |
| `Auth.SeedAccounts` | auth.ts:34-59 | The seed has exactly three keys, the three institutional e-mails. Any two accounts differ in id and in role. |
| `Auth.SeedEmailsAreLatin1` | auth.ts:35-50 | The three seeded e-mails lie within Latin-1, so a token can be built for each. |
| `Auth.SeedLogins` | auth.ts:34-71 | Each seeded e-mail logs in with "123" and returns its own role: SUPER_ADMIN, COORDENADOR or ESCOLA. |
| `Auth.SeedLoginIsExact` | auth.ts:65-71 | A capitalised variant of a seeded e-mail fails with the invalid-credentials error, and so does a wrong password. |
| `Auth.NewAccount` | auth.ts:82-89 | A registered account is well formed and has role ESCOLA and no school. Its id is the supplied random id and its `lastLogin` the registration time. Its name is `responsibleName` and its password is the submitted one, absent if omitted. Its municipality id is the submitted municipality lower-cased. |
| `Auth.NewAccountMunicipality` | auth.ts:87 | A lower-case submitted municipality is stored as submitted. A stored municipality id is always its own lower-case form. |
| `Auth.WithoutPasswordLosesOnlyPassword` | auth.ts:67 | Putting the password back into the returned user restores the stored record. Two records give the same user exactly when they differ at most in the password. |
| `Auth.Message` | auth.ts:71-78 | Login's failure reads "Email ou palavra-passe incorretos.", registration's refusal reads "Este email já está registado.", and `btoa`'s failure is named "InvalidCharacterError". Each text belongs to exactly one error. |
| `Auth.WithoutPassword` | auth.ts:67 | The user record built from a stored account gives the account back when its password is put back in. |
| `Auth.CredentialsMatch` | auth.ts:65-66 | A match needs the e-mail to be a key with a stored password. An absent password matches no string. A stored password matches exactly the string equal to it. |
| `Auth.TokenText` | auth.ts:68 | The token text `email:now` is acceptable to `btoa` exactly when the e-mail is. |
| `Auth.Authenticate` | auth.ts:62-72 | Login succeeds iff the e-mail is a key, its stored password equals the supplied one, and the e-mail is Latin-1. A mismatch fails with the invalid-credentials error. A match on a non-Latin-1 e-mail fails with `btoa`'s error. On success it returns the stored record minus its password and the token built from the e-mail and the clock. |
| `Auth.PasswordlessAccountIsLocked` | auth.ts:82-89 | An account registered without a password refuses every string password with the invalid-credentials error. |
| `Auth.RegisterThenLogin` | auth.ts:62-91 | Logging in to a freshly registered Latin-1 e-mail with the registered password returns the new id, the registered name, role ESCOLA, the lower-cased municipality, no school and the registration time. |
| `Auth.RegisterKeepsOtherLogins` | auth.ts:82 | Inserting one e-mail does not change the outcome of a login with any other e-mail. |
| `Auth.NonLatin1EmailNeverLogsIn` | auth.ts:68 | An e-mail with a character above U+00FF never logs in, whatever the password. |
| `Auth.AuthService.constructor` | auth.ts:34-59 | The service starts with the seed table and satisfies its invariant. |
| `Auth.AuthService.Login` | auth.ts:62-72 | The result equals `Authenticate` on the current table. The method changes nothing. |
| `Auth.AuthService.RegisterRequest` | auth.ts:74-92 | A taken e-mail fails with the already-registered error and leaves the table unchanged. A fresh e-mail returns true and adds exactly that key, mapped to `NewAccount`. Every earlier entry is unchanged and the invariant is kept. |

## Left out

- The React UI (`App.tsx`): view switching, dashboard figures and the session kept in `localStorage`. It computes nothing the service depends on.
- `logout` only removes a browser storage key.
- The simulated latency (`setTimeout` of 800 ms and 1200 ms) and the asynchrony of both operations. Each operation is modelled as one synchronous step. Its thrown errors become `Failure` values.
- The random base-36 id, the ISO timestamps and `Date.now()` are parameters, not generated.
- The token is kept as the text `btoa` encodes. The base64 alphabet itself is not modelled.
- The `btoa` error is reported by its DOMException name. Its message text depends on the browser.
- `JsText.ToLower` maps only 'A'–'Z' and U+00C0–U+00DE (except U+00D7). JavaScript's `toLowerCase` also maps the other Unicode letters and a few letters to more than one code point; the submitted municipalities are Latin-1 names.
- `Auth.Seed` uses one load time for all three accounts. The source evaluates `new Date()` once per account, and the three readings can differ by a millisecond.
- The lookup `MOCK_USERS[email]` in JavaScript also sees names inherited from `Object.prototype` such as `toString`. Registering such a name is refused as taken, and logging in with it fails. The model treats the table as a plain dictionary of its own keys. The registration form's e-mail field cannot produce these names.
- The ranking, game-validation, entity-store and audit-log logic of the wider platform is not in `auth.ts` and is not part of this model.
