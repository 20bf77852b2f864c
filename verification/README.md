# Account layer of the RouteFlow backend, in Dafny

This project models the account part of `server.js` of the RouteFlow delivery
backend: the in-memory `users` array, the register and login handlers, the
demo session token, and the `/api/auth/me` handler with its Authorization-header
gate. The Express handlers become pure functions over an immutable
`seq<User>`: each one takes the store and the request and returns a response.
Register also returns the new store. The HTTP status and the JSON error text
are kept in a `Failure(status, error)` response.

Modules, leaves first:

- `Wrappers`: `Option`, which stands for JavaScript's `undefined` and for "not found".
- `Seqs`: `FindFirst`, which is `Array.prototype.find` as an index search.
- `Strings`: `startsWith`, `indexOf`, `replace` with a string pattern (first
  occurrence only), and `split` on one character with its inverse `Join`.
- `Decimal`: `Number.prototype.toString` on a `Date.now()` reading. This is how a
  user id is made.
- `Token`: `Issue` (`'demo-token-' + id`) and `Recover` (prefix check, then
  `replace`).
- `AuthHeader`: field `[1]` of `authorization.split(' ')`, and the gate that
  turns a header into a user id or a 401.
- `Accounts`: `User`, the public view `PublicUser` (no password), and
  `Register`, `Login` and `Me`.
- `Server`: a request dispatcher, runs over sequences of calls starting from the
  empty store, and end-to-end lemmas (a token from register or login resolves
  on `/me`).

Two details of the code that the model keeps:

- The Authorization header is split on single spaces (`split(' ')`). Two spaces
  after the scheme leave field `[1]` empty, and `/api/auth/me` answers 401.
- A failed login answers 400 with "Invalid credentials".

## Model

| member | source | states |
|---|---|---|
| Seqs.FindFirst | server.js:23 | The result is the index of the first user the predicate accepts. None means no user is accepted. |
| Seqs.FindFirstAgree | server.js:85 | Two stores that the predicate judges alike, position by position, give the same first match. |
| Strings.IndexOf | server.js:84 | `indexOf`: the result is an occurrence of the pattern with none before it. None means the pattern occurs nowhere. |
| Strings.StartsWithDecompose | server.js:80 | `startsWith`: a string starts with the pattern exactly when it is the pattern followed by the rest of the string. |
| Strings.ReplaceFirst | server.js:84 | `replace`: the string is unchanged when the pattern does not occur. Otherwise the first occurrence, and only it, is replaced by the replacement text. |
| Strings.ReplaceFirstOfPrefix | server.js:84 | When the string starts with the pattern, only that leading copy is replaced. Later copies are kept. |
| Strings.Split | server.js:78 | `split(' ')` returns at least one field, and no field contains the separator. |
| Strings.JoinSplit | server.js:78 | Joining the fields of a split with the separator gives back the original string. |
| Strings.SplitJoin | server.js:78 | Splitting fields that were joined by a separator none of them contains gives back the fields. |
| Decimal.DecimalString | server.js:29 | `Date.now().toString()` is a non-empty digit string with no leading zero. |
| Decimal.ParseDecimalString | server.js:29 | Reading back the numeral of a clock value gives that value. |
| Decimal.DecimalStringParse | server.js:29 | Every canonical numeral is the numeral of its own value. |
| Decimal.DecimalStringInjective | server.js:29 | Two clock readings give the same id exactly when they are equal. |
| Token.Issue | server.js:42 | An issued token starts with `demo-token-` and is exactly one id longer than the prefix. |
| Token.Recover | server.js:80-84 | A token is accepted exactly when it starts with `demo-token-`. An accepted token is the issue of the id it yields. |
| Token.RecoverIssue | server.js:84 | Round trip: recovering `'demo-token-' + id` gives `id` back for every id, including ids that contain the prefix. |
| Token.RecoverIff | server.js:80-84 | Recover yields `id` if and only if the token is the one issued for `id`. So a token never resolves to another id. |
| Token.IssueInjective | server.js:64 | Distinct ids get distinct tokens. |
| AuthHeader.BearerField | server.js:78 | Field `[1]` is kept only if the header is present and the field exists and is non-empty. A kept field holds no space. |
| AuthHeader.BearerFieldShape | server.js:78 | Field `[1]` is `f` if and only if `f` is non-empty and space-free, and the header is a space-free scheme, one space, `f`, and optionally a space and anything else. |
| AuthHeader.Gate | server.js:77-84 | The gate yields no id (a 401) exactly in the three cases: no header, no non-empty field `[1]`, or field `[1]` without the prefix. A yielded id is the one whose token is field `[1]`. |
| AuthHeader.GateAcceptsIssued | server.js:77-84 | `<scheme> <token>` with any space-free scheme and an issued token for a space-free id is accepted, and the gate yields that id. |
| AuthHeader.GateIgnoresScheme | server.js:78 | The scheme word is never checked: two headers that differ only in it get the same verdict. |
| Accounts.Register | server.js:20-51 | On a known email: "User already exists" (400), store unchanged. Otherwise one user is appended after the unchanged earlier ones. That user has the clock id, role `driver`, company `''` by default, and the submitted fields. The response carries that user's token and public view. Register keeps emails unique. |
| Accounts.Login | server.js:54-73 | Login succeeds exactly when the first user with the email has exactly the supplied password. Then it returns that user's token and public view. Every failure is the same "Invalid credentials" (400). |
| Accounts.Me | server.js:76-100 | Answers 401 in exactly the three malformed-header cases. Answers 404 exactly when no user has the token's id. Otherwise returns the public view of the first user with that id. |
| Accounts.ViewOmitsPassword | server.js:43-49 | The user object in every response keeps id, email, name, company and role unchanged. It is the same whatever the stored password and creation time are. |
| Accounts.RegisterCompanyDefault | server.js:33 | The company default (a logical or with `''`): a new user's company is empty exactly when the request gave no company or an empty one. |
| Accounts.LoginIff | server.js:57-60 | With unique emails, login succeeds if and only if some user has both the email and the password. An unknown email and a wrong password give the same error. |
| Accounts.MeIgnoresPasswords | server.js:91-98 | The `/me` answer does not depend on any stored password. |
| Accounts.RegisterResponseIgnoresPassword | server.js:40-50 | The register response does not depend on the submitted password. |
| Server.Handle | server.js:20-100 | Login and `/me` leave the store unchanged, and so does every failed call. A successful register adds one user. The store only grows. Emails stay unique and ids stay numeric. |
| Server.Run | server.js:38 | A run gives one response per request. The store it leaves extends the starting store, so users are only ever appended. |
| Server.RunPreservesWellFormed | server.js:23-38 | Any sequence of calls keeps emails unique and ids numeric. |
| Server.ReachableWellFormed | server.js:14 | Every store reachable from the initial empty array has unique emails and numeric ids. |
| Server.RunAppendOnly | server.js:38 | Over any sequence of calls, earlier users are never changed or removed. |
| Server.ReadOnlyRun | server.js:54-100 | A sequence of login and `/me` calls leaves the store unchanged. |
| Server.RegisterTwice | server.js:23-26 | Registering the same email twice succeeds and then fails with "User already exists". The store stays as the first call left it. |
| Server.RegisterThenMe | server.js:84-88 | After a registration with a fresh clock id, its token sent as `<scheme> <token>` makes `/me` return the new user's public view. |
| Server.LoginThenMe | server.js:64 | If no earlier user shares the logged-in user's id, the login token sent as `<scheme> <token>` makes `/me` return that user's public view. |
| Server.FreshClockId | server.js:29 | If every stored id comes from a clock reading before `now`, the id made from `now` belongs to no stored user. |
| Server.RegisterKeepsIdsBefore | server.js:28-38 | After registering at `now`, every stored id still comes from a reading before any later clock value. |

## Left out

- Express plumbing (server.js:1-11): app setup, CORS, JSON body parsing, static files, the port, and serialising responses. A response is a datatype holding the status and the message.
- Clocks: `Date.now()` and `new Date()` are parameters of `Register` (`now`, `createdAt`). Ids are not assumed unique. Two registrations in the same millisecond share an id. Lemmas that need a fresh id say so in their `requires`.
- `Number.prototype.toString` switches to exponent notation from 10^21 on. `Decimal.DecimalString` models only plain decimal output, which covers every clock reading before that point.
- JavaScript falsiness and typing of the request body: email, password and name are plain strings. `company || ''` is an `Option<string>` that defaults to `""`. Non-string body values are not modelled.
- `replace` substitution patterns (`$&` and the like) are not modelled. The only replacement string used is `""`, which has none.
- Strings are sequences of Unicode characters, not UTF-16 code units.
- Node's handling of repeated or differently cased Authorization headers is not modelled. The handler sees one optional string.
- Concurrency: requests are handled one at a time. Races between concurrent registrations are not modelled.
- The route store, the driver statistics and the health endpoint are not part of this model. Their handlers are not in the part of server.js this model covers, which ends at line 100.
