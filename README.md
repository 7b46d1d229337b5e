# Auth routes of the tailor mock server, in Dafny

The server is a JSON-file mock REST server with eight authentication routes
added in front of it (`server.js`). The routes share one document with two
tables: `users`, a list of user objects, and `auth.tokens`, a list of
`{userId, token}` records. This project models those eight handlers and the
expressions they use to look things up:

- `Json`: the JavaScript values the handlers see. It defines property access
  (`Get`: absent gives `undefined`), strict equality `===` and truthiness
  `!x`, the definitions of JavaScript behaviour the other parts build on.
- `Decimal`: `String(n)`, which the register handler uses to make a new id,
  together with a parser. The two are proved to be inverses.
- `Bearer`: `authorization?.split(" ")[1]`, built on a model of
  `split`/`join` that is proved round-trip.
- `Lookup`: `find`, `findIndex`, `some` and `filter` as recursive functions.
  The lemmas show that `filter` keeps the order and loses nothing. Two
  side facts are also proved, though no handler property depends on them:
  `filter` distributes over concatenation, and it changes nothing when every
  element passes.
- `Auth`: the `Store` class has fields `users` and `tokens`. It has one
  method per route:
  - `Login`, `Register`, `Logout`, `UpdateProfile` and `DeleteAccount`
    change the tables.
  - `Me`, `ResetPassword` and `UpdatePassword` only choose a reply.

  Each method's postcondition gives the status code, the reply body and the
  whole new state.
- `Scenarios`: requests run in sequence against one store. For example:
  - a token issued at login identifies a user at `/auth/me`;
  - logging out does not revoke a token;
  - a deleted account's token finds no user;
  - deleting a user and registering again can hand out an id that is
    already in use.

The two outside dependencies are parameters:
- Signing a token becomes a fresh token string passed to `Login` and
  `Register`.
- `jwt.verify` becomes a verifier function `string -> Option<Value>`. It
  returns the `userId` claim, or `None` where the library throws.
- `new Date().toISOString()` becomes a `now` string argument.

Behaviour of the code worth noting:
- `/auth/me` returns the first user whose id is `===` to the token's
  `userId`. This need not be the user the token was issued to, because ids
  are not unique.
- The register reply echoes the password with the rest of the new record.
- `/auth/logout` checks neither the token nor the scheme word in front of it.
- `/auth/update-password` stores nothing.

## Model

| member | source | states |
|---|---|---|
| `Decimal.NatToDecimal` | server.js:66 | `String(n)` of a natural number is a non-empty string of digits with no leading zero (unless it is "0"); it has one digit exactly when n < 10 |
| `Decimal.DecimalRoundTrip` | server.js:66 | reading back the decimal text of n gives n |
| `Decimal.NatToDecimalInjective` | server.js:66 | different table lengths give different id strings |
| `Decimal.CanonicalRoundTrip` | server.js:66 | every digit string without a leading zero is `String(n)` of the number it denotes |
| `Bearer.Split` | server.js:102 | `split(sep)` gives at least one piece, no piece holds the separator, and there is exactly one piece when the text has no separator |
| `Bearer.JoinSplit` | server.js:102 | joining the pieces of a split with the separator gives back the text |
| `Bearer.SplitJoin` | server.js:102 | splitting the join of separator-free pieces gives back the pieces |
| `Bearer.BearerToken` | server.js:102 | the extracted token never holds a space; it is `undefined` exactly when there is no header or the header holds no space |
| `Bearer.BearerTokenOfWords` | server.js:102 | the token is the second space-separated word of the header, whatever the first word is |
| `Bearer.BearerTokenOfScheme` | server.js:102 | a header `<scheme> <token>` yields the token |
| `Lookup.FindIndex` | server.js:184 | `findIndex` gives -1 exactly when no element matches; otherwise the index of a matching element before which nothing matches |
| `Lookup.Find` | server.js:20 | `find` gives `undefined` exactly when `findIndex` gives -1, and otherwise the element at that index |
| `Lookup.Any` | server.js:61 | `some` is true exactly when some element matches |
| `Lookup.Filter` | server.js:129 | `filter` is no longer than its input, every element it keeps is in the input and passes, and every input element that passes is kept |
| `Lookup.FilterIsSubsequence` | server.js:129 | the kept elements stay in their original order |
| `Lookup.FilterAppend` | server.js:220 | filtering a concatenation is the concatenation of the filtered parts |
| `Lookup.FilterPartition` | server.js:214 | kept and dropped elements together are exactly the input, as a multiset |
| `Lookup.FilterKeepsAll` | server.js:129 | when every element passes, the filter changes nothing |
| `Lookup.FilterKeepsLast` | server.js:214 | a kept last element stays last |
| `Lookup.FindAppended` | server.js:20 | after appending a matching element to a table where nothing matched, `find` and `findIndex` report the appended element |
| `Lookup.AnyOfFilter` | server.js:214 | anything matching after a filter matched before it |
| `Json.GetSpread` | server.js:190-194 | reading a property of a spread `{...a, ...b}` gives b's value when b has the property and otherwise what a gives, which the merged profile relies on |
| `Json.StrictEquals` | server.js:20 | `===` between primitives is value equality; a parsed object or array is never `===` to anything |
| `Json.StrictEqualsEquivalence` | server.js:20 | `===` is symmetric and transitive, and reflexive exactly on primitives |
| `Json.Truthy` | server.js:28 | a value is falsy exactly when it is one of `undefined`, `null`, `false`, `0` and `""`, the falsy values of ECMAScript that JSON can carry |
| `Auth.Authenticate` | server.js:102-119 | no header means no token (401 "No token provided"); an absent or empty bearer token means no token; otherwise the verifier is asked about the bearer token, and its answer alone decides between the verified id and 401 "Invalid token" |
| `Auth.AuthenticateSecondWord` | server.js:102-106 | the token checked is the second space-separated word of the header; a missing header, a header without a space, or an empty second word gives "No token provided" |
| `Auth.EmailIsMatches` | server.js:20 | the email callback of `find`/`some` selects a user exactly when its email is `===` to the given one, so an absent email matches an absent one |
| `Auth.IdIsMatches` | server.js:111 | the id callback of `find`/`findIndex`/`filter` selects a user exactly when its id is `===` to the decoded `userId` |
| `Auth.HoldsTokenMatches` | server.js:129 | the logout callback selects a token record exactly when it stores that token string |
| `Auth.IssuedToMatches` | server.js:220 | the account-deletion callback selects a token record exactly when its `userId` is `===` to the decoded `userId` |
| `Auth.AuthenticateBearer` | server.js:102-109 | a header `Bearer <token>` with a non-empty token reaches the verifier with that token; the result is the verified user id or the invalid-token outcome |
| `Auth.NewUser` | server.js:65-81 | the object the register handler builds has exactly the nine body fields (absent ones as `undefined`) plus the id, `photoUrl` null, `isEmailVerified` false, `userType` "tailor", and `createdAt` = `updatedAt` = the timestamp |
| `Auth.NewUserDetermined` | server.js:65-81 | those fields leave nothing open: two records that both have them are equal, so the register postcondition fixes the new user completely |
| `Auth.Merged` | server.js:190-194 | the profile merge has the keys of both records plus `updatedAt`; body fields override stored ones, `updatedAt` is the timestamp, and every other stored field is kept |
| `Auth.AppendKeepsEmailsDistinct` | server.js:61-83 | appending a user whose email no earlier user has keeps emails pairwise distinct |
| `Auth.FilterKeepsEmailsDistinct` | server.js:214 | removing users keeps emails pairwise distinct |
| `Auth.ProfileMayDuplicateEmail` | server.js:184-196 | a profile update can give one user another user's email, so email uniqueness is not an invariant of the store |
| `Auth.Store.constructor` | server.js:3 | the store starts with the given `users` and `auth.tokens` tables |
| `Auth.Store.Login` | server.js:17-43 | an unknown email or a falsy password gives 401 "Invalid credentials" with no change; otherwise one record `{userId: user.id, token}` is appended to the tokens, users are unchanged, and the reply is the first user with that email plus the token |
| `Auth.Store.Register` | server.js:46-98 | a known email gives 400 with no change; otherwise exactly one new user is appended, with id `String(old length + 1)` and the fields of `NewUser`, one token record for that id is appended, the reply is the new user plus the token, and pairwise-distinct emails stay distinct |
| `Auth.Store.Me` | server.js:101-121 | missing or empty token gives 401 "No token provided"; failed verification gives 401 "Invalid token"; otherwise 404 when no user has the decoded id, else 200 with the first such user |
| `Auth.Store.Logout` | server.js:124-134 | always 200; users unchanged; with a non-empty token, the tokens become exactly those records whose token differs, in their order, and without one nothing changes |
| `Auth.Store.ResetPassword` | server.js:137-148 | 404 exactly when no user has the email, 200 otherwise; nothing changes |
| `Auth.Store.UpdatePassword` | server.js:151-171 | 401 for a missing or invalid token; 400 exactly when the token verifies and either password field is falsy; 200 otherwise; nothing is stored |
| `Auth.Store.UpdateProfile` | server.js:174-201 | 401 for a missing or invalid token and 404 for an unknown id, with no change; otherwise only the first user with that id is replaced by the merge, every other user and all tokens stay, and the reply is the merged record |
| `Auth.Store.DeleteAccount` | server.js:204-227 | 401 for a missing or invalid token with no change; otherwise users become those whose id differs and tokens those whose userId differs, both in order, and pairwise-distinct emails stay distinct |
| `Scenarios.RegisterThenLogin` | server.js:17-98 | for any email that is not an object or array (an absent one included), logging in with a freshly registered body returns the new user, and two token records for its id are appended |
| `Scenarios.LoginThenMe` | server.js:17-121 | a token issued at login and accepted by the verifier leads `/auth/me` to the first user with the logged-in user's id, which is that user or an earlier one |
| `Scenarios.LogoutDoesNotRevoke` | server.js:124-134 | `/auth/me` answers the same before and after a logout with the same header |
| `Scenarios.DeleteThenMe` | server.js:204-227 | after a successful account deletion, the same token gets 404 from `/auth/me`, and no token record for that id remains |
| `Scenarios.DeleteThenRegisterReusesId` | server.js:66 | when the last user's id equals the table length, deleting one other user and registering again gives the new user the same id as the last one |
| `Scenarios.RegisterFresh` | server.js:46-98 | registering an email no user has gives 200, keeps every earlier user in place, and appends one user whose id is the decimal text of the new table length |
| `Scenarios.RemovalThenAppendRepeatsId` | server.js:66 | when the last user's id is the table length, removing one other user and appending one whose id is the new table length leaves two neighbouring users with equal ids |

## Left out

- Token signing and checking: signature, 1-day expiry and the hard-coded secret (server.js:14, 32, 85, 109, 159, 182, 212). The library is replaced by a fresh token argument and a verifier function.
- Writes to disk through `.write()`: the store is in-memory state.
- The json-server setup, body parser and default REST router (server.js:1-11, 230), and `server.listen` with its logging.
- Exceptions other than a failed `jwt.verify` are not modelled. Examples: a `users` or `auth.tokens` table that is not an array, an element that is not an object, or `jwt.sign` throwing. In the four handlers with a try block (me, update-password, profile, account deletion) such an exception would give 401 "Invalid token". In the other four (login, register, logout, reset-password) it would reach the fallback error handler (server.js:233-247), which answers 500 with the message; that handler is left out along with them.
- Auth.Store.Register: the source reads the clock twice, once for `createdAt` and once for `updatedAt`. The model takes one `now` for both, so it states that they are equal even though the two reads could differ.
- Key order of JSON objects and the serialization of replies: a record is a map from field names to values.
- Numbers are reals. NaN cannot arrive through JSON. -0 can (`JSON.parse("-0")`), but no handler can tell it from 0: `-0 === 0` holds, `!-0` equals `!0`, and `JSON.stringify(-0)` is "0". So the model does not distinguish them. Distinct numerals that round to the same double are `===` in JavaScript, and so are numerals that overflow to Infinity (`JSON.parse("1e400")`); in the model they are distinct reals. No handler property here depends on this.
- Objects and arrays inside records are compared by reference in JavaScript. Every comparison in these handlers is between a stored value and a freshly parsed one, so such values are modelled as never `===`.
- Concurrent requests: each request is one atomic method call, so the races between interleaved read-modify-write sequences are out.
