# Access-control and resource core of vanilla-server, in Dafny

This project models the in-memory core of a small Node.js HTTP API:

- **Revocation registry** (`RevokeToken`): the process-wide set of revoked token strings, with insertion and a membership test.
- **User store** (`Users`): user records in a map keyed by email. It covers registration with a hashed password, lookup, password validation, clearing the refresh token, the write of a refresh token done by login, the `Role` enum and the password length rule of the credentials schema.
- **Authentication gate** (`Authentication`): takes the bearer token out of the `authorization` header with JavaScript's `split(" ")[1]`. A missing token gets 401. A revoked token gets 403. A token the verifier rejects gets 403. Otherwise the decoded claims are attached to the request.
- **Authorization gate** (`Authorization`): the check returned by `authorizeRoles(...roles)`. It allows a request exactly when the principal's role is defined, non-empty and listed. Otherwise it answers 403.
- **Character store** (`Characters`): character CRUD over a JavaScript `Map`, including the `Map`'s key insertion order. It includes the name length rules of the character schema.

Each store is a class whose fields are the module-level collections of the source. Its methods update those fields in place. The gates are methods on `Request`/`Response` objects. `Authentication.Authenticate` and `Authorization.Allows` are pure functions giving the decision; the methods are proved against them and the lemmas state properties of them. `RevokeToken.Replay` and `Characters.Replay` apply a whole sequence of operations. They state properties that hold across calls.

Collaborators the core calls but does not contain are parameters:
- bcrypt becomes `Users.Hasher`, a hash function and a compare function. `Sound` says a password matches every hash made from it, which bcrypt guarantees. `Exact` says no other password matches: an idealised collision resistance, stated only for passwords of at most 72 UTF-8 bytes, because bcrypt ignores everything after them.
- `jsonwebtoken.verify` becomes `verify: string -> Option<Decoded>`, where `None` is a failed verification.
- `new Date().getTime()` becomes `now: int`.
- valibot's email format check becomes `isEmail: string -> bool`.

The decision functions `Authentication.ExtractToken`, `Authentication.Authenticate`, `Authorization.RoleOf` and `Authorization.Allows`, the password check `Users.ValidatePassword`, the schema functions and `Characters.OrderAfterSet` carry no contract of their own. Each has a row below naming the lemmas that specify it.

In three places the code departs from what a credential store of this kind usually promises. The model follows the code:
- Registering an email that is already present overwrites the stored record. There is no conflict error.
- The record returned by registration contains the password hash.
- The role check takes a list of strings and also refuses an empty role string, because `!userRole` is true for it.

## Model

| member | source | states |
|---|---|---|
| RevokeToken.RevocationRegistry.constructor | models/revokeToken.ts:6 | the registry starts with no revoked token |
| RevokeToken.RevocationRegistry.AddRevokedToken | models/revokeToken.ts:13-15 | afterwards the token is revoked, and every other token's membership is what it was |
| RevokeToken.RevocationRegistry.IsTokenRevoked | models/revokeToken.ts:23-25 | answers true exactly when the token is in the set; it modifies nothing |
| RevokeToken.Step | models/revokeToken.ts:13-25 | one operation never shrinks the set; a query leaves it equal; a revoke adds its token and nothing else |
| RevokeToken.RevocationIsPermanent | models/revokeToken.ts:6-25 | no sequence of operations removes a revoked token |
| RevokeToken.ReplayContents | models/revokeToken.ts:6-25 | after any sequence, a token is revoked iff it was revoked before or some operation revoked it |
| RevokeToken.RevokeIsIdempotent | models/revokeToken.ts:6-15 | revoking a token twice gives the same set as revoking it once |
| Users.RoleValue | models/user.ts:13-16 | each role stands for a non-empty string ("admin", "user") |
| Users.RoleValueInjective | models/user.ts:13-16 | two roles have the same string iff they are the same role |
| Users.NewUser | models/user.ts:35-43 | a new record has the given email and id, role USER, no refresh token, and as password the hash of the submitted password at 10 rounds |
| Users.RegisteredPasswordValidates | models/user.ts:70-72 | with a sound hash, the password a user registered with validates against the created record |
| Users.ValidatePassword | models/user.ts:70-72 | no contract; specified by Users.RegisteredPasswordValidates, Users.OtherPasswordFails and Users.LongPasswordsCollide |
| Users.OtherPasswordFails | models/user.ts:70-72 | with an exact hash, any other password fails validation, for passwords of at most 72 UTF-8 bytes |
| Users.Utf8Length | models/user.ts:36 | the UTF-8 length of a password, the byte count bcrypt's 72-byte limit applies to, lies between one and four bytes per character |
| Users.LongPasswordsCollide | models/user.ts:6 | a hash that, like bcrypt, reads only 72 characters is sound, yet two 73-character passwords sharing their first 72 validate against each other; no maximum length protects against this |
| Users.AuthSchemaIssues | models/user.ts:5-10 | no contract; specified by Users.AuthSchemaAccepts |
| Users.AuthSchemaAccepts | models/user.ts:5-10 | the schema reports no issue iff the email is well formed and the password has at least 6 characters; it reports a short password iff it is shorter |
| Users.UserStore.constructor | models/user.ts:24 | the store starts empty |
| Users.UserStore.CreateUser | models/user.ts:35-48 | stores the new record under the email, overwriting any earlier one; every other email keeps its record; keys-match-emails and only-USER-roles are preserved |
| Users.UserStore.FindUserByEmail | models/user.ts:58-60 | returns none iff the email is not a key, otherwise the stored record; it modifies nothing |
| Users.UserStore.RevokeUserToken | models/user.ts:81-88 | false with the map unchanged for an absent email; otherwise true, with the refresh token cleared, id, email, password and role kept, and the key set unchanged |
| Users.UserStore.SetRefreshToken | routes/auth.ts:100-105 | the login route's write of the refresh token into the stored record; only that field of that record changes |
| Users.RegisterThenLogin | models/user.ts:35-72 | registering, looking the email up and validating the same password succeeds under a sound hash |
| Authentication.Request.constructor | middleware/authentication.ts:10-12 | a request carries its header and no user yet |
| Authentication.Response.constructor | middleware/authentication.ts:30 | a response starts with status 200 and no body written |
| Authentication.Split | middleware/authentication.ts:33 | splitting on spaces gives at least one piece, and no piece contains a space |
| Authentication.JoinSplit | middleware/authentication.ts:33 | joining the pieces with single spaces gives back the original string |
| Authentication.SplitNoSpace | middleware/authentication.ts:33 | a string without a space splits into itself alone |
| Authentication.SplitAtSpace | middleware/authentication.ts:33 | a space ends the first piece, and the rest is split on its own |
| Authentication.SplitWithSpace | middleware/authentication.ts:33 | a string containing a space splits into at least two pieces |
| Authentication.ExtractToken | middleware/authentication.ts:32-33 | no contract; specified by Authentication.ExtractTokenMissing, Authentication.ExtractBearer and Authentication.EmptyTokenIsPresent |
| Authentication.ExtractTokenMissing | middleware/authentication.ts:32-35 | the token is missing iff there is no header, or the header is non-empty and has no space |
| Authentication.ExtractBearer | middleware/authentication.ts:32-33 | a header made of a space-free scheme, a space and a space-free token, optionally followed by more space-separated text, yields that token |
| Authentication.EmptyTokenIsPresent | middleware/authentication.ts:33-35 | the empty header and "Bearer " both yield the empty token, which is not a missing one |
| Authentication.Authenticate | middleware/authentication.ts:32-55 | no contract; specified by Authentication.AuthenticatedExactly, MissingTokenIsUnauthorized, UnauthorizedOnlyForMissingToken, RevokedIgnoresVerifier, UnverifiedIsForbidden, LoggedOutTokenIsForbidden and MoreRevocationOnlyRefuses; Authentication.AuthenticateToken is proved against it |
| Authentication.AuthenticatedExactly | middleware/authentication.ts:32-55 | the gate succeeds iff the token is present, not revoked and verifies; the claims are the verifier's; every refusal is 401 or 403 |
| Authentication.MissingTokenIsUnauthorized | middleware/authentication.ts:35-39 | a missing header, or a non-empty header without a space, is refused with 401 and the Unauthorized body |
| Authentication.UnauthorizedOnlyForMissingToken | middleware/authentication.ts:32-39 | the gate answers 401 iff the token is missing |
| Authentication.RevokedIgnoresVerifier | middleware/authentication.ts:41-45 | a revoked token is refused with 403 whatever the verifier would answer, because revocation is checked first |
| Authentication.UnverifiedIsForbidden | middleware/authentication.ts:47-55 | a present, unrevoked token the verifier rejects is refused with 403 |
| Authentication.LoggedOutTokenIsForbidden | middleware/authentication.ts:41-45 | once a token is revoked, the header "Bearer" plus that token is refused with 403 |
| Authentication.MoreRevocationOnlyRefuses | middleware/authentication.ts:41-50 | revoking more tokens can turn an acceptance into a refusal but never the reverse, and never changes the claims of an accepted request |
| Authentication.AuthenticateToken | middleware/authentication.ts:28-56 | returns true iff the decision is to proceed; then only the request's user changes, to the decoded claims; on refusal only the response changes, to the decided status and body |
| Authorization.RoleOf | middleware/authorization.ts:20 | no contract; specified, through Allows, by Authorization.UnauthenticatedIsDenied and Authorization.ClaimsAllowedExactly |
| Authorization.Allows | middleware/authorization.ts:22 | no contract; specified by Authorization.UnauthenticatedIsDenied, EmptyRolesDenyAll, MoreRolesKeepAllow, ClaimsAllowedExactly and AdminOnlyAction; Authorization.AuthorizeRoles is proved against it |
| Authorization.AuthorizeRoles | middleware/authorization.ts:15-30 | returns true iff the role is defined, non-empty and listed; on denial sets 403 and the insufficient-permissions body; on success leaves the response untouched |
| Authorization.UnauthenticatedIsDenied | middleware/authorization.ts:20-22 | a request without a user, or with a text payload, is denied |
| Authorization.EmptyRolesDenyAll | middleware/authorization.ts:22 | an empty role list denies everyone |
| Authorization.MoreRolesKeepAllow | middleware/authorization.ts:22 | adding roles to the allowed list never turns an allow into a deny |
| Authorization.ClaimsAllowedExactly | middleware/authorization.ts:20-22 | a claims payload is allowed iff its role is a non-empty string in the list |
| Authorization.AccessClaims | routes/auth.ts:95-99 | the access token's claims carry the user's role string |
| Authorization.AdminOnlyAction | middleware/authorization.ts:22 | an ADMIN-only check allows a user's access claims iff the user is an ADMIN |
| Authorization.NoStoredUserPassesAdminOnly | routes/character.ts:74-79 | a store holding only USER records, which every store operation preserves, has no record whose access claims pass an ADMIN-only check, so the PATCH and DELETE character routes refuse every registered user |
| Authorization.AnyRoleAction | routes/character.ts:51-55 | a check that allows ADMIN and USER allows the access claims of every user |
| Characters.CharacterSchemaIssues | models/character.ts:13-16 | no contract; specified by Characters.CharacterSchemaAccepts |
| Characters.CharacterSchemaAccepts | models/character.ts:13-16 | the schema reports no issue iff both names have at least 6 characters, and it reports each short field |
| Characters.OrderAfterSet | models/character.ts:70 | no contract; specified by Characters.OrderAfterSetMatches |
| Characters.OrderAfterSetMatches | models/character.ts:70 | setting a key keeps the key order a repetition-free list of exactly the keys |
| Characters.OrderAfterDelete | models/character.ts:108-109 | deleting a key removes exactly it from the key order, keeps the order free of repetitions, and changes nothing for an absent key |
| Characters.OrderLength | models/character.ts:28 | the key order has one entry per stored character |
| Characters.DistinctCardinality | models/character.ts:28 | a list without repetitions has as many elements as its set |
| Characters.ValuesCoverMap | models/character.ts:36 | a list holding the value under each key of a matching order, position by position, has one entry per key, contains every stored value and nothing else |
| Characters.Values | models/character.ts:35-37 | for an order matching the map, the list has one entry per key, in key order, contains every stored value, and holds nothing that is not stored |
| Characters.AddedCharacter | models/character.ts:58-73 | the returned character keeps name and lastName; it is the argument itself for an unknown id, and a copy with the fresh id for a known one |
| Characters.AfterAdd | models/character.ts:61-72 | an unknown id leaves the map unchanged; a known id adds the copy under the fresh id; every other entry, the original included, stays unless the fresh id hits it |
| Characters.AfterUpdate | models/character.ts:86-93 | the key set never changes; an absent id changes nothing; a present id maps to the new value; other entries stay |
| Characters.AfterDelete | models/character.ts:103-110 | exactly that key is removed; the remaining entries keep their values |
| Characters.EmptyStoreStaysEmpty | models/character.ts:61-64 | starting from the empty store, no sequence of adds, updates and deletes ever stores a character |
| Characters.AddNeverStoresUnknownId | models/character.ts:61-64 | adding a character whose id is not stored changes nothing, and its id is still not stored |
| Characters.IntendedAfterAdd | models/character.ts:51-64 | the documented behaviour: a stored id is refused with the map unchanged; a new character is stored under the fresh id; other entries stay |
| Characters.IntendedAddPopulatesEmptyStore | models/character.ts:51-57 | under the documented behaviour, adding to the empty store stores exactly one character |
| Characters.CharacterStore.constructor | models/character.ts:28 | the store starts empty, with an empty key order |
| Characters.CharacterStore.GetAllCharacters | models/character.ts:35-37 | returns every stored value once, in key insertion order, and nothing else |
| Characters.CharacterStore.GetCharacterById | models/character.ts:45-49 | returns none iff the id is not stored, otherwise its character; it modifies nothing |
| Characters.CharacterStore.AddCharacter | models/character.ts:58-73 | the code as written: the result and the new map are those of AddedCharacter and AfterAdd; the key order gains the fresh id only if it is new |
| Characters.CharacterStore.AddCharacterAsDocumented | models/character.ts:51-64 | the corrected operation: the new map is IntendedAfterAdd's; a new character comes back with the fresh id |
| Characters.CharacterStore.UpdateCharacter | models/character.ts:82-94 | null iff the id is absent; otherwise returns the new value; the map follows AfterUpdate and the key order does not change |
| Characters.CharacterStore.DeleteCharacter | models/character.ts:102-111 | false iff the id is absent; the map follows AfterDelete and the key order loses exactly that id |

## Left out

- Token signing and verification (JSON Web Token, RFC 7519, via `jsonwebtoken`) are not modelled. `verify` is an arbitrary partial function, so HMAC signatures, base64url encoding, token lifetimes and expiry arithmetic are absent. Facts about these hold for every verifier.
- bcrypt is two abstract functions. Salting, the cost of hashing and constant-time comparison are not modelled, and a single `hash` function value stands for its randomised output.
- Valibot's email format check is a parameter. Its regular expression is foreign code.
- Name, password and email lengths are counted in Dafny characters (Unicode scalar values). JavaScript counts UTF-16 code units, so the two differ for characters outside the Basic Multilingual Plane.
- Clock-based ids are parameters. Nothing in the source makes them unique or monotone, and the model does not either.
- Promises and `async`, `console.error` logging, CORS, server start-up and dispatch (`index.ts`), body parsing (`utils/parseBody.ts`) and configuration (`config.ts`) are out of scope. `res.end(JSON.stringify(...))` is modelled as writing the final body string into the response.
- The route handlers (`routes/auth.ts`, `routes/character.ts`) are left out, except the login's refresh-token write (`SetRefreshToken`) and the access-token claims (`AccessClaims`). Two defects in them are not modelled:
  - In the logout route, the result of `revokeUserToken` is a promise, so its guard never fires (routes/auth.ts:147-148).
  - The character routes replace the gate's 403 with 401 (routes/character.ts:26-28).
- A role claim that is not a string is modelled as an absent role. It can never equal one of the listed strings, so the gate denies either way.
- Characters carry only `id`, `name` and `lastName`. Extra fields copied from a request body are not modelled, and ids are mathematical integers, so `NaN` is not modelled.
- Concurrency: every operation is one sequential step on the shared state. Node.js runs these without interleaving within a call.
- Users.SetRefreshToken: assumes the record the login route found is still the stored one. In the source the write goes to the object `findUserByEmail` returned (routes/auth.ts:85, 105), and an awaited password check separates the two (routes/auth.ts:88). A `createUser` or `revokeUserToken` in that gap replaces the stored record; `revokeUserToken` stores a copy (models/user.ts:86). The source's write then lands on the detached object, while the model writes into whatever record is stored under the email.
- Users.OtherPasswordFails: holds only for passwords of at most 72 UTF-8 bytes. Real bcrypt ignores the bytes after the 72nd, so longer passwords that share their first 72 bytes validate against each other (Users.LongPasswordsCollide).
- Authentication.AuthenticateToken: "a revoked token never reaches the verifier" is stated about the decision it follows. `RevokedIgnoresVerifier` proves the outcome does not depend on the verifier. No contract counts the calls made to `verify`.

## Findings

| source | as written | input that shows it | evidently intended | confidence | as-written member | corrected member |
|---|---|---|---|---|---|---|
| models/character.ts:61-64 | the guard of `addCharacter` refuses a character whose id is NOT stored, and logs "already exists" while doing so; only a character whose id is already stored gets inserted, as a copy under a fresh id | an empty store and any character: nothing is inserted, and no later add, update or delete ever inserts anything | refuse an id already stored; store any other character under the fresh id, as the doc comment and the log message say | not executed | Characters.EmptyStoreStaysEmpty | Characters.IntendedAfterAdd |

The store keeps `AddCharacter` as the source behaves. `AddCharacterAsDocumented` is the corrected operation, and `IntendedAddPopulatesEmptyStore` shows that it populates an empty store.
