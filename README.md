# LibraryWebApi authentication core, modelled in Dafny

This project models the authentication part of the LibraryWebApi library-catalog service:

- the user repository, which holds the stored accounts. It checks login credentials (`Authenticate`), detects duplicate registrations (`RegistrationCheck`), appends new accounts (`Registration`) and builds the signed bearer token for an account (`Generate`);
- the login controller, which maps a login request to a bad-request, not-found or ok result (`Login`) and reports the role claim of the current request's principal (`GetRole`).

Modules, one per concern:

- `Options`: the nullable-reference shape (`None` stands for C#'s `null`).
- `Text`: ASCII versions of `String.ToLower()` and `String.Trim()`.
- `Linq`: `FirstOrDefault(source, predicate)`, which both repository queries call, taken over an in-memory sequence in a fixed order.
- `Models`: the records `User`, `UserLogin`, `Claim`, `ClaimsPrincipal`, the JWT configuration, the unsigned `SecurityToken` and `ClaimsPrincipal.FindFirstValue`.
- `Repositories`: the class `UserRepository` with the store as a `seq<User>` field that `Registration` reassigns, and the lemmas about the store.
- `LoginController`: `Login` and `GetRole` as functions. The controller's only field, the repository, is set once in its constructor, so it is passed as a parameter.

Behaviour of the model worth knowing, all proved. The model compares strings ordinally. It keeps the store in a fixed order (see "## Left out" for the database's own comparison).

- The stored username is only lower-cased; the supplied one is lower-cased and then trimmed. Only the supplied name is trimmed (LibraryWebApi/Repositories/UserRepository.cs:23), and the model does the same. So in the model an account whose stored name has white space at either end never logs in, not even with its own exact name (`MatchedUsernameIsTrimmed`).
- In the model, passwords are compared character for character, so letter case counts.
- `Registration` does no clash check. The store stays free of duplicate usernames and emails only when the caller checked first (`RegistrationKeepsUnique`, and `Registration`'s own contract).
- Under that invariant, every matching login finds its single account (`AuthenticateInUniqueStore`). Without it, the model returns the first match in store order.

Signing is a parameter `sign: (key, SecurityToken) -> string`. It stands for HMAC-SHA256 signing and the compact serialisation of the token. The current time is an integer parameter `now`, counted in seconds.

## Model

| member | source | states |
|---|---|---|
| `Text.LowerChar` | LibraryWebApi/Repositories/UserRepository.cs:23 | folds exactly 'A'..'Z' (by +32), leaves every other character, never yields an upper-case letter, and keeps a character white space exactly when it was |
| `Text.ToLower` | LibraryWebApi/Repositories/UserRepository.cs:23 | same length as the input, each character lower-cased in place |
| `Text.TrimStart` | LibraryWebApi/Repositories/UserRepository.cs:23 | result is a suffix of the input, starts with a non-white-space character or is empty, and everything cut off is white space |
| `Text.TrimEnd` | LibraryWebApi/Repositories/UserRepository.cs:23 | result is a prefix of the input, ends with a non-white-space character or is empty, and everything cut off is white space |
| `Text.Trim` | LibraryWebApi/Repositories/UserRepository.cs:38-39 | result has no white space at either end and is no longer than the input |
| `Text.IsWhiteSpace` | LibraryWebApi/Repositories/UserRepository.cs:23 | the characters Trim removes: space and U+0009 to U+000D, the ASCII part of `char.IsWhiteSpace` |
| `Text.IsTrimmed` | LibraryWebApi/Repositories/UserRepository.cs:38-39 | a string with no white space at either end, the shape every Trim result has |
| `Text.AllWhiteSpace` | LibraryWebApi/Repositories/UserRepository.cs:23 | a string made only of white space, what Trim cuts off on each side |
| `Text.TrimCutsWhiteSpace` | LibraryWebApi/Repositories/UserRepository.cs:23 | Trim's result is a contiguous slice of the input with only white space before and after it |
| `Text.TrimPadded` | LibraryWebApi/Repositories/UserRepository.cs:23 | trimming any white-space padding of an already trimmed string gives that string back |
| `Text.TrimStartPadded` | LibraryWebApi/Repositories/UserRepository.cs:23 | TrimStart removes exactly a white-space prefix in front of a string that does not start with white space |
| `Text.TrimEndPadded` | LibraryWebApi/Repositories/UserRepository.cs:23 | TrimEnd removes exactly a white-space suffix after a string that does not end with white space |
| `Text.TrimIdempotent` | LibraryWebApi/Repositories/UserRepository.cs:38-39 | trimming twice is trimming once |
| `Text.ToLowerIdempotent` | LibraryWebApi/Repositories/UserRepository.cs:38-39 | lower-casing twice is lower-casing once |
| `Text.ToLowerConcat` | LibraryWebApi/Repositories/UserRepository.cs:23 | lower-casing distributes over concatenation |
| `Text.ToLowerKeepsTrimmed` | LibraryWebApi/Repositories/UserRepository.cs:23 | lower-casing neither creates nor removes outer white space, in both directions |
| `Linq.FirstOrDefault` | LibraryWebApi/Repositories/UserRepository.cs:23 | returns null exactly when no element satisfies the predicate; otherwise an element that satisfies it with none satisfying it earlier |
| `Linq.FirstOrDefaultIsFirst` | LibraryWebApi/Repositories/UserRepository.cs:23 | any satisfying element with no satisfying element before it is the one returned |
| `Linq.FirstOrDefaultAppend` | LibraryWebApi/Repositories/UserRepository.cs:31 | searching a + b finds a's first match when a has one, otherwise b's first match |
| `Models.FindFirstValue` | LibraryWebApi/Controllers/LoginController.cs:43 | null exactly when no claim has the type; otherwise the value of the first claim of that type |
| `Models.FindFirstValueAt` | LibraryWebApi/Controllers/LoginController.cs:43 | a claim of the type with none of that type before it is the one whose value is returned |
| `Repositories.LoginMatches` | LibraryWebApi/Repositories/UserRepository.cs:23 | the Authenticate filter: the stored username lower-cased equals the supplied username lower-cased then trimmed, and the passwords are equal |
| `Repositories.NormalForm` | LibraryWebApi/Repositories/UserRepository.cs:38-39 | the trimmed, lower-cased form both sides of the RegistrationCheck filter are compared by |
| `Repositories.RegistrationClash` | LibraryWebApi/Repositories/UserRepository.cs:38-39 | the RegistrationCheck filter: same normal form of the username, or same normal form of the email |
| `Repositories.UniqueAccounts` | LibraryWebApi/Repositories/UserRepository.cs:36-45 | the invariant RegistrationCheck protects: no two stored accounts clash |
| `Repositories.MatchedUsernameIsTrimmed` | LibraryWebApi/Repositories/UserRepository.cs:23 | a stored account that matches any login has no white space at either end of its username |
| `Repositories.AnyCaseAnyPadding` | LibraryWebApi/Repositories/UserRepository.cs:23 | a stored name without outer white space is matched by that name in any letter case with any white-space padding, given the exact password |
| `Repositories.UniqueStoreMatchesOnce` | LibraryWebApi/Repositories/UserRepository.cs:23 | in a store with no duplicate normalised usernames or emails, at most one account matches a login |
| `Repositories.RegistrationKeepsUnique` | LibraryWebApi/Repositories/UserRepository.cs:36-45 | appending a candidate to a duplicate-free store keeps it duplicate-free exactly when no stored account clashes with the candidate |
| `Repositories.AppendNonClashing` | LibraryWebApi/Repositories/UserRepository.cs:29-34 | appending a candidate that clashes with no stored account keeps a duplicate-free store duplicate-free |
| `Repositories.UserRepository.constructor` | LibraryWebApi/Repositories/UserRepository.cs:15-19 | the repository starts with the database's accounts and the given configuration |
| `Repositories.UserRepository.Authenticate` | LibraryWebApi/Repositories/UserRepository.cs:21-28 | null exactly when no stored account matches; otherwise a stored account that matches, with no matching account before it in store order |
| `Repositories.UserRepository.RegistrationCheck` | LibraryWebApi/Repositories/UserRepository.cs:36-45 | true exactly when some stored account has the candidate's trimmed, lower-cased username or email |
| `Repositories.UserRepository.Registration` | LibraryWebApi/Repositories/UserRepository.cs:29-34 | the store becomes the old store plus the account at the end and the account is returned. A store that was duplicate-free and passed the check stays duplicate-free. Every login that succeeded before still finds the same account |
| `Repositories.UserRepository.IssuedToken` | LibraryWebApi/Repositories/UserRepository.cs:53-64 | issuer and audience come from configuration. There are three claims, from which the name identifier, email and role read back as the account's username, email and role. The claim types come in the order name identifier, email, role. Expiry is 15 minutes after issuance |
| `Repositories.UserRepository.Generate` | LibraryWebApi/Repositories/UserRepository.cs:48-67 | the token string is the configured key's signature over the issued token |
| `Repositories.IssuedTokenDeterminesIdentity` | LibraryWebApi/Repositories/UserRepository.cs:53-64 | two issued tokens are equal exactly when the username, email, role and issuance time agree, so the password never enters a token |
| `Repositories.AuthenticateInUniqueStore` | LibraryWebApi/Repositories/UserRepository.cs:23-26 | in a duplicate-free store, any account that matches a login is the one Authenticate returns |
| `Repositories.PaddedMixedCaseLogin` | LibraryWebApi/Repositories/UserRepository.cs:23 | the login "TestUser " with the right password finds the stored "testuser" |
| `Repositories.DuplicateNameInOtherCase` | LibraryWebApi/Repositories/UserRepository.cs:38-39 | registering "alice" while "ALICE" is stored is reported as a duplicate |
| `Repositories.AliceNormalForm` | LibraryWebApi/Repositories/UserRepository.cs:38 | "ALICE" and "alice" have the same trimmed, lower-cased form |
| `LoginController.Login` | LibraryWebApi/Controllers/LoginController.cs:23-37 | no body gives BadRequest("No data provided"). A failed authentication gives NotFound("User not found"). A found account gives Ok with the token generated for that account |
| `LoginController.GetRole` | LibraryWebApi/Controllers/LoginController.cs:41-51 | Ok exactly when a principal with a role claim is present, carrying the first role claim's value. Otherwise NotFound with the expired-or-invalid-token message |
| `LoginController.LoginOkIffAccountMatches` | LibraryWebApi/Controllers/LoginController.cs:28-36 | Login answers Ok exactly when some stored account matches the credentials |
| `LoginController.LoginTokenBelongsToUser` | LibraryWebApi/Controllers/LoginController.cs:30-34 | an Ok token is the key's signature over the token issued to the first matching stored account, whose role claim is that account's role |
| `LoginController.LoginFailuresSkipLaterSteps` | LibraryWebApi/Controllers/LoginController.cs:25-36 | the no-body answer does not depend on the store, and a failed login's answer does not depend on the time or the signer: Authenticate and Generate are not reached |
| `LoginController.IssuedRoleIsReported` | LibraryWebApi/Controllers/LoginController.cs:43-47 | a principal carrying an issued token's claims, after claims of other types, has the issued account's role reported by GetRole |
| `LoginController.LoginScenarios` | LibraryWebApi.Tests/LoginControllerTest.cs:38-75 | no body is a bad request, a wrong password is not found, and correct credentials get the stored account's token |
| `LoginController.GetRoleScenarios` | LibraryWebApi.Tests/LoginControllerTest.cs:79-110 | no principal is not found; a principal with the role claim "testRole" gets Ok("testRole") |

## Left out

- Signing and serialisation are the parameter `sign`. This covers the symmetric key built from the UTF-8 bytes of Jwt:Key, HMAC-SHA256 (section 3.2 of RFC 7518), the JWS compact serialisation (RFC 7515) and the claim-type names the token handler writes. Their properties are not modelled.
- Token verification happens in framework middleware that is not part of this model. GetRole receives the principal the middleware produced: `None` for no principal, otherwise its claims in order.
- Persistence: the EF Core context, `AddAsync` and `SaveChangesAsync` are replaced by the in-memory `users` sequence. `Task`/`await` become synchronous calls. The store-assigned identifier of a new account, and failures of the database, are not modelled.
- Database query semantics: both queries run on the database (`db.Users.FirstOrDefault`), where `ToLower()` becomes the database's lower-case function, `==` compares under the database's collation, and the row returned by an unordered first-row query is not defined. The model assumes ordinal, case-sensitive equality and a fixed store order. Under a case-insensitive or padding-insensitive collation, a password differing only in case, or a stored name with trailing spaces, would match where the model says it does not.
- Concurrency: two registrations interleaving between `RegistrationCheck` and `Registration` are not modelled; the calls are sequential.
- `DateTime.Now` is the parameter `now`, in seconds. The overflow that `AddMinutes` raises near `DateTime.MaxValue`, and local-time versus UTC conversion, are not modelled.
- Configuration (`IConfiguration`) is a record of three strings. A missing Jwt:Key, which makes the library throw, is not modelled.
- `Text.ToLower` folds only ASCII letters, and `Text.Trim` removes only ASCII white space (space and U+0009 to U+000D). .NET's culture-sensitive `ToLower` and its Unicode white-space set are wider.
- Null strings inside a `User` or `UserLogin` are not modelled. In the source, a null name or email makes the query fail. A null Email or Role also makes `new Claim(...)` throw inside `Generate` (LibraryWebApi/Repositories/UserRepository.cs:56-57). A null `UserLogin` is modelled, as `None`.
- Claim types are a small datatype. The case-insensitive comparison of claim-type URIs that `FindFirst` performs, and a principal's split into several identities, are not modelled.
- ASP.NET routing, the `[AllowAnonymous]`/`[HttpPost]` attributes and the `IActionResult` classes are reduced to the `ActionResult` shape.
- The user, books and authors controllers, and the generic repository they use, are not part of this model.
