# Motivation quotes backend — domain model in Dafny

This project models the domain layer of a small quotes REST API with user
accounts and per-user favorites:

- **User service** (`services/userService.js`): a state of users (ObjectId →
  email, password hash, name, timestamps) and favorites ((user, quote,
  addedAt) rows), with register, login, read, update, delete (cascading to
  the user's favorites), add/remove/list/check favorite. Each mutating call
  (register, update, delete, add and remove favorite) is a pure transition
  `Step(state, result)`; the reads (login, read, list and check favorite)
  return their result alone. A result is the returned value or the message
  of the thrown error. The invariant `UserModel.Valid` is what the
  unique indexes on `email` and `(userId, quoteId)` and the service's own
  lowercasing keep true: stored emails are pairwise distinct (the index) and
  lowercase (`toLowerCase` on every write), and there is at most one row per
  (user, quote) pair (the index).
- **Quote catalog** (`services/quoteService.js`): the `quotes` collection as
  a sequence in natural order, the seed-if-empty bootstrap with its five
  fixed quotes, lookup of all quotes, by numeric id (through JavaScript's
  `parseInt`), by lowercased category, and a random sample.
- **Bearer-token gate** (`middleware/auth.js`): extraction of the token as
  the second space-separated field of the `Authorization` header, the
  mandatory gate (401 / 403 / continue), the optional gate (always
  continues), and token issuing with a seven-day lifetime.

The foreign libraries are oracles, passed in as function-valued fields:
`validator.isEmail`, `ObjectId.isValid` with `new ObjectId` (one partial
parse), `bcrypt.hash`/`bcrypt.compare` (assumed only to satisfy
`compare(p, hash(p, 12, salt))`, `UserModel.HashSound`) and the token
library's `sign`/`verify` (assumed to produce signed tokens that are
non-empty and contain no space, as the compact token form guarantees, and
to return exactly the signed claims before expiry and nothing at or after
it, `Auth.JwtSound`). The clock, the
bcrypt salt, the ObjectId the driver generates for a new user and the
sampler's choice are parameters.

Files: `results.dfy` (Option/Result), `js_strings.dfy` (truthiness,
`toLowerCase`, `trim`, `split`), `js_parse_int.dfy` (`parseInt`),
`auth.dfy`, `user_model.dfy` (state, oracles, invariant), `user_service.dfy`
(account operations), `favorites.dfy` (favorites ledger),
`quote_service.dfy`, `scenario.dfy` (the session the test client drives).

Behaviours of the code worth knowing, each proved:

- `updateUser` runs its email checks before the existence check, so a taken
  email is reported even for an id that matches no user.
- `deleteUser` deletes the favorites before it finds out the user does not
  exist, so that deletion persists on the "User not found" path.
- `addToFavorites` checks only the syntax of the ids, so a still-valid token
  of a deleted account can create favorites with no owner
  (`Favorites.AddAfterDeleteLeavesOrphan`).
- A name of only white space is present for `!name` and is stored as the
  empty string (`UserService.RegisterBlankNameStoresEmpty`).
- `isFavorite` answers a plain `false` for a malformed id, not an object with
  an `isFavorite` field (`Favorites.FavoriteCheck.PlainFalse`).

## Model

| member | source | states |
|---|---|---|
| UserService.RegisterUser | services/userService.js:24-70 | the four checks in their fixed order, each message exactly when the earlier checks pass and it fails; on success one new record under the new id with lowercased email, trimmed name, salted hash of the password, both timestamps the call's one clock reading, every other record and all favorites unchanged; the returned view carries no password; a failure leaves the state unchanged |
| UserService.LoginUser | services/userService.js:73-96 | missing fields give "Email and password are required"; otherwise the call succeeds exactly when some user has the lowercased email and the password compares equal to its hash, and every failure is "Invalid email or password"; success returns that user without the password |
| UserService.GetUserById | services/userService.js:99-114 | malformed id gives "Invalid user ID", an unknown id "User not found", otherwise the stored user without the password |
| UserService.UpdateUser | services/userService.js:117-160 | error order: invalid id, invalid email, email owned by a different user, no such user; on success only that user's name (trimmed, when given), email (lowercased, when given) and updatedAt change |
| UserService.DeleteUser | services/userService.js:163-182 | for a well-formed id, afterwards no favorite of the user remains, all other favorites remain and the user is gone; the result is "User not found" exactly when the user did not exist, even though the favorites were deleted |
| UserService.RegisterPreservesValid | services/userService.js:40-57 | registration keeps emails lowercase and unique |
| UserService.UpdatePreservesValid | services/userService.js:129-150 | an update keeps emails lowercase and unique |
| UserService.DeletePreservesValid | services/userService.js:168-176 | a delete keeps the invariant |
| UserService.RegisterSameEmailTwiceConflicts | services/userService.js:40-44 | registering the same address again, in any letter case, fails with "User with this email already exists" and leaves the state as it was |
| UserService.RegisterBlankNameStoresEmpty | services/userService.js:28-54 | a white-space-only name is accepted and stored as the empty string |
| UserService.RegisterThenLogin | services/userService.js:46-95 | with a sound hasher, logging in with the registered address in any letter case and the registered password returns exactly the registered user |
| UserService.LoginFailuresIndistinguishable | services/userService.js:79-88 | an unknown address and a wrong password give the identical error |
| UserService.UpdateOwnEmailAllowed | services/userService.js:134-144 | re-submitting one's own email, in any case, succeeds and changes only updatedAt |
| UserService.DeleteThenGone | services/userService.js:168-176 | after a delete the user reads as "User not found" and owns no favorites |
| UserService.RenameOnly | services/userService.js:123-158 | renaming an existing user with an already-trimmed name succeeds and changes only that user's name and update time; favorites stay |
| UserService.DeleteExisting | services/userService.js:163-181 | deleting an existing user succeeds with "User deleted successfully", removes exactly that user, and leaves it unreadable and without favorites |
| UserService.DeleteMissingUserStillClearsFavorites | services/userService.js:168-176 | deleting an absent user fails with "User not found" but still removes favorites under its id |
| UserModel.Valid | services/userService.js:18-20 | the body is the reference definition of what the two unique indexes and the service's lowercasing keep true (stored emails pairwise distinct by the index and lowercase by `toLowerCase` on every write, one row per user and quote by the index); RegisterPreservesValid, UpdatePreservesValid, DeletePreservesValid, AddPreservesValid and RemovePreservesValid show every operation keeps it |
| UserModel.ValidEmailsDistinctUpToCase | services/userService.js:19 | under the invariant no two users have emails equal up to case |
| Favorites.AddToFavorites | services/userService.js:185-211 | malformed ids give their messages; an existing pair gives "Quote is already in favorites" with the state unchanged; otherwise exactly the new row is added and users are untouched |
| Favorites.RemoveFromFavorites | services/userService.js:214-236 | malformed ids give their messages; an absent pair gives "Quote not found in favorites"; otherwise exactly the pair's rows go and every other row stays |
| Favorites.IsFavorite | services/userService.js:256-270 | a malformed id gives the plain false; otherwise an answer that is true exactly when the pair exists |
| Favorites.GetFavorites | services/userService.js:239-253 | malformed id gives "Invalid user ID"; otherwise exactly the user's rows, each once, newest first |
| Favorites.AddPreservesValid | services/userService.js:194-210 | adding keeps at most one row per pair |
| Favorites.RemovePreservesValid | services/userService.js:223-226 | removing keeps at most one row per pair |
| Favorites.RemoveDeletesOneRow | services/userService.js:223-230 | under the pair invariant a successful remove deletes exactly one row |
| Favorites.AddTwiceConflicts | services/userService.js:194-210 | a second add of the same pair fails with "Quote is already in favorites" and changes nothing |
| Favorites.AddThenRemoveRestores | services/userService.js:194-236 | removing a just-added pair restores the original state |
| Favorites.CheckAcrossAddAndRemove | services/userService.js:256-269 | the check reads false, then true after add, then false after remove |
| Favorites.OtherPairsUnaffected | services/userService.js:194-230 | add and remove do not change the check of any other pair |
| Favorites.AddAfterDeleteLeavesOrphan | services/userService.js:185-199 | adding for an id with no user succeeds and leaves a favorite without a user |
| QuoteService.InitializeSampleData | services/quoteService.js:24-79 | a non-empty collection is unchanged; an empty one gets the five quotes of `SampleQuotes` (the literals at services/quoteService.js:29-70) with ids 1 to 5 and lowercase categories, both `createdAt` and `updatedAt` stamped now |
| QuoteService.SeedIdempotent | services/quoteService.js:26-28 | seeding twice gives what seeding once gives |
| QuoteService.SampleQuotesWellFormed | services/quoteService.js:29-70 | the seeded ids are 1 to 5 and distinct, and every seeded category is lowercase |
| QuoteService.SampleQuoteFoundByCategory | services/quoteService.js:29-70 | in a freshly seeded collection, a category lookup with any seeded quote's category finds that quote |
| QuoteService.GetAllQuotes | services/quoteService.js:82-94 | count equals the number of returned quotes, which are the whole collection |
| QuoteService.GetRandomQuote | services/quoteService.js:96-117 | an empty collection fails with "No quotes found in database"; a non-empty one always succeeds, with an element of the collection |
| QuoteService.RandomQuoteCanBeAny | services/quoteService.js:99-111 | every quote of the collection is a possible sample |
| QuoteService.FindById | services/quoteService.js:121 | the first quote in natural order with the id, and none exactly when no quote has it |
| QuoteService.GetQuoteById | services/quoteService.js:119-135 | succeeds with the first stored quote, in natural order, whose id is the parsed argument; fails with "Quote not found" exactly when the argument does not parse or no quote has that id |
| QuoteService.QuoteByParsedId | services/quoteService.js:121-125 | any text that parses to a stored quote's id finds a quote with that id |
| QuoteService.QuoteByDecimalId | services/quoteService.js:121-125 | the decimal text of a stored quote's id finds a quote with that id |
| QuoteService.FilterCategory | services/quoteService.js:139-141 | keeps each quote of the category with its multiplicity and drops every other |
| QuoteService.GetQuotesByCategory | services/quoteService.js:137-156 | fails with "No quotes found for this category" exactly when no stored category equals the lowercased argument; otherwise returns exactly the matching quotes with their multiplicities and count equal to their number |
| QuoteService.CategoryCaseInsensitive | services/quoteService.js:139-141 | arguments equal up to case give the same answer |
| QuoteService.UppercaseCategoryUnreachable | services/quoteService.js:139-141 | a stored category with a capital letter is never found |
| JsParseInt.ParseIntDecimalRoundTrip | services/quoteService.js:121 | parseInt of the decimal text of n is n |
| JsParseInt.ParseIntDecimalPrefix | services/quoteService.js:121 | trailing text after the digits is ignored unless it starts with a digit or an x |
| JsParseInt.ParseIntNegativeRoundTrip | services/quoteService.js:121 | a leading minus negates |
| JsParseInt.ParseInt | services/quoteService.js:121 | a number comes only from text holding a decimal digit; the body is the reference definition of `parseInt` without a radix (white space, sign, "0x" prefix, longest digit run), characterised by ParseIntDecimalRoundTrip, ParseIntDecimalPrefix, ParseIntNegativeRoundTrip and ParseIntNaN |
| JsParseInt.ParseIntNaN | services/quoteService.js:121 | text without a decimal digit, whatever letters, signs or white space it holds, parses to NaN |
| JsStrings.Lower | services/userService.js:52 | same length, each ASCII capital mapped to its small letter, other characters kept |
| JsStrings.LowerIdempotent | services/userService.js:52 | lowercasing twice is lowercasing once, and lowercase text is fixed |
| JsStrings.LowerEqualIffSameUpToCase | services/quoteService.js:140 | two strings lowercase to the same text exactly when they agree up to case |
| JsStrings.Trim | services/userService.js:54 | the result neither begins nor ends with white space and is a slice of the input with only white space cut off |
| JsStrings.TrimIdempotent | services/userService.js:126 | trimming twice is trimming once |
| JsStrings.Split | middleware/auth.js:8 | joining the pieces with the separator gives back the input, and no piece contains the separator |
| Auth.JwtSecret | middleware/auth.js:3 | a non-empty configured secret is used, otherwise the fixed fallback |
| Auth.GeneratedTokenVerifies | middleware/auth.js:47-53 | a generated token is compact and verifies to its userId and email for seven days, and not afterwards |
| Auth.ExtractToken | middleware/auth.js:7-8 | a token is found only in a non-empty header and is itself non-empty and free of spaces; the body is the reference definition (second field of `split(' ')`), characterised by ExtractAfterScheme, ExtractedTokenPosition, NoSpaceNoToken and EmptySecondFieldNoToken |
| Auth.GenerateToken | middleware/auth.js:47-53 | the body is the reference definition (sign `{userId, email}` with the secret for seven days from now); GeneratedTokenVerifies and IssuedTokenPassesGate state what the token does |
| Auth.ExtractAfterScheme | middleware/auth.js:7-8 | any space-free scheme word, one space and a token yields the token |
| Auth.ExtractedTokenPosition | middleware/auth.js:7-8 | an extracted token is the non-empty text between the first space and the next space or the end |
| Auth.NoSpaceNoToken | middleware/auth.js:7-15 | a missing, empty or space-free header carries no token |
| Auth.EmptySecondFieldNoToken | middleware/auth.js:7-15 | an empty second field carries no token |
| Auth.AuthenticateToken | middleware/auth.js:6-27 | no token gives 401 "Access token required", a token that does not verify gives 403 "Invalid or expired token", neither calls next; a verifying token attaches its claims and calls next exactly once |
| Auth.OptionalAuth | middleware/auth.js:30-44 | never responds, calls next exactly once, and attaches claims exactly when a token is present and verifies |
| Auth.OptionalAgreesWithMandatory | middleware/auth.js:6-44 | both gates attach the same identity, and agree completely whenever the mandatory one lets the request through |
| Auth.IssuedTokenPassesGate | middleware/auth.js:17-53 | a generated token in the header passes the mandatory gate with its claims for seven days and draws 403 after |
| Scenario.ExampleCredentials | test-auth.js:6-84 | the test client's email, password, name and new name have the shape the session needs, with the login address as registered (as the client sends it) and, as a generalisation, in capitals |
| Scenario.SessionRegister | test-auth.js:18-33 | registration succeeds, keeps the invariant, and login with the address in any letter case (the client's own login is the case where it is unchanged) returns the same user |
| Scenario.SessionProfile | test-auth.js:35-41 | the issued token reads the profile; no token draws 401 |
| Scenario.SessionFavorite | test-auth.js:52-78 | add succeeds and the listed favorites become the earlier ones plus the new row; a repeated add conflicts; the check reads true; remove succeeds and the check then reads false |
| Scenario.SessionClose | test-auth.js:81-95 | rename then delete succeed and the profile is gone with no favorites |
| Scenario.AccountSession | test-auth.js:14-103 | the account steps of the session chained (register, login with the address in any letter case, profile through the token, favorite add, remove and check, rename, delete), each on the state the previous step left; the quote listing is outside it and the favorites listing is stated in SessionFavorite |

## Left out

- MongoDB I/O, connection set-up (`initialize`), index creation and the race between a pre-check and the insert: the model is sequential, so the unique indexes become the state invariant and the pre-checks.
- `healthCheck` and `getDatabaseStats`: they only report database status and statistics.
- Logging: the `console.log` and `console.error` calls of the quote service (services/quoteService.js:17-19, 73-76, 91, 114, 132, 153) have no effect on results and are not modelled.
- The foreign libraries' internals (token signing, bcrypt, email syntax, ObjectId syntax): oracles, with only the assumptions stated above.
- Wall-clock time, the bcrypt salt, generated ObjectIds and the random sampler: parameters.
- UserService.RegisterUser: reads the clock once per call, so `createdAt == updatedAt`; the source calls `new Date()` separately for each field, and the two readings may differ by a few milliseconds. QuoteService.InitializeSampleData likewise stamps all five seeded quotes with one reading where the source reads the clock ten times.
- UserService.RegisterUser: requires the new id to be absent from the users, the freshness the driver's ObjectId generation provides; a clash on `_id` is not modelled.
- UserService.LoginUser: requires the invariant, so that the lookup by email finds at most one user, as the unique index guarantees.
- JsStrings.Lower: lowercases ASCII letters only; JavaScript's full Unicode case mapping (which can change a string's length) is not modelled.
- Password length counts characters, where JavaScript counts UTF-16 code units.
- JsParseInt: numbers beyond 2^53 lose precision in JavaScript; the model parses to an exact integer.
- Favorites.GetFavorites: the `_id` of each favorite row and of each quote document is not modelled; rows with equal `addedAt` come in an unspecified order.
- Request fields that are not strings (numbers, objects) are not modelled; a field is either a string or absent.
- The HTTP layer (routes, status mapping other than the two gate responses, the readiness flag, port retry) and the unused database template are outside this model.
