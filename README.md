# Login backend: user table, auth controller, role seeder, registration DTO

This project models the core of a NestJS login backend in Dafny and proves
properties of that model.

- **`Users`** (`users_service.dfy`) models `UserService`. The user table is a sequence of records in primary-key order, owned by the class `UserService` together with the next id the database assigns.
  - `create`, `update` and `delete` are methods that change the table.
  - The lookups `findById`, `findByUsername`, `findByEmail` and the listing `findAll` (keyword filter, sort, skip/take page) are pure functions of the table.
  - Every failure is re-thrown as a plain `Error` whose message is the operation's prefix followed by the inner message. The model keeps the message texts exactly, with ids rendered as plain decimal integers.
- **`Auth`** (`auth_controller.dfy`) models the five `AuthController` handlers. The Express response is a class the handlers change in place: status code, body and the `Set-Cookie` instructions.
  - Collaborators whose code is not part of this model enter as their results or as functions: `validateUser`, `generateToken`, the auth service's `getAuthenticatedUser` and `changePassword`, and bcrypt's `compare`.
  - `register` calls the modelled `UserService.Create`.
- **`Seeder`** (`seeder_service.dfy`) models `SeederService.seedRole` and `seed`: a `for` loop over the two default roles that inserts a role only when none with that name exists. The loop is proved against the specification function `SeedAll`, and the lemmas about `SeedAll` give idempotence, append-only growth and coverage.
- **`UserDto`** (`create_user_dto.dfy`) turns the class-validator decorators on `CreateUserDto` into a validity predicate over a raw request body.
- **`Common`** (`common.dfy`) holds the shared pieces:
  - `Option`, `Result` and `Error` (an error kind plus a message);
  - the prefixing re-throw;
  - decimal rendering of ids inside messages;
  - the substring test behind `LIKE '%keyword%'`.

## Model

| member | source | states |
|---|---|---|
| Common.Rewrap | src/modules/users/service/users.service.ts:60-62 | a caught failure becomes a plain `Error` whose message is the prefix followed by the original message; a success passes through unchanged |
| Common.IntToString | src/modules/users/service/users.service.ts:57 | the rendering of an id has a leading minus exactly when the id is negative |
| Common.NatToStringRoundTrip | src/modules/users/service/users.service.ts:57 | the digits interpolated for a non-negative id read back as that id |
| Common.IntToStringInjective | src/modules/users/service/users.service.ts:57 | different ids render as different strings |
| Common.ContainsIffOccurs | src/modules/users/service/users.service.ts:33-36 | the left-to-right keyword scan succeeds exactly when the keyword occurs at some index of the string |
| Common.EmptyKeywordMatchesAll | src/modules/users/service/users.service.ts:20 | the default keyword `''` matches every username and email |
| UserDto.IsNotEmpty | src/modules/users/dto/create-user.dto.ts:11 | `@IsNotEmpty()`: the value is neither `''`, `null` nor `undefined` |
| UserDto.IsString | src/modules/users/dto/create-user.dto.ts:12 | `@IsString()`: the value is a string |
| UserDto.MinLength | src/modules/users/dto/create-user.dto.ts:13 | `@MinLength(n)`: a string of at least `n` characters |
| UserDto.MaxLength | src/modules/users/dto/create-user.dto.ts:14 | `@MaxLength(n)`: a string of at most `n` characters |
| UserDto.IsAbsent | src/modules/users/dto/create-user.dto.ts:17 | `@IsOptional()`: a `null` or `undefined` value, which skips the field's other checks |
| UserDto.IsEmail | src/modules/users/dto/create-user.dto.ts:30 | `@IsEmail()`: a string the abstract email-syntax predicate accepts |
| UserDto.UsernameValid | src/modules/users/dto/create-user.dto.ts:11-15 | a username passes exactly when it is a string of 3 to 30 characters |
| UserDto.OptionalStringValid | src/modules/users/dto/create-user.dto.ts:17-27 | `firstName`, `lastName`, `company` pass exactly when absent (`null`/`undefined`) or a string |
| UserDto.EmailValid | src/modules/users/dto/create-user.dto.ts:29-31 | an email passes exactly when it is a non-empty string accepted by the abstract email-syntax predicate |
| UserDto.PasswordValid | src/modules/users/dto/create-user.dto.ts:33-36 | a password passes exactly when it is a string of at least 6 characters, with no upper bound |
| UserDto.CreateUserInputValid | src/modules/users/dto/create-user.dto.ts:11-36 | a body passes exactly when all six field rules hold |
| UserDto.ToDto | src/modules/users/dto/create-user.dto.ts:11-36 | a valid body becomes a payload that carries each given field unchanged (an optional field is `Some` of the given string, and absent exactly when not given as a string) and keeps the length bounds |
| UserDto.MinLengthImpliesNotEmpty | src/modules/users/dto/create-user.dto.ts:11-15 | a positive minimum length already implies `@IsNotEmpty` and `@IsString` |
| UserDto.RedundantNotEmptyChecks | src/modules/users/dto/create-user.dto.ts:11-36 | username and password validity are unchanged when their `@IsNotEmpty`/`@IsString` are dropped |
| Users.FirstIndex | src/modules/users/service/users.service.ts:52-55 | the index found satisfies the `where` clause and no earlier row does; no index means no row does |
| Users.FindOneOrNotFound | src/modules/users/service/users.service.ts:52-58 | succeeds exactly when some row matches, with a stored matching row; otherwise a NotFound error with the given message |
| Users.FindOneIsFirst | src/modules/users/service/users.service.ts:67 | the row `findOne` returns lies at or before every matching row |
| Users.IdsDetermineRows | src/modules/users/service/users.service.ts:52-55 | in a table in id order, two stored records with the same id are the same record |
| Users.IdNotFound | src/modules/users/service/users.service.ts:57 | the not-found message for an id: "User with ID ", the id in decimal, " not found" |
| Users.FindById | src/modules/users/service/users.service.ts:50-62 | succeeds exactly when a stored record has the id, and then returns that record (the only one in an id-ordered table); otherwise fails with "Error fetching user by ID: User with ID {id} not found" |
| Users.FindByUsername | src/modules/users/service/users.service.ts:65-75 | succeeds exactly when a stored record has the username, returning the first such record; otherwise fails with the wrapped "User with username … not found" |
| Users.FindByEmail | src/modules/users/service/users.service.ts:77-87 | succeeds exactly when a stored record has the email, returning the first such record; otherwise fails with the wrapped "User with email … not found" |
| Users.NotFoundMessageNamesId | src/modules/users/service/users.service.ts:57-61 | two failed id lookups with the same message were for the same id |
| Users.MatchesKeyword | src/modules/users/service/users.service.ts:33-36 | a user matches when the keyword occurs in its username or in its email |
| Users.FilterByKeyword | src/modules/users/service/users.service.ts:31-38 | keeps exactly the stored users whose username or email contains the keyword, each at most as often as stored |
| Users.InsertSorted | src/modules/users/service/users.service.ts:40 | inserting into a sorted listing keeps it sorted and adds exactly that user |
| Users.SortUsers | src/modules/users/service/users.service.ts:40 | the result is ordered by the sort key in the requested direction and is a permutation of the input |
| Users.Page | src/modules/users/service/users.service.ts:41-42 | a page holds `min(take, n - skip)` entries (none past the end), entry `i` being entry `skip + i` |
| Users.Listing | src/modules/users/service/users.service.ts:29-40 | the listing is sorted, holds exactly the stored users matching the keyword, and is a permutation of the filtered rows, so no row appears more often than stored |
| Users.PageOfListing | src/modules/users/service/users.service.ts:41-42 | a page holds only entries of its listing and stays sorted |
| Users.FindAll | src/modules/users/service/users.service.ts:19-48 | fails with "Error fetching users: …" exactly when the offset `(page-1)*take` or `take` is negative; otherwise returns at most `take` users (all of them for `take` 0), sorted, each matching the keyword, entry `i` being entry `(page-1)*take + i` of the listing |
| Users.PagesCoverListing | src/modules/users/service/users.service.ts:27 | with a positive `take`, the `k`-th listed user is entry `k % take` of page `k / take + 1` |
| Users.NewUser | src/modules/users/service/users.service.ts:102 | the new record carries the given id and every payload field, the password as given |
| Users.ApplyPatch | src/modules/users/service/users.service.ts:113 | each supplied field is overwritten (an optional column supplied as `null` is cleared), every other field and the id are kept |
| Users.ApplyPatchLaws | src/modules/users/service/users.service.ts:113 | on a single record, applying a patch twice equals applying it once, and the patch that supplies no field is the identity (the service itself refuses such a patch, see `Users.UserService.Update`) |
| Users.PatchRows | src/modules/users/service/users.service.ts:113 | only the record with the id has its supplied fields overwritten; every other record, the order and the length stay; id order is kept |
| Users.RemoveId | src/modules/users/service/users.service.ts:124 | keeps exactly the records without the id; id order is kept |
| Users.RemoveAbsentId | src/modules/users/service/users.service.ts:120-128 | removing an id no record carries leaves the table as it was |
| Users.RemovePresentId | src/modules/users/service/users.service.ts:124 | in an id-ordered table, removing a stored id removes exactly the record at its index |
| Users.InsertKeepsCredentialsUnique | src/modules/users/service/users.service.ts:91-103 | appending a user whose username and email clash with no stored user keeps usernames and emails unique |
| Users.UpdateCanBreakUniqueness | src/modules/users/service/users.service.ts:109-118 | an update can give one record another record's username: update keeps no uniqueness |
| Users.PatchedRecordIsFound | src/modules/users/service/users.service.ts:113-114 | after the update, re-reading the id yields the patched record |
| Users.PatchKeepsIdsBelow | src/modules/users/service/users.service.ts:113 | an update never changes an id, so every stored id stays below the next id |
| Users.DeleteKeepsTable | src/modules/users/service/users.service.ts:122-124 | deleting a stored id keeps the table id-ordered below the next id and removes exactly that index |
| Users.UserService.Create | src/modules/users/service/users.service.ts:89-107 | a clashing username or email fails with "Error creating user: Username or email already exists" and changes nothing; otherwise exactly one record carrying the payload's fields (the password as given) is appended under the next id and returned; uniqueness of usernames and emails is preserved |
| Users.UserService.Update | src/modules/users/service/users.service.ts:109-118 | an absent id fails with "Error updating user: Error fetching user by ID: …" and changes nothing; a present id with a patch that supplies no field fails with "Error updating user: " and TypeORM's `UpdateValuesMissingError` message, changing nothing; otherwise the present id's record gets its supplied fields overwritten, all else unchanged, and the patched record is returned |
| Users.UserService.Delete | src/modules/users/service/users.service.ts:120-128 | an absent id fails with "Error deleting user: Error fetching user by ID: …" and changes nothing; a present id's record, and only it, is removed |
| Auth.WithoutPassword | src/modules/users/controller/auth.controller.ts:32 | the user sent to the client (the destructuring at line 32, the `delete` at line 59) keeps the id, username, email, names and company |
| Auth.WithoutPasswordDropsOnlyPassword | src/modules/users/controller/auth.controller.ts:32 | two users are sent alike exactly when they differ at most in their password |
| Auth.AsUnauthorized | src/modules/users/controller/auth.controller.ts:36-38 | every caught failure becomes Unauthorized with the same message |
| Auth.Response.Status | src/modules/users/controller/auth.controller.ts:34 | `res.status(code)` sets the status code and nothing else |
| Auth.Response.Send | src/modules/users/controller/auth.controller.ts:35 | `res.send(body)` / `res.json(body)` sets the body and nothing else |
| Auth.Response.Cookie | src/modules/users/controller/auth.controller.ts:54-58 | `response.cookie(name, value, options)` appends one set-cookie instruction and nothing else |
| Auth.Response.ClearCookieNamed | src/modules/users/controller/auth.controller.ts:115 | `res.clearCookie(name)` appends one clear-cookie instruction and nothing else |
| Auth.Register | src/modules/users/controller/auth.controller.ts:26-39 | a new username and email append exactly the new record under the next id (advanced by one) and give 202, "Registration successful" and that record without password; a clash gives Unauthorized "Error creating user: Username or email already exists" with the table, the next id and the response untouched |
| Auth.Login | src/modules/users/controller/auth.controller.ts:41-65 | succeeds exactly when `validateUser` yields a user and a token is signed; then the cookie `token` is set HTTP-only, same-site strict, max-age 7200000 ms, with 202, "Login successful" and the user without password; no user gives Unauthorized "Invalid credentials"; any failure sets no cookie and sends nothing |
| Auth.GetAuthenticatedUserAsWritten | src/modules/users/controller/auth.controller.ts:67-76 | answers with the auth service's record for the token subject unchanged, or Unauthorized with its message |
| Auth.GetAuthenticatedUser | src/modules/users/controller/auth.controller.ts:67-76 | answers with the record for the token subject without its password, or Unauthorized with the lookup's message |
| Auth.AuthenticatedUserExposesPassword | src/modules/users/controller/auth.controller.ts:71-94 | as written, the answer carries the stored hash and differs for users differing only in it; the corrected answer does not |
| Auth.GetAuthenticatedUserHidesPassword | src/modules/users/controller/auth.controller.ts:67-76 | lookups differing only in the password give the same corrected answer |
| Auth.ChangePassword | src/modules/users/controller/auth.controller.ts:78-109 | the password write is requested, for the token subject's id and the new password, exactly when the lookup succeeds and the old password verifies; success (202, "Password changed successfully") exactly when that write also succeeds; a wrong old password gives Unauthorized "Old password is incorrect"; every failure is Unauthorized and sends nothing |
| Auth.Logout | src/modules/users/controller/auth.controller.ts:111-121 | clears cookie `token` and answers 200 "Logged out successfully"; only when clearing throws is 500 "An error occurred while logging out" sent, with no cookie instruction |
| Seeder.FindRoleByName | src/modules/seeders/seeder/seeder.service.ts:26-28 | finds a stored role with the name exactly when one exists |
| Seeder.NewRole | src/modules/seeders/seeder/seeder.service.ts:30-31 | the saved role carries the next id and the seed's name, code and description |
| Seeder.SeedOne | src/modules/seeders/seeder/seeder.service.ts:26-32 | a stored name leaves the table unchanged; otherwise one role with the seed's name, code and description is appended under the next id |
| Seeder.SeedAll | src/modules/seeders/seeder/seeder.service.ts:25-33 | the table after handling the seeds in list order, one `SeedOne` step per seed: the reference the loop is proved against |
| Seeder.SeedAllAppends | src/modules/seeders/seeder/seeder.service.ts:25-33 | seeding only appends (stored roles keep their code and description), adds at most one role per seed, and advances the id by the number added |
| Seeder.SeedAllKeepsNames | src/modules/seeders/seeder/seeder.service.ts:29-32 | a stored name stays stored |
| Seeder.SeedAllCovers | src/modules/seeders/seeder/seeder.service.ts:25-33 | after seeding, every seed's name is stored |
| Seeder.SeedAllNoop | src/modules/seeders/seeder/seeder.service.ts:26-32 | a table already holding every seed's name is left unchanged |
| Seeder.SeedAllIdempotent | src/modules/seeders/seeder/seeder.service.ts:25-33 | seeding a seeded table changes nothing |
| Seeder.SeedAllKeepsNamesUnique | src/modules/seeders/seeder/seeder.service.ts:26-32 | distinct stored names stay distinct |
| Seeder.SeedAllKeepsIdsBelow | src/modules/seeders/seeder/seeder.service.ts:30-31 | seeding keeps every stored id below the next id, so a new role never reuses a stored id |
| Seeder.SeedDefaultsFromEmpty | src/modules/seeders/seeder/seeder.service.ts:20-33 | from an empty table exactly ('Admin', '654NGHE') then ('User', '678AMSX') are stored, under consecutive ids |
| Seeder.SeederService.SeedRole | src/modules/seeders/seeder/seeder.service.ts:19-34 | the loop leaves the table the default seeds specify: old roles kept as a prefix, at most two added, 'Admin' and 'User' present, name uniqueness and ids below the next id preserved |
| Seeder.SeederService.Seed | src/modules/seeders/seeder/seeder.service.ts:12-17 | runs the role seeding, after which 'Admin' and 'User' are stored |

## Left out

- The database is an in-memory sequence in id order, so `findOne` without an ordering returns the first match in id order. New ids are consecutive from `nextId`; an auto-increment counter that skips values is not modelled.
- Users.UserService.Create: fails only on a clashing username or email. Other database failures on `save` are not modelled. The payload is the six DTO fields; other body properties (such as `id` or `role`), which `userRepository.create` would copy unless the validation pipe whitelists, are not modelled, so an `id` that makes `save` overwrite a stored row is out of scope.
- Users.UserService.Update: a present id with a non-empty patch always succeeds. A database failure of `userRepository.update` (for instance a unique-key violation, should the user entity declare such a key) is not modelled. The empty patch fails as TypeORM does for an entity without an update-date or version column; should the user entity declare one, the empty update would succeed instead.
- Users.UserService.Delete: a present id always succeeds. A database failure of `userRepository.delete` is not modelled.
- Users.FindById, Users.FindByUsername, Users.FindByEmail, Seeder.SeederService.SeedRole and Seeder.SeederService.Seed: the in-memory tables never fail. A rejected `findOne` in the service would fail with the operation's prefix and the database's message instead of the not-found message. A rejected `findOne` or `save` in the seeder would stop `seedRole` partway, so 'Admin' and 'User' are stored only after a run that completes.
- Users.FindByUsername, Users.FindByEmail, Users.UserService.Create and Seeder.FindRoleByName compare strings exactly. MySQL's default collations compare them ignoring case (and, depending on the collation, accents or trailing spaces), so in the database "Alice" finds or clashes with "alice"; the model does not capture this.
- The password hashing hooks on the user entity are not modelled, and neither is that entity itself: `user.entity.ts` is not part of this model. `create` stores the password as given.
- The `role` relation is not modelled. This covers the `relations: ['role']` of `findById`, the `leftJoinAndSelect` of `findAll` and its cascade metadata.
- Users.FindAll: the keyword is matched as a plain, case-sensitive substring. `%` and `_` inside the keyword act as wildcards in SQL, and MySQL's default collation ignores case; neither is modelled.
- Users.FindAll: the `sortBy` column is an abstract integer key. An unknown column name interpolated into the query is not modelled. Neither is the database's freedom to order rows with equal keys in any way; the model fixes one order.
- Users.FindAll: a negative offset or limit is rejected with an abstract database message `queryError`. Non-integer or NaN `page` and `take` values are not modelled.
- `UpdateUserDto` is not part of this model. An update is a patch of the six stored fields, with `null` allowed only for the optional `firstName`, `lastName` and `company`; it never changes the id. A `null` username, email or password, which the database would reject, is not modelled.
- The auth service (`validateUser`, `generateToken`, `getAuthenticatedUser`, `changePassword`), bcrypt's `compare` and the `AuthGuard` that verifies the JSON Web Token (RFC 7519) are not part of this model. They enter the handlers as their results or as functions. The token subject `sub` is an integer.
- Auth.Login: `delete user.password` mutates the object the auth service returned. The model sends a password-free copy and does not model that mutation.
- Auth.Logout: clearing the cookie is the only step modelled as able to throw, through the parameter `clearCookieThrows`. A throw inside the 200 answer is not modelled.
- The asynchronous execution is not modelled: every handler runs to completion. The check-then-insert race between concurrent registrations is out of scope for this sequential model.
- The `console.log` in `seed` is not modelled.
- UserDto.UsernameValid and UserDto.PasswordValid count every Dafny character. validator.js's `isLength`, behind `@MinLength`/`@MaxLength`, counts a surrogate pair once (as a Dafny character does) but does not count the variation selectors U+FE0E and U+FE0F, which the model counts; JavaScript's unpaired surrogates have no Dafny counterpart.
- The email-syntax rule of `@IsEmail` is an abstract predicate.
- Common.IntToString: renders every id in plain decimal. JavaScript's `${id}` differs for numbers from 1e21 upward ("1e+21"), for -0 ("0") and for fractions; ids are integers here, and those renderings are not modelled.

## Findings

| source | as written | input that shows it | evidently intended | confidence | as-written member | corrected member |
|---|---|---|---|---|---|---|
| src/modules/users/controller/auth.controller.ts:67-76 | `GET auth/authenticated-user` answers with the auth service's record unchanged. `changePassword` (lines 88-94) compares against `.password` of that same lookup, so the record carries the stored bcrypt hash, and the answer sends it to the client | any signed-in user whose stored hash is `h`: the body contains `h` (`Auth.AuthenticatedUserExposesPassword`) | answer without `password`, as register (line 32) and login (line 59) do | medium: the auth service is not part of this model, and if it removed the hash then `changePassword` would compare against `undefined` and fail for every user; not executed | Auth.GetAuthenticatedUserAsWritten | Auth.GetAuthenticatedUser |
