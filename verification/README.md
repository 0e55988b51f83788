# Users service core: keyset pagination, policies, guards, passwords, accounts

This project is a Dafny model of the decision logic of a NestJS/TypeORM GraphQL backend for
user accounts. It covers four parts. Each part is modelled with immutable datatypes and pure
functions, and the project proves properties about them.

- **Keyset pagination** (`src/common/pagination/pagination.service.ts`)
  - A cursor is the text `cursor:<id>` in standard base64 (section 4 of RFC 4648). Decoding
    reads the id back with JavaScript's lenient `parseInt`.
  - `paginate` works as follows:
    - it rejects conflicting arguments;
    - it bounds the ids by the `after`/`before` cursors;
    - it orders by id, alone or as a tie-break after a primary column;
    - it fetches one row beyond the limit, drops it, and turns a backward page around;
    - it builds the edges, the page info and the total count.
  - The table is a sequence of rows with distinct positive ids. The query's WHERE clause is an
    optional predicate and its ORDER BY an optional ranked primary column.
- **Authorization**
  - A registry from entity names to policies. Evaluation denies by default: an entity with no
    registered policy is refused with its own message.
  - The five rules of the User policy.
  - The policy guard, which turns a handler's `{action, entity}` configuration into an allow,
    a refusal, or a Forbidden error.
  - The role guard, which checks a user's role against the required roles.
  - Ids are tagged JavaScript values (`Num`, `Str`, `Undefined`), so the policies' `===`
    comparisons behave as they do at run time.
- **Password validators**
  - The strong-password check: at least 8 UTF-16 code units, and one each of an ASCII
    lowercase letter, an ASCII uppercase letter, an ASCII digit and a listed symbol.
  - The confirmation-match check.
- **User store and account lifecycle** (`src/users/users.service.ts`, `src/auth/auth.service.ts`)
  - The store is a `map<int, User>` with a next-id counter. Its invariant: ids are positive,
    below the counter and match their key, and no two users share an email.
  - Creation, lookup, both forms of update, deletion, login gating, registration, and the
    reset-token and verification-token flows are functions from one store to the next.
  - Password hashing and comparison, token generation and the clock are parameters: a hashed
    text, a `check` predicate, a token string and `now` in milliseconds.

Evaluation never changes the policy registry: `Policies.Evaluate` returns only a result, and
registries change only through `RegisterPolicy` and `AutoRegisterPolicy`.

Two behaviours of the original are reproduced rather than corrected, and both are proved:

- An administrator passes the policy guard when deleting their own account. `userDestroy`
  takes its id inside `input`, so the guard's resource id is `undefined`.
- A non-administrator's `user(id)` request never counts as their own record. The argument is
  a string and the actor's id is a number, so `===` never holds.

With an email sort, a backward page keeps the email direction and flips only the id
tie-break. The page is turned around after the fetch. So a backward page over ascending emails
comes out in descending email order (`PaginationProps.BackwardPrimaryOrderDescends`). Page
continuity is proved only for queries without a primary order.

Modules, one per file:

| file | module |
|---|---|
| `wrappers.dfy` | `Option` and `Result` |
| `js_text.dfy` | `parseInt`, number-to-string, UTF-16 length |
| `base64.dfy` | base64 encode and decode |
| `cursor.dfy` | cursor codec |
| `sorting.dfy` | ORDER BY as a sort on a two-part key |
| `pagination.dfy` | argument validation and `paginate` |
| `pagination_props.dfy` | properties relating several pages |
| `exceptions.dfy` | HTTP exception kinds |
| `user_entity.dfy` | the `User` record |
| `policies.dfy` | the policy registry |
| `user_policy.dfy` | the User policy rules |
| `policy_guard.dfy` | the policy guard |
| `user_roles_guard.dfy` | the role guard |
| `password.dfy` | the password validators |
| `users.dfy` | the user store |
| `auth.dfy` | the account lifecycle |
| `users_listing.dfy` | the user listing query |

## Model

| member | source | states |
|---|---|---|
| JsText.Utf16Length | src/common/validators/password.validator.ts:14 | A password's `length` is its character count plus the number of positions holding a character outside the Basic Multilingual Plane, so each such character counts exactly twice. It lies between the character count and twice that, and equals the character count iff every character is in that plane. |
| JsText.ParseIntNumberToString | src/common/pagination/pagination.service.ts:27-42 | `parseInt` reads back exactly the integer that a template literal writes, negatives included. |
| JsText.ParseIntIgnoresTrailingText | src/common/pagination/pagination.service.ts:42 | `parseInt` stops at the first non-digit, so text after a run of digits is ignored. |
| JsText.ParseIntSkipsWhiteSpace | src/common/pagination/pagination.service.ts:42 | Leading JavaScript white space never changes what `parseInt` reads. |
| Base64.Encode | src/common/pagination/pagination.service.ts:27 | A base64 text is 4 characters for every started group of 3 bytes. |
| Base64.DecodeEncode | src/common/pagination/pagination.service.ts:27-36 | Decoding the base64 text of any bytes gives those bytes back. |
| Base64.EncodeDecode | src/common/pagination/pagination.service.ts:36 | Any text that decodes is the encoding of what it decodes to, so decoding accepts only canonical texts. |
| Base64.EncodeInjective | src/common/pagination/pagination.service.ts:27 | Distinct byte sequences have distinct base64 texts. |
| Cursor.EncodeCursor | src/common/pagination/pagination.service.ts:26-28 | A cursor is never empty, so a cursor handed back as `after` or `before` is always truthy. |
| Cursor.DecodeCursor | src/common/pagination/pagination.service.ts:30-50 | A decoded id is positive. The empty cursor, and only it, fails with 'Cursor cannot be empty'. Every other failure reports 'Invalid cursor: ' followed by the cursor. |
| Cursor.DecodeEncodeCursor | src/common/pagination/pagination.service.ts:26-46 | Every positive id survives the round trip through its cursor. |
| Cursor.DecodeEncodeNonPositive | src/common/pagination/pagination.service.ts:43-48 | The cursor of an id that is zero or negative is refused as invalid. |
| Cursor.DecodeCursorOfText | src/common/pagination/pagination.service.ts:36-46 | A cursor decodes iff its text starts with `cursor:` and `parseInt` reads the remainder as a positive number. |
| Cursor.DecodeCursorNotInjective | src/common/pagination/pagination.service.ts:41-46 | The cursor of `cursor:<id>` followed by text that does not start with a digit is a different cursor that decodes to the same id. |
| Sorting.Sort | src/common/pagination/pagination.service.ts:91-104 | Sorting by distinct keys yields a permutation of the input in strictly ascending key order. |
| Sorting.StrictlySortedUnique | src/common/pagination/pagination.service.ts:91-104 | Two strictly sorted sequences with the same elements are equal, so the order with the id tie-break is total. |
| Pagination.ValidatePaginationArgs | src/common/pagination/pagination.service.ts:52-60 | Truthy `first` with truthy `last` is refused first. Otherwise truthy `after` with truthy `before` is refused. Validation passes iff neither pair is given. Zero and the empty text count as absent. |
| Pagination.PlanQuery | src/common/pagination/pagination.service.ts:68-87 | A validation error stops the query before it is built. The limit is `first`, else `last`, else 10. The direction is forward iff `first` is truthy or neither `last` nor `before` is. An id bound exists iff its cursor is truthy and is that cursor's decoded id. A bad cursor fails. |
| Pagination.Candidates | src/common/pagination/pagination.service.ts:78-87 | The rows the query admits: table rows passing the WHERE clause with ids above `after` and below `before`. |
| Pagination.Filtered | src/common/pagination/pagination.service.ts:121-125 | The count query: every row that passes the filter conditions appears as often as in the table, and every other row not at all. With no conditions that is the whole table. |
| Pagination.Ordered | src/common/pagination/pagination.service.ts:89-104 | The admitted rows, each once, strictly ordered by the primary column and then by id, ascending forward and descending backward. |
| Pagination.Take | src/common/pagination/pagination.service.ts:107 | `take(n)` keeps a prefix of length n, or the whole sequence when it is shorter. |
| Pagination.Reverse | src/common/pagination/pagination.service.ts:116-118 | The reversal holds the same elements in opposite positions. |
| Pagination.EdgesOf | src/common/pagination/pagination.service.ts:127-131 | There is one edge per node, in node order, each carrying that node and the cursor of its id. |
| Pagination.Assemble | src/common/pagination/pagination.service.ts:127-146 | `startCursor` and `endCursor` are the first and last edge cursors, and both are absent iff there are no edges. `hasNextPage` is the lookahead flag going forward and the truthiness of `after` going backward. `hasPreviousPage` is the mirror image. |
| Pagination.FetchPage | src/common/pagination/pagination.service.ts:106-118 | The page holds at most `limit` admitted rows. It is a full page unless fewer rows are admitted, and ascending by id without a primary order. The lookahead flag holds iff more than `limit` rows are admitted. |
| Pagination.Paginate | src/common/pagination/pagination.service.ts:62-147 | It fails iff argument validation or a cursor fails, with that error. Otherwise it meets the page contract, and `totalCount` is the size of the filtered table whatever the page arguments. |
| PaginationProps.OrderedIgnoresLimit | src/common/pagination/pagination.service.ts:78-107 | The ordered rows of the windowed query depend on the bounds and the direction, not on the limit. |
| PaginationProps.PageNodes | src/common/pagination/pagination.service.ts:106-118 | The nodes are the first `limit` ordered rows, reversed for a backward page. |
| PaginationProps.ForwardPlan | src/common/pagination/pagination.service.ts:71-72 | `first: n` gives a forward plan with limit n and no upper bound. Changing n changes only the limit. |
| PaginationProps.PlanAfterCursor | src/common/pagination/pagination.service.ts:78-80 | `after` set to the cursor of a row bounds the next query strictly above that row's id. |
| PaginationProps.PageAfterRow | src/common/pagination/pagination.service.ts:78-107 | The page after a row's cursor is the first m ordered rows whose id is above that row's. |
| PaginationProps.EndCursorOfLastNode | src/common/pagination/pagination.service.ts:134-136 | `endCursor` is absent iff the page is empty, and otherwise is the cursor of the last node. |
| PaginationProps.NextPageContinues | src/common/pagination/pagination.service.ts:78-136 | Following the end cursor of a page holding the first n rows yields the next m rows, with no gap and no repeat. |
| PaginationProps.ForwardPagesChain | src/common/pagination/pagination.service.ts:78-136 | Without a primary order, a page of n rows followed by the page after its end cursor with m rows equals one page of n+m rows. An empty first page means there is nothing further. |
| PaginationProps.ReversedDescendingIsAscending | src/common/pagination/pagination.service.ts:91-118 | Without a primary order, the descending backward query turned around is the ascending forward query with the same bounds. |
| PaginationProps.BackwardPageIsTail | src/common/pagination/pagination.service.ts:91-118 | Without a primary order, a backward page is ascending by id and is the tail of the ascending query: its last `limit` rows, or all of them. |
| PaginationProps.EdgeCursorsDecode | src/common/pagination/pagination.service.ts:127-131 | Every edge cursor decodes to the id of its node. |
| PaginationProps.BackwardPrimaryOrderDescends | src/common/pagination/pagination.service.ts:98-118 | With an ascending primary column, a backward page comes out in non-increasing column order. |
| PaginationProps.TotalCountIgnoresPaging | src/common/pagination/pagination.service.ts:120-125 | Two pages of the same table and filter report the same `totalCount`, that of the filtered table, whatever their counts, cursors and direction. |
| Policies.RegisterPolicy | src/policies/policy.service.ts:19-21 | After registration the name's policy is the new one, replacing any earlier one. Every other name keeps its policy. |
| Policies.AutoRegisterPolicy | src/policies/policy.service.ts:23-34 | A class with a non-empty entity-name tag is registered under that name. Without one the registry is unchanged. |
| Policies.Evaluate | src/policies/policy.service.ts:40-87 | For an unregistered entity every action is denied with 'No policy found for this entity'. For a registered one the answer is the registered policy's own rule for that action, unmodified. |
| Policies.EvaluateAfterRegister | src/policies/policy.service.ts:19-87 | Once a policy is registered under a name, evaluation under that name answers with its rules. Evaluation under other names is unaffected. |
| Policies.EmptyRegistryDenies | src/policies/policy.service.ts:40-44 | An empty registry denies every action on every entity. |
| UserPolicy.CanIndex | src/users/policies/user.policy.ts:17-29 | Listing is allowed, with no message, iff the actor is an administrator. Otherwise it is denied with its message. |
| UserPolicy.CanShow | src/users/policies/user.policy.ts:31-49 | Viewing is allowed iff the actor is an administrator or the actor's id `===` the resource id. Otherwise it is denied with its message. |
| UserPolicy.CanCreate | src/users/policies/user.policy.ts:51-63 | Creating is allowed iff the actor is an administrator. Otherwise it is denied with its message. |
| UserPolicy.CanUpdate | src/users/policies/user.policy.ts:65-83 | Updating follows the viewing rule, with its own denial message. |
| UserPolicy.CanDelete | src/users/policies/user.policy.ts:85-105 | Deleting is allowed iff the actor is an administrator whose id is not `===` the resource id. Otherwise it is denied with its message. |
| UserPolicy.InstanceAnswers | src/users/policies/user.policy.ts:16-105 | The policy instance answers every action by the rule table. |
| UserPolicy.NonAdminNeverListsCreatesOrDeletes | src/users/policies/user.policy.ts:17-105 | A non-administrator is never allowed to list, create or delete. |
| UserPolicy.AbsentActorDenied | src/users/policies/user.policy.ts:17-105 | A request without an actor is denied every action. |
| UserPolicy.DenialsCarryMessages | src/users/policies/user.policy.ts:17-105 | Every denial carries a non-empty message and every allow carries none. |
| UserPolicy.AdminDeletesOthersOnly | src/users/policies/user.policy.ts:85-98 | An administrator may delete iff the resource id differs from their own. Deleting oneself is denied with 'You cannot delete your own account'. |
| UserPolicy.TextIdIsNotOwnId | src/users/policies/user.policy.ts:41-43 | A non-administrator whose resource id is a string is denied every action, even when the string spells their own id. |
| UserPolicy.RegisteredPolicyAnswers | src/users/policies/user.policy.ts:14-16 | Once the tagged class is auto-registered, evaluating the 'User' entity answers by the rule table. |
| PolicyGuard.OperationOf | src/policies/guards/policy.guard.ts:63-93 | INDEX, SHOW, CREATE, UPDATE and DELETE each go to the service method of the same name. Any other action has none. |
| PolicyGuard.GuardResource | src/policies/guards/policy.guard.ts:49-58 | There is a resource exactly for SHOW, UPDATE and DELETE, and its id is the `id` argument as given. |
| PolicyGuard.ForbiddenMessage | src/policies/guards/policy.guard.ts:95-97 | The error text is the result's message when that is present and non-empty, and 'Access denied' when it is absent or empty. It is never empty. |
| PolicyGuard.CanActivate | src/policies/guards/policy.guard.ts:34-100 | Without a configuration the guard allows. An unlisted action returns false. Otherwise it allows iff the registry's evaluation for the configured entity, action, user and resource allows, and raises Forbidden with that result's message otherwise. |
| PolicyGuard.GuardAllowsOrThrows | src/policies/guards/policy.guard.ts:95-99 | For a listed action the guard never returns false: it allows or raises Forbidden. |
| PolicyGuard.UnregisteredEntityForbidden | src/policies/guards/policy.guard.ts:63-97 | A listed action on an entity without a policy raises Forbidden 'No policy found for this entity'. |
| PolicyGuard.UsersResolverGuard | src/users/resolvers/users.resolver.ts:37-70 | On the five user operations, with the User policy registered, an administrator passes for every operation, deleting their own account included, and a plain user is refused every one. |
| UserRolesGuard.SomeRoleMatches | src/users/guards/user-roles.guard.ts:39 | `some` finds a matching role iff the user's role is among the required roles. |
| UserRolesGuard.CanActivate | src/users/guards/user-roles.guard.ts:21-45 | The guard returns true iff no roles are required, or a user is present whose role is among them. Otherwise it raises Forbidden 'Insufficient permissions'. |
| UserRolesGuard.AdminOnlyResolver | src/users/resolvers/users.resolver.ts:29-30 | Under the class-level ADMIN requirement, the role guard passes iff there is a user and that user is an administrator. |
| Password.Test | src/common/validators/password.validator.ts:19-36 | A character-class test holds iff some character of the password is in the class. |
| Password.Validate | src/common/validators/password.validator.ts:13-39 | A password is accepted iff it has at least 8 UTF-16 code units and one each of lowercase, uppercase, digit and listed symbol. |
| Password.ShortPasswordRejected | src/common/validators/password.validator.ts:14-16 | A password of fewer than 8 characters within the Basic Multilingual Plane is rejected. |
| Password.SurrogatePairCountsTwice | src/common/validators/password.validator.ts:14 | A seven-character password with one emoji reaches the minimum length and is accepted. |
| Password.ExcludedSymbolsDoNotCount | src/common/validators/password.validator.ts:34-36 | A password whose only non-alphanumeric characters are `~`, backquote and space is rejected. |
| Password.SpecialIsPunctuation | src/common/validators/password.validator.ts:34 | Every listed symbol lies in one of the four ASCII punctuation ranges. |
| Password.Matches | src/common/validators/password.validator.ts:60-66 | The confirmation matches iff the named property is present and equal to it. |
| Password.ConfirmationForm | src/auth/dto/reset-password.dto.ts:7-21 | On the reset-password form, whose `confirmPassword` must match `password`, the confirmation passes iff it equals the password. So a confirmation accepted beside a strong password is itself strong. A form without the `password` field never matches. |
| Users.FindOneBy | src/users/users.service.ts:208-218 | A lookup returns a stored user that meets the criterion, with no lower id meeting it. It finds nothing iff no stored user meets it. |
| Users.PutKeepsStoreValid | src/users/users.service.ts:168-177 | Saving a stored user whose email no other user holds keeps the store invariant. |
| Users.CreateUser | src/users/users.service.ts:27-61 | It fails with Conflict iff the email is taken. Otherwise it adds exactly one user under a fresh id and keeps the invariant. The new user has the email and hashed password, the role `input.role`, else the argument, else USER, and `isVerified` only when the input says true. Its verification token is the given one and it has no reset token. |
| Users.FindOne | src/users/users.service.ts:63-79 | An id that is empty, not numeric or not positive fails with 'Invalid user ID'. Otherwise the lookup succeeds iff the parsed id is stored, and fails with 'User with ID <id> not found'. |
| Users.UpdateUserById | src/users/users.service.ts:141-151 | An unknown id fails with NotFound. An email held by another user fails the save. Otherwise each given field is overlaid, the rest are kept, only that entry changes, and the invariant holds. |
| Users.UpdateUser | src/users/users.service.ts:152-205 | `findOne` errors pass through. Conflict is raised iff a truthy email is held by another user. Otherwise the update succeeds: truthy email, password and role are applied, and `isVerified`, the tokens and the expiry are applied when given, null included. Nothing else changes, and the invariant holds. |
| Users.Destroy | src/users/users.service.ts:220-224 | It succeeds iff `findOne` does, removes exactly that user and returns it. Otherwise it fails as `findOne` does. |
| Users.CreatedUserFound | src/users/users.service.ts:27-79 | A created user is found by email and by the decimal text of their id. |
| Users.DestroyedUserGone | src/users/users.service.ts:220-224 | After deletion, looking up the same id fails with not found. |
| UsersListing.EmailSearch | src/users/users.service.ts:97 | An email filter applies iff a filter with a non-empty email is given. |
| UsersListing.EmailFilter | src/users/users.service.ts:96-115 | When the email filter applies, a user passes iff the email matches the ILIKE pattern `%<text>%`. |
| UsersListing.EmailOrder | src/users/users.service.ts:103-107 | There is a primary order iff an email sort is given. It ranks users by the collation of their email in the requested direction. |
| UsersListing.Rows | src/users/users.service.ts:94 | The table read holds exactly the stored users, each once, with distinct positive ids. |
| UsersListing.FindAll | src/users/users.service.ts:91-133 | It fails iff the page arguments do, with their error. On success the page satisfies paginate's page contract over the user table with the email filter and sort: window, edges, boundary cursors and has-more flags. Every node is a stored user passing the email filter. Without an email sort the nodes are ascending by id. `totalCount` is the number of stored users passing the email filter. |
| Auth.ValidateUser | src/auth/auth.service.ts:27-33 | It returns the stored user with that email when the password check passes against the stored hash. It returns nothing iff no such user passes. |
| Auth.Login | src/auth/auth.service.ts:35-58 | Bad credentials fail with 'Invalid credentials'. A correct password on an unverified account fails with 'Please verify your account first'. A correct password on a verified account succeeds with that user. Success means a stored, verified user with that email whose password checks. |
| Auth.Register | src/auth/auth.service.ts:60-86 | It fails with Conflict iff the email is taken. Otherwise it adds one unverified USER with the hashed password, the generated verification token and no reset token or expiry, and returns the registration message. |
| Auth.RegisteredCannotLogin | src/auth/auth.service.ts:35-73 | A freshly registered account cannot log in with any password. |
| Auth.ForgotPassword | src/auth/auth.service.ts:113-132 | The answer is the same message whether or not the email exists. The user with that email gets the new token and an expiry of now plus 3600000 ms, replacing earlier ones. Nobody else changes, and an unknown email changes nothing. |
| Auth.ResetPassword | src/auth/auth.service.ts:134-153 | It succeeds iff a user holds the token and the expiry is present and not before now, with expiry equal to now accepted. Otherwise it fails with 'Invalid or expired reset token'. Success stores the hashed password and clears the token and the expiry. |
| Auth.VerifyAccount | src/auth/auth.service.ts:155-172 | It succeeds iff a user holds the verification token, and otherwise fails with 'Invalid verification token'. Success marks the account verified, clears the token and stores the hashed password. |
| Auth.ResetTokenSingleUse | src/auth/auth.service.ts:134-153 | After a successful reset, the same token is refused. |
| Auth.VerificationTokenSingleUse | src/auth/auth.service.ts:155-172 | After a successful verification, the same token is refused. |
| Auth.ForgotThenReset | src/auth/auth.service.ts:113-153 | A fresh reset token issued at time t resets the password iff it is used no later than t + 3600000 ms. |
| Auth.VerifyThenLogin | src/auth/auth.service.ts:155-172 | After verification with a password, logging in with that password succeeds and returns the verified account. |

## Left out

- JWT signing and verification (the tokens `login` issues, `refreshToken`, `logout`): foreign calls. `Auth.Login` models only the gating and returns the user.
- bcrypt: hashing becomes a given hashed text and comparison a `check` predicate.
- `crypto.randomBytes` becomes a given token string, and `Date.now` a given `now` in milliseconds.
- `console` logging is left out.
- `Auth.Register`: the classification of exceptions by class or name, and the 'Registration failed' fallback, depend on foreign error types. The model raises only the Conflict of `createUser`.
- The ILIKE match and the email collation are abstract parameters. The model does not say that `%` and `_` in the search text are not escaped.
- SQL generation, query cloning and TypeORM's `take` are modelled by their effect on a sequence of rows.
- Node's base64 decoder is lenient: it skips characters outside the alphabet and accepts missing padding. `Base64.Decode` accepts only canonical text, so a cursor that Node would decode despite stray characters is refused here.
- Cursor bytes are read as text by mapping ASCII bytes to characters and any other byte to U+FFFD. This approximates UTF-8 decoding; cursors the service produces are ASCII.
- `JsText.ParseInt` gives the exact integer of a digit run. JavaScript rounds numbers beyond 2^53 to a double; the model does not.
- `first` and `last` are assumed non-negative (the GraphQL arguments are bounded to 1..100). The default of 10 that the GraphQL layer applies to `first` is not modelled.
- Dates are integers of milliseconds. The `Date` objects, `createdAt` and `updatedAt` are left out.
- Users.UpdateUserById: the save of an email that another user holds is modelled as the database's unique-constraint failure. `Object.assign` of an `id` field is not modelled.
- Users.FindOneBy: a lookup without ORDER BY returns some matching row. The model fixes it as the one with the lowest id.
- Auth.ResetTokenSingleUse and Auth.VerificationTokenSingleUse assume the token is held by one user only. Tokens are random and the store does not enforce this.
- Reflector precedence between handler and class metadata is not modelled. The merged configuration and required roles are inputs.
- The JWT guard, the user decorator, the module files and the resolvers' transport are not modelled. The resolver's operation table and class-level role requirement are used.
- The count query and the page query are not atomic in the original. The model runs them on one snapshot of the table.
