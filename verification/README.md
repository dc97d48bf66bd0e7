# team-terrain, modelled in Dafny

team-terrain is a location-sharing app for a team. Each user has a pin on a map: a
`"<lng>, <lat>"` coordinates text plus the city, state and country it lies in. The
backend is an Express server over two SQLite tables:

- `users`, with a unique email;
- `location_updates`, an append-only history with an AUTOINCREMENT id.

The server answers login, registration, token verification, user CRUD and location
updates. It guards them with JWT or API-key middleware, Joi request schemas and one
error handler. The React frontend does the following:

- normalises the user list it fetches;
- decides who may pin, move or delete whose pin (an admin-or-self rule);
- drives the map's dialogs and sidebars;
- offers a location search box, a sidebar of users still to pin and a map-style picker.

This project models that core as Dafny modules, one per source file:

- Code that computes a value becomes datatypes, functions and lemmas.
- The store and every frontend hook or component that holds state become classes whose methods update their fields.
- Every request handler is a method that takes the store (`Store.Database`) and changes it. It returns the status code and what it answers.

Outside inputs become parameters:

- `parseFloat` and number printing are a `NumberSyntax`, with `None` standing for NaN.
- JWT signing and verification, bcrypt, `randomUUID`, Joi's own string and email checks, the admin email list and the API key are also parameters.
- Every server or geocoder reply the frontend waits for is a parameter too.

Shared helpers are in `common.dfy` (module `Common`):

- `Option`;
- JavaScript's `split`, `join`, `indexOf` and `trim`, and `toLowerCase` on ASCII letters;
- `find`, `filter` and reversal.

`Store` holds the tables and the SQL statements the handlers run:

- `UPDATE`, `INSERT` and `DELETE` are methods of `Store.Database`.
- `SELECT` with `WHERE`, `ORDER BY` and `LIMIT`/`OFFSET` is a set of functions.
- CURRENT_TIMESTAMP is a clock that every write advances by one. "Newest first" is therefore reverse insertion order.

Two differences between the three coordinate readers are stated as lemmas in `CoordinateParsers`:

- the backend accepts out-of-range values that the frontend refuses;
- the seed script lets NaN through.

`UseUsers.ServerLocationSurvives` shows one consequence. For any user the backend
formats, the browser ends with exactly the server's location, because a text the
browser's range check refuses falls back to the server's unchecked `location` array.

## Model

| member | source | states |
|---|---|---|
| Permissions.IsAdmin | src/lib/permissions.ts:9-11 | admin iff the email is on the admin list; with an empty list nobody is admin |
| Permissions.CanMovePinForUser | src/lib/permissions.ts:19-31 | allowed iff the requester is admin or the target has the requester's id; own pin always allowed, non-admin refused for any other id |
| Permissions.CanMoveAnyPin | src/lib/permissions.ts:38-40 | true iff the user may move every possible target's pin |
| Permissions.CanPinForUser | src/lib/permissions.ts:48-60 | the same decision as moving, for every pair; own pin always allowed |
| Permissions.CanDeletePinForUser | src/lib/permissions.ts:77-89 | the same decision as moving, for every pair; own pin always allowed |
| Permissions.PermissionLevel | src/lib/permissions.ts:67-69 | 'admin' exactly for admins, 'user' otherwise |
| Permissions.OnlyEmailAndIdsMatter | src/lib/permissions.ts:19-89 | every decision depends only on the requester's email and id and the target's id |
| UserModel.FindById | src/types/User.ts:2-13 | the first user with the id, None iff no user has it |
| Coordinates.NumbersOf | src/lib/coordinates.ts:26-29 | a pair exactly when both parts parse; NaN in either gives null |
| Coordinates.ParseText | src/lib/coordinates.ts:17-36 | a position exactly when the trimmed text has two trimmed ','-parts that both parse and lie in range together; the position is those two numbers |
| Coordinates.ParseCoordinates | src/lib/coordinates.ts:6-39 | null for null or ''; a string result is in range and came from exactly two ','-parts; an array gives a pair iff it is two numbers, returned unchecked |
| Coordinates.BlankIsNull | src/lib/coordinates.ts:19-20 | a whitespace-only string parses to null |
| Coordinates.RoundTrip | src/lib/coordinates.ts:41-48 | parsing the formatted text of an in-range position gives it back, for any position whose two numbers each print plainly and parse back to themselves |
| Coordinates.FormatCoordinates | src/lib/coordinates.ts:46-48 | when both numbers print plainly, the parser's trimmed ','-parts of the text are exactly the two printed numbers |
| Coordinates.FormatSplits | src/lib/coordinates.ts:46-48 | two plain numerals joined by ', ' split and trim back into the two |
| CoordinateParsers.FrontendIsRangeCheckedBackend | backend/src/routes/users.js:10-31 | the frontend reading of a string is the backend reading filtered by the range check |
| CoordinateParsers.BackendSkipsRangeCheck | backend/src/routes/location.js:51-69 | "200,0" is a location to the backend and null to the frontend |
| CoordinateParsers.FrontendAcceptedPassesSeed | backend/src/scripts/seed.js:11-37 | every string the frontend accepts passes the seed check |
| CoordinateParsers.SeedAgreesOnNumbers | backend/src/scripts/seed.js:11-37 | when both parts are numbers, the seed check passes iff the backend location is in range |
| CoordinateParsers.SeedAcceptsNaN | backend/src/scripts/seed.js:15-32 | "abc,1" passes the seed check, though both other readers give null |
| UserResponse.StoredLocation | backend/src/routes/users.js:13-24 | a location iff the text is truthy and splits into exactly two numeric parts; no range check |
| UserResponse.FormatUserResponse | backend/src/routes/users.js:10-31 | every column but the password is copied; pinned iff location is present; location iff the stored text reads as two numbers |
| UserResponse.PasswordNotExposed | backend/src/routes/auth.js:30-51 | the response does not depend on the password column |
| AuthMiddleware.BearerCredential | backend/src/middleware/auth.js:5 | no credential without a truthy header; a credential has no space |
| AuthMiddleware.BearerRoundTrip | backend/src/middleware/auth.js:5 | `Bearer <token>` yields the token |
| AuthMiddleware.AuthenticateToken | backend/src/middleware/auth.js:3-24 | 401 'No token provided' without a credential, 403 when it fails to verify, else next with the decoded claims |
| AuthMiddleware.AuthenticateApiKey | backend/src/middleware/auth.js:26-38 | next (with no user) iff a present credential equals the API key, else 401; with no key configured, always 401 |
| AuthMiddleware.AuthenticateTokenOrApiKey | backend/src/middleware/auth.js:41-68 | 401 without a credential; the API key is accepted before any JWT check and sets no user; otherwise the JWT rule |
| AuthMiddleware.AdminEmails | backend/src/middleware/auth.js:71 | the trimmed ','-parts of the setting, `[""]` when unset |
| AuthMiddleware.IsAdmin | backend/src/middleware/auth.js:70-81 | passes, keeping the user, iff there is a user whose email is on the list; else 403 |
| AuthMiddleware.ApiKeyRequestsAreNotAdmin | backend/src/middleware/auth.js:52-55 | a request admitted by API key is always refused by `isAdmin` |
| AuthMiddleware.UnsetAdminList | backend/src/middleware/auth.js:71 | with ADMIN_EMAILS unset only an empty email passes |
| Validation.CheckKey | backend/src/middleware/validation.js:3-33 | a key passes iff it is absent and optional, or its value is a string that meets every part of its rule |
| Validation.CheckString | backend/src/middleware/validation.js:3-33 | a present string passes iff it meets every part of its rule; it is refused outright iff Joi does not admit it |
| Validation.Lookup | backend/src/middleware/validation.js:37 | a value iff the body has the key; a key given twice keeps its last value |
| Validation.FirstRuleIssue | backend/src/middleware/validation.js:3-33 | no issue iff every declared key passes; an issue names a declared key |
| Validation.FirstUnknown | backend/src/middleware/validation.js:3-22 | None iff every body key is declared |
| Validation.FirstIssue | backend/src/middleware/validation.js:37 | no issue iff every key passes and, unless unknown keys are stripped, no key is unknown |
| Validation.RequiredKey | backend/src/middleware/validation.js:4 | a required key's rule reads as: present, and a string Joi admits that meets the rule |
| Validation.OptionalKey | backend/src/middleware/validation.js:6 | an optional key's rule reads as: absent, or such a string |
| Validation.LoginRule | backend/src/middleware/validation.js:3-7 | a login body passes iff email is an email, password a string of length >= 3, action absent or 'login', and no other key |
| Validation.RegisterRule | backend/src/middleware/validation.js:9-13 | name 2..100 long, a valid email, a password of length >= 6, and no other key |
| Validation.LocationUpdateRule | backend/src/middleware/validation.js:24-33 | coordinates a string; city/state/country at most 100; user_id, userId and name optional; unknown keys allowed |
| Validation.UpdateUserAllOptional | backend/src/middleware/validation.js:15-22 | the empty update body passes, as every key is optional |
| Validation.UpdateUserRule | backend/src/middleware/validation.js:15-22 | an update body passes iff name is absent or 2..100 long, email absent or an email, coordinates absent or a string, city/state/country absent or at most 100, and no other key |
| Validation.UpdateUserKnown | backend/src/middleware/validation.js:15-22 | the update schema knows exactly its six keys |
| Validation.Validate | backend/src/middleware/validation.js:35-46 | next with the body unchanged iff there is no issue; otherwise 400 with the first issue's message |
| ErrorHandler.Rules | backend/src/middleware/errorHandler.js:11-37 | the five rules, in the handler's order |
| ErrorHandler.Default | backend/src/middleware/errorHandler.js:5-8 | `statusCode` or 500, `message` or 'Internal Server Error' |
| ErrorHandler.LastMatch | backend/src/middleware/errorHandler.js:11-37 | the default when no rule applies, else the last rule that applies |
| ErrorHandler.HandleError | backend/src/middleware/errorHandler.js:1-45 | status and message are the last applying rule over the default; the stack is sent iff NODE_ENV is 'development' |
| ErrorHandler.JwtRuleOverridesCode | backend/src/middleware/errorHandler.js:29-32 | a JsonWebTokenError is 401 'Invalid token' whatever its code |
| ErrorHandler.JoiErrorIsBadRequest | backend/src/middleware/errorHandler.js:11-14 | a Joi error with no other mark is 400 with Joi's message |
| Store.Select | backend/src/database/database.js:41-50 | the rows whose user id meets the condition, and only those |
| Store.SelectSplitsTable | backend/src/database/database.js:41-50 | the selected and the unselected rows add up to the table |
| Store.OtherUsersRowsKept | backend/src/routes/location.js:154 | deleting one user's rows leaves every other user's rows as they were |
| Store.SelectChronological | backend/src/database/database.js:42-49 | a selection of a chronological table is chronological |
| Store.NewestFirst | backend/src/routes/location.js:95 | the reversed chronological table is newest first |
| Store.PageStart | backend/src/routes/location.js:95 | the OFFSET start is within the rows, and is the offset when the offset is in range |
| Store.Page | backend/src/routes/location.js:95 | at most `limit` consecutive rows from the offset; a negative limit takes the rest |
| Store.PageMembers | backend/src/routes/location.js:95 | a page holds only rows of the table |
| Store.PageOrdered | backend/src/routes/location.js:94-97 | a page keeps the order of the rows it is cut from, so a page of newest-first rows is newest first |
| Store.HasMoreIffRowsRemain | backend/src/routes/location.js:111 | `total > offset + limit` iff rows remain after the page |
| Store.SelectIdsOrdered | backend/src/database/database.js:28-39 | a selection of ids keeps them distinct and in creation order |
| Store.OwnEmailFree | backend/src/database/database.js:31 | in a well-formed table no other row has a row's own email |
| Store.IdWithEmail | backend/src/routes/auth.js:59 | the id of a row with the email, None iff no row has it |
| Store.UsersNewestFirst | backend/src/routes/users.js:37 | every listed row, latest insert first |
| Store.ListingIsComplete | backend/src/routes/users.js:37 | the listing holds every stored row, as many as there are, with `created_at` never increasing |
| Store.JoinUsers | backend/src/routes/location.js:121-127 | every joined row carries its user's current name and email, and every row of a stored user is joined |
| Store.JoinChronological | backend/src/routes/location.js:121-128 | the join keeps the table's order |
| Store.Database.constructor | backend/src/database/database.js:28-50 | empty tables, AUTOINCREMENT at 1, well formed |
| Store.Database.UpdateRow | backend/src/routes/users.js:139-140 | writes the row and `updated_at` unless another row has the email (UNIQUE), which writes nothing; the history is untouched |
| Store.Database.InsertRow | backend/src/routes/auth.js:115-118 | adds the row, stamped now, unless the id (PRIMARY KEY) or the email (UNIQUE) is stored, which writes nothing |
| Store.Database.InsertHistory | backend/src/routes/location.js:42-45 | appends exactly one row with the next id and the current time; the users are untouched |
| Store.Database.DeleteHistory | backend/src/routes/location.js:154 | removes exactly the matching rows and counts them |
| Store.Database.DeleteUsers | backend/src/routes/users.js:172 | removes exactly the matching users; the history is untouched |
| Seed.ValidateCoordinates | backend/src/scripts/seed.js:11-37 | absent or '' passes; otherwise not two ','-parts fails, and with two parts it passes iff each part that is a number is in range (NaN compares false, so passes) |
| Seed.Accepted | backend/src/scripts/seed.js:102-107 | the seed users passing the check, in order, each with its drawn id |
| Seed.AdminUsers | backend/src/scripts/seed.js:97 | the users kept are exactly those whose id starts with 'admin-' (ASCII case ignored) |
| Seed.SeededStep | backend/src/scripts/seed.js:112-121 | one more accepted user leaves the seeded state seeded |
| Seed.AcceptedStep | backend/src/scripts/seed.js:104-107 | the accepted list grows by the next user exactly when it passes the check |
| Seed.Cleanup | backend/src/scripts/seed.js:96-97 | only non-admin history rows and non-admin users are deleted |
| Seed.SeedOne | backend/src/scripts/seed.js:104-121 | a user failing the check is skipped with no write; otherwise it succeeds iff its id and email are free and it has coordinates, storing its row and one history row; on failure no history row is written, and with absent coordinates its user row stays |
| Seed.SeedDatabase | backend/src/scripts/seed.js:94-137 | after the cleanup the admins are untouched, each accepted user is stored with one history row, in order; exit code 0 iff every accepted user has coordinates and an id and email held by no kept or earlier user, else 1 |
| Seed.AcceptedPrefix | backend/src/scripts/seed.js:102-107 | the users accepted from a prefix of the table are a prefix of those accepted from all of it |
| Seed.SucceedsPrefix | backend/src/scripts/seed.js:102-124 | a seeding that succeeds for a list succeeds for each prefix of it |
| Seed.SucceedsStep | backend/src/scripts/seed.js:112-121 | a user that fits after a successful prefix extends it |
| Seed.FailureIsFinal | backend/src/scripts/seed.js:102-137 | an accepted user that does not fit makes the whole seeding fail |
| Seed.FitsIffFree | backend/src/scripts/seed.js:112-121 | in a seeded state a new user fits iff its inserts succeed: id and email free, coordinates present |
| Seed.CleanupKeepsAdmins | backend/src/scripts/seed.js:97 | the cleanup keeps exactly the admin users |
| Seed.SeededStart | backend/src/scripts/seed.js:102 | before the loop the tables are seeded with no users |
| Seed.SameSelection | backend/src/scripts/seed.js:96 | two conditions that hold of the same ids select the same rows |
| LocationRoutes.TargetId | backend/src/routes/location.js:15-17 | user_id, else userId, else the token's id, else none (falsy values skipped) |
| LocationRoutes.Relocated | backend/src/routes/location.js:36-39 | the row gets the new text and place names ('' for an absent one); id, name, email, password and timestamps are kept |
| LocationRoutes.UpdateLocation | backend/src/routes/location.js:10-76 | 400 without a target and 404 for an unknown one, no write; else the user's place columns are set ('' for an absent name), others unchanged, then exactly one history row appended; a failing insert keeps the first write (500) |
| LocationRoutes.UpdatedUserPinned | backend/src/routes/location.js:51-69 | the answered user is pinned iff the submitted text reads as two numbers, with no range check |
| LocationRoutes.NewestRowsOf | backend/src/routes/location.js:95 | exactly the user's rows, newest first |
| LocationRoutes.HistoryPage | backend/src/routes/location.js:94-112 | a page holds only the user's rows, newest first, at most `limit` of them |
| LocationRoutes.History | backend/src/routes/location.js:79-114 | 404 for an unknown user; else the page (defaults 50 and 0), the total and `hasMore`; nothing is written |
| LocationRoutes.NewestJoinedOrdered | backend/src/routes/location.js:128 | the reversed join is newest first |
| LocationRoutes.AllRecent | backend/src/routes/location.js:117-137 | every row of `/all` belongs to a stored user and carries their name and email; newest first; at most `limit` |
| LocationRoutes.All | backend/src/routes/location.js:117-137 | the newest `limit` rows (default 100) of the join and their count; nothing is written |
| LocationRoutes.ClearHistory | backend/src/routes/location.js:140-161 | 404 with no write for an unknown user; else exactly that user's rows are removed and counted |
| LocationRoutes.ClearedHistory | backend/src/routes/location.js:154-160 | afterwards the user has no rows and every other user's rows are unchanged |
| UsersRoutes.Listing | backend/src/routes/users.js:34-46 | every stored user, formatted, newest first |
| UsersRoutes.ListUsers | backend/src/routes/users.js:34-46 | the listing and its count; nothing is written |
| UsersRoutes.ListingShowsEveryone | backend/src/routes/users.js:37-45 | each stored user appears in the listing, count equals the number of users, `createdAt` never increases |
| UsersRoutes.GetUser | backend/src/routes/users.js:49-66 | 404 for an unknown id, else the formatted user; nothing is written |
| UsersRoutes.Patched | backend/src/routes/users.js:96-127 | each present field replaces its column; every other column keeps its value |
| UsersRoutes.PatchLaws | backend/src/routes/users.js:96-134 | a body with no field changes nothing; applying a body twice equals applying it once |
| UsersRoutes.UpdateUser | backend/src/routes/users.js:69-151 | 404, then 409 for another user's truthy new email, then 400 for no field, each with no write; else the fields and `updated_at` are written; a UNIQUE clash from a falsy email is 500 with no write |
| UsersRoutes.UniqueClashNeedsNewEmail | backend/src/routes/users.js:85-93 | the UNIQUE constraint can only refuse a body bringing an email other than the current one |
| UsersRoutes.DeleteUser | backend/src/routes/users.js:154-178 | 404 with no write for an unknown id; else the user's history rows and then the user are deleted |
| UsersRoutes.DeleteKeepsOthers | backend/src/routes/users.js:169-172 | afterwards the user and their rows are gone, and every other user keeps their row and rows |
| UsersRoutes.UserLocations | backend/src/routes/users.js:181-205 | 404 for an unknown id; else all and only that user's rows, newest first, with the count |
| AuthRoutes.TokenClaims | backend/src/routes/auth.js:17-27 | the token claims are exactly the user's id, email and name |
| AuthRoutes.IssuedTokenAuthenticates | backend/src/routes/auth.js:17-27 | a token signed for a user passes the token middleware with that user's claims |
| AuthRoutes.LookupByEmail | backend/src/routes/auth.js:59 | the email lookup finds the one row with the email, if any |
| AuthRoutes.Login | backend/src/routes/auth.js:54-93 | the same 401 for an unknown email and a wrong password, no write; else a token for the user and a write of only `updated_at`, answering the row as read before it |
| AuthRoutes.Register | backend/src/routes/auth.js:96-132 | 409 with no write for a stored email; else 201 with exactly one new row holding the password's hash; a stored drawn id is 500 with no write |
| AuthRoutes.NewUserUnpinned | backend/src/routes/auth.js:115-118 | the row the register insert creates has no coordinates, so its user is answered unpinned |
| AuthRoutes.RegisteredCanLogIn | backend/src/routes/auth.js:101-121 | after registering, the email leads to the new row and its hash matches the password |
| AuthRoutes.VerifyToken | backend/src/routes/auth.js:135-171 | 401 without a credential, 403 if it fails to verify, 404 for a removed user, else the current user |
| MapInteractionsModel.Unpinned | frontend/src/hooks/useMapInteractions.ts:29 | the users with no location, in order |
| MapInteractionsModel.Available | frontend/src/hooks/useMapInteractions.ts:25 | the unpinned users the current user may pin, in order |
| MapInteractionsModel.UpdateById | frontend/src/hooks/useMapInteractions.ts:114-129 | entries with the id are changed, the rest and the length are kept |
| MapInteractionsModel.Apply | frontend/src/hooks/useMapInteractions.ts:114-129 | the entry keeps its id, name, email and password and stays consistent; a pin or move sits at the position with its formatted text; an unpin is unpinned with empty text |
| MapInteractionsModel.PlacedEntries | frontend/src/hooks/useMapInteractions.ts:114-129 | after a pin or move every entry with the id sits at the position, pinned, its text reading back to it when both numbers print back; others unchanged |
| MapInteractionsModel.UnpinnedEntries | frontend/src/hooks/useMapInteractions.ts:386-393 | after a delete every entry with the id is unpinned with empty text; others unchanged |
| MapInteractionsModel.MoveFallsBack | frontend/src/hooks/useMapInteractions.ts:208-210 | a move keeps the entry's own place names where the geocoder has none |
| MapInteractionsModel.MapInteractions.constructor | frontend/src/hooks/useMapInteractions.ts:15-20 | every dialog closed, nothing pending |
| MapInteractionsModel.MapInteractions.HasAvailableUsers | frontend/src/hooks/useMapInteractions.ts:420-423 | true iff some unpinned user may be pinned by the current user |
| MapInteractionsModel.MapInteractions.HandleMapClick | frontend/src/hooks/useMapInteractions.ts:23-57 | no available user: no change, and 'No users available' iff all are pinned; one: its dialog opens; several: the sidebar opens |
| MapInteractionsModel.MapInteractions.HandleUserSelect | frontend/src/hooks/useMapInteractions.ts:59-73 | no permission: no change; else selected, dialog open, sidebar closed |
| MapInteractionsModel.MapInteractions.HandlePinConfirm | frontend/src/hooks/useMapInteractions.ts:75-161 | an unknown id or no permission sends nothing; a failure changes nothing; success pins the entries and clears the pending state |
| MapInteractionsModel.MapInteractions.ConfirmPinMove | frontend/src/hooks/useMapInteractions.ts:164-262 | no pending move: no-op; an unknown user keeps it pending; else the list changes only on success and the move is cleared either way |
| MapInteractionsModel.MapInteractions.HandlePinDrag | frontend/src/hooks/useMapInteractions.ts:265-289 | no move permission: no pending move; else the move waits in its dialog |
| MapInteractionsModel.MapInteractions.HandleUserDropOnMap | frontend/src/hooks/useMapInteractions.ts:291-357 | a permitted, accepted drop pins the user; otherwise the list is unchanged |
| MapInteractionsModel.MapInteractions.HandlePinDelete | frontend/src/hooks/useMapInteractions.ts:359-410 | an unknown id or no permission sends nothing; success unpins the entries |
| MapInteractionsModel.MapInteractions.CancelPinMove | frontend/src/hooks/useMapInteractions.ts:425-430 | the pending move is dropped and its dialog closed |
| MapInteractionsModel.MapInteractions.ResetInteractions | frontend/src/hooks/useMapInteractions.ts:412-417 | sidebar and dialog closed, nothing selected or pending, a pending move kept |
| MapInteractionsModel.PinnedNoLongerAvailable | frontend/src/hooks/useMapInteractions.ts:114-129 | a user just pinned is no longer offered for pinning |
| LegacyMapInteractionsModel.NotPinned | src/hooks/useMapInteractions.ts:16 | the users whose pinned flag is off, in order |
| LegacyMapInteractionsModel.PinLegacy | src/hooks/useMapInteractions.ts:52-60 | entries with the id get the position and pinned; the rest and the length are kept |
| LegacyMapInteractionsModel.LegacyPinAgreesOnPosition | src/hooks/useMapInteractions.ts:52-60 | the older pin places entries where the newer one does, keeping their text and place names |
| LegacyMapInteractionsModel.FreeUsersAgree | src/hooks/useMapInteractions.ts:16 | on consistent lists the older free-user test equals the newer one without the permission filter |
| LegacyMapInteractionsModel.LegacyMapInteractions.constructor | src/hooks/useMapInteractions.ts:9-12 | every dialog closed, nothing pending |
| LegacyMapInteractionsModel.LegacyMapInteractions.HandleMapClick | src/hooks/useMapInteractions.ts:15-26 | no unpinned user: no change and the toast; else the click is kept and the sidebar opens |
| LegacyMapInteractionsModel.LegacyMapInteractions.HandleUserSelect | src/hooks/useMapInteractions.ts:28-32 | selected, dialog open, sidebar closed, with no permission check |
| LegacyMapInteractionsModel.LegacyMapInteractions.HandlePinConfirm | src/hooks/useMapInteractions.ts:34-81 | an unknown id is a no-op; a failure returns before clearing; success pins and clears selection and click, dialog untouched |
| LegacyMapInteractionsModel.LegacyMapInteractions.ResetInteractions | src/hooks/useMapInteractions.ts:83-88 | sidebar and dialog closed, selection and click cleared |
| UseUsers.AsRaw | frontend/src/hooks/useUsers.ts:66 | the text field as `parseCoordinates` receives it |
| UseUsers.Normalize | frontend/src/hooks/useUsers.ts:59-78 | location from the text, else from `location`; pinned iff a location; falsy email and place names become ''; text kept verbatim |
| UseUsers.ProcessUsers | frontend/src/hooks/useUsers.ts:59-80 | one normalised user per record, same order and count, all consistent |
| UseUsers.PrintedTextWins | frontend/src/hooks/useUsers.ts:66 | a text the frontend printed for an in-range position whose numbers print back reads back to that pinned position |
| UseUsers.FromResponse | backend/src/routes/users.js:10-31 | a server response read as a raw record: `location` becomes the `[lng, lat]` array |
| UseUsers.ServerLocationSurvives | frontend/src/hooks/useUsers.ts:66-72 | for any user the backend formats, the normalised location equals the server's |
| UseUsers.Fetched | frontend/src/hooks/useUsers.ts:50 | `data.users` when truthy, else `data` |
| UseUsers.ReplacementFor | frontend/src/hooks/useUsers.ts:50-80 | a new list iff the reply is ok with an array payload, and it is that payload normalised |
| UseUsers.UsersState.constructor | frontend/src/hooks/useUsers.ts:23-24 | an empty list, not loading |
| UseUsers.UsersState.StartLoad | frontend/src/hooks/useUsers.ts:29-33 | no signed-in user: nothing changes; else loading starts |
| UseUsers.UsersState.FinishLoad | frontend/src/hooks/useUsers.ts:50-110 | the list is replaced only by an array payload, all consistent; loading ends whatever the reply |
| Authentication.ValidateUserCredentials | frontend/src/lib/authentication.ts:80-85 | the first user whose email and password equal the trimmed inputs; null iff none |
| Authentication.ValidateUserPassword | frontend/src/lib/authentication.ts:91-93 | the first user whose password equals the trimmed input, whatever the email; null iff none |
| Authentication.PasswordLookupIsWeaker | src/lib/authentication.ts:75-88 | a credentials match implies a password-only match |
| Authentication.LoginRequestFor | frontend/src/lib/authentication.ts:37-41 | the request carries the trimmed email and password and action 'login' |
| Authentication.AuthenticateUser | frontend/src/lib/authentication.ts:32-70 | success iff the reply is ok with both `success` and `user`; otherwise the message or the default text |
| Authentication.ValidateUserSession | frontend/src/lib/authentication.ts:101-124 | false iff the user, its id or its email is missing or empty |
| Authentication.ValidateSessionWithBackend | frontend/src/lib/authentication.ts:132-156 | an empty token gives false with no request; else true iff the reply is ok with `valid === true` |
| Authentication.LegacyAuthenticateUser | src/lib/authentication.ts:21-65 | success iff the fetched list has a user matching trimmed email and password, which is the one returned |
| Authentication.LegacyValidateUserSession | src/lib/authentication.ts:96-114 | true iff the fetched list holds a user with the same id; a failed fetch gives false |
| SearchControl.NextIndex | src/components/MapSearchControl.tsx:118-122 | ArrowDown: i+1, wrapping from the last to 0; from [-1, len) the result is in [0, len) |
| SearchControl.PrevIndex | src/components/MapSearchControl.tsx:124-128 | ArrowUp: i-1, wrapping from 0 or -1 to the last; from [-1, len) the result is in [0, len) |
| SearchControl.ArrowsAreInverse | src/components/MapSearchControl.tsx:118-128 | on a selected index the two arrows undo each other |
| SearchControl.StaleIndexSurvivesArrowUp | src/components/MapSearchControl.tsx:118-128 | an index two or more past the end stays out of range after ArrowUp |
| SearchControl.FormatResultText | src/components/MapSearchControl.tsx:151-158 | without ', ' the main text is the whole name and the context empty; otherwise main + ', ' + context is the name, main ending before the first ', ' |
| SearchControl.SearchBox.constructor | src/components/MapSearchControl.tsx:33-37 | empty query and results, hidden, no selection |
| SearchControl.SearchBox.SearchLocations | src/components/MapSearchControl.tsx:54-84 | a blank query or missing token empties and hides the results with no request; else the reply's features (or none) are shown, a failure empties them |
| SearchControl.SearchBox.HandleInputChange | src/components/MapSearchControl.tsx:86-99 | the query follows the input, nothing else changes |
| SearchControl.SearchBox.HandleResultSelect | src/components/MapSearchControl.tsx:101-112 | no available user: nothing; else the centre and name go to the map, the name becomes the query, the list is emptied, hidden and unselected |
| SearchControl.SearchBox.HandleKeyDown | src/components/MapSearchControl.tsx:114-142 | hidden or empty list: nothing; arrows wrap; Enter selects only an in-range index; Escape hides and unselects |
| SearchControl.SearchBox.ClearSearch | src/components/MapSearchControl.tsx:144-149 | empty query and results, hidden, no selection |
| UserSidebar.NameMatches | src/components/UserSidebar.tsx:20-22 | a match iff the lower-cased term occurs somewhere in the lower-cased name |
| UserSidebar.Filtered | src/components/UserSidebar.tsx:20-22 | exactly the users whose lower-cased name holds the lower-cased term, as a subsequence |
| UserSidebar.Shown | src/components/UserSidebar.tsx:19-22 | exactly the unpinned users that match, as a subsequence of the unpinned users |
| UserSidebar.EmptySearchShowsAll | src/components/UserSidebar.tsx:20-22 | an empty term filters nothing out |
| UserSidebar.EmptyMessage | src/components/UserSidebar.tsx:73-77 | a message iff the list is empty: 'No users found' while searching, else 'All users are pinned!' |
| UserSidebar.AllPinnedMessage | src/components/UserSidebar.tsx:73-77 | with no search, 'All users are pinned!' iff every user is pinned |
| UserSidebar.FooterCounts | src/components/UserSidebar.tsx:111-112 | the unpinned count and the total, the first never above the second |
| UserSidebar.FirstLettersAvoid | src/components/UserSidebar.tsx:91 | first letters of words lacking a character lack it too, one per word at most |
| UserSidebar.Initials | src/components/UserSidebar.tsx:91 | initials hold no space and at most one letter per word |
| UserSidebar.TwoWordInitials | src/components/UserSidebar.tsx:91 | two space-free words give their two first letters |
| MapStyle.MapboxStyle | frontend/src/components/MapStyleSwitcher.tsx:29-37 | an id of the form 'mapbox://styles/mapbox/<style>' |
| MapStyle.MapStylesDistinct | frontend/src/components/MapStyleSwitcher.tsx:29-37 | no two listed styles share an id |
| MapStyle.FindStyle | frontend/src/components/MapStyleSwitcher.tsx:24 | a listed style with the id, None iff none |
| MapStyle.FriendlyName | frontend/src/components/MapStyleSwitcher.tsx:23-26 | the listed name of a known id, 'Custom Style' for any other |
| MapStyle.ReplaceFirst | frontend/src/components/MapStyleSwitcher.tsx:18 | with no occurrence the text is kept; otherwise exactly the first occurrence of the pattern gives way to the replacement |
| MapStyle.StyleImageUrl | frontend/src/components/MapStyleSwitcher.tsx:16-20 | the preview of a style URL is the static-image address of the style without its prefix, with the token at the end |
| MapStyle.StyleName | frontend/src/components/MapStyleSwitcher.tsx:18 | a style URL loses exactly its leading prefix; an id without it anywhere is kept |
| MapStyle.MapboxStyleName | frontend/src/components/MapStyleSwitcher.tsx:18 | an id of the mapbox account gives a name starting 'mapbox/' |
| MapStyle.ListedStyleNames | frontend/src/components/MapStyleSwitcher.tsx:16-37 | every listed style gives 'mapbox/<style>', e.g. 'mapbox/streets-v12' |
| MapStyle.OneHighlight | frontend/src/components/MapStyleSwitcher.tsx:75-91 | at most one tile is highlighted, and one is when the style is known |
| MapStyle.MapStyleSwitcher.Open | frontend/src/components/MapStyleSwitcher.tsx:48-51 | the dialog opens |
| MapStyle.MapStyleSwitcher.SelectStyle | frontend/src/components/MapStyleSwitcher.tsx:77-80 | the tile's id is chosen, its friendly name is its listed name, and the dialog closes |

## Left out

- Numbers: `parseFloat` and number printing are the parameter `NumberSyntax`, not IEEE doubles. `Coordinates.RoundTrip` holds for the positions whose two numbers print without comma or white space and parse back to themselves (`Coordinates.PrintsBack`); which doubles those are is not modelled.
- Text: strings are sequences of Unicode code points, so string lengths (Joi's `min`/`max`, `n[0]` of a name) count code points where JavaScript counts UTF-16 code units; the two differ only for characters outside the Basic Multilingual Plane. `toLowerCase` folds ASCII letters only. `trim` removes the full ECMAScript white-space and line-terminator set.
- Joi's own string and email checks are the parameter `Joi`, and its message wording is the `render` parameter.
- bcrypt, JWT signing, JWT verification and token expiry are parameters. So are `randomUUID`/`uuidv4` and the admin list of src/config/env.ts, which is not part of this model.
- Asynchrony is left out. Every request is one sequential step; the search box's 300 ms debounce, concurrent requests and React's render scheduling are not modelled.
- Network replies are inputs, including the `reverseGeocode` answers. `handleUserDropOnMap` makes a second geocoding call; the model uses one `place` for both calls.
- Rendering, toasts, console output and the click-outside listener of the search box are left out, and so are the localStorage hooks.
- src/lib/auth.ts, src/hooks/useUsers.ts and the database connection and migration code are not part of this model.
- Store.Database: CURRENT_TIMESTAMP is a counter that every write advances by one. Equal timestamps are never ordered, so "newest first" is reverse insertion order, one order SQLite may return.
- LocationRoutes.UpdateLocation: a database failure is modelled only at the history insert (`insertFails`), the one point where it leaves a partial write.
- LocationRoutes.History: a `limit` or `offset` query value that is not numeric (`parseInt` giving NaN) is not modelled.
- Seed.SeedDatabase: the `seedUsers` table is a parameter, not the literal table of the script. Inserting a row with a NOT NULL column missing is modelled only as a failed insert. After a failed insert (exit code 1) the contract does not state what the tables hold.
- LocationRoutes.UpdateLocation, UsersRoutes.UpdateUser: the 500 answers carry a fixed text standing for the database error's own message, which the model does not carry.
- MapStyle.MapStyles: the table is written through the helper `MapStyle.MapboxStyle`, which yields the same seven ids and names as the source.
