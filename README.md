# Team membership and account records, modelled in Dafny

This project models two parts of the tevas.io backend.

1. **The team engine.** It covers team creation, read-back, replacement and
   deletion (`backend/services/teams/crud.py`). It also covers the team HTTP
   handlers in `backend/web/api/v1/teams/views.py`: invitations, accepting
   them, listing, toggling and deleting them, changing a member's role,
   removing a member, and renaming a team.
   - The tables are teams, membership links `(user, team) -> role` and
     invitations. Roles: 0 read, 1 edit, 2 admin, 3 owner.
   - Each operation is a chain of permission guards (403, 404, 400) followed
     by a small change to the tables.
2. **The account record stores.** These are `backend/services/auth/crud.py` and
   `backend/services/auth/utils.py`: users, refresh tokens and per-user
   verification codes.
   - Refresh tokens are looked up with lazy expiry and issued with a 30-day
     lifetime.
   - Verification codes are inserted or replaced per user and accepted for
     15 minutes.
   - A user update changes only the fields the request sets.
   - The login check answers both failure causes with the same error.

Each operation is written twice:

- as a pure function from the old tables to `(result, new tables)`, in
  `TeamsCrud`, `TeamsViews`, `AuthCrud` and `AuthUtils`;
- as a method of a store class that changes its fields in place
  (`TeamsStore.TeamStore`, `AuthStore.AuthStore`).

Each method is proved to produce exactly what its function specifies, and to
keep the store's integrity constraints:

- every link's team exists;
- user ids, logins and emails are unique;
- each user has at most one verification-code row.

The properties the service promises are lemmas over the functions.

The following are parameters:

- the wall clock, as `now` in integer seconds;
- fresh UUIDs;
- password hashing and verification (`hash`, `verify`);
- JWT encoding and decoding (`encode`, `decode`).

An `Http(status, detail)` failure is an `HTTPException`. A
`Crash(kind)` is an exception the handler does not catch, such as an ORM
integrity error or an `AttributeError`.

Files:

| file | module | contents |
|---|---|---|
| `common.dfy` | `Common` | `Option`, `Result`, `Failure`; `FirstMatch`, the `.first()` of a filtered query |
| `teams_model.dfy` | `TeamsModel` | team tables, the link foreign key `Valid`, role lookup |
| `teams_crud.dfy` | `TeamsCrud` | create / get / update / delete team and their lemmas |
| `teams_views.dfy` | `TeamsViews` | invitation and member handlers and their lemmas |
| `teams_store.dfy` | `TeamsStore` | class `TeamStore`, every team handler in place |
| `auth_model.dfy` | `AuthModel` | user, refresh-token and verification-code rows and keys |
| `auth_crud.dfy` | `AuthCrud` | user create/update, token expiry, verification codes |
| `auth_utils.dfy` | `AuthUtils` | login check, token issue, token verification |
| `auth_store.dfy` | `AuthStore` | class `AuthStore`, the record operations in place |

## Model

| member | source | states |
|---|---|---|
| Common.FirstMatch | backend/services/auth/crud.py:121-125 | The first row a filtered query returns is the lowest index satisfying the filter; None exactly when no row does |
| Common.FirstMatchAppend | backend/services/auth/crud.py:121-125 | Rows appended after a matching row do not change which row `.first()` returns |
| TeamsModel.LinksOutsideSpec | backend/services/teams/crud.py:96 | Deleting a team's row with its links keeps the link foreign key; a link of that team written before the delete leaves no trace; another team's link keeps its role; a second delete changes nothing |
| TeamsCrud.GetTeam | backend/services/teams/crud.py:44-62 | None iff no team has the id; otherwise title and status of the row, and `users` holds exactly the pairs (user, role) of that team's links |
| TeamsCrud.CreateTeamAddsOwner | backend/services/teams/crud.py:21-31 | A new team has default status 1 and exactly one member, the creator with role 3; other teams and the invitations are unchanged; the link foreign key still holds |
| TeamsCrud.InsertMembersSpec | backend/services/teams/crud.py:99-101 | The re-insert loop adds a link for exactly the listed users, each with its listed role when ids are distinct, and leaves all other links as they were |
| TeamsCrud.UpdateTeamGuards | backend/services/teams/crud.py:77-93 | 403 "Permission denied" iff the caller's role in the team is not 2 or 3; None iff permitted and the team does not exist; both leave the tables unchanged |
| TeamsCrud.UpdateTeamReplaces | backend/services/teams/crud.py:83-108 | A permitted update of an existing team sets its title and status, makes its members exactly the request's list, returns the team as read back, and changes no other team |
| TeamsCrud.DeleteTeamRemoves | backend/services/teams/crud.py:123-133 | Only a caller with role exactly 3 gets past the 403; then the team and all its links are gone, other teams are unchanged, and the result says a row was removed |
| TeamsViews.Flipped | backend/web/api/v1/teams/views.py:250 | Toggling negates only the active flag, and toggling twice restores the invitation |
| TeamsViews.CreateInvitationSpec | backend/web/api/v1/teams/views.py:120-136 | 403 "not a member" without a link, 403 "no permission" for role 2 or less; otherwise exactly one new active invitation with 0 acceptances, the given team, role, inviter, lifetime and creation time |
| TeamsViews.AcceptGuardOrder | backend/web/api/v1/teams/views.py:156-175 | Guard order 404, expired (strictly more than `ttl_sec` seconds old), inactive, already a member; success iff all pass and the team row exists; failures change nothing |
| TeamsViews.AcceptEffect | backend/web/api/v1/teams/views.py:178-194 | Success adds exactly one link (caller, team, invited role), raises `users_accepted` by exactly 1, keeps `is_active` and every other invitation, and replies with team, role and the new count |
| TeamsViews.AcceptTwice | backend/web/api/v1/teams/views.py:174-175 | A second acceptance by the same user within the lifetime fails with "already a member" and changes nothing |
| TeamsViews.CreatedInvitationIsAcceptable | backend/web/api/v1/teams/views.py:128-194 | An invitation an owner creates can be accepted by a non-member at any time within its lifetime, after which the team lists that user with the invited role |
| TeamsViews.ListInvitationsSpec | backend/web/api/v1/teams/views.py:215-221 | Only a caller with role above 2 gets a listing, and it holds exactly the team's invitations; everyone else gets the 403 |
| TeamsViews.ToggleTwice | backend/web/api/v1/teams/views.py:242-252 | 404 for an unknown invitation, 403 unless the caller's role is above 2; success flips only that invitation's flag, and a second toggle restores the tables |
| TeamsViews.DeleteInvitationSpec | backend/web/api/v1/teams/views.py:273-282 | 404 or 403 as for toggling; success removes exactly that invitation, and accepting it afterwards is 404 |
| TeamsViews.UpdateUserRoleGuards | backend/web/api/v1/teams/views.py:305-324 | Guard order: caller not a member 403, caller role 2 or less 403, target not a member 404, promotion to 3 by a caller whose role is not 3 403, own role 403; success iff none applies |
| TeamsViews.UpdateUserRoleEffect | backend/web/api/v1/teams/views.py:326-331 | The target gets the new role; the caller drops to 2 exactly when the new role is 3 and the target already held 3; no other link changes and none is added or removed |
| TeamsViews.PromotionKeepsTwoOwners | backend/web/api/v1/teams/views.py:326-330 | An owner promoting a non-owner to 3 keeps role 3, so the team has two owners |
| TeamsViews.AdminCannotEditRoles | backend/web/api/v1/teams/views.py:314-315 | A caller with role 2 can neither change a role nor remove a member, whoever the target is |
| TeamsViews.RemoveMemberSpec | backend/web/api/v1/teams/views.py:355-375 | Same guard order as a role change, with self-removal refused; success deletes exactly the target's link and keeps every other link |
| TeamsViews.UpdateTeamSettingsSpec | backend/web/api/v1/teams/views.py:398-408 | The intended rename: a role of at least 2 passes, a missing team is 404, and only that team's title changes |
| TeamsViews.RenameAsWrittenNeverApplies | backend/web/api/v1/teams/views.py:402-407 | As written the handler never changes the tables; every call that passes both guards raises where the intended rename succeeds |
| TeamsStore.TeamStore.constructor | backend/db/models/teams.py:8-31 | An empty store satisfies the link foreign key |
| TeamsStore.TeamStore.CreateTeam | backend/services/teams/crud.py:21-31 | The team row and the creator's owner link are added in place, as `TeamsCrud.CreateTeam` specifies, keeping the foreign key |
| TeamsStore.TeamStore.UpdateTeam | backend/services/teams/crud.py:77-108 | Guards, row update, delete of the team's links and the re-insert loop leave the store and result `TeamsCrud.UpdateTeam` specifies |
| TeamsStore.TeamStore.DeleteTeam | backend/services/teams/crud.py:123-133 | In-place delete of the team and its links, as `TeamsCrud.DeleteTeam` specifies |
| TeamsStore.TeamStore.CreateInvitation | backend/web/api/v1/teams/views.py:120-136 | In-place invitation creation, as `TeamsViews.CreateInvitation` specifies |
| TeamsStore.TeamStore.AcceptInvitation | backend/web/api/v1/teams/views.py:156-194 | In-place link insertion and counter increment, as `TeamsViews.AcceptInvitation` specifies, keeping the foreign key |
| TeamsStore.TeamStore.ListInvitations | backend/web/api/v1/teams/views.py:215-221 | Reads the store and returns what `TeamsViews.ListInvitations` specifies |
| TeamsStore.TeamStore.ToggleInvitation | backend/web/api/v1/teams/views.py:242-252 | In-place flag flip, as `TeamsViews.ToggleInvitation` specifies |
| TeamsStore.TeamStore.DeleteInvitation | backend/web/api/v1/teams/views.py:273-282 | In-place invitation delete, as `TeamsViews.DeleteInvitation` specifies |
| TeamsStore.TeamStore.UpdateUserRole | backend/web/api/v1/teams/views.py:305-332 | In-place role assignments, as `TeamsViews.UpdateUserRole` specifies |
| TeamsStore.TeamStore.RemoveMember | backend/web/api/v1/teams/views.py:355-375 | In-place link delete, as `TeamsViews.RemoveMember` specifies |
| TeamsStore.TeamStore.UpdateTeamSettings | backend/web/api/v1/teams/views.py:398-408 | The intended in-place rename, as `TeamsViews.UpdateTeamSettings` specifies |
| AuthModel.UserWhere | backend/services/auth/crud.py:46-47 | The user found satisfies the filter and is a row of the table; None iff no row does. `UserById`, `UserByLogin` and `UserByEmail` (crud.py:57-58, 144-145) are this lookup with the id, login or email filter |
| AuthModel.UniqueLogin | backend/db/models/users.py:14 | Under the unique constraint two rows with the same login are the same row |
| AuthCrud.CreateUser | backend/services/auth/crud.py:17-36 | A taken login or email fails with an integrity error and changes nothing; otherwise one row is appended holding `hash(password)`, the IP, `now` and status 0; uniqueness is kept |
| AuthCrud.Dump | backend/services/auth/crud.py:69 | The pairs listed are exactly the fields the request set, with their values |
| AuthCrud.UpdateUserFields | backend/services/auth/crud.py:69-70 | The `setattr` loop sets exactly the login, email and password the request sets; id, status and last-login columns and every unset column keep their values |
| AuthCrud.UpdateUserSpec | backend/services/auth/crud.py:60-73 | An update fails iff another row already has the new login or email, and then changes nothing; otherwise only that user's row changes, to the updated columns; uniqueness is kept |
| AuthCrud.UserIndex | backend/services/auth/crud.py:46-47 | The position found holds the user with that id |
| AuthCrud.FirstTokenOf | backend/services/auth/crud.py:121-125 | The user's first token row in table order; None iff the user has no token row |
| AuthCrud.WithoutToken | backend/services/auth/crud.py:106-110 | The delete removes every row of that user with that value and keeps every other row with its multiplicity |
| AuthCrud.ActiveRefreshToken | backend/services/auth/crud.py:113-133 | Returns the user's first token iff `created + ttl_sec > now` (strict), leaving the table unchanged; an expired first token is removed, None is returned and all other users' and values' rows are kept |
| AuthCrud.ActiveRefreshTokenAsWritten | backend/services/auth/crud.py:106-133 | As written the table never changes, and every answer that does not raise agrees with the intended one |
| AuthCrud.ExpiredTokenAsWritten | backend/services/auth/crud.py:106-132 | As written an expired first token makes every later lookup raise and the row stays; the intended lookup returns None and removes it |
| AuthCrud.ExpiredFirstHidesNewer | backend/services/auth/crud.py:121-133 | Only the first row is examined: an expired first token hides a live token added after it |
| AuthCrud.CodesWhere | backend/services/auth/crud.py:159-162 | The filtered rows are exactly the rows satisfying the filter |
| AuthCrud.AtMostOneOf | backend/services/auth/crud.py:162 | With one code row per user, a filter on one user finds at most one row, so `scalar_one_or_none` does not raise |
| AuthCrud.ReplaceCode | backend/services/auth/crud.py:166-170 | The UPDATE changes only the code, and only on the user's rows: every row keeps its user, email and creation time, no row is added or dropped, other users' rows stay as they were, and one row per user stays one row per user |
| AuthCrud.IssueCodeSpec | backend/services/auth/crud.py:159-179 | Never fails under one row per user; an existing row gets only the new code (creation time and email stay) and no row is added; otherwise exactly one row (user, code, now) is appended; one row per user is kept and other users' rows are unchanged |
| AuthCrud.GetVerificationCodeSpec | backend/services/auth/crud.py:190-197 | Returns a row iff one has that user, that code and `created > now - 900`, and the row returned is such a row |
| AuthCrud.GetVerificationCodeAsWritten | backend/services/auth/crud.py:195 | The query on `created_at` raises on every call |
| AuthCrud.WrongAndExpiredLookAlike | backend/services/auth/crud.py:190-197 | A wrong code and an expired right code get the same None |
| AuthCrud.FreshCodeWindow | backend/services/auth/crud.py:171-197 | A newly issued code is accepted exactly up to, but not at, 900 seconds after issue |
| AuthCrud.ReissueKeepsStaleTimestamp | backend/services/auth/crud.py:164-170 | A code reissued 900 seconds or more after the row was created is refused at once, because the row keeps its old creation time |
| AuthCrud.CodeLookupAsWritten | backend/services/auth/crud.py:171-197 | The lookup as written raises where the lookup on `created_dt` accepts a code issued a moment ago |
| AuthUtils.AuthenticateUser | backend/services/auth/utils.py:41-47 | Every failure is the single 401 "Invalid credentials"; a success returns the id of a user with that login whose hash verifies the password |
| AuthUtils.AuthenticateUserSpec | backend/services/auth/utils.py:41-47 | With unique logins, success iff a user with that login exists and `verify(password, hash)` holds, and the id returned is that user's |
| AuthUtils.CredentialsIndistinguishable | backend/services/auth/utils.py:42-46 | An unknown login and a wrong password produce the same answer |
| AuthUtils.CountForAppend | backend/services/auth/utils.py:62-68 | The token count of a user over two concatenated tables is the sum of the counts |
| AuthUtils.StoreRefreshTokenSpec | backend/services/auth/utils.py:58-70 | The value returned is the value stored and is the token encoded for this user, issue time `now` and a lifetime of 2592000 seconds; the row has `ttl_sec` 2592000 and is active for exactly that long; earlier rows are kept; only this user's token count grows, by one |
| AuthUtils.ExpiredFirstLeavesLater | backend/services/auth/crud.py:106-133 | Given two tokens of one user whose encodings differ (as they do when the issue times differ), once the first has expired and the second has not, one lookup deletes only the expired row and the next returns the later token |
| AuthUtils.VerifyRefreshToken | backend/services/auth/utils.py:82-109 | Any failure is the decode error, "Invalid token" or "User not found"; a success is a stored user whose id is the token's `sub` |
| AuthUtils.VerifyRefreshTokenSpec | backend/services/auth/utils.py:82-109 | An undecodable token raises; no `sub` is 401 "Invalid token"; no row with that exact value and `is_alive` is 401 "Invalid token"; an unknown `sub` is 401 "User not found"; otherwise the user with id `sub` |
| AuthUtils.StoredTokensNeverVerify | backend/services/auth/utils.py:62-66 | Tokens stored without `is_alive` never pass verification |
| AuthUtils.RowOwnerNotChecked | backend/services/auth/utils.py:91-102 | The row found is not compared with `sub`: a live row owned by another user, holding a token issued for `sub`, still lets `sub` through. create_and_store_refresh_token never stores such a row, since each token is stored under its own subject |
| AuthStore.SetFields | backend/services/auth/crud.py:69-70 | The `setattr` loop leaves the row `AuthCrud.ApplyAll` describes, which `AuthCrud.UpdateUserFields` proves equal to the row with exactly the set columns changed |
| AuthStore.AuthStore.constructor | backend/db/models/users.py:10-50 | An empty store satisfies the key constraints |
| AuthStore.AuthStore.CreateUser | backend/services/auth/crud.py:17-36 | In-place user insertion, as `AuthCrud.CreateUser` specifies, keeping uniqueness |
| AuthStore.AuthStore.UpdateUser | backend/services/auth/crud.py:60-73 | The `setattr` loop and commit leave the row and result `AuthCrud.UpdateUser` specifies, keeping uniqueness |
| AuthStore.AuthStore.UpdateUserStatus | backend/services/auth/crud.py:199-208 | Only that user's `status_id` changes |
| AuthStore.AuthStore.UpdateUserPassword | backend/services/auth/crud.py:210-219 | Only that user's password changes, to the given string verbatim |
| AuthStore.AuthStore.DeleteRefreshTokenForUser | backend/services/auth/crud.py:98-111 | The intended delete of the user's rows with that value, in place |
| AuthStore.AuthStore.GetActiveRefreshToken | backend/services/auth/crud.py:113-133 | In-place lazy expiry, as `AuthCrud.ActiveRefreshToken` specifies |
| AuthStore.AuthStore.CreateAndStoreRefreshToken | backend/services/auth/utils.py:50-70 | Encodes a token for the user issued `now` with a thirty-day lifetime, appends its row and returns its value, as `AuthUtils.StoreRefreshToken` specifies |
| AuthStore.AuthStore.CreateVerificationCode | backend/services/auth/crud.py:147-179 | In-place update-or-insert, as `AuthCrud.IssueCode` specifies, keeping one row per user |

## Left out

- I/O is not modelled: the database session, commits and refreshes, mail
  sending, cookies, and the async scheduling of handlers. Each handler is one
  atomic step on the store. Interleavings of concurrent requests are not
  modelled.
- Wall-clock time is the parameter `now`, in integer seconds; `datetime`
  precision and time zones are not modelled.
  - Whether `created_dt` of an invitation is time-zone aware is not
    modelled. The model assumes the subtraction in the expiry check
    succeeds.
- Password hashing, password verification and JWT encoding and decoding are
  functions passed in. The encoder receives the subject, the issue time `now`
  and the lifetime, which is all create_refresh_token puts into a token. The
  encoder and the other functions are otherwise arbitrary; only
  `AuthUtils.ExpiredFirstLeavesLater` asks that two issue times give two
  different tokens. The token's own
  `exp` claim is not modelled: decode either gives the claims or fails.
- The `created_dt` and `updated_dt` columns of teams, users and tokens are not
  modelled, except the creation times the expiry rules read.
- The endpoint wrappers that only forward to `crud.py` are not modelled:
  create, get and delete team, `get_user_teams`, and the 404 they add. The
  same goes for `get_teams_by_user_id`, `get_user_by_id` as an endpoint,
  `delete_user` and `get_refresh_tokens_by_user_id`.
- The invitation and link helpers the team handlers import are plain map
  lookups and updates. Their bodies (`get_user_role_in_team`,
  `get_invitation_by_id`, `add_user_to_team`, `delete_user_from_team`,
  `delete_invitation`, `create_invitation`, `get_invitations_by_team`) are
  not part of this model.
  - A missing link is read as "no role": `user_role is None` and
    `user_role.role is None` both mean the caller has no link.
  - New invitations are taken to start active with zero acceptances.
  - Whether deleting a team removes its invitations is unknown, so
    invitations are left in place.
- Roles are unbounded integers, as in the code: no handler validates
  `role_id`, so the model does not restrict it to 0-3.
- TeamsStore.TeamStore.UpdateTeam: a link's primary key is its own generated
  uuid, so a request naming the same user twice inserts two links for that
  user. The model keys links by (user, team) in a map, which cannot hold the
  second one, so it keeps the last role listed. This is why
  `TeamsCrud.UpdateTeamReplaces` assumes distinct ids.
- TeamsCrud.UpdateTeam, TeamsCrud.UpdateTeamReplaces and
  TeamsStore.TeamStore.UpdateTeam: the users table is not part of the team
  store, so the foreign key from a link to its user is not modelled. A request
  naming an unknown user id fails that key at commit with an IntegrityError
  and the whole update rolls back; the model inserts the link.
- AuthStore.AuthStore.CreateAndStoreRefreshToken,
  AuthStore.AuthStore.CreateVerificationCode, AuthUtils.StoreRefreshToken and
  AuthCrud.IssueCode: the foreign keys from refresh-token and
  verification-code rows to `users.id` are not modelled. For a user id with
  no users row the commit fails with an IntegrityError; the model stores the
  row. The login handler passes the id it has just authenticated; no caller
  of create_verification_code is part of this model.
- Column widths are not modelled. A value longer than its column fails at
  commit with a DataError: a team title over 50 characters
  (TeamsCrud.CreateTeam, TeamsCrud.UpdateTeam,
  TeamsViews.UpdateTeamSettings), a login or email over 50 characters
  (AuthCrud.CreateUser, AuthCrud.UpdateUser), a last-login IP over 20
  characters (AuthCrud.CreateUser) and a code over 6 characters
  (AuthCrud.IssueCode). The model stores strings of any length.
- Common.FirstMatch: `.first()` on a query without ORDER BY returns whichever
  row the database yields first. The model takes table (insertion) order.
  AuthCrud.FirstTokenOf, AuthCrud.ActiveRefreshToken,
  AuthCrud.ExpiredFirstHidesNewer, AuthUtils.AuthenticateUser and
  AuthUtils.VerifyRefreshToken depend on that choice.
- The `user_role == 2` comparisons in the role and removal handlers compare a
  link object with an integer, so they are always false. The model keeps
  only the `<= 2` test, which has the same effect.
- AuthCrud.UpdateUser: an explicit `null` in the update request is not
  modelled. A set field always carries a string. `current_password`,
  `first_name` and `last_name` are not columns of the users table, so they
  never reach a row. `create_user` likewise drops the first and last names.
- AuthModel.RefreshToken: `is_alive` exists only in the migration, not in the
  mapped class. Rows the code inserts leave it NULL, which the `== True`
  filter never matches, so those rows carry `false`.
- AuthUtils.VerifyRefreshToken: `verify_token` is not imported, so the
  function as written raises NameError on its first line. Past that, the
  `is_alive` filter names an attribute the mapped class lacks and would raise
  AttributeError. The model reads `is_alive` as the migration's nullable
  column and keeps the checks the function intends.
- AuthUtils.StoreRefreshToken: `timedelta` and `create_refresh_token` are not
  imported, so the function as written raises NameError before storing
  anything. The model stores the token as the function intends.
- AuthUtils: the module queries with the synchronous `Query` API and imports
  its models from a path that does not match the models package. The model
  reads those queries as the same filters over the same tables.
- The user lookups use `scalar_one_or_none`. The unique constraints rule
  out a second match, so the model returns the single match.

## Findings

| source | as written | input that shows it | evidently intended | confidence | as-written member | corrected member |
|---|---|---|---|---|---|---|
| backend/web/api/v1/teams/views.py:402-407 | `get_team` returns a dict, and assigning `.title` on it raises `AttributeError`, so the title is never stored | an owner renaming an existing team | the team's title becomes the requested one | high, not executed | TeamsViews.RenameAsWrittenNeverApplies | TeamsViews.UpdateTeamSettingsSpec |
| backend/services/auth/crud.py:106-110 | `select(...).delete()`: a select statement has no `delete`, so removing the expired token raises and the row stays | a user whose first token has `created + ttl_sec <= now` | the expired row is deleted and the lookup returns None | high, not executed | AuthCrud.ExpiredTokenAsWritten | AuthCrud.ActiveRefreshToken |
| backend/services/auth/crud.py:195 | filter on `UserVerificationCode.created_at`; the mapped column is `created_dt` | any lookup, e.g. of a code issued a moment ago | filter on the creation column with the 15-minute window | medium (the declarative base is not part of this model), not executed | AuthCrud.CodeLookupAsWritten | AuthCrud.GetVerificationCodeSpec |
