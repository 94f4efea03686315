/** The account tables as one in-memory store, with the record operations of
    backend/services/auth/crud.py and backend/services/auth/utils.py as
    methods that change the rows in place. Each method is proved to do what
    the matching function of AuthCrud or AuthUtils specifies and to keep the
    tables' key constraints. */
module AuthStore {
  import opened Common
  import opened AuthModel
  import Crud = AuthCrud
  import Utils = AuthUtils

  /** The `setattr` loop of update_user over the listed (field, value) pairs. */
  method SetFields(u: User, items: seq<(Crud.UserField, string)>) returns (w: User)
    ensures w == Crud.ApplyAll(u, items)
  {
    w := u;
    var k := 0;
    while k < |items|
      invariant 0 <= k <= |items|
      invariant w == Crud.ApplyAll(u, items[..k])
    {
      w := Crud.SetField(w, items[k].0, items[k].1);
      assert items[..k + 1][..k] == items[..k];
      k := k + 1;
    }
    assert items[..k] == items;
  }

  class AuthStore {
    var users: seq<User>
    var refreshTokens: seq<RefreshToken>
    var codes: seq<VerificationCode>

    /** Unique id, login and email per user; one verification-code row per
        user. */
    predicate Valid()
      reads this
    {
      UniqueUsers(users) && OneCodePerUser(codes)
    }

    constructor ()
      ensures Valid()
      ensures users == [] && refreshTokens == [] && codes == []
    {
      users, refreshTokens, codes := [], [], [];
    }

    // -------------------------------------------------------------------------
    // Users

    method CreateUser(login: string, email: string, password: string, ip: string, now: int,
                      newId: UserId, hash: string -> string) returns (r: Result<User>)
      requires Valid() && UserById(users, newId).None?
      modifies this
      ensures Valid()
      ensures (r, users) == Crud.CreateUser(old(users), login, email, password, ip, now, newId, hash)
      ensures refreshTokens == old(refreshTokens) && codes == old(codes)
    {
      if UserByLogin(users, login).Some? || UserByEmail(users, email).Some? {
        return Err(Crud.UniqueViolation);
      }
      var user := User(newId, login, email, hash(password), Unverified, ip, now);
      users := users + [user];
      r := Ok(user);
    }

    /** The `setattr` loop over the request's set fields, then the commit,
        which the unique constraints may refuse. */
    method UpdateUser(id: UserId, upd: Crud.UserUpdate) returns (r: Result<User>)
      requires Valid() && UserById(users, id).Some?
      modifies this
      ensures Valid()
      ensures (r, users) == Crud.UpdateUser(old(users), id, upd)
      ensures refreshTokens == old(refreshTokens) && codes == old(codes)
    {
      var i := Crud.UserIndex(users, id);
      var user := SetFields(users[i], Crud.Dump(upd));
      Crud.UpdateUserFields(users[i], upd);
      if Crud.Collides(users, i, user) {
        return Err(Crud.UniqueViolation);
      }
      Crud.UpdateUserSpec(users, id, upd);
      users := users[i := user];
      r := Ok(user);
    }

    /** update_user_status: the status of that user's row, nothing else. */
    method UpdateUserStatus(id: UserId, statusId: int)
      requires Valid() && UserById(users, id).Some?
      modifies this
      ensures Valid()
      ensures var i := Crud.UserIndex(old(users), id);
        users == old(users)[i := old(users)[i].(statusId := statusId)]
      ensures refreshTokens == old(refreshTokens) && codes == old(codes)
    {
      var i := Crud.UserIndex(users, id);
      users := users[i := users[i].(statusId := statusId)];
    }

    /** update_user_password: the given string is stored as it is, without
        hashing. */
    method UpdateUserPassword(id: UserId, newPassword: string)
      requires Valid() && UserById(users, id).Some?
      modifies this
      ensures Valid()
      ensures var i := Crud.UserIndex(old(users), id);
        users == old(users)[i := old(users)[i].(password := newPassword)]
      ensures refreshTokens == old(refreshTokens) && codes == old(codes)
    {
      var i := Crud.UserIndex(users, id);
      users := users[i := users[i].(password := newPassword)];
    }

    // -------------------------------------------------------------------------
    // Refresh tokens

    /** delete_refresh_token_for_user, as intended: one DELETE statement
        removing every row of the user with that value. */
    method DeleteRefreshTokenForUser(userId: UserId, value: string)
      modifies this
      ensures refreshTokens == Crud.WithoutToken(old(refreshTokens), userId, value)
      ensures users == old(users) && codes == old(codes)
    {
      refreshTokens := Crud.WithoutToken(refreshTokens, userId, value);
    }

    /** get_active_refresh_token, with the expired first row deleted. */
    method GetActiveRefreshToken(userId: UserId, now: int) returns (r: Option<RefreshToken>)
      modifies this
      ensures (r, refreshTokens) == Crud.ActiveRefreshToken(old(refreshTokens), userId, now)
      ensures users == old(users) && codes == old(codes)
    {
      var first := FirstMatch(refreshTokens, (t: RefreshToken) => t.userId == userId);
      if first.None? {
        return None;
      }
      var token := refreshTokens[first.value];
      if token.created + token.ttlSec > now {
        return Some(token);
      }
      DeleteRefreshTokenForUser(userId, token.value);
      r := None;
    }

    /** create_and_store_refresh_token: the token encoded for the user, issued
        now with a thirty-day lifetime, is appended and returned. */
    method CreateAndStoreRefreshToken(userId: UserId, now: int, encode: (UserId, int, int) -> string) returns (value: string)
      modifies this
      ensures (value, refreshTokens) == Utils.StoreRefreshToken(old(refreshTokens), userId, now, encode)
      ensures users == old(users) && codes == old(codes)
    {
      value := encode(userId, now, Utils.RefreshTtlSec);
      refreshTokens := refreshTokens + [RefreshToken(value, userId, Utils.RefreshTtlSec, now, false)];
    }

    // -------------------------------------------------------------------------
    // Verification codes

    /** create_verification_code: update the user's row or insert one. */
    method CreateVerificationCode(userId: UserId, code: string, now: int) returns (r: Result<VerificationCode>)
      requires Valid()
      modifies this
      ensures Valid()
      ensures (r, codes) == Crud.IssueCode(old(codes), userId, code, now)
      ensures users == old(users) && refreshTokens == old(refreshTokens)
    {
      Crud.IssueCodeSpec(codes, userId, code, now);
      var mine := Crud.CodesWhere(codes, (c: VerificationCode) => c.userId == userId);
      if |mine| > 1 {
        return Err(Crud.MultipleRows);
      }
      if |mine| == 1 {
        codes := Crud.ReplaceCode(codes, userId, code);
        return Ok(mine[0].(code := code));
      }
      var row := VerificationCode(userId, None, code, now);
      codes := codes + [row];
      r := Ok(row);
    }
  }
}
