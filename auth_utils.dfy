/** backend/services/auth/utils.py: the login check, issuing a refresh token
    and checking one presented back. Password hashing and JWT encoding and
    decoding are passed in as functions. The encoder receives what
    create_refresh_token puts into a token: the subject, the issue time and the
    lifetime, from which it computes the `exp` claim. */
module AuthUtils {
  import opened Common
  import opened AuthModel
  import Crud = AuthCrud

  const InvalidCredentials := Http(401, "Invalid credentials")
  const InvalidToken := Http(401, "Invalid token")
  const UserNotFound := Http(401, "User not found")
  /** verify_token re-raises the library's decoding error. */
  const TokenUndecodable := Crash("JWTError")

  /** Thirty days, the lifetime given to every refresh token issued. */
  const RefreshTtlSec := 30 * 86400

  /** The payload of a decoded token; `sub` is absent when the token carries
      no subject. */
  datatype Claims = Claims(sub: Option<UserId>)

  /** authenticate_user: the id of the first user with that login whose
      stored hash accepts the password; anything else is the one 401. */
  function AuthenticateUser(users: seq<User>, login: string, password: string,
                            verify: (string, string) -> bool): (r: Result<UserId>)
    ensures r.Err? ==> r == Err(InvalidCredentials)
    ensures r.Ok? ==> exists u :: u in users && u.id == r.value && u.login == login && verify(password, u.password)
  {
    match FirstMatch(users, (u: User) => u.login == login)
    case None => Err(InvalidCredentials)
    case Some(i) =>
      if !verify(password, users[i].password) then Err(InvalidCredentials)
      else Ok(users[i].id)
  }

  /** With logins unique, the check succeeds exactly when the login exists and
      the password verifies against that user's hash, and then yields that
      user's id. */
  lemma AuthenticateUserSpec(users: seq<User>, login: string, password: string, verify: (string, string) -> bool)
    requires UniqueUsers(users)
    ensures var r := AuthenticateUser(users, login, password, verify);
      && (r.Ok? <==> exists u :: u in users && u.login == login && verify(password, u.password))
      && (r.Ok? ==> UserByLogin(users, login).Some? && r.value == UserByLogin(users, login).value.id)
  {
    var r := AuthenticateUser(users, login, password, verify);
    var found := UserByLogin(users, login);
    if u :| u in users && u.login == login && verify(password, u.password) {
      UniqueLogin(users, u, found.value);
    }
    if r.Ok? {
      var u :| u in users && u.id == r.value && u.login == login && verify(password, u.password);
      UniqueLogin(users, u, found.value);
    }
  }

  /** An unknown login and a wrong password get the same answer. */
  lemma CredentialsIndistinguishable(users: seq<User>, unknown: string, u: User, wrong: string,
                                     verify: (string, string) -> bool)
    requires UniqueUsers(users)
    requires forall v | v in users :: v.login != unknown
    requires u in users && !verify(wrong, u.password)
    ensures AuthenticateUser(users, unknown, wrong, verify) == AuthenticateUser(users, u.login, wrong, verify)
  {
    AuthenticateUserSpec(users, u.login, wrong, verify);
    forall v | v in users && v.login == u.login ensures v == u {
      UniqueLogin(users, u, v);
    }
  }

  /** The number of refresh-token rows of a user. */
  function CountFor(rows: seq<RefreshToken>, userId: UserId): nat {
    if rows == [] then 0
    else (if rows[0].userId == userId then 1 else 0) + CountFor(rows[1..], userId)
  }

  lemma {:induction false} CountForAppend(rows: seq<RefreshToken>, more: seq<RefreshToken>, userId: UserId)
    ensures CountFor(rows + more, userId) == CountFor(rows, userId) + CountFor(more, userId)
  {
    if rows == [] {
      assert rows + more == more;
    } else {
      assert (rows + more)[1..] == rows[1..] + more;
      CountForAppend(rows[1..], more, userId);
    }
  }

  /** create_and_store_refresh_token: the token encoded for the user, issued
      now with a thirty-day lifetime, is appended as a row created now (its
      `is_alive` left unset) and returned. */
  function StoreRefreshToken(rows: seq<RefreshToken>, userId: UserId, now: int,
                             encode: (UserId, int, int) -> string): (string, seq<RefreshToken>)
  {
    var value := encode(userId, now, RefreshTtlSec);
    (value, rows + [RefreshToken(value, userId, RefreshTtlSec, now, false)])
  }

  /** The returned value is the stored one and is the token encoded for this
      user at this issue time with a lifetime of 2592000 seconds; the row lives
      that long and is active until then, earlier rows are all kept, and only
      this user's count of tokens grows, by exactly one. */
  lemma StoreRefreshTokenSpec(rows: seq<RefreshToken>, userId: UserId, now: int, encode: (UserId, int, int) -> string)
    ensures var (value, rows') := StoreRefreshToken(rows, userId, now, encode);
      && value == encode(userId, now, 2592000)
      && |rows'| == |rows| + 1 && rows'[..|rows|] == rows
      && rows'[|rows|].value == value && rows'[|rows|].userId == userId
      && rows'[|rows|].ttlSec == 2592000 && rows'[|rows|].created == now
      && (forall t | now <= t :: TokenActive(rows'[|rows|], t) <==> t < now + 2592000)
      && CountFor(rows', userId) == CountFor(rows, userId) + 1
      && (forall other | other != userId :: CountFor(rows', other) == CountFor(rows, other))
  {
    var (value, rows') := StoreRefreshToken(rows, userId, now, encode);
    var row := rows'[|rows|];
    assert rows' == rows + [row];
    CountForAppend(rows, [row], userId);
    assert [row][1..] == [];
    forall other | other != userId ensures CountFor(rows', other) == CountFor(rows, other) {
      CountForAppend(rows, [row], other);
    }
  }

  /** Assuming the two issue times give two different tokens (their `exp`
      claims differ): once the first has expired and the second has not, one
      lookup deletes the expired row and leaves the later one, which the next
      lookup returns. */
  lemma ExpiredFirstLeavesLater(rows: seq<RefreshToken>, userId: UserId, t0: int, t1: int, now: int,
                                encode: (UserId, int, int) -> string)
    requires forall t | t in rows :: t.userId != userId
    requires encode(userId, t0, RefreshTtlSec) != encode(userId, t1, RefreshTtlSec)
    requires t0 + RefreshTtlSec <= now < t1 + RefreshTtlSec
    ensures var rows1 := StoreRefreshToken(rows, userId, t0, encode).1;
      var rows2 := StoreRefreshToken(rows1, userId, t1, encode).1;
      var (found, rows3) := Crud.ActiveRefreshToken(rows2, userId, now);
      && found.None?
      && Crud.ActiveRefreshToken(rows3, userId, now) == (Some(rows2[|rows| + 1]), rows3)
  {
    var rows1 := StoreRefreshToken(rows, userId, t0, encode).1;
    var rows2 := StoreRefreshToken(rows1, userId, t1, encode).1;
    var first := rows1[|rows|];
    var later := rows2[|rows| + 1];
    assert rows1 == rows + [first] && rows2 == rows1 + [later];
    OnlyTokenOf(rows1, userId, first);
    FirstMatchAppend(rows1, [later], (t: RefreshToken) => t.userId == userId);
    assert Crud.FirstTokenOf(rows2, userId) == Some(first);
    var rows3 := Crud.ActiveRefreshToken(rows2, userId, now).1;
    assert multiset(rows3)[later] == multiset(rows2)[later] > 0;
    OnlyTokenOf(rows3, userId, later);
  }

  /** A row that is the user's only one is the user's first. */
  lemma OnlyTokenOf(rows: seq<RefreshToken>, userId: UserId, x: RefreshToken)
    requires x in rows && x.userId == userId
    requires forall t | t in rows && t.userId == userId :: t == x
    ensures Crud.FirstTokenOf(rows, userId) == Some(x)
  {
  }

  /** verify_refresh_token: decode the token, require a subject, require a
      stored row with exactly this value marked alive, then return the first
      user whose id is the subject. */
  function VerifyRefreshToken(users: seq<User>, rows: seq<RefreshToken>, token: string,
                              decode: string -> Option<Claims>): (r: Result<User>)
    ensures r.Err? ==> r.failure in {TokenUndecodable, InvalidToken, UserNotFound}
    ensures r.Ok? ==> r.value in users && decode(token).Some? && decode(token).value.sub == Some(r.value.id)
  {
    match decode(token)
    case None => Err(TokenUndecodable)
    case Some(claims) =>
      if claims.sub.None? then Err(InvalidToken)
      else if FirstMatch(rows, (t: RefreshToken) => t.value == token && t.isAlive).None? then Err(InvalidToken)
      else match FirstMatch(users, (u: User) => u.id == claims.sub.value)
        case None => Err(UserNotFound)
        case Some(i) => Ok(users[i])
  }

  /** The three checks in their order, each answered as the source answers
      it, and success exactly when all three pass. */
  lemma VerifyRefreshTokenSpec(users: seq<User>, rows: seq<RefreshToken>, token: string, decode: string -> Option<Claims>)
    ensures var r := VerifyRefreshToken(users, rows, token, decode);
      var alive := exists t :: t in rows && t.value == token && t.isAlive;
      && (decode(token).None? ==> r == Err(TokenUndecodable))
      && (decode(token).Some? && decode(token).value.sub.None? ==> r == Err(InvalidToken))
      && (decode(token).Some? && decode(token).value.sub.Some? && !alive ==> r == Err(InvalidToken))
      && (decode(token).Some? && decode(token).value.sub.Some? && alive ==>
            (r == Err(UserNotFound) <==> UserById(users, decode(token).value.sub.value).None?))
      && (r.Ok? <==> decode(token).Some? && decode(token).value.sub.Some? && alive
                     && UserById(users, decode(token).value.sub.value).Some?)
      && (r.Ok? ==> r.value.id == decode(token).value.sub.value)
  {
  }

  /** Rows are only ever inserted with `is_alive` unset, so a table filled by
      StoreRefreshToken alone makes every presented token fail. */
  lemma StoredTokensNeverVerify(users: seq<User>, rows: seq<RefreshToken>, token: string, decode: string -> Option<Claims>)
    requires forall t | t in rows :: !t.isAlive
    ensures VerifyRefreshToken(users, rows, token, decode).Err?
  {
  }

  /** The row found is never compared with the subject: a live row of another
      user whose stored value decodes to this subject still lets the subject
      through. Only such a row shows the gap; create_and_store_refresh_token
      never stores one, since it stores each token under its own subject. */
  lemma RowOwnerNotChecked(users: seq<User>, rows: seq<RefreshToken>, token: string,
                           decode: string -> Option<Claims>, u: User)
    requires decode(token) == Some(Claims(Some(u.id))) && UserById(users, u.id).Some?
    requires exists t :: t in rows && t.value == token && t.isAlive && t.userId != u.id
    ensures VerifyRefreshToken(users, rows, token, decode).Ok?
  {
    VerifyRefreshTokenSpec(users, rows, token, decode);
  }
}
