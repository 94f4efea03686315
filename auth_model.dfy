/** The account tables of backend/db/models/users.py as rows in table order:
    users, refresh tokens and verification codes, with the lookups by key
    that the auth services run over them. */
module AuthModel {
  import opened Common

  /** A users row. Timestamps are integer seconds; `password` holds whatever
      the code stored there (a hash at registration, see AuthCrud). */
  datatype User = User(
    id: UserId,
    login: string,
    email: string,
    password: string,
    statusId: int,
    lastLoginIp: string,
    lastLoginDt: int)

  /** `users.status_id` of a new account. */
  const Unverified := 0

  /** A refresh_tokens row. `isAlive` is the column added by the migration;
      rows the code inserts leave it NULL, which no `== True` filter matches,
      so they carry false here. */
  datatype RefreshToken = RefreshToken(value: string, userId: UserId, ttlSec: int, created: int, isAlive: bool)

  /** A user_verification_codes row; `email` is the pending address of an
      email change, NULL for the codes this model issues. */
  datatype VerificationCode = VerificationCode(userId: UserId, email: Option<string>, code: string, created: int)

  /** The row's `created_dt + ttl_sec` lies strictly after `now`. */
  predicate TokenActive(t: RefreshToken, now: int) {
    t.created + t.ttlSec > now
  }

  /** Primary key and the two unique constraints of the users table. */
  predicate UniqueUsers(users: seq<User>) {
    forall i, j :: 0 <= i < j < |users| ==>
      users[i].id != users[j].id && users[i].login != users[j].login && users[i].email != users[j].email
  }

  /** At most one verification-code row per user: what `scalar_one_or_none`
      in create_verification_code needs to succeed. */
  predicate OneCodePerUser(codes: seq<VerificationCode>) {
    forall i, j :: 0 <= i < j < |codes| ==> codes[i].userId != codes[j].userId
  }

  /** The first user row satisfying `p`, in table order; None exactly when no
      row does. */
  function UserWhere(users: seq<User>, p: User -> bool): (r: Option<User>)
    ensures r.Some? ==> r.value in users && p(r.value)
    ensures r.None? <==> forall u | u in users :: !p(u)
  {
    match FirstMatch(users, p)
    case None => None
    case Some(i) => Some(users[i])
  }

  function UserById(users: seq<User>, id: UserId): Option<User> {
    UserWhere(users, (u: User) => u.id == id)
  }

  function UserByLogin(users: seq<User>, login: string): Option<User> {
    UserWhere(users, (u: User) => u.login == login)
  }

  function UserByEmail(users: seq<User>, email: string): Option<User> {
    UserWhere(users, (u: User) => u.email == email)
  }

  /** Under the unique constraints a row is the only one with its login. */
  lemma UniqueLogin(users: seq<User>, u: User, v: User)
    requires UniqueUsers(users) && u in users && v in users && u.login == v.login
    ensures u == v
  {
    var i :| 0 <= i < |users| && users[i] == u;
    var j :| 0 <= j < |users| && users[j] == v;
    assert i == j;
  }
}
