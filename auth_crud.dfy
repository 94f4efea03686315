/** backend/services/auth/crud.py over the account tables: user creation and
    updates, the lazy expiry of refresh tokens, and the per-user verification
    code. Each operation is a function from the old table to its result and
    the new table; AuthStore runs them in place. */
module AuthCrud {
  import opened Common
  import opened AuthModel

  /** A unique constraint (login, email) rejecting the commit. */
  const UniqueViolation := Crash("IntegrityError")
  /** `scalar_one_or_none` meeting more than one row. */
  const MultipleRows := Crash("MultipleResultsFound")

  // ---------------------------------------------------------------------------
  // Users

  /** create_user: a row with the given login and email, the hash of the
      password, the client's address and the current time as last login, and
      the column default status. The id is the UUID the database draws; a
      taken login or email fails the commit. */
  function CreateUser(users: seq<User>, login: string, email: string, password: string, ip: string, now: int,
                      newId: UserId, hash: string -> string): (r: (Result<User>, seq<User>))
    requires UserById(users, newId).None?
    ensures r.0.Err? <==> UserByLogin(users, login).Some? || UserByEmail(users, email).Some?
    ensures r.0.Err? ==> r.0 == Err(UniqueViolation) && r.1 == users
    ensures r.0.Ok? ==> r.1 == users + [r.0.value]
                        && r.0.value == User(newId, login, email, hash(password), Unverified, ip, now)
    ensures UniqueUsers(users) ==> UniqueUsers(r.1)
  {
    if UserByLogin(users, login).Some? || UserByEmail(users, email).Some? then (Err(UniqueViolation), users)
    else
      var user := User(newId, login, email, hash(password), Unverified, ip, now);
      (Ok(user), users + [user])
  }

  /** The fields of the update schema, in declaration order. Only the first
      three are columns of the users table. */
  datatype UserField = Login | Email | Password | CurrentPassword | FirstName | LastName

  /** The update schema; None marks a field the request left unset. */
  datatype UserUpdate = UserUpdate(
    login: Option<string>,
    email: Option<string>,
    password: Option<string>,
    currentPassword: Option<string>,
    firstName: Option<string>,
    lastName: Option<string>)

  function FieldOf(upd: UserUpdate, f: UserField): Option<string> {
    match f
    case Login => upd.login
    case Email => upd.email
    case Password => upd.password
    case CurrentPassword => upd.currentPassword
    case FirstName => upd.firstName
    case LastName => upd.lastName
  }

  function Entry(f: UserField, v: Option<string>): seq<(UserField, string)> {
    if v.Some? then [(f, v.value)] else []
  }

  /** `model_dump(exclude_unset=True).items()`: the set fields with their
      values, each field once, in declaration order. */
  function Dump(upd: UserUpdate): (r: seq<(UserField, string)>)
    ensures forall f: UserField, v :: (f, v) in r <==> FieldOf(upd, f) == Some(v)
  {
    Entry(Login, upd.login) + Entry(Email, upd.email) + Entry(Password, upd.password)
    + Entry(CurrentPassword, upd.currentPassword) + Entry(FirstName, upd.firstName) + Entry(LastName, upd.lastName)
  }

  /** `setattr(user, key, value)` as far as the stored row goes: the three
      mapped columns take the value; the other names only become attributes
      of the Python object and never reach the table. */
  function SetField(u: User, f: UserField, v: string): User {
    match f
    case Login => u.(login := v)
    case Email => u.(email := v)
    case Password => u.(password := v)
    case _ => u
  }

  /** The `setattr` loop over the listed pairs, taken in order. */
  function ApplyAll(u: User, items: seq<(UserField, string)>): User
    decreases |items|
  {
    if items == [] then u
    else
      var last := items[|items| - 1];
      SetField(ApplyAll(u, items[..|items| - 1]), last.0, last.1)
  }

  /** The row an update should leave: each set column takes the request's
      value and every other column keeps its own. */
  function Updated(u: User, upd: UserUpdate): User {
    u.(login := upd.login.GetOr(u.login),
       email := upd.email.GetOr(u.email),
       password := upd.password.GetOr(u.password))
  }

  lemma {:induction false} ApplyAllAppend(u: User, a: seq<(UserField, string)>, b: seq<(UserField, string)>)
    ensures ApplyAll(u, a + b) == ApplyAll(ApplyAll(u, a), b)
    decreases |b|
  {
    if b != [] {
      assert (a + b)[..|a + b| - 1] == a + b[..|b| - 1];
      ApplyAllAppend(u, a, b[..|b| - 1]);
    } else {
      assert a + b == a;
    }
  }

  lemma ApplyEntry(u: User, f: UserField, v: Option<string>)
    ensures ApplyAll(u, Entry(f, v)) == if v.Some? then SetField(u, f, v.value) else u
  {
    if v.Some? {
      assert Entry(f, v)[..0] == [];
    }
  }

  /** update_user changes exactly the columns the request sets, to the
      request's values; id, status and last-login data stay as they were. */
  lemma UpdateUserFields(u: User, upd: UserUpdate)
    ensures ApplyAll(u, Dump(upd)) == Updated(u, upd)
    ensures var w := ApplyAll(u, Dump(upd));
      && w.id == u.id && w.statusId == u.statusId
      && w.lastLoginIp == u.lastLoginIp && w.lastLoginDt == u.lastLoginDt
      && (upd.login.None? ==> w.login == u.login) && (upd.login.Some? ==> w.login == upd.login.value)
      && (upd.email.None? ==> w.email == u.email) && (upd.email.Some? ==> w.email == upd.email.value)
      && (upd.password.None? ==> w.password == u.password) && (upd.password.Some? ==> w.password == upd.password.value)
  {
    var e1, e2, e3 := Entry(Login, upd.login), Entry(Email, upd.email), Entry(Password, upd.password);
    var e4, e5, e6 := Entry(CurrentPassword, upd.currentPassword), Entry(FirstName, upd.firstName), Entry(LastName, upd.lastName);
    ApplyAllAppend(u, e1 + e2 + e3 + e4 + e5, e6);
    ApplyAllAppend(u, e1 + e2 + e3 + e4, e5);
    ApplyAllAppend(u, e1 + e2 + e3, e4);
    ApplyAllAppend(u, e1 + e2, e3);
    ApplyAllAppend(u, e1, e2);
    var u1 := ApplyAll(u, e1);
    ApplyEntry(u, Login, upd.login);
    ApplyEntry(u1, Email, upd.email);
    var u2 := ApplyAll(u1, e2);
    ApplyEntry(u2, Password, upd.password);
    var u3 := ApplyAll(u2, e3);
    ApplyEntry(u3, CurrentPassword, upd.currentPassword);
    ApplyEntry(u3, FirstName, upd.firstName);
    ApplyEntry(u3, LastName, upd.lastName);
  }

  /** Where the user with id `id` sits in the table. */
  function UserIndex(users: seq<User>, id: UserId): (i: nat)
    requires UserById(users, id).Some?
    ensures i < |users| && users[i].id == id
  {
    FirstMatch(users, (u: User) => u.id == id).value
  }

  /** Some other row already holds the login or the email of `u`. */
  predicate Collides(users: seq<User>, i: nat, u: User) {
    exists j :: 0 <= j < |users| && j != i && (users[j].login == u.login || users[j].email == u.email)
  }

  /** update_user on the stored row of user `id`: the updated row, unless
      the new login or email belongs to another row and the commit fails. */
  function UpdateUser(users: seq<User>, id: UserId, upd: UserUpdate): (Result<User>, seq<User>)
    requires UserById(users, id).Some?
  {
    var i := UserIndex(users, id);
    var u := Updated(users[i], upd);
    if Collides(users, i, u) then (Err(UniqueViolation), users) else (Ok(u), users[i := u])
  }

  /** An update either fails on a clash with another row and changes nothing,
      or rewrites only that user's row, to the request's columns; the unique
      constraints hold afterwards. */
  lemma UpdateUserSpec(users: seq<User>, id: UserId, upd: UserUpdate)
    requires UniqueUsers(users) && UserById(users, id).Some?
    ensures var (r, users') := UpdateUser(users, id, upd);
      var before := UserById(users, id).value;
      && UniqueUsers(users')
      && (r.Err? <==> exists v :: v in users && v.id != id
                                  && (v.login == Updated(before, upd).login || v.email == Updated(before, upd).email))
      && (r.Err? ==> r == Err(UniqueViolation) && users' == users)
      && (r.Ok? ==> r.value == Updated(before, upd) && |users'| == |users|
                    && UserById(users', id) == Some(r.value)
                    && forall k | 0 <= k < |users| && users[k].id != id :: users'[k] == users[k])
  {
    var i := UserIndex(users, id);
    var before := users[i];
    var u := Updated(before, upd);
    var (r, users') := UpdateUser(users, id, upd);
    forall k | 0 <= k < |users| && k != i ensures users[k].id != id {
      if k < i { assert users[k].id != users[i].id; } else { assert users[i].id != users[k].id; }
    }
    if Collides(users, i, u) {
      var j :| 0 <= j < |users| && j != i && (users[j].login == u.login || users[j].email == u.email);
      assert users[j] in users && users[j].id != id;
    } else {
      forall v | v in users && v.id != id ensures v.login != u.login && v.email != u.email {
        var j :| 0 <= j < |users| && users[j] == v;
      }
      assert UserById(users', id) == Some(u) by {
        assert users'[i] == u;
        assert FirstMatch(users', (w: User) => w.id == id) == Some(i);
      }
    }
  }

  // ---------------------------------------------------------------------------
  // Refresh tokens

  /** The first row of the user's tokens, `.first()` in table order. */
  function FirstTokenOf(rows: seq<RefreshToken>, userId: UserId): (r: Option<RefreshToken>)
    ensures r.None? <==> forall t | t in rows :: t.userId != userId
    ensures r.Some? ==> exists i :: 0 <= i < |rows| && rows[i] == r.value && r.value.userId == userId
                                    && forall j :: 0 <= j < i ==> rows[j].userId != userId
  {
    match FirstMatch(rows, (t: RefreshToken) => t.userId == userId)
    case None => None
    case Some(i) => Some(rows[i])
  }

  /** The table without the rows of `userId` carrying `value`: the delete of
      delete_refresh_token_for_user. */
  function WithoutToken(rows: seq<RefreshToken>, userId: UserId, value: string): (r: seq<RefreshToken>)
    ensures forall t | t in r :: t in rows && !(t.userId == userId && t.value == value)
    ensures forall t: RefreshToken | !(t.userId == userId && t.value == value) :: multiset(r)[t] == multiset(rows)[t]
    ensures |r| <= |rows|
    ensures forall t | t in rows && t.userId == userId && t.value == value :: |r| < |rows|
  {
    if rows == [] then []
    else
      var rest := WithoutToken(rows[1..], userId, value);
      assert rows == [rows[0]] + rows[1..];
      if rows[0].userId == userId && rows[0].value == value then rest else [rows[0]] + rest
  }

  /** get_active_refresh_token with the expired row deleted, as the function
      intends: the user's first token when it is still active; otherwise
      None, and an expired first token is deleted first. */
  function ActiveRefreshToken(rows: seq<RefreshToken>, userId: UserId, now: int): (r: (Option<RefreshToken>, seq<RefreshToken>))
    ensures var first := FirstTokenOf(rows, userId);
      && (r.0.Some? <==> first.Some? && TokenActive(first.value, now))
      && (r.0.Some? ==> r.0 == first && r.1 == rows)
      && (first.None? ==> r.1 == rows)
      && (first.Some? && !TokenActive(first.value, now) ==>
            && first.value !in r.1
            && |r.1| < |rows|
            && forall t: RefreshToken | !(t.userId == userId && t.value == first.value.value) :: multiset(r.1)[t] == multiset(rows)[t])
  {
    match FirstMatch(rows, (t: RefreshToken) => t.userId == userId)
    case None => (None, rows)
    case Some(i) =>
      if TokenActive(rows[i], now) then (Some(rows[i]), rows)
      else
        assert rows[i] in rows;
        (None, WithoutToken(rows, userId, rows[i].value))
  }

  /** get_active_refresh_token as written: the expired path calls
      delete_refresh_token_for_user, whose `select(...).delete()` does not
      exist on a select statement, so that path raises and deletes nothing. */
  function ActiveRefreshTokenAsWritten(rows: seq<RefreshToken>, userId: UserId, now: int)
    : (r: (Result<Option<RefreshToken>>, seq<RefreshToken>))
    ensures r.1 == rows
    ensures r.0.Ok? ==> r.0.value == ActiveRefreshToken(rows, userId, now).0
  {
    match FirstMatch(rows, (t: RefreshToken) => t.userId == userId)
    case None => (Ok(None), rows)
    case Some(i) =>
      if TokenActive(rows[i], now) then (Ok(Some(rows[i])), rows)
      else (Err(Crash("AttributeError")), rows)
  }

  /** The discrepancy: once the user's first token has expired, the code as
      written raises on every call and the row stays, so the lookup never
      succeeds again; the intended version returns None and removes it. */
  lemma ExpiredTokenAsWritten(rows: seq<RefreshToken>, userId: UserId, now: int)
    requires FirstTokenOf(rows, userId).Some? && !TokenActive(FirstTokenOf(rows, userId).value, now)
    ensures ActiveRefreshTokenAsWritten(rows, userId, now) == (Err(Crash("AttributeError")), rows)
    ensures forall later | later >= now :: ActiveRefreshTokenAsWritten(rows, userId, later).0.Err?
    ensures ActiveRefreshToken(rows, userId, now).0.None?
    ensures FirstTokenOf(rows, userId).value !in ActiveRefreshToken(rows, userId, now).1
  {
  }

  /** Only the first row counts: an expired first token hides a live token
      appended after it, which is only reached once the expired row is gone. */
  lemma ExpiredFirstHidesNewer(rows: seq<RefreshToken>, userId: UserId, newer: RefreshToken, now: int)
    requires FirstTokenOf(rows, userId).Some? && !TokenActive(FirstTokenOf(rows, userId).value, now)
    requires newer.userId == userId && TokenActive(newer, now)
    ensures ActiveRefreshToken(rows + [newer], userId, now).0.None?
  {
    FirstMatchAppend(rows, [newer], (t: RefreshToken) => t.userId == userId);
  }

  // ---------------------------------------------------------------------------
  // Verification codes

  /** A code is accepted for 15 minutes after its row was created. */
  const CodeWindowSec := 15 * 60

  /** The rows satisfying `p`, in table order. */
  function CodesWhere(codes: seq<VerificationCode>, p: VerificationCode -> bool): (r: seq<VerificationCode>)
    ensures forall c :: c in r <==> c in codes && p(c)
    ensures |r| <= |codes|
    ensures (forall c | c in codes :: !p(c)) ==> r == []
  {
    if codes == [] then []
    else (if p(codes[0]) then [codes[0]] else []) + CodesWhere(codes[1..], p)
  }

  /** With one row per user, a filter on the user finds at most one row. */
  lemma {:induction false} AtMostOneOf(codes: seq<VerificationCode>, userId: UserId, p: VerificationCode -> bool)
    requires OneCodePerUser(codes)
    requires forall c | p(c) :: c.userId == userId
    ensures |CodesWhere(codes, p)| <= 1
  {
    if codes != [] {
      assert OneCodePerUser(codes[1..]) by {
        forall i, j | 0 <= i < j < |codes[1..]| ensures codes[1..][i].userId != codes[1..][j].userId {
          assert codes[1..][i] == codes[i + 1] && codes[1..][j] == codes[j + 1];
        }
      }
      AtMostOneOf(codes[1..], userId, p);
      if p(codes[0]) {
        forall c | c in codes[1..] ensures !p(c) {
          var j :| 0 <= j < |codes[1..]| && codes[1..][j] == c;
          assert codes[j + 1] == c;
        }
        assert CodesWhere(codes[1..], p) == [];
      }
    }
  }

  /** The `UPDATE ... WHERE user_id = ... SET code = ...` statement: every
      row of the user gets the new code and keeps everything else. */
  function ReplaceCode(codes: seq<VerificationCode>, userId: UserId, code: string): (r: seq<VerificationCode>)
    ensures |r| == |codes|
    ensures forall i | 0 <= i < |r| ::
      r[i].userId == codes[i].userId && r[i].email == codes[i].email && r[i].created == codes[i].created
    ensures forall i | 0 <= i < |r| :: r[i].code == (if codes[i].userId == userId then code else codes[i].code)
    ensures forall c | c in r && c.userId != userId :: c in codes
    ensures OneCodePerUser(codes) ==> OneCodePerUser(r)
  {
    seq(|codes|, i requires 0 <= i < |codes| => if codes[i].userId == userId then codes[i].(code := code) else codes[i])
  }

  /** create_verification_code: the user's row with the new code, or a new
      row created now when the user has none. */
  function IssueCode(codes: seq<VerificationCode>, userId: UserId, code: string, now: int)
    : (Result<VerificationCode>, seq<VerificationCode>)
  {
    var mine := CodesWhere(codes, (c: VerificationCode) => c.userId == userId);
    if |mine| > 1 then (Err(MultipleRows), codes)
    else if |mine| == 1 then (Ok(mine[0].(code := code)), ReplaceCode(codes, userId, code))
    else
      var row := VerificationCode(userId, None, code, now);
      (Ok(row), codes + [row])
  }

  /** Issuing a code never fails while users have one row each, keeps them at
      one row each, replaces only the code of an existing row (its creation
      time stays), inserts exactly one row otherwise, and leaves other users'
      rows alone. */
  lemma IssueCodeSpec(codes: seq<VerificationCode>, userId: UserId, code: string, now: int)
    requires OneCodePerUser(codes)
    ensures var (r, codes') := IssueCode(codes, userId, code, now);
      && r.Ok? && r.value in codes' && r.value.userId == userId && r.value.code == code
      && OneCodePerUser(codes')
      && (forall i | 0 <= i < |codes| && codes[i].userId != userId :: codes'[i] == codes[i])
      && ((exists c :: c in codes && c.userId == userId) ==>
            |codes'| == |codes| && forall i | 0 <= i < |codes| && codes[i].userId == userId :: codes'[i] == codes[i].(code := code))
      && ((forall c | c in codes :: c.userId != userId) ==>
            codes' == codes + [VerificationCode(userId, None, code, now)])
  {
    var p := (c: VerificationCode) => c.userId == userId;
    AtMostOneOf(codes, userId, p);
    var mine := CodesWhere(codes, p);
    var (r, codes') := IssueCode(codes, userId, code, now);
    if |mine| == 1 {
      assert mine[0] in mine;
      var k :| 0 <= k < |codes| && codes[k] == mine[0];
      assert codes'[k] == r.value;
    } else {
      assert forall c | c in codes :: c.userId != userId;
      forall i, j | 0 <= i < j < |codes'| ensures codes'[i].userId != codes'[j].userId {
        if j == |codes| { assert codes[i] in codes; }
      }
    }
  }

  /** The row lookup of get_verification_code: the user's row with that code
      created less than 15 minutes before `now`. */
  predicate CodeAccepted(c: VerificationCode, userId: UserId, code: string, now: int) {
    c.userId == userId && c.code == code && c.created > now - CodeWindowSec
  }

  /** get_verification_code with the creation column the table has. */
  function GetVerificationCode(codes: seq<VerificationCode>, userId: UserId, code: string, now: int)
    : Result<Option<VerificationCode>>
  {
    var hits := CodesWhere(codes, (c: VerificationCode) => CodeAccepted(c, userId, code, now));
    if |hits| > 1 then Err(MultipleRows)
    else if |hits| == 1 then Ok(Some(hits[0]))
    else Ok(None)
  }

  /** get_verification_code as written filters on `created_at`, an attribute
      the mapped class does not have (its column is `created_dt`), so building
      the query raises on every call. */
  function GetVerificationCodeAsWritten(codes: seq<VerificationCode>, userId: UserId, code: string, now: int)
    : (r: Result<Option<VerificationCode>>)
    ensures r.Err? && r.failure.Crash?
  {
    Err(Crash("AttributeError"))
  }

  /** The lookup succeeds exactly for a row of the user with that code created
      strictly less than 900 seconds ago, and returns that row. */
  lemma GetVerificationCodeSpec(codes: seq<VerificationCode>, userId: UserId, code: string, now: int)
    requires OneCodePerUser(codes)
    ensures var r := GetVerificationCode(codes, userId, code, now);
      && r.Ok?
      && (r.value.Some? <==> exists c :: c in codes && CodeAccepted(c, userId, code, now))
      && (r.value.Some? ==> r.value.value in codes && CodeAccepted(r.value.value, userId, code, now))
  {
    var p := (c: VerificationCode) => CodeAccepted(c, userId, code, now);
    AtMostOneOf(codes, userId, p);
    var hits := CodesWhere(codes, p);
    if |hits| == 1 {
      assert hits[0] in hits;
    }
  }

  /** A wrong code and an expired right code are answered alike. */
  lemma WrongAndExpiredLookAlike(codes: seq<VerificationCode>, row: VerificationCode, other: string, now: int)
    requires OneCodePerUser(codes) && row in codes
    requires other != row.code && now >= row.created + CodeWindowSec
    ensures GetVerificationCode(codes, row.userId, other, now) == Ok(None)
    ensures GetVerificationCode(codes, row.userId, row.code, now) == Ok(None)
    ensures GetVerificationCode(codes, row.userId, other, row.created) == Ok(None)
  {
    OnlyRowOf(codes, row);
    GetVerificationCodeSpec(codes, row.userId, other, now);
    GetVerificationCodeSpec(codes, row.userId, row.code, now);
    GetVerificationCodeSpec(codes, row.userId, other, row.created);
  }

  lemma OnlyRowOf(codes: seq<VerificationCode>, row: VerificationCode)
    requires OneCodePerUser(codes) && row in codes
    ensures forall c | c in codes && c.userId == row.userId :: c == row
  {
    forall c | c in codes && c.userId == row.userId ensures c == row {
      var i :| 0 <= i < |codes| && codes[i] == c;
      var j :| 0 <= j < |codes| && codes[j] == row;
      assert i == j;
    }
  }

  /** The window is strict: a new code is accepted up to 899 seconds after it
      was issued and refused from 900 seconds on. */
  lemma FreshCodeWindow(codes: seq<VerificationCode>, userId: UserId, code: string, now: int, t: int)
    requires OneCodePerUser(codes) && forall c | c in codes :: c.userId != userId
    ensures var (r, codes') := IssueCode(codes, userId, code, now);
      && r.Ok?
      && (GetVerificationCode(codes', userId, code, t) == Ok(Some(r.value)) <==> t < now + CodeWindowSec)
  {
    IssueCodeSpec(codes, userId, code, now);
    var (r, codes') := IssueCode(codes, userId, code, now);
    GetVerificationCodeSpec(codes', userId, code, t);
    OnlyRowOf(codes', r.value);
  }

  /** Reissuing keeps the old row's creation time, so a code reissued 900
      seconds or more after the row was created is refused at once. */
  lemma ReissueKeepsStaleTimestamp(codes: seq<VerificationCode>, row: VerificationCode, code: string, now: int)
    requires OneCodePerUser(codes) && row in codes
    requires now >= row.created + CodeWindowSec
    ensures var (r, codes') := IssueCode(codes, row.userId, code, now);
      && r == Ok(row.(code := code))
      && GetVerificationCode(codes', row.userId, code, now) == Ok(None)
  {
    OnlyRowOf(codes, row);
    IssueCodeSpec(codes, row.userId, code, now);
    var (r, codes') := IssueCode(codes, row.userId, code, now);
    OnlyRowOf(codes', r.value);
    var k :| 0 <= k < |codes| && codes[k] == row;
    assert codes'[k] == row.(code := code);
    GetVerificationCodeSpec(codes', row.userId, code, now);
  }

  /** The discrepancy: the query as written raises where the lookup on the
      real column accepts a code issued a moment ago. */
  lemma CodeLookupAsWritten(codes: seq<VerificationCode>, userId: UserId, code: string, now: int)
    requires OneCodePerUser(codes) && forall c | c in codes :: c.userId != userId
    ensures var (r, codes') := IssueCode(codes, userId, code, now);
      && r.Ok? && GetVerificationCode(codes', userId, code, now) == Ok(Some(r.value))
      && GetVerificationCodeAsWritten(codes', userId, code, now).Err?
  {
    FreshCodeWindow(codes, userId, code, now, now);
  }
}
