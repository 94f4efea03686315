/** backend/services/teams/crud.py: creating, reading, replacing and deleting a
    team, each as a function from the old tables to its result and the new
    tables, followed by the properties the module promises. */
module TeamsCrud {
  import opened Common
  import opened TeamsModel

  /** What `get_team` returns: the team row and its members as (user, role). */
  datatype TeamView = TeamView(teamId: TeamId, title: string, statusId: int, users: set<Member>)

  /** The body of PUT /team. */
  datatype UpdateTeamRequest = UpdateTeamRequest(teamId: TeamId, title: string, statusId: int, users: seq<Member>)

  const PermissionDenied := Http(403, "Permission denied")

  /** create_team: a team row with the given title and the creator's link at
      role 3. The new id is the UUID the database draws. */
  function CreateTeam(db: TeamDb, title: string, creator: UserId, newId: TeamId): (TeamId, TeamDb)
    requires FreshTeamId(db, newId)
  {
    (newId, db.(teams := db.teams[newId := Team(title, DefaultTeamStatus)],
                links := db.links[(creator, newId) := Owner]))
  }

  /** get_team: None for an unknown id, else the team with exactly the links
      of that team. */
  function GetTeam(db: TeamDb, team: TeamId): (r: Option<TeamView>)
    ensures r.None? <==> team !in db.teams
    ensures r.Some? ==> r.value.teamId == team && r.value.title == db.teams[team].title
                        && r.value.statusId == db.teams[team].statusId
    ensures r.Some? ==> forall m :: m in r.value.users <==>
                          (m.userId, team) in db.links && db.links[(m.userId, team)] == m.roleId
  {
    if team !in db.teams then None
    else
      var users := set k | k in db.links && k.1 == team :: Member(k.0, db.links[k]);
      assert forall u: UserId :: (u, team) in db.links ==> Member(u, db.links[(u, team)]) in users;
      Some(TeamView(team, db.teams[team].title, db.teams[team].statusId, users))
  }

  /** The re-insert loop of update_team: the links of `users`, added one after
      the other to `links` for team `team`. */
  function InsertMembers(links: map<(UserId, TeamId), int>, users: seq<Member>, team: TeamId): map<(UserId, TeamId), int>
    decreases |users|
  {
    if users == [] then links
    else
      var last := users[|users| - 1];
      InsertMembers(links, users[..|users| - 1], team)[(last.userId, team) := last.roleId]
  }

  predicate Lists(users: seq<Member>, u: UserId) {
    exists i :: 0 <= i < |users| && users[i].userId == u
  }

  predicate DistinctUsers(users: seq<Member>) {
    forall i, j :: 0 <= i < j < |users| ==> users[i].userId != users[j].userId
  }

  /** update_team: 403 unless the caller's link in the team has role 2 or 3;
      None when the team row does not exist; otherwise the new title and
      status, every link of the team replaced by the request's list, and the
      team as get_team reads it back. */
  function UpdateTeam(db: TeamDb, req: UpdateTeamRequest, caller: UserId): (Result<Option<TeamView>>, TeamDb)
  {
    var role := RoleIn(db, caller, req.teamId);
    if role.None? || (role.value != Admin && role.value != Owner) then (Err(PermissionDenied), db)
    else if req.teamId !in db.teams then (Ok(None), db)
    else
      var db' := db.(teams := db.teams[req.teamId := Team(req.title, req.statusId)],
                     links := InsertMembers(LinksOutside(db.links, req.teamId), req.users, req.teamId));
      (Ok(GetTeam(db', req.teamId)), db')
  }

  /** delete_team: 403 unless the caller's role is exactly 3; otherwise the
      team row goes, its links go with it (ON DELETE CASCADE), and the result
      says whether a row was removed. */
  function DeleteTeam(db: TeamDb, team: TeamId, caller: UserId): (Result<bool>, TeamDb)
  {
    var role := RoleIn(db, caller, team);
    if role.None? || role.value != Owner then (Err(PermissionDenied), db)
    else (Ok(team in db.teams), db.(teams := db.teams - {team}, links := LinksOutside(db.links, team)))
  }

  // ---------------------------------------------------------------------------
  // Properties

  lemma CreateTeamAddsOwner(db: TeamDb, title: string, creator: UserId, newId: TeamId)
    requires Valid(db) && FreshTeamId(db, newId)
    ensures var (id, db') := CreateTeam(db, title, creator, newId);
      && id == newId && Valid(db')
      && GetTeam(db', id) == Some(TeamView(id, title, DefaultTeamStatus, {Member(creator, Owner)}))
      && db'.invitations == db.invitations
      && (forall t | t != id :: GetTeam(db', t) == GetTeam(db, t))
  {
    var db' := CreateTeam(db, title, creator, newId).1;
    var v := GetTeam(db', newId).value;
    assert v.users == {Member(creator, Owner)};
    forall t | t != newId
      ensures GetTeam(db', t) == GetTeam(db, t)
    {
      if t in db.teams {
        assert GetTeam(db', t).value.users == GetTeam(db, t).value.users;
      }
    }
  }

  /** Links written by the re-insert loop: exactly the listed users of the
      team are added, each with its role when the list names users once, and
      every other link keeps its role. */
  lemma {:induction false} InsertMembersSpec(links: map<(UserId, TeamId), int>, users: seq<Member>, team: TeamId)
    ensures var r := InsertMembers(links, users, team);
      && (forall k :: k in r <==> k in links || (k.1 == team && Lists(users, k.0)))
      && (forall k | k in links && !(k.1 == team && Lists(users, k.0)) :: r[k] == links[k])
      && (DistinctUsers(users) ==> forall i | 0 <= i < |users| :: r[(users[i].userId, team)] == users[i].roleId)
    decreases |users|
  {
    if users != [] {
      var init := users[..|users| - 1];
      var last := users[|users| - 1];
      InsertMembersSpec(links, init, team);
      forall u ensures Lists(users, u) <==> Lists(init, u) || u == last.userId {
        if Lists(users, u) {
          var i :| 0 <= i < |users| && users[i].userId == u;
          if i < |users| - 1 { assert init[i] == users[i]; }
        }
        if Lists(init, u) {
          var i :| 0 <= i < |init| && init[i].userId == u;
          assert users[i] == init[i];
        }
      }
      if DistinctUsers(users) {
        assert DistinctUsers(init) by {
          forall i, j | 0 <= i < j < |init| ensures init[i].userId != init[j].userId {
            assert init[i] == users[i] && init[j] == users[j];
          }
        }
        forall i | 0 <= i < |users| - 1 ensures users[i].userId != last.userId && init[i] == users[i] { }
      }
    }
  }

  lemma UpdateTeamGuards(db: TeamDb, req: UpdateTeamRequest, caller: UserId)
    ensures var (r, db') := UpdateTeam(db, req, caller);
      && (r == Err(PermissionDenied) <==> RoleIn(db, caller, req.teamId) !in {Some(Admin), Some(Owner)})
      && (r == Ok(None) <==> RoleIn(db, caller, req.teamId) in {Some(Admin), Some(Owner)} && req.teamId !in db.teams)
      && (r.Err? || r == Ok(None) ==> db' == db)
  {
  }

  /** A permitted update of an existing team: its title and status are the
      request's, its members are exactly the request's list, the result is the
      team as read back, and nothing of any other team changes. */
  lemma UpdateTeamReplaces(db: TeamDb, req: UpdateTeamRequest, caller: UserId)
    requires Valid(db)
    requires RoleIn(db, caller, req.teamId) in {Some(Admin), Some(Owner)} && req.teamId in db.teams
    requires DistinctUsers(req.users)
    ensures var (r, db') := UpdateTeam(db, req, caller);
      && Valid(db')
      && r == Ok(GetTeam(db', req.teamId))
      && db'.teams[req.teamId] == Team(req.title, req.statusId)
      && (forall m :: m in GetTeam(db', req.teamId).value.users <==> m in req.users)
      && (forall t | t != req.teamId :: GetTeam(db', t) == GetTeam(db, t))
      && db'.invitations == db.invitations
  {
    var t := req.teamId;
    var kept := LinksOutside(db.links, t);
    var db' := UpdateTeam(db, req, caller).1;
    InsertMembersSpec(kept, req.users, t);
    forall m ensures m in GetTeam(db', t).value.users <==> m in req.users {
      if m in req.users {
        var i :| 0 <= i < |req.users| && req.users[i] == m;
        assert Lists(req.users, m.userId);
      }
      if (m.userId, t) in db'.links && db'.links[(m.userId, t)] == m.roleId {
        assert Lists(req.users, m.userId);
        var i :| 0 <= i < |req.users| && req.users[i].userId == m.userId;
        assert req.users[i] == m;
      }
    }
    forall t' | t' != t ensures GetTeam(db', t') == GetTeam(db, t') {
      if t' in db.teams {
        assert GetTeam(db', t').value.users == GetTeam(db, t').value.users;
      }
    }
  }

  /** delete_team: only an owner gets past the guard; afterwards the team
      reads as missing, none of its links is left, and other teams' rows and
      links are as they were. */
  lemma DeleteTeamRemoves(db: TeamDb, team: TeamId, caller: UserId)
    requires Valid(db)
    ensures var (r, db') := DeleteTeam(db, team, caller);
      && Valid(db')
      && (r.Err? <==> RoleIn(db, caller, team) != Some(Owner))
      && (r.Err? ==> r == Err(PermissionDenied) && db' == db)
      && (r.Ok? ==> r.value == (team in db.teams) && r.value
                    && GetTeam(db', team).None?
                    && (forall k | k in db'.links :: k.1 != team)
                    && (forall t | t != team :: GetTeam(db', t) == GetTeam(db, t)))
  {
    var (r, db') := DeleteTeam(db, team, caller);
    if r.Ok? {
      forall t | t != team ensures GetTeam(db', t) == GetTeam(db, t) {
        if t in db.teams {
          assert GetTeam(db', t).value.users == GetTeam(db, t).value.users;
        }
      }
    }
  }
}
