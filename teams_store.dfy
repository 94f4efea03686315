/** The team tables as one in-memory store, with every handler of
    backend/services/teams/crud.py and backend/web/api/v1/teams/views.py as a
    method that runs its guards and then changes the store in place. Each
    method is proved to do what the matching function of TeamsCrud or
    TeamsViews specifies, and to keep the foreign key of the links. */
module TeamsStore {
  import opened Common
  import opened TeamsModel
  import Crud = TeamsCrud
  import Views = TeamsViews

  class TeamStore {
    var teams: map<TeamId, Team>
    var links: map<(UserId, TeamId), int>
    var invitations: map<InvitationId, Invitation>

    function Db(): TeamDb
      reads this
    {
      TeamDb(teams, links, invitations)
    }

    constructor ()
      ensures Valid(Db())
      ensures teams == map[] && links == map[] && invitations == map[]
    {
      teams, links, invitations := map[], map[], map[];
    }

    // -------------------------------------------------------------------------
    // backend/services/teams/crud.py

    method CreateTeam(title: string, creator: UserId, newId: TeamId) returns (id: TeamId)
      requires Valid(Db()) && FreshTeamId(Db(), newId)
      modifies this
      ensures Valid(Db())
      ensures (id, Db()) == Crud.CreateTeam(old(Db()), title, creator, newId)
    {
      teams := teams[newId := Team(title, DefaultTeamStatus)];
      links := links[(creator, newId) := Owner];
      id := newId;
    }

    /** Permission check, row update, delete-all of the team's links and the
        re-insert loop over the request's users. */
    method UpdateTeam(req: Crud.UpdateTeamRequest, caller: UserId) returns (r: Result<Option<Crud.TeamView>>)
      requires Valid(Db())
      modifies this
      ensures Valid(Db())
      ensures (r, Db()) == Crud.UpdateTeam(old(Db()), req, caller)
    {
      var role := RoleIn(Db(), caller, req.teamId);
      if role.None? || (role.value != Admin && role.value != Owner) {
        return Err(Crud.PermissionDenied);
      }
      if req.teamId !in teams {
        return Ok(None);
      }
      teams := teams[req.teamId := Team(req.title, req.statusId)];
      links := LinksOutside(links, req.teamId);
      ghost var kept, updated := links, teams;
      var i := 0;
      while i < |req.users|
        invariant 0 <= i <= |req.users|
        invariant teams == updated && invitations == old(invitations)
        invariant links == Crud.InsertMembers(kept, req.users[..i], req.teamId)
        invariant forall k | k in links :: k.1 in teams
      {
        var user := req.users[i];
        links := links[(user.userId, req.teamId) := user.roleId];
        assert req.users[..i + 1][..i] == req.users[..i];
        i := i + 1;
      }
      assert req.users[..i] == req.users;
      r := Ok(Crud.GetTeam(Db(), req.teamId));
    }

    method DeleteTeam(team: TeamId, caller: UserId) returns (r: Result<bool>)
      requires Valid(Db())
      modifies this
      ensures Valid(Db())
      ensures (r, Db()) == Crud.DeleteTeam(old(Db()), team, caller)
    {
      var role := RoleIn(Db(), caller, team);
      if role.None? || role.value != Owner {
        return Err(Crud.PermissionDenied);
      }
      var existed := team in teams;
      teams := teams - {team};
      links := LinksOutside(links, team);
      r := Ok(existed);
    }

    // -------------------------------------------------------------------------
    // backend/web/api/v1/teams/views.py

    method CreateInvitation(caller: UserId, team: TeamId, roleId: int, ttlSec: int, now: int, newId: InvitationId)
      returns (r: Result<InvitationId>)
      requires Valid(Db()) && newId !in invitations
      modifies this
      ensures Valid(Db())
      ensures (r, Db()) == Views.CreateInvitation(old(Db()), caller, team, roleId, ttlSec, now, newId)
    {
      var role := RoleIn(Db(), caller, team);
      if role.None? {
        return Err(Views.NotMemberToInvite);
      }
      if role.value <= Admin {
        return Err(Views.CannotInvite);
      }
      invitations := invitations[newId := Invitation(team, roleId, caller, true, 0, ttlSec, now)];
      r := Ok(newId);
    }

    method AcceptInvitation(caller: UserId, invId: InvitationId, now: int) returns (r: Result<Views.AcceptReply>)
      requires Valid(Db())
      modifies this
      ensures Valid(Db())
      ensures (r, Db()) == Views.AcceptInvitation(old(Db()), caller, invId, now)
    {
      if invId !in invitations {
        return Err(Views.InvitationNotFound);
      }
      var invitation := invitations[invId];
      var role := RoleIn(Db(), caller, invitation.teamId);
      if now - invitation.created > invitation.ttlSec {
        return Err(Views.InvitationExpired);
      }
      if !invitation.isActive {
        return Err(Views.InvitationInactive);
      }
      if role.Some? {
        return Err(Views.AlreadyMember);
      }
      if invitation.teamId !in teams {
        return Err(Views.LinkWithoutTeam);
      }
      links := links[(caller, invitation.teamId) := invitation.roleId];
      invitation := invitation.(usersAccepted := invitation.usersAccepted + 1);
      invitations := invitations[invId := invitation];
      r := Ok(Views.AcceptReply(invitation.teamId, invitation.roleId, invitation.usersAccepted));
    }

    /** Reads the store and changes nothing. */
    method ListInvitations(caller: UserId, team: TeamId) returns (r: Result<map<InvitationId, Invitation>>)
      ensures r == Views.ListInvitations(Db(), caller, team)
    {
      var role := RoleIn(Db(), caller, team);
      if role.None? || role.value <= Admin {
        return Err(Views.CannotViewInvitations);
      }
      r := Ok(map i | i in invitations && invitations[i].teamId == team :: invitations[i]);
    }

    method ToggleInvitation(caller: UserId, invId: InvitationId) returns (r: Result<()>)
      requires Valid(Db())
      modifies this
      ensures Valid(Db())
      ensures (r, Db()) == Views.ToggleInvitation(old(Db()), caller, invId)
    {
      if invId !in invitations {
        return Err(Views.InvitationNotFound);
      }
      var invitation := invitations[invId];
      var role := RoleIn(Db(), caller, invitation.teamId);
      if role.None? || role.value <= Admin {
        return Err(Views.CannotToggle);
      }
      invitations := invitations[invId := invitation.(isActive := !invitation.isActive)];
      r := Ok(());
    }

    method DeleteInvitation(caller: UserId, invId: InvitationId) returns (r: Result<()>)
      requires Valid(Db())
      modifies this
      ensures Valid(Db())
      ensures (r, Db()) == Views.DeleteInvitation(old(Db()), caller, invId)
    {
      if invId !in invitations {
        return Err(Views.InvitationNotFound);
      }
      var role := RoleIn(Db(), caller, invitations[invId].teamId);
      if role.None? || role.value <= Admin {
        return Err(Views.CannotDelete);
      }
      invitations := invitations - {invId};
      r := Ok(());
    }

    method UpdateUserRole(caller: UserId, team: TeamId, target: UserId, roleId: int) returns (r: Result<()>)
      requires Valid(Db())
      modifies this
      ensures Valid(Db())
      ensures (r, Db()) == Views.UpdateUserRole(old(Db()), caller, team, target, roleId)
    {
      var mine := RoleIn(Db(), caller, team);
      var theirs := RoleIn(Db(), target, team);
      if mine.None? {
        return Err(Views.CallerNotMember);
      }
      if mine.value <= Admin {
        return Err(Views.CannotEditRoles);
      }
      if theirs.None? {
        return Err(Views.TargetNotMember);
      }
      if roleId == Owner && mine.value != Owner {
        return Err(Views.CannotPromote);
      }
      if target == caller {
        return Err(Views.CannotChangeOwnRole);
      }
      if roleId == Owner && theirs.value == Owner {
        links := links[(caller, team) := Admin];
      }
      links := links[(target, team) := roleId];
      r := Ok(());
    }

    method RemoveMember(caller: UserId, team: TeamId, target: UserId) returns (r: Result<()>)
      requires Valid(Db())
      modifies this
      ensures Valid(Db())
      ensures (r, Db()) == Views.RemoveMember(old(Db()), caller, team, target)
    {
      var mine := RoleIn(Db(), caller, team);
      var theirs := RoleIn(Db(), target, team);
      if mine.None? {
        return Err(Views.CallerNotMember);
      }
      if mine.value <= Admin {
        return Err(Views.CannotRemove);
      }
      if theirs.None? {
        return Err(Views.TargetNotMember);
      }
      if target == caller {
        return Err(Views.CannotRemoveSelf);
      }
      links := links - {(target, team)};
      r := Ok(());
    }

    /** The rename as intended; the handler as written never stores the title
        (Views.UpdateTeamSettingsAsWritten). */
    method UpdateTeamSettings(caller: UserId, team: TeamId, title: string) returns (r: Result<()>)
      requires Valid(Db())
      modifies this
      ensures Valid(Db())
      ensures (r, Db()) == Views.UpdateTeamSettings(old(Db()), caller, team, title)
    {
      var role := RoleIn(Db(), caller, team);
      if role.None? || role.value < Admin {
        return Err(Views.CannotEditSettings);
      }
      if team !in teams {
        return Err(Views.TeamNotFound);
      }
      teams := teams[team := teams[team].(title := title)];
      r := Ok(());
    }
  }
}
