/** The invitation and member-management handlers of
    backend/web/api/v1/teams/views.py. Each handler is a chain of guards, each
    raising an HTTP error, followed by a small change to the tables; here each
    is a function from the old tables to its outcome and the new tables. The
    store class in TeamsStore runs the same steps in place. */
module TeamsViews {
  import opened Common
  import opened TeamsModel
  import TeamsCrud

  const NotMemberToInvite := Http(403, "User is not a member of this team.")
  const CannotInvite := Http(403, "User does not have permission to invite others.")
  const InvitationNotFound := Http(404, "Invitation not found")
  const InvitationExpired := Http(400, "Invitation has expired")
  const InvitationInactive := Http(400, "Invitation is not active")
  const AlreadyMember := Http(400, "User is already a member of this team.")
  const CannotViewInvitations := Http(403, "You do not have permission to view invitations for this team.")
  const CannotToggle := Http(403, "You do not have permission to deactivate this invitation.")
  const CannotDelete := Http(403, "You do not have permission to delete this invitation.")
  const CallerNotMember := Http(403, "You are not a member of this team.")
  const CannotEditRoles := Http(403, "You do not have permission to edit user roles in this team.")
  const TargetNotMember := Http(404, "User not found in this team.")
  const CannotPromote := Http(403, "You do not have permission to promote this user to team owner.")
  const CannotChangeOwnRole := Http(403, "You cannot change your own role.")
  const CannotRemove := Http(403, "You do not have permission to remove users from this team.")
  const CannotRemoveSelf := Http(403, "You cannot remove yourself from this team.")
  const CannotEditSettings := Http(403, "You do not have permission to edit team settings.")
  const TeamNotFound := Http(404, "Team not found")
  /** Adding a link for a team row that no longer exists violates the foreign
      key of user_team_links.team_id. */
  const LinkWithoutTeam := Crash("IntegrityError")
  /** `get_team` returns a dict, and assigning `.title` to a dict raises. */
  const TitleOnDict := Crash("AttributeError")

  /** What a successful acceptance reports. */
  datatype AcceptReply = AcceptReply(teamId: TeamId, roleId: int, usersAccepted: nat)

  /** Past its lifetime: more than `ttlSec` seconds since creation. */
  predicate Expired(inv: Invitation, now: int) {
    now - inv.created > inv.ttlSec
  }

  /** The role test of every invitation and member-management guard: no link,
      or a role of 2 or less, is refused. */
  predicate ManagesTeam(db: TeamDb, user: UserId, team: TeamId) {
    RoleIn(db, user, team).Some? && RoleIn(db, user, team).value > Admin
  }

  /** create_team_invitation (views.py:120-136). New invitations are active and
      accepted by nobody yet. */
  function CreateInvitation(db: TeamDb, caller: UserId, team: TeamId, roleId: int, ttlSec: int, now: int, newId: InvitationId)
    : (Result<InvitationId>, TeamDb)
    requires newId !in db.invitations
  {
    var role := RoleIn(db, caller, team);
    if role.None? then (Err(NotMemberToInvite), db)
    else if role.value <= Admin then (Err(CannotInvite), db)
    else (Ok(newId), db.(invitations := db.invitations[newId := Invitation(team, roleId, caller, true, 0, ttlSec, now)]))
  }

  /** accept_team_invitation (views.py:156-194): lookup, expiry, activity,
      membership, in that order; then one link and one more acceptance. The
      active flag is left as it was. */
  function AcceptInvitation(db: TeamDb, caller: UserId, invId: InvitationId, now: int): (Result<AcceptReply>, TeamDb)
  {
    if invId !in db.invitations then (Err(InvitationNotFound), db)
    else
      var inv := db.invitations[invId];
      if Expired(inv, now) then (Err(InvitationExpired), db)
      else if !inv.isActive then (Err(InvitationInactive), db)
      else if RoleIn(db, caller, inv.teamId).Some? then (Err(AlreadyMember), db)
      else if inv.teamId !in db.teams then (Err(LinkWithoutTeam), db)
      else
        var accepted := inv.(usersAccepted := inv.usersAccepted + 1);
        (Ok(AcceptReply(inv.teamId, inv.roleId, accepted.usersAccepted)),
         db.(links := db.links[(caller, inv.teamId) := inv.roleId],
             invitations := db.invitations[invId := accepted]))
  }

  /** The invitations of one team. */
  function InvitationsOf(db: TeamDb, team: TeamId): map<InvitationId, Invitation> {
    map i | i in db.invitations && db.invitations[i].teamId == team :: db.invitations[i]
  }

  /** get_team_invitations (views.py:215-221); it changes nothing. */
  function ListInvitations(db: TeamDb, caller: UserId, team: TeamId): Result<map<InvitationId, Invitation>> {
    if !ManagesTeam(db, caller, team) then Err(CannotViewInvitations)
    else Ok(InvitationsOf(db, team))
  }

  /** The invitation with its active flag negated. */
  function Flipped(inv: Invitation): (r: Invitation)
    ensures r.isActive != inv.isActive && r.(isActive := inv.isActive) == inv
  {
    inv.(isActive := !inv.isActive)
  }

  /** toggle_invitation (views.py:242-252). */
  function ToggleInvitation(db: TeamDb, caller: UserId, invId: InvitationId): (Result<()>, TeamDb)
  {
    if invId !in db.invitations then (Err(InvitationNotFound), db)
    else if !ManagesTeam(db, caller, db.invitations[invId].teamId) then (Err(CannotToggle), db)
    else (Ok(()), db.(invitations := db.invitations[invId := Flipped(db.invitations[invId])]))
  }

  /** delete_invitation_endpoint (views.py:273-282). */
  function DeleteInvitation(db: TeamDb, caller: UserId, invId: InvitationId): (Result<()>, TeamDb)
  {
    if invId !in db.invitations then (Err(InvitationNotFound), db)
    else if !ManagesTeam(db, caller, db.invitations[invId].teamId) then (Err(CannotDelete), db)
    else (Ok(()), db.(invitations := db.invitations - {invId}))
  }

  /** update_user_role_in_team_endpoint (views.py:305-332). The second half of
      the source's permission test compares the link object itself with 2, is
      never true, and is left out. */
  function UpdateUserRole(db: TeamDb, caller: UserId, team: TeamId, target: UserId, roleId: int): (Result<()>, TeamDb)
  {
    var mine := RoleIn(db, caller, team);
    var theirs := RoleIn(db, target, team);
    if mine.None? then (Err(CallerNotMember), db)
    else if mine.value <= Admin then (Err(CannotEditRoles), db)
    else if theirs.None? then (Err(TargetNotMember), db)
    else if roleId == Owner && mine.value != Owner then (Err(CannotPromote), db)
    else if target == caller then (Err(CannotChangeOwnRole), db)
    else
      var links := if roleId == Owner && theirs.value == Owner then db.links[(caller, team) := Admin] else db.links;
      (Ok(()), db.(links := links[(target, team) := roleId]))
  }

  /** delete_user_from_team_endpoint (views.py:355-375). */
  function RemoveMember(db: TeamDb, caller: UserId, team: TeamId, target: UserId): (Result<()>, TeamDb)
  {
    var mine := RoleIn(db, caller, team);
    var theirs := RoleIn(db, target, team);
    if mine.None? then (Err(CallerNotMember), db)
    else if mine.value <= Admin then (Err(CannotRemove), db)
    else if theirs.None? then (Err(TargetNotMember), db)
    else if target == caller then (Err(CannotRemoveSelf), db)
    else (Ok(()), db.(links := db.links - {(target, team)}))
  }

  /** update_team_settings as written (views.py:398-408): past the guards the
      handler assigns `.title` on the dict that get_team returns, which raises,
      so nothing is stored. */
  function UpdateTeamSettingsAsWritten(db: TeamDb, caller: UserId, team: TeamId, title: string): (Result<()>, TeamDb)
  {
    var role := RoleIn(db, caller, team);
    if role.None? || role.value < Admin then (Err(CannotEditSettings), db)
    else if TeamsCrud.GetTeam(db, team).None? then (Err(TeamNotFound), db)
    else (Err(TitleOnDict), db)
  }

  /** update_team_settings as intended: the same guards, then the title of the
      team row becomes the requested one. */
  function UpdateTeamSettings(db: TeamDb, caller: UserId, team: TeamId, title: string): (Result<()>, TeamDb)
  {
    var role := RoleIn(db, caller, team);
    if role.None? || role.value < Admin then (Err(CannotEditSettings), db)
    else if TeamsCrud.GetTeam(db, team).None? then (Err(TeamNotFound), db)
    else (Ok(()), db.(teams := db.teams[team := db.teams[team].(title := title)]))
  }

  // ---------------------------------------------------------------------------
  // Properties of the invitation handlers

  /** Only a caller whose role in the team is above 2 creates an invitation;
      it records the team, role, inviter, lifetime and creation time. */
  lemma CreateInvitationSpec(db: TeamDb, caller: UserId, team: TeamId, roleId: int, ttlSec: int, now: int, newId: InvitationId)
    requires newId !in db.invitations
    ensures var (r, db') := CreateInvitation(db, caller, team, roleId, ttlSec, now, newId);
      && (r.Ok? <==> ManagesTeam(db, caller, team))
      && (RoleIn(db, caller, team).None? ==> r == Err(NotMemberToInvite))
      && (RoleIn(db, caller, team).Some? && RoleIn(db, caller, team).value <= Admin ==> r == Err(CannotInvite))
      && (r.Err? ==> db' == db)
      && (r.Ok? ==> r.value == newId && db'.teams == db.teams && db'.links == db.links
                    && db'.invitations == db.invitations[newId := Invitation(team, roleId, caller, true, 0, ttlSec, now)])
  {
  }

  /** The guards of accept_team_invitation, in the order they apply. An
      invitation both expired and inactive reports expiry; an invitation
      exactly `ttlSec` seconds old is not expired. */
  lemma AcceptGuardOrder(db: TeamDb, caller: UserId, invId: InvitationId, now: int)
    ensures var (r, db') := AcceptInvitation(db, caller, invId, now);
      && (r.Err? ==> db' == db)
      && (invId !in db.invitations ==> r == Err(InvitationNotFound))
      && (invId in db.invitations ==>
            var inv := db.invitations[invId];
            && (now - inv.created > inv.ttlSec ==> r == Err(InvitationExpired))
            && (now - inv.created <= inv.ttlSec && !inv.isActive ==> r == Err(InvitationInactive))
            && ((now - inv.created <= inv.ttlSec && inv.isActive && (caller, inv.teamId) in db.links)
                  ==> r == Err(AlreadyMember))
            && (r.Ok? <==> now - inv.created <= inv.ttlSec && inv.isActive
                           && (caller, inv.teamId) !in db.links && inv.teamId in db.teams))
  {
  }

  /** A successful acceptance adds exactly the link (caller, team, role of
      the invitation), counts one more acceptance, leaves the active flag and
      every other invitation as they were, and keeps the foreign key. */
  lemma AcceptEffect(db: TeamDb, caller: UserId, invId: InvitationId, now: int)
    requires Valid(db)
    requires AcceptInvitation(db, caller, invId, now).0.Ok?
    ensures var (r, db') := AcceptInvitation(db, caller, invId, now);
      var inv := db.invitations[invId];
      && Valid(db')
      && (caller, inv.teamId) !in db.links
      && db'.links == db.links[(caller, inv.teamId) := inv.roleId]
      && |db'.links| == |db.links| + 1
      && invId in db'.invitations
      && db'.invitations[invId].usersAccepted == inv.usersAccepted + 1
      && db'.invitations[invId].isActive == inv.isActive
      && db'.invitations[invId].(usersAccepted := inv.usersAccepted) == inv
      && (forall i | i != invId :: (i in db'.invitations <==> i in db.invitations))
      && (forall i | i != invId && i in db.invitations :: db'.invitations[i] == db.invitations[i])
      && db'.teams == db.teams
      && r.value == AcceptReply(inv.teamId, inv.roleId, inv.usersAccepted + 1)
  {
  }

  /** Accepting again while the invitation is still valid fails with "already
      a member", and the count does not move. */
  lemma AcceptTwice(db: TeamDb, caller: UserId, invId: InvitationId, now: int, later: int)
    requires AcceptInvitation(db, caller, invId, now).0.Ok?
    requires !Expired(db.invitations[invId], later)
    ensures var db1 := AcceptInvitation(db, caller, invId, now).1;
      AcceptInvitation(db1, caller, invId, later) == (Err(AlreadyMember), db1)
  {
  }

  /** An invitation an owner has just created can be accepted by any user who
      is not yet in the team, at any time within its lifetime; the team then
      lists that user with the invited role. */
  lemma CreatedInvitationIsAcceptable(db: TeamDb, owner: UserId, team: TeamId, roleId: int, ttlSec: int,
                                      now: int, newId: InvitationId, joiner: UserId, later: int)
    requires Valid(db) && newId !in db.invitations
    requires RoleIn(db, owner, team) == Some(Owner)
    requires (joiner, team) !in db.links
    requires now <= later <= now + ttlSec
    ensures var (created, db1) := CreateInvitation(db, owner, team, roleId, ttlSec, now, newId);
      var (accepted, db2) := AcceptInvitation(db1, joiner, newId, later);
      && created == Ok(newId)
      && accepted == Ok(AcceptReply(team, roleId, 1))
      && TeamsCrud.GetTeam(db2, team).Some?
      && Member(joiner, roleId) in TeamsCrud.GetTeam(db2, team).value.users
  {
  }

  /** The listing holds exactly the team's invitations, and only a caller whose
      role is above 2 sees it. */
  lemma ListInvitationsSpec(db: TeamDb, caller: UserId, team: TeamId)
    ensures var r := ListInvitations(db, caller, team);
      && (r.Err? <==> !ManagesTeam(db, caller, team))
      && (r.Err? ==> r == Err(CannotViewInvitations))
      && (r.Ok? ==> forall i :: i in r.value <==> i in db.invitations && db.invitations[i].teamId == team)
      && (r.Ok? ==> forall i | i in r.value :: r.value[i] == db.invitations[i])
  {
  }

  /** Toggling changes only the active flag of that invitation, and a second
      toggle by the same caller restores the tables. */
  lemma ToggleTwice(db: TeamDb, caller: UserId, invId: InvitationId)
    ensures var (r, db1) := ToggleInvitation(db, caller, invId);
      && (invId !in db.invitations ==> r == Err(InvitationNotFound))
      && (invId in db.invitations ==> (r.Ok? <==> ManagesTeam(db, caller, db.invitations[invId].teamId)))
      && (invId in db.invitations && r.Err? ==> r == Err(CannotToggle))
      && (r.Err? ==> db1 == db)
      && (r.Ok? ==> && db1.teams == db.teams && db1.links == db.links
                    && db1.invitations.Keys == db.invitations.Keys
                    && db1.invitations[invId].isActive == !db.invitations[invId].isActive
                    && (forall i | i in db.invitations && i != invId :: db1.invitations[i] == db.invitations[i])
                    && ToggleInvitation(db1, caller, invId) == (Ok(()), db))
  {
    var (r, db1) := ToggleInvitation(db, caller, invId);
    if r.Ok? {
      var inv := db.invitations[invId];
      assert db1.invitations[invId] == Flipped(inv);
      assert Flipped(Flipped(inv)) == inv;
      assert db1.invitations[invId := inv] == db.invitations;
    }
  }

  /** Deleting removes exactly that invitation; afterwards it is not found. */
  lemma DeleteInvitationSpec(db: TeamDb, caller: UserId, invId: InvitationId, now: int)
    ensures var (r, db1) := DeleteInvitation(db, caller, invId);
      && (invId !in db.invitations ==> r == Err(InvitationNotFound))
      && (invId in db.invitations ==> (r.Ok? <==> ManagesTeam(db, caller, db.invitations[invId].teamId)))
      && (invId in db.invitations && r.Err? ==> r == Err(CannotDelete))
      && (r.Err? ==> db1 == db)
      && (r.Ok? ==> && db1.teams == db.teams && db1.links == db.links
                    && db1.invitations.Keys == db.invitations.Keys - {invId}
                    && (forall i | i in db1.invitations :: db1.invitations[i] == db.invitations[i])
                    && AcceptInvitation(db1, caller, invId, now).0 == Err(InvitationNotFound))
  {
  }

  // ---------------------------------------------------------------------------
  // Properties of the member-management handlers

  /** The guards of a role change, in order: caller not a member (403), caller
      role 2 or less (403), target not a member (404), promotion to owner by a
      caller whose role is not exactly 3 (403), target is the caller (403). */
  lemma UpdateUserRoleGuards(db: TeamDb, caller: UserId, team: TeamId, target: UserId, roleId: int)
    ensures var (r, db1) := UpdateUserRole(db, caller, team, target, roleId);
      && (r.Err? ==> db1 == db)
      && ((caller, team) !in db.links ==> r == Err(CallerNotMember))
      && ((caller, team) in db.links && db.links[(caller, team)] <= Admin ==> r == Err(CannotEditRoles))
      && (ManagesTeam(db, caller, team) && (target, team) !in db.links ==> r == Err(TargetNotMember))
      && ((ManagesTeam(db, caller, team) && (target, team) in db.links && roleId == Owner
            && db.links[(caller, team)] != Owner) ==> r == Err(CannotPromote))
      && ((ManagesTeam(db, caller, team) && (target, team) in db.links && target == caller
            && (roleId != Owner || db.links[(caller, team)] == Owner)) ==> r == Err(CannotChangeOwnRole))
      && (r.Ok? <==> ManagesTeam(db, caller, team) && (target, team) in db.links && target != caller
                     && (roleId == Owner ==> db.links[(caller, team)] == Owner))
  {
  }

  /** After a role change the target holds the new role; the caller drops to
      2 exactly when the new role is 3 and the target already held 3; no other
      link changes and no link is added or removed. */
  lemma UpdateUserRoleEffect(db: TeamDb, caller: UserId, team: TeamId, target: UserId, roleId: int)
    requires Valid(db)
    requires UpdateUserRole(db, caller, team, target, roleId).0.Ok?
    ensures var db1 := UpdateUserRole(db, caller, team, target, roleId).1;
      && Valid(db1)
      && db1.links.Keys == db.links.Keys
      && db1.links[(target, team)] == roleId
      && db1.links[(caller, team)] == (if roleId == Owner && db.links[(target, team)] == Owner
                                       then Admin else db.links[(caller, team)])
      && (forall k | k in db.links && k != (target, team) && k != (caller, team) :: db1.links[k] == db.links[k])
      && db1.teams == db.teams && db1.invitations == db.invitations
  {
  }

  /** As written, an owner who promotes a member below role 3 to owner keeps
      role 3: the team then has two owners. */
  lemma PromotionKeepsTwoOwners(db: TeamDb, caller: UserId, team: TeamId, target: UserId)
    requires RoleIn(db, caller, team) == Some(Owner)
    requires target != caller && (target, team) in db.links && db.links[(target, team)] < Owner
    ensures var (r, db1) := UpdateUserRole(db, caller, team, target, Owner);
      r.Ok? && db1.links[(caller, team)] == Owner && db1.links[(target, team)] == Owner
  {
  }

  /** A caller of role 2 can change nobody's role: the `<= 2` guard refuses
      every admin, so only role 3 (or a larger stored role) gets through. */
  lemma AdminCannotEditRoles(db: TeamDb, caller: UserId, team: TeamId, target: UserId, roleId: int)
    requires RoleIn(db, caller, team) == Some(Admin)
    ensures UpdateUserRole(db, caller, team, target, roleId) == (Err(CannotEditRoles), db)
    ensures RemoveMember(db, caller, team, target) == (Err(CannotRemove), db)
  {
  }

  /** Member removal: the same guard order as a role change, then exactly the
      target's link goes and every other link stays. */
  lemma RemoveMemberSpec(db: TeamDb, caller: UserId, team: TeamId, target: UserId)
    requires Valid(db)
    ensures var (r, db1) := RemoveMember(db, caller, team, target);
      && Valid(db1)
      && (r.Err? ==> db1 == db)
      && ((caller, team) !in db.links ==> r == Err(CallerNotMember))
      && ((caller, team) in db.links && db.links[(caller, team)] <= Admin ==> r == Err(CannotRemove))
      && (ManagesTeam(db, caller, team) && (target, team) !in db.links ==> r == Err(TargetNotMember))
      && (ManagesTeam(db, caller, team) && target == caller ==> r == Err(CannotRemoveSelf))
      && (r.Ok? <==> ManagesTeam(db, caller, team) && (target, team) in db.links && target != caller)
      && (r.Ok? ==> && db1.links.Keys == db.links.Keys - {(target, team)}
                    && |db1.links| == |db.links| - 1
                    && (forall k | k in db1.links :: db1.links[k] == db.links[k])
                    && db1.teams == db.teams && db1.invitations == db.invitations)
  {
  }

  /** Renaming, as intended: a role of at least 2 passes (unlike the other
      handlers), a missing team is 404, and only the title changes. */
  lemma UpdateTeamSettingsSpec(db: TeamDb, caller: UserId, team: TeamId, title: string)
    requires Valid(db)
    ensures var (r, db1) := UpdateTeamSettings(db, caller, team, title);
      && Valid(db1)
      && (r.Err? ==> db1 == db)
      && (RoleIn(db, caller, team).None? || RoleIn(db, caller, team).value < Admin ==> r == Err(CannotEditSettings))
      && (r.Ok? <==> RoleIn(db, caller, team).Some? && RoleIn(db, caller, team).value >= Admin)
      && (r.Ok? ==> && db1.links == db.links && db1.invitations == db.invitations
                    && db1.teams.Keys == db.teams.Keys
                    && db1.teams[team] == db.teams[team].(title := title)
                    && (forall t | t in db.teams && t != team :: db1.teams[t] == db.teams[t]))
  {
  }

  /** As written, no call of update_team_settings changes anything, and every
      call that passes both guards fails where the intended handler succeeds. */
  lemma RenameAsWrittenNeverApplies(db: TeamDb, caller: UserId, team: TeamId, title: string)
    requires Valid(db)
    ensures UpdateTeamSettingsAsWritten(db, caller, team, title).1 == db
    ensures UpdateTeamSettings(db, caller, team, title).0.Ok? ==>
              UpdateTeamSettingsAsWritten(db, caller, team, title).0 == Err(TitleOnDict)
    ensures UpdateTeamSettings(db, caller, team, title).0.Err? ==>
              UpdateTeamSettingsAsWritten(db, caller, team, title) == UpdateTeamSettings(db, caller, team, title)
  {
  }
}
