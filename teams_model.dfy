/** The team tables (backend/db/models/teams.py and the invitation table used by
    the team handlers), held as one value so that each handler can be specified
    as a function from the old tables to the new ones. */
module TeamsModel {
  import opened Common

  type TeamId = nat
  type InvitationId = nat

  /** Roles of a link: 0 read, 1 edit, 2 admin, 3 owner. Nothing in the code
      bounds the stored integer, so the model keeps it an `int`. */
  const Admin := 2
  const Owner := 3

  /** `status_id` of a team created without one. */
  const DefaultTeamStatus := 1

  datatype Team = Team(title: string, statusId: int)

  /** One entry of a team's `users` list: a user and the role of its link. */
  datatype Member = Member(userId: UserId, roleId: int)

  /** An invitation link: the team and role it grants, who issued it, whether
      it is active, how many users accepted it, and its lifetime in seconds
      counted from `created` (integer seconds on the store's clock). */
  datatype Invitation = Invitation(
    teamId: TeamId,
    roleId: int,
    invitingUserId: UserId,
    isActive: bool,
    usersAccepted: nat,
    ttlSec: int,
    created: int)

  /** teams: id -> (title, status); links: (user, team) -> role;
      invitations: id -> invitation. */
  datatype TeamDb = TeamDb(
    teams: map<TeamId, Team>,
    links: map<(UserId, TeamId), int>,
    invitations: map<InvitationId, Invitation>)

  /** The foreign key of `user_team_links.team_id`: every link names a team
      that exists. */
  predicate Valid(db: TeamDb) {
    forall k | k in db.links :: k.1 in db.teams
  }

  /** `get_user_role_in_team`: the caller's role in a team, or None when the
      caller has no link there. */
  function RoleIn(db: TeamDb, user: UserId, team: TeamId): Option<int> {
    if (user, team) in db.links then Some(db.links[(user, team)]) else None
  }

  /** A freshly drawn UUID: no team, link or invitation refers to it yet. */
  predicate FreshTeamId(db: TeamDb, id: TeamId) {
    && id !in db.teams
    && (forall k | k in db.links :: k.1 != id)
    && (forall i | i in db.invitations :: db.invitations[i].teamId != id)
  }

  /** The links of every team but `team`. */
  function LinksOutside(links: map<(UserId, TeamId), int>, team: TeamId): map<(UserId, TeamId), int> {
    map k | k in links && k.1 != team :: links[k]
  }

  /** What deleting a team's links does to the tables: dropping the team row
      with them keeps the link foreign key; a link of that team written
      before the delete leaves no trace; a link of another team is kept
      with its role; and a second delete changes nothing. */
  lemma LinksOutsideSpec(db: TeamDb, team: TeamId, k: (UserId, TeamId), role: int)
    ensures Valid(db) ==> Valid(db.(teams := db.teams - {team}, links := LinksOutside(db.links, team)))
    ensures k.1 == team ==> LinksOutside(db.links[k := role], team) == LinksOutside(db.links, team)
    ensures k.1 != team ==> LinksOutside(db.links[k := role], team) == LinksOutside(db.links, team)[k := role]
    ensures LinksOutside(LinksOutside(db.links, team), team) == LinksOutside(db.links, team)
  {
  }
}
