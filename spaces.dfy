/** Spaces, their members and invitations (apps/api/src/spaces/spaces.service.ts): who may
    see a space, who may manage its members, and the invitation lifecycle PENDING ->
    ACCEPTED or EXPIRED. Generated ids and tokens (`randomUUID`) and the clock are inputs;
    time is an integer number of milliseconds. */
module Spaces {
  import opened Wrappers

  type UserId = string
  type SpaceId = string

  datatype Role = OWNER | ADMIN | EDITOR | VIEWER

  datatype Space = Space(id: SpaceId, name: string, ownerId: UserId, isPublic: bool)

  /** The permission table, keyed by its unique `(userId, spaceId)` pair. */
  type Permissions = map<(UserId, SpaceId), Role>

  datatype InvitationStatus = PENDING | ACCEPTED | EXPIRED

  datatype Invitation = Invitation(
    id: string,
    spaceId: SpaceId,
    email: Option<string>,
    role: Role,
    inviterId: UserId,
    token: string,
    expiresAt: int,
    status: InvitationStatus)

  /** What `checkPermission` returns. */
  datatype Access = Access(isOwner: bool, role: Role)

  /** `checkPermission` (lines 161-183): a missing space raises NotFound; the owner passes
      as OWNER whatever the required roles; anyone else passes, with their role, only
      when they hold a permission whose role is required, and otherwise Forbidden. */
  function CheckPermission(spaces: map<SpaceId, Space>, perms: Permissions, spaceId: SpaceId,
                           userId: UserId, required: seq<Role>): (r: Result<Access>)
    ensures spaceId !in spaces <==> r == Err(NotFound)
    ensures spaceId in spaces && spaces[spaceId].ownerId == userId ==> r == Ok(Access(true, OWNER))
    ensures spaceId in spaces && spaces[spaceId].ownerId != userId ==>
      (r.Ok? <==> (userId, spaceId) in perms && perms[(userId, spaceId)] in required) &&
      (r.Ok? ==> r.value == Access(false, perms[(userId, spaceId)])) &&
      (r.Err? ==> r.error == Forbidden)
  {
    if spaceId !in spaces then Err(NotFound)
    else if spaces[spaceId].ownerId == userId then Ok(Access(true, OWNER))
    else if (userId, spaceId) !in perms || perms[(userId, spaceId)] !in required then Err(Forbidden)
    else Ok(Access(false, perms[(userId, spaceId)]))
  }

  /** A caller that passes a check holds one of the required roles, or owns the space. */
  lemma CheckPermissionGrantsRequired(spaces: map<SpaceId, Space>, perms: Permissions, spaceId: SpaceId,
                                      userId: UserId, required: seq<Role>)
    requires CheckPermission(spaces, perms, spaceId, userId, required).Ok?
    ensures var a := CheckPermission(spaces, perms, spaceId, userId, required).value;
      a.isOwner <==> spaces[spaceId].ownerId == userId
    ensures var a := CheckPermission(spaces, perms, spaceId, userId, required).value;
      !a.isOwner ==> a.role in required && perms[(userId, spaceId)] == a.role
  {
  }

  /** `myRole` (lines 77-83 and 126): OWNER for the owner, otherwise the user's permission
      role, otherwise null. */
  function MyRole(space: Space, perms: Permissions, userId: UserId): (r: Option<Role>)
    ensures space.ownerId == userId ==> r == Some(OWNER)
    ensures space.ownerId != userId && (userId, space.id) in perms ==> r == Some(perms[(userId, space.id)])
    ensures r.None? <==> space.ownerId != userId && (userId, space.id) !in perms
  {
    if space.ownerId == userId then Some(OWNER)
    else if (userId, space.id) in perms then Some(perms[(userId, space.id)])
    else None
  }

  /** A space as `findOne` returns it. */
  datatype SpaceView = SpaceView(space: Space, myRole: Option<Role>)

  /** `findOne` (lines 97-127): a missing space raises NotFound; a private space is
      Forbidden to a user who is neither a member nor the owner. */
  function FindOne(spaces: map<SpaceId, Space>, perms: Permissions, id: SpaceId, userId: UserId)
    : (r: Result<SpaceView>)
    requires forall k :: k in spaces ==> spaces[k].id == k
    ensures id !in spaces <==> r == Err(NotFound)
    ensures id in spaces ==>
      var s := spaces[id];
      (r == Err(Forbidden) <==> !s.isPublic && (userId, id) !in perms && s.ownerId != userId) &&
      (r.Ok? ==> r.value == SpaceView(s, MyRole(s, perms, userId)))
  {
    if id !in spaces then Err(NotFound)
    else
      var s := spaces[id];
      var isMember := (userId, id) in perms;
      var isOwner := s.ownerId == userId;
      if !s.isPublic && !isMember && !isOwner then Err(Forbidden)
      else Ok(SpaceView(s, MyRole(s, perms, userId)))
  }

  /** A user who may open a private space has a role in it. */
  lemma PrivateSpaceViewHasRole(spaces: map<SpaceId, Space>, perms: Permissions, id: SpaceId, userId: UserId)
    requires forall k :: k in spaces ==> spaces[k].id == k
    requires FindOne(spaces, perms, id, userId).Ok? && !spaces[id].isPublic
    ensures FindOne(spaces, perms, id, userId).value.myRole.Some?
  {
  }

  /** `findAll` (lines 54-84): the spaces the user owns or is a member of, each with the
      user's role there. The listing's order (most recently updated first) is not modelled. */
  function FindAll(spaces: map<SpaceId, Space>, perms: Permissions, userId: UserId): (r: map<SpaceId, Option<Role>>)
    ensures forall k :: k in r <==> k in spaces && (spaces[k].ownerId == userId || (userId, spaces[k].id) in perms)
    ensures forall k :: k in r ==> r[k] == MyRole(spaces[k], perms, userId)
  {
    map k | k in spaces && (spaces[k].ownerId == userId || (userId, spaces[k].id) in perms) :: MyRole(spaces[k], perms, userId)
  }

  /** Every listed space has a role: a user who is listed is never given `null`. */
  lemma FindAllRolesDefined(spaces: map<SpaceId, Space>, perms: Permissions, userId: UserId, k: SpaceId)
    requires k in FindAll(spaces, perms, userId)
    ensures FindAll(spaces, perms, userId)[k].Some?
  {
  }

  /** `remove` (lines 143-157): a missing space raises NotFound and only the owner may
      delete a space. */
  function RemoveCheck(spaces: map<SpaceId, Space>, id: SpaceId, userId: UserId): (r: Outcome)
    ensures id !in spaces <==> r == Fail(NotFound)
    ensures r.Pass? <==> id in spaces && spaces[id].ownerId == userId
    ensures r.Fail? && r.error != NotFound ==> r.error == Forbidden
  {
    if id !in spaces then Fail(NotFound)
    else if spaces[id].ownerId != userId then Fail(Forbidden)
    else Pass
  }

  /** Whether a permission row, if any, has OWNER or ADMIN: `targetMember?.role === ...`. */
  predicate IsManager(perms: Permissions, userId: UserId, spaceId: SpaceId) {
    (userId, spaceId) in perms && perms[(userId, spaceId)] in {OWNER, ADMIN}
  }

  const Managers: seq<Role> := [OWNER, ADMIN]

  /** The checks of `updateMemberRole` (lines 215-254), in their order: the caller must be
      the owner or hold OWNER or ADMIN; a caller whose role is ADMIN (and who is not the
      owner) can neither grant OWNER or ADMIN nor change a member who is already OWNER or
      ADMIN; the space must exist; and the owner's own role can never be changed. */
  function MemberRoleChange(spaces: map<SpaceId, Space>, perms: Permissions, spaceId: SpaceId,
                            targetUserId: UserId, role: Role, currentUserId: UserId): (r: Outcome)
    ensures var c := CheckPermission(spaces, perms, spaceId, currentUserId, Managers);
      c.Err? ==> r == Fail(c.error)
    ensures r.Pass? <==>
      spaceId in spaces &&
      var space := spaces[spaceId];
      space.ownerId != targetUserId &&
      (space.ownerId == currentUserId ||
       ((currentUserId, spaceId) in perms && perms[(currentUserId, spaceId)] == OWNER) ||
       ((currentUserId, spaceId) in perms && perms[(currentUserId, spaceId)] == ADMIN &&
        role !in {OWNER, ADMIN} && !IsManager(perms, targetUserId, spaceId)))
  {
    var c := CheckPermission(spaces, perms, spaceId, currentUserId, Managers);
    if c.Err? then Fail(c.error)
    else if !c.value.isOwner && c.value.role == ADMIN && (role == OWNER || role == ADMIN) then Fail(Forbidden)
    else if !c.value.isOwner && c.value.role == ADMIN && IsManager(perms, targetUserId, spaceId) then Fail(Forbidden)
    else if spaceId !in spaces then Fail(NotFound)
    else if spaces[spaceId].ownerId == targetUserId then Fail(Forbidden)
    else Pass
  }

  /** Nobody, not even the owner, can change the owner's role. */
  lemma OwnerRoleIsFixed(spaces: map<SpaceId, Space>, perms: Permissions, spaceId: SpaceId,
                         role: Role, currentUserId: UserId)
    requires spaceId in spaces
    ensures MemberRoleChange(spaces, perms, spaceId, spaces[spaceId].ownerId, role, currentUserId).Fail?
  {
  }

  /** An ADMIN who is not the owner can never make anyone OWNER or ADMIN. */
  lemma AdminCannotPromote(spaces: map<SpaceId, Space>, perms: Permissions, spaceId: SpaceId,
                           targetUserId: UserId, role: Role, currentUserId: UserId)
    requires spaceId in spaces && spaces[spaceId].ownerId != currentUserId
    requires (currentUserId, spaceId) in perms && perms[(currentUserId, spaceId)] == ADMIN
    requires role == OWNER || role == ADMIN
    ensures MemberRoleChange(spaces, perms, spaceId, targetUserId, role, currentUserId) == Fail(Forbidden)
  {
  }

  /** The checks of `removeMember` (lines 260-293), in their order: the caller must be the
      owner or hold OWNER or ADMIN; the space must exist; the owner can never be removed;
      and a caller whose role is ADMIN (and who is not the owner) cannot remove an OWNER or
      ADMIN. */
  function MemberRemoval(spaces: map<SpaceId, Space>, perms: Permissions, spaceId: SpaceId,
                         targetUserId: UserId, currentUserId: UserId): (r: Outcome)
    ensures var c := CheckPermission(spaces, perms, spaceId, currentUserId, Managers);
      c.Err? ==> r == Fail(c.error)
    ensures r.Pass? <==>
      spaceId in spaces &&
      var space := spaces[spaceId];
      space.ownerId != targetUserId &&
      (space.ownerId == currentUserId ||
       ((currentUserId, spaceId) in perms && perms[(currentUserId, spaceId)] == OWNER) ||
       ((currentUserId, spaceId) in perms && perms[(currentUserId, spaceId)] == ADMIN &&
        !IsManager(perms, targetUserId, spaceId)))
  {
    var c := CheckPermission(spaces, perms, spaceId, currentUserId, Managers);
    if c.Err? then Fail(c.error)
    else if spaceId !in spaces then Fail(NotFound)
    else if spaces[spaceId].ownerId == targetUserId then Fail(Forbidden)
    else if !c.value.isOwner && c.value.role == ADMIN && IsManager(perms, targetUserId, spaceId) then Fail(Forbidden)
    else Pass
  }

  /** The owner can never be removed from their space. */
  lemma OwnerIsNeverRemoved(spaces: map<SpaceId, Space>, perms: Permissions, spaceId: SpaceId, currentUserId: UserId)
    requires spaceId in spaces
    ensures MemberRemoval(spaces, perms, spaceId, spaces[spaceId].ownerId, currentUserId).Fail?
  {
  }

  /** `expiresAt.setDate(expiresAt.getDate() + 7)`, as a fixed number of milliseconds. */
  const InvitationLifetime: int := 7 * 24 * 60 * 60 * 1000

  /** The invitation `createInvitation` reuses: one with the same space and email, looked
      up only when an email is given. */
  predicate Reusable(inv: Invitation, spaceId: SpaceId, email: Option<string>) {
    Truthy(email) && inv.spaceId == spaceId && inv.email == email
  }

  /** What `joinSpace` does with an invitation, decided in the source's order. */
  datatype JoinStep =
    | Reject(error: Error)
    | MarkExpired
    | AlreadyMember
    | Accept

  /** The decision of `joinSpace` (lines 346-384): a missing or non-PENDING invitation
      raises NotFound; one whose expiry has passed is marked EXPIRED; an invitation for an
      email is Forbidden to a user who is unknown or whose email differs; a user who is
      already a member changes nothing; anyone else is accepted. `userEmail` is the user's
      email, None for an unknown user. */
  function JoinDecision(invitation: Option<Invitation>, userEmail: Option<string>, isMember: bool, now: int)
    : (r: JoinStep)
    ensures (invitation.None? || invitation.value.status != PENDING) <==> r == Reject(NotFound)
    ensures r == MarkExpired <==> invitation.Some? && invitation.value.status == PENDING && invitation.value.expiresAt < now
    ensures r == Reject(Forbidden) <==>
      invitation.Some? && invitation.value.status == PENDING && invitation.value.expiresAt >= now &&
      Truthy(invitation.value.email) && userEmail != invitation.value.email
    ensures r == AlreadyMember || r == Accept ==>
      invitation.Some? && invitation.value.status == PENDING && invitation.value.expiresAt >= now &&
      (Truthy(invitation.value.email) ==> userEmail == invitation.value.email) &&
      (r == AlreadyMember <==> isMember)
    ensures r.Reject? ==> r.error in {NotFound, Forbidden}
  {
    if invitation.None? || invitation.value.status != PENDING then Reject(NotFound)
    else if invitation.value.expiresAt < now then MarkExpired
    else if Truthy(invitation.value.email) && userEmail != invitation.value.email then Reject(Forbidden)
    else if isMember then AlreadyMember
    else Accept
  }

  /** Only a PENDING invitation can be used: one already accepted or expired is NotFound. */
  lemma UsedInvitationIsNotFound(inv: Invitation, userEmail: Option<string>, isMember: bool, now: int)
    requires inv.status != PENDING
    ensures JoinDecision(Some(inv), userEmail, isMember, now) == Reject(NotFound)
  {
  }

  /** What a successful `joinSpace` reports. */
  datatype Joined = Joined(alreadyMember: bool, spaceId: SpaceId)

  /** The tables hold rows under their own ids, every space's owner holds an OWNER
      permission in it, and invitation tokens are unique. */
  ghost predicate Consistent(spaces: map<SpaceId, Space>, perms: Permissions, invitations: map<string, Invitation>) {
    (forall k :: k in spaces ==> spaces[k].id == k) &&
    (forall k :: k in spaces ==> (spaces[k].ownerId, k) in perms && perms[(spaces[k].ownerId, k)] == OWNER) &&
    (forall k :: k in invitations ==> invitations[k].id == k) &&
    (forall a, b :: a in invitations && b in invitations && invitations[a].token == invitations[b].token ==> a == b)
  }

  class SpacesService {
    var spaces: map<SpaceId, Space>
    var perms: Permissions
    var invitations: map<string, Invitation>
    /** The user table's email column, for `joinSpace`. */
    var emails: map<UserId, string>

    ghost predicate Valid()
      reads this
    {
      Consistent(spaces, perms, invitations)
    }

    constructor (emails: map<UserId, string>)
      ensures Valid() && spaces == map[] && perms == map[] && invitations == map[] && this.emails == emails
    {
      spaces := map[];
      perms := map[];
      invitations := map[];
      this.emails := emails;
    }

    /** `create` (lines 31-52): the space and its owner's OWNER permission. `id` is the
        generated space id, not the key of a stored space. */
    method Create(id: SpaceId, name: string, isPublic: bool, userId: UserId) returns (r: Space)
      requires Valid() && id !in spaces
      modifies this`spaces, this`perms
      ensures Valid()
      ensures r == Space(id, name, userId, isPublic)
      ensures spaces == old(spaces)[id := r] && perms == old(perms)[(userId, id) := OWNER]
    {
      r := Space(id, name, userId, isPublic);
      spaces := spaces[id := r];
      perms := perms[(userId, id) := OWNER];
    }

    /** `remove` (lines 143-157): only the owner deletes the space row. */
    method Remove(id: SpaceId, userId: UserId) returns (r: Result<Space>)
      requires Valid()
      modifies this`spaces
      ensures Valid()
      ensures var c := old(RemoveCheck(spaces, id, userId));
        (c.Fail? ==> r == Err(c.error) && spaces == old(spaces)) &&
        (c.Pass? ==> r == Ok(old(spaces)[id]) && spaces == old(spaces) - {id})
    {
      var c := RemoveCheck(spaces, id, userId);
      if c.Fail? {
        return Err(c.error);
      }
      r := Ok(spaces[id]);
      spaces := spaces - {id};
    }

    /** `updateMemberRole` (lines 215-259): after the checks, the target's permission row
        gets the new role; a target without a row makes the database raise its
        record-not-found error, modelled as NotFound. The owner keeps OWNER. */
    method UpdateMemberRole(spaceId: SpaceId, targetUserId: UserId, role: Role, currentUserId: UserId)
      returns (r: Result<Role>)
      requires Valid()
      modifies this`perms
      ensures Valid()
      ensures var c := old(MemberRoleChange(spaces, perms, spaceId, targetUserId, role, currentUserId));
        (c.Fail? ==> r == Err(c.error) && perms == old(perms)) &&
        (c.Pass? && (targetUserId, spaceId) !in old(perms) ==> r == Err(NotFound) && perms == old(perms)) &&
        (c.Pass? && (targetUserId, spaceId) in old(perms) ==>
          r == Ok(role) && perms == old(perms)[(targetUserId, spaceId) := role])
    {
      var c := MemberRoleChange(spaces, perms, spaceId, targetUserId, role, currentUserId);
      if c.Fail? {
        return Err(c.error);
      }
      if (targetUserId, spaceId) !in perms {
        return Err(NotFound);
      }
      perms := perms[(targetUserId, spaceId) := role];
      r := Ok(role);
    }

    /** `removeMember` (lines 260-297): after the checks, the target's permission row is
        deleted; a target without a row is the database's record-not-found error. */
    method RemoveMember(spaceId: SpaceId, targetUserId: UserId, currentUserId: UserId) returns (r: Outcome)
      requires Valid()
      modifies this`perms
      ensures Valid()
      ensures var c := old(MemberRemoval(spaces, perms, spaceId, targetUserId, currentUserId));
        (c.Fail? ==> r == c && perms == old(perms)) &&
        (c.Pass? && (targetUserId, spaceId) !in old(perms) ==> r == Fail(NotFound) && perms == old(perms)) &&
        (c.Pass? && (targetUserId, spaceId) in old(perms) ==>
          r == Pass && perms == old(perms) - {(targetUserId, spaceId)})
    {
      var c := MemberRemoval(spaces, perms, spaceId, targetUserId, currentUserId);
      if c.Fail? {
        return c;
      }
      if (targetUserId, spaceId) !in perms {
        return Fail(NotFound);
      }
      perms := perms - {(targetUserId, spaceId)};
      r := Pass;
    }

    /** `createInvitation` (lines 299-344): after the caller passes as owner or ADMIN, an
        invitation for the same space and email is reused (new token, role, inviter, a
        7-day expiry and status PENDING); otherwise a new PENDING invitation is created.
        `token` is the fresh `randomUUID()`, `newId` the id of a new row. */
    method CreateInvitation(spaceId: SpaceId, role: Role, currentUserId: UserId, email: Option<string>,
                            token: string, newId: string, now: int) returns (r: Result<Invitation>)
      requires Valid() && newId !in invitations
      requires forall k :: k in invitations ==> invitations[k].token != token
      modifies this`invitations
      ensures Valid()
      ensures old(CheckPermission(spaces, perms, spaceId, currentUserId, Managers)).Err? ==>
        r == Err(old(CheckPermission(spaces, perms, spaceId, currentUserId, Managers)).error) &&
        invitations == old(invitations)
      ensures r.Ok? ==>
        r.value.spaceId == spaceId && r.value.role == role && r.value.inviterId == currentUserId &&
        r.value.token == token && r.value.expiresAt == now + InvitationLifetime && r.value.status == PENDING &&
        invitations == old(invitations)[r.value.id := r.value]
      ensures r.Ok? && r.value.id in old(invitations) ==>
        Reusable(old(invitations)[r.value.id], spaceId, email) &&
        r.value == old(invitations)[r.value.id].(token := token, role := role, expiresAt := now + InvitationLifetime,
                                                  status := PENDING, inviterId := currentUserId)
      ensures r.Ok? && r.value.id !in old(invitations) ==>
        r.value.id == newId && r.value.email == email &&
        forall k :: k in old(invitations) ==> !Reusable(old(invitations)[k], spaceId, email)
      ensures old(CheckPermission(spaces, perms, spaceId, currentUserId, Managers)).Ok? ==> r.Ok?
    {
      var c := CheckPermission(spaces, perms, spaceId, currentUserId, Managers);
      if c.Err? {
        return Err(c.error);
      }
      var expiresAt := now + InvitationLifetime;
      if Truthy(email) && exists k :: k in invitations && Reusable(invitations[k], spaceId, email) {
        var k :| k in invitations && Reusable(invitations[k], spaceId, email);
        var updated := invitations[k].(token := token, role := role, expiresAt := expiresAt,
                                       status := PENDING, inviterId := currentUserId);
        invitations := invitations[k := updated];
        return Ok(updated);
      }
      var created := Invitation(newId, spaceId, email, role, currentUserId, token, expiresAt, PENDING);
      invitations := invitations[newId := created];
      r := Ok(created);
    }

    /** The invitation with a token, if any: `findUnique({ where: { token } })`. */
    method FindInvitation(token: string) returns (r: Option<Invitation>)
      requires Valid()
      ensures r.None? <==> forall k :: k in invitations ==> invitations[k].token != token
      ensures r.Some? ==> r.value.id in invitations && invitations[r.value.id] == r.value && r.value.token == token
    {
      if exists k :: k in invitations && invitations[k].token == token {
        var k :| k in invitations && invitations[k].token == token;
        return Some(invitations[k]);
      }
      return None;
    }

    /** `joinSpace` (lines 346-401): applies `JoinDecision`. An expired invitation is marked
        EXPIRED before Forbidden is raised; an accepted one adds a permission with the
        invitation's role and is marked ACCEPTED; a member is told so and nothing changes. */
    method JoinSpace(token: string, userId: UserId, now: int) returns (r: Result<Joined>)
      requires Valid()
      modifies this`perms, this`invitations
      ensures Valid()
      ensures forall k :: k in old(invitations) && old(invitations)[k].token != token ==>
        k in invitations && invitations[k] == old(invitations)[k]
      ensures (forall k :: k in old(invitations) ==> old(invitations)[k].token != token) ==>
        r == Err(NotFound) && perms == old(perms) && invitations == old(invitations)
      ensures forall k :: k in old(invitations) && old(invitations)[k].token == token ==>
        var inv := old(invitations)[k];
        var step := JoinDecision(Some(inv), if userId in emails then Some(emails[userId]) else None,
                                 (userId, inv.spaceId) in old(perms), now);
        (step.Reject? ==> r == Err(step.error) && perms == old(perms) && invitations == old(invitations)) &&
        (step == MarkExpired ==>
          r == Err(Forbidden) && perms == old(perms) && invitations == old(invitations)[k := inv.(status := EXPIRED)]) &&
        (step == AlreadyMember ==>
          r == Ok(Joined(true, inv.spaceId)) && perms == old(perms) && invitations == old(invitations)) &&
        (step == Accept ==>
          r == Ok(Joined(false, inv.spaceId)) && perms == old(perms)[(userId, inv.spaceId) := inv.role] &&
          invitations == old(invitations)[k := inv.(status := ACCEPTED)])
    {
      var found := FindInvitation(token);
      var userEmail := if userId in emails then Some(emails[userId]) else None;
      var isMember := found.Some? && (userId, found.value.spaceId) in perms;
      var step := JoinDecision(found, userEmail, isMember, now);
      match step {
        case Reject(e) =>
          r := Err(e);
        case MarkExpired =>
          var inv := found.value;
          invitations := invitations[inv.id := inv.(status := EXPIRED)];
          r := Err(Forbidden);
        case AlreadyMember =>
          r := Ok(Joined(true, found.value.spaceId));
        case Accept =>
          var inv := found.value;
          perms := perms[(userId, inv.spaceId) := inv.role];
          invitations := invitations[inv.id := inv.(status := ACCEPTED)];
          r := Ok(Joined(false, inv.spaceId));
      }
    }
  }
}
