/** The invitation engine (InvitationService): validated creation, removal
    and acceptance of invitations between a group admin and a user who has
    no group in the space.

    Each call is one atomic step on the store. Every check runs before the
    first change, so a call that fails leaves the store and the group exactly
    as they were. */
module InvitationService {
  import opened Errors
  import opened Models
  import opened Daos

  datatype InvitationInput = InvitationInput(sourceEmail: string, targetEmail: string, groupId: int)

  const SourceNotCallerMessage: string := "The source must be the authenticated user"
  const SameSourceTargetMessage: string := "The source and target must be different"
  const SourceNotFoundMessage: string := "Source user was not found"
  const TargetNotFoundMessage: string := "Target user was not found"
  const UserNotFoundMessage: string := "User was not found"
  const SpaceNotFoundMessage: string := "Space was not found"
  const GroupNotFoundMessage: string := "Group was not found"
  const InvitationNotFoundMessage: string := "Invitation was not found"
  const SourceNotMemberMessage: string := "Source is not a member of the space"
  const TargetNotMemberMessage: string := "Target is not a member of the space"
  const CombinationMessage: string := "Either the source is the group admin and the target is outside, or vice-versa"
  const NotTargetMessage: string := "User should be the target of invitation"
  const NotSourceOrTargetMessage: string := "User should be the source or target of invitation"

  // ---------------------------------------------------------------------
  // The combination rule

  /** The combination rule on its four inputs: valid exactly when one, and
      only one, of "the source is the admin and the target has no group" and
      "the target is the admin and the source has no group" holds. */
  function IsValidCombination(sourceIsAdmin: bool, targetWithoutGroup: bool,
                              targetIsAdmin: bool, sourceWithoutGroup: bool): (valid: bool)
    ensures valid ==> sourceIsAdmin || targetIsAdmin
    ensures valid <==>
      ((sourceIsAdmin && targetWithoutGroup) || (targetIsAdmin && sourceWithoutGroup))
      && !(sourceIsAdmin && targetWithoutGroup && targetIsAdmin && sourceWithoutGroup)
  {
    (sourceIsAdmin && targetWithoutGroup) != (targetIsAdmin && sourceWithoutGroup)
  }

  /** The rule evaluated against the store, as throwIfWrongSourceTargetCombination
      computes its four inputs. */
  function CombinationHolds(db: Db, source: UnusUser, target: UnusUser, groupAdmin: UnusUser, space: Space): bool
    reads db`groups, db.groups.Values
  {
    IsValidCombination(
      source.email == groupAdmin.email, !db.HasGroupInSpace(space.code, target.email),
      target.email == groupAdmin.email, !db.HasGroupInSpace(space.code, source.email))
  }

  /** For a stored group the two cases of the rule exclude each other, since
      its admin always "has a group": the exclusive or is an or, and a valid
      pair has exactly one group admin, whose partner holds no group. */
  lemma CombinationInStore(db: Db, source: UnusUser, target: UnusUser, g: Group)
    requires db.StoresGroup(g)
    ensures CombinationHolds(db, source, target, g.admin, g.space) <==>
      (source.email == g.admin.email && !db.HasGroupInSpace(g.space.code, target.email))
      || (target.email == g.admin.email && !db.HasGroupInSpace(g.space.code, source.email))
    ensures CombinationHolds(db, source, target, g.admin, g.space) ==>
      (source.email == g.admin.email) != (target.email == g.admin.email)
  {
    GroupAdminHasGroupEverywhere(db, g, g.space.code);
  }

  /** Two users who both administer a stored group can never form a valid
      pair, for any group. */
  lemma GroupAdminsCannotPair(db: Db, source: UnusUser, target: UnusUser,
                                                 g1: Group, g2: Group, groupAdmin: UnusUser, space: Space)
    requires db.StoresGroup(g1) && db.StoresGroup(g2)
    requires source.email == g1.admin.email && target.email == g2.admin.email
    ensures !CombinationHolds(db, source, target, groupAdmin, space)
  {
    GroupAdminHasGroupEverywhere(db, g1, space.code);
    GroupAdminHasGroupEverywhere(db, g2, space.code);
  }

  /** The group admin may pair with a user who holds no group anywhere. */
  lemma AdminAndOutsiderPair(db: Db, admin: UnusUser, outsider: UnusUser, g: Group)
    requires db.StoresGroup(g) && admin.email == g.admin.email && outsider.email != admin.email
    requires forall id | id in db.groups :: db.groups[id].admin.email != outsider.email
    requires forall id | id in db.groups :: !HasMemberWithEmail(db.groups[id].members, outsider.email)
    ensures CombinationHolds(db, admin, outsider, g.admin, g.space)
    ensures CombinationHolds(db, outsider, admin, g.admin, g.space)
  {
    NoGroupInSpace(db, g.space.code, outsider.email);
  }

  // ---------------------------------------------------------------------
  // Guards and lookups

  /** throwIfWrongSourceTargetCombination */
  function ThrowIfWrongSourceTargetCombination(db: Db, source: UnusUser, target: UnusUser,
                                               groupAdmin: UnusUser, space: Space): (c: Check)
    reads db`groups, db.groups.Values
    ensures c.Pass? <==> CombinationHolds(db, source, target, groupAdmin, space)
    ensures c.Fail? ==> c.error == Error(IllegalArgument, CombinationMessage)
  {
    ThrowIfIllegal(!CombinationHolds(db, source, target, groupAdmin, space), CombinationMessage)
  }

  /** throwIfInvalidInvitation: the caller must be the source, then source
      and target must differ. */
  function ThrowIfInvalidInvitation(dto: InvitationInput, email: string): (c: Check)
    ensures c.Pass? <==> dto.sourceEmail == email && dto.sourceEmail != dto.targetEmail
    ensures dto.sourceEmail != email ==> c == Fail(Error(IllegalArgument, SourceNotCallerMessage))
    ensures dto.sourceEmail == email && dto.sourceEmail == dto.targetEmail ==>
              c == Fail(Error(IllegalArgument, SameSourceTargetMessage))
  {
    var isInvalidSource := dto.sourceEmail != email;
    var isInvalidSourceTargetCombination := dto.sourceEmail == dto.targetEmail;
    var first := ThrowIfIllegal(isInvalidSource, SourceNotCallerMessage);
    if first.Fail? then first else ThrowIfIllegal(isInvalidSourceTargetCombination, SameSourceTargetMessage)
  }

  /** throwIfNotMember: membership as SpaceRepository.isMember sees it. */
  function ThrowIfNotMember(db: Db, space: Space, email: string, message: string): (c: Check)
    reads db`spaces, db.spaces
    ensures c.Pass? <==> db.IsMember(space.code, email)
    ensures c.Fail? ==> c.error == Error(IllegalArgument, message)
  {
    ThrowIfIllegal(!db.IsMember(space.code, email), message)
  }

  /** throwIfNotInvitationTarget */
  function ThrowIfNotInvitationTarget(invitation: Invitation, email: string): (c: Check)
    ensures c.Pass? <==> email == invitation.target.email
    ensures c.Fail? ==> c.error == Error(IllegalArgument, NotTargetMessage)
  {
    ThrowIfIllegal(email != invitation.target.email, NotTargetMessage)
  }

  /** throwIfNotInvitationSourceOrTarget */
  function ThrowIfNotInvitationSourceOrTarget(invitation: Invitation, email: string): (c: Check)
    ensures c.Pass? <==> email == invitation.source.email || email == invitation.target.email
    ensures c.Fail? ==> c.error == Error(IllegalArgument, NotSourceOrTargetMessage)
  {
    var isInvitationSource := email == invitation.source.email;
    var isInvitationTarget := email == invitation.target.email;
    ThrowIfIllegal(!isInvitationSource && !isInvitationTarget, NotSourceOrTargetMessage)
  }

  /** getUser(email, message): the stored user, or NotFound with `message`. */
  function GetUser(db: Db, email: string, message: string): (r: Result<UnusUser>)
    reads db`users
    ensures r.Ok? <==> email in db.users
    ensures r.Ok? ==> r.value == db.users[email]
    ensures r.Err? ==> r.error == Error(NotFound, message)
  {
    var storedUser := Lookup(db.users, email);
    :- ThrowIfNotFound(storedUser, message);
    Ok(storedUser.value)
  }

  /** getSpace(code): the space with the code, or NotFound. */
  function GetSpace(db: Db, code: string): (r: Result<Space>)
    reads db`spaces
    ensures r.Ok? <==> exists i | 0 <= i < |db.spaces| :: db.spaces[i].code == code
    ensures r.Ok? ==> r.value in db.spaces && r.value.code == code
    ensures r.Err? ==> r.error == Error(NotFound, SpaceNotFoundMessage)
  {
    var storedSpace := db.FindByCode(code);
    :- ThrowIfNotFound(storedSpace, SpaceNotFoundMessage);
    Ok(storedSpace.value)
  }

  /** getGroup(id): the stored group, or NotFound. */
  function GetGroup(db: Db, id: int): (r: Result<Group>)
    reads db`groups
    ensures r.Ok? <==> id in db.groups
    ensures r.Ok? ==> r.value == db.groups[id]
    ensures r.Err? ==> r.error == Error(NotFound, GroupNotFoundMessage)
  {
    var storedGroup := Lookup(db.groups, id);
    :- ThrowIfNotFound(storedGroup, GroupNotFoundMessage);
    Ok(storedGroup.value)
  }

  /** getInvitation(id): the stored invitation, or NotFound. */
  function GetInvitation(db: Db, id: int): (r: Result<Invitation>)
    reads db`invitations
    ensures r.Ok? <==> id in db.invitations
    ensures r.Ok? ==> r.value == db.invitations[id]
    ensures r.Err? ==> r.error == Error(NotFound, InvitationNotFoundMessage)
  {
    var storedInvitation := Lookup(db.invitations, id);
    :- ThrowIfNotFound(storedInvitation, InvitationNotFoundMessage);
    Ok(storedInvitation.value)
  }

  // ---------------------------------------------------------------------
  // The three operations

  /** The caller is the source and the target is someone else (step 1-2). */
  ghost predicate CallerChecked(dto: InvitationInput, email: string)
  {
    dto.sourceEmail == email && dto.targetEmail != email
  }

  /** Source, target and group all exist (step 3). */
  ghost predicate Resolved(db: Db, dto: InvitationInput)
    reads db
  {
    dto.sourceEmail in db.users && dto.targetEmail in db.users && dto.groupId in db.groups
  }

  /** Everything `invite` checks, in the state it checks it in. */
  ghost predicate InviteAllowed(db: Db, dto: InvitationInput, email: string)
    reads db, db.spaces, db.groups.Values
  {
    && CallerChecked(dto, email)
    && Resolved(db, dto)
    && var g := db.groups[dto.groupId];
       && db.IsMember(g.space.code, dto.sourceEmail)
       && db.IsMember(g.space.code, dto.targetEmail)
       && CombinationHolds(db, db.users[dto.sourceEmail], db.users[dto.targetEmail], g.admin, g.space)
  }

  /** The error `invite` raises, if any: the first of its checks that fails,
      in the order the checks run. */
  ghost function InviteFailure(db: Db, dto: InvitationInput, email: string): (failure: Option<Error>)
    reads db, db.spaces, db.groups.Values
    ensures failure.None? <==> InviteAllowed(db, dto, email)
  {
    // 1. the authenticated caller must be the source
    if dto.sourceEmail != email then Some(Error(IllegalArgument, SourceNotCallerMessage))
    // 2. source and target must differ
    else if dto.targetEmail == email then Some(Error(IllegalArgument, SameSourceTargetMessage))
    // 3. source, target and group must exist
    else if dto.sourceEmail !in db.users then Some(Error(NotFound, SourceNotFoundMessage))
    else if dto.targetEmail !in db.users then Some(Error(NotFound, TargetNotFoundMessage))
    else if dto.groupId !in db.groups then Some(Error(NotFound, GroupNotFoundMessage))
    else
      var g := db.groups[dto.groupId];
      // 4. both must be members of the space of the group
      if !db.IsMember(g.space.code, dto.sourceEmail) then Some(Error(IllegalArgument, SourceNotMemberMessage))
      else if !db.IsMember(g.space.code, dto.targetEmail) then Some(Error(IllegalArgument, TargetNotMemberMessage))
      // 5. the pair must satisfy the combination rule
      else if !CombinationHolds(db, db.users[dto.sourceEmail], db.users[dto.targetEmail], g.admin, g.space)
      then Some(Error(IllegalArgument, CombinationMessage))
      else None
  }

  /** invite: fails with the error of the first check that fails, and
      otherwise stores one new invitation and changes nothing else. */
  method Invite(db: Db, dto: InvitationInput, email: string) returns (r: Result<Invitation>)
    requires db.Valid()
    modifies db, if dto.groupId in db.groups then {db.groups[dto.groupId]} else {}
    ensures db.Valid()
    ensures db.users == old(db.users) && db.spaces == old(db.spaces) && db.groups == old(db.groups)
    ensures old(InviteFailure(db, dto, email)) == if r.Ok? then None else Some(r.error)
    ensures r.Ok? <==> old(InviteAllowed(db, dto, email))
    ensures r.Err? ==> db.invitations == old(db.invitations) && db.nextId == old(db.nextId)
    ensures r.Err? && dto.groupId in old(db.groups) ==> unchanged(old(db.groups[dto.groupId]))
    ensures r.Ok? ==>
              && r.value.source == db.users[dto.sourceEmail]
              && r.value.target == db.users[dto.targetEmail]
              && r.value.group == db.groups[dto.groupId]
              && r.value.id == old(db.nextId) && r.value.id !in old(db.invitations)
              && db.invitations == old(db.invitations)[r.value.id := r.value]
              && r.value.group.invitations == old(r.value.group.invitations) + {r.value}
              && r.value.group.members == old(r.value.group.members)
  {
    var requestCheck := ThrowIfInvalidInvitation(dto, email);
    :- requestCheck;

    var source :- GetUser(db, dto.sourceEmail, SourceNotFoundMessage);
    var target :- GetUser(db, dto.targetEmail, TargetNotFoundMessage);
    var group :- GetGroup(db, dto.groupId);

    :- ThrowIfNotMember(db, group.space, source.email, SourceNotMemberMessage);
    :- ThrowIfNotMember(db, group.space, target.email, TargetNotMemberMessage);
    :- ThrowIfWrongSourceTargetCombination(db, source, target, group.admin, group.space);

    // The three-argument constructor used here is not declared by
    // Invitation; sentByAdmin keeps its field default.
    var invitation := db.InsertInvitation(source, target, group, DefaultSentByAdmin);
    r := Ok(invitation);
  }

  /** removeInvitation: only the source or the target may withdraw an
      invitation; it leaves the store and its group's invitation set, and the
      group's members are untouched. */
  method RemoveInvitation(db: Db, id: int, email: string) returns (r: Result<Invitation>)
    requires db.Valid()
    modifies db, if id in db.invitations then {db.invitations[id].group} else {}
    ensures db.Valid()
    ensures db.users == old(db.users) && db.spaces == old(db.spaces) && db.groups == old(db.groups)
    ensures db.nextId == old(db.nextId)
    ensures id !in old(db.invitations) ==> r == Err(Error(NotFound, InvitationNotFoundMessage))
    ensures id in old(db.invitations) && email != old(db.invitations[id]).source.email
              && email != old(db.invitations[id]).target.email ==>
              r == Err(Error(IllegalArgument, NotSourceOrTargetMessage))
    ensures r.Ok? <==>
              (id in old(db.invitations)
               && (email == old(db.invitations[id]).source.email || email == old(db.invitations[id]).target.email))
    ensures r.Err? ==> db.invitations == old(db.invitations)
    ensures r.Err? && id in old(db.invitations) ==> unchanged(old(db.invitations[id]).group)
    ensures r.Ok? ==>
              && r.value == old(db.invitations[id])
              && db.invitations == old(db.invitations) - {id}
              && r.value.group.invitations == old(r.value.group.invitations) - {r.value}
              && r.value.group.members == old(r.value.group.members)
  {
    var invitation :- GetInvitation(db, id);
    :- ThrowIfNotInvitationSourceOrTarget(invitation, email);

    // group.removeInvitation, groupRepository.save, invitationRepository.deleteById
    db.DeleteInvitation(id);
    r := Ok(invitation);
  }

  /** acceptInvitation: only the target may accept; the combination rule is
      checked again against the current store; then the invitation is
      deleted and whichever party is not the group admin joins the group. */
  method AcceptInvitation(db: Db, id: int, email: string) returns (r: Result<()>)
    requires db.Valid()
    modifies db, if id in db.invitations then {db.invitations[id].group} else {}
    ensures db.Valid()
    ensures db.users == old(db.users) && db.spaces == old(db.spaces) && db.groups == old(db.groups)
    ensures db.nextId == old(db.nextId)
    ensures id !in old(db.invitations) ==> r == Err(Error(NotFound, InvitationNotFoundMessage))
    ensures id in old(db.invitations) && email != old(db.invitations[id]).target.email ==>
              r == Err(Error(IllegalArgument, NotTargetMessage))
    ensures id in old(db.invitations) && email == old(db.invitations[id]).target.email
              && !old(CombinationHolds(db, db.invitations[id].source, db.invitations[id].target,
                                       db.invitations[id].group.admin, db.invitations[id].group.space)) ==>
              r == Err(Error(IllegalArgument, CombinationMessage))
    ensures r.Ok? <==>
              (id in old(db.invitations) && email == old(db.invitations[id]).target.email
               && old(CombinationHolds(db, db.invitations[id].source, db.invitations[id].target,
                                       db.invitations[id].group.admin, db.invitations[id].group.space)))
    ensures r.Err? ==> db.invitations == old(db.invitations)
    ensures r.Err? && id in old(db.invitations) ==> unchanged(old(db.invitations[id]).group)
    ensures r.Ok? ==>
              var inv := old(db.invitations[id]);
              var g := inv.group;
              var joiner := if inv.target.email == g.admin.email then inv.source else inv.target;
              && db.invitations == old(db.invitations) - {id}
              && g.invitations == old(g.invitations) - {inv}
              && g.members == old(g.members) + {joiner}
              // the one who joins is the party that is not the admin, and it held no group
              && joiner.email != g.admin.email
              && (inv.source.email == g.admin.email || inv.target.email == g.admin.email)
              && !old(db.HasGroupInSpace(g.space.code, joiner.email))
  {
    var invitation :- GetInvitation(db, id);
    :- ThrowIfNotInvitationTarget(invitation, email);

    var group := invitation.group;

    :- ThrowIfWrongSourceTargetCombination(db, invitation.source, invitation.target, group.admin, group.space);
    CombinationInStore(db, invitation.source, invitation.target, group);

    db.DeleteInvitation(id);   // invitationRepository.deleteById, group.removeInvitation

    var targetIsAdmin := invitation.target.email == group.admin.email;
    group.AddMember(if targetIsAdmin then invitation.source else invitation.target);
    // groupRepository.save: the group row is already stored
    r := Ok(());
  }
}
