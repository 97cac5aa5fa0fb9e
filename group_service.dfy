/** The group registry (GroupService): creating and removing groups, and the
    older invitation operations that predate InvitationService and skip most
    of its checks. */
module GroupService {
  import opened Errors
  import opened Models
  import opened Daos
  import InvitationService

  datatype GroupInput = GroupInput(name: string, spaceCode: string, isOpen: bool)

  datatype GroupOutput = GroupOutput(id: int, name: string, isOpen: bool, createdOn: Instant)

  const GroupNotFoundMessage: string := "Group was not found."
  const SpaceNotFoundMessage: string := "Space was not found."
  const GroupNameTakenMessage: string := "Group name already exists in space."
  const OnlyAdminRemovesMessage: string := "Only the admin should remove the group"
  const SourceNotUsedMessage: string := "Email from the source user was not used"
  const TargetNotUsedMessage: string := "Email from the target user was not used"

  // ---------------------------------------------------------------------
  // Guards and lookups

  /** getSpace(code): the space with the code, or NotFound. */
  function GetSpace(db: Db, code: string): (r: Result<Space>)
    reads db`spaces
    ensures r.Ok? <==> exists i | 0 <= i < |db.spaces| :: db.spaces[i].code == code
    ensures r.Ok? ==> r.value in db.spaces && r.value.code == code
    ensures r.Err? ==> r.error == Error(NotFound, SpaceNotFoundMessage)
  {
    var storedSpace := db.FindByCode(code);
    :- ThrowIfNotFound(storedSpace, SpaceNotFoundMessage);
    Ok(storedSpace.value)
  }

  /** getGroup(id): the stored group, or NotFound. */
  function GetGroup(db: Db, id: int): (r: Result<Group>)
    reads db`groups
    ensures r.Ok? <==> id in db.groups
    ensures r.Ok? ==> r.value == db.groups[id]
    ensures r.Err? ==> r.error == Error(NotFound, GroupNotFoundMessage)
  {
    var storedGroup := Lookup(db.groups, id);
    :- ThrowIfNotFound(storedGroup, GroupNotFoundMessage);
    Ok(storedGroup.value)
  }

  /** throwIfGroupNameAlreadyExists: the name is taken in this space only. */
  function ThrowIfGroupNameAlreadyExists(db: Db, space: Space, groupName: string): (c: Check)
    reads db`groups
    ensures c.Pass? <==> forall id | id in db.groups && db.groups[id].space.code == space.code
                           :: db.groups[id].name != groupName
    ensures c.Fail? ==> c.error == Error(AlreadyExists, GroupNameTakenMessage)
  {
    ThrowIfAlreadyExists(db.AlreadyExistsInSpace(space.code, groupName), GroupNameTakenMessage)
  }

  /** throwIfNotAdmin */
  function ThrowIfNotAdmin(group: Group, email: string, message: string): (c: Check)
    ensures c.Pass? <==> group.admin.email == email
    ensures c.Fail? ==> c.error == Error(IllegalArgument, message)
  {
    ThrowIfIllegal(group.admin.email != email, message)
  }

  /** throwIfUserNotFound: Spring's UsernameNotFound, not the NotFound of
      ExceptionThrower. */
  function ThrowIfUserNotFound(storedUser: Option<UnusUser>, message: string): (c: Check)
    ensures c.Pass? <==> storedUser.Some?
    ensures c.Fail? ==> c.error == Error(UsernameNotFound, message)
  {
    if storedUser.None? then Fail(Error(UsernameNotFound, message)) else Pass
  }

  // ---------------------------------------------------------------------
  // Groups

  /** A group of one space may share its name with a group of another
      space: the name check looks at the space with the given code only. */
  lemma NameTakenOnlyInSameSpace(db: Db, space: Space, other: Group, groupName: string)
    requires db.StoresGroup(other) && other.name == groupName
    ensures other.space.code == space.code ==> ThrowIfGroupNameAlreadyExists(db, space, groupName).Fail?
    ensures ThrowIfGroupNameAlreadyExists(db, space, groupName).Fail? ==>
              exists id | id in db.groups :: db.groups[id].space.code == space.code && db.groups[id].name == groupName
  {
    var id :| id in db.groups && db.groups[id] == other;
    assert db.groups[id].name == groupName;
  }

  /** createGroup: the requester becomes the admin of a new group of the
      space with the given code. The user lookup runs first and an absent
      user surfaces as NoSuchElement; the requester is not required to belong
      to the space. The group is stored through the space's group set. */
  method CreateGroup(db: Db, dto: GroupInput, adminEmail: string, now: Instant) returns (r: Result<GroupOutput>)
    requires db.Valid()
    modifies db, db.SpacesWithCode(dto.spaceCode)
    ensures db.Valid()
    ensures db.users == old(db.users) && db.spaces == old(db.spaces) && db.invitations == old(db.invitations)
    ensures adminEmail !in old(db.users) ==> r == Err(Error(NoSuchElement, NoValuePresent))
    ensures adminEmail in old(db.users) && old(db.FindByCode(dto.spaceCode)).None? ==>
              r == Err(Error(NotFound, SpaceNotFoundMessage))
    ensures adminEmail in old(db.users) && old(db.FindByCode(dto.spaceCode)).Some?
              && old(db.AlreadyExistsInSpace(dto.spaceCode, dto.name)) ==>
              r == Err(Error(AlreadyExists, GroupNameTakenMessage))
    ensures r.Ok? <==>
              (adminEmail in old(db.users) && old(db.FindByCode(dto.spaceCode)).Some?
               && !old(db.AlreadyExistsInSpace(dto.spaceCode, dto.name)))
    ensures r.Err? ==> db.groups == old(db.groups) && db.nextId == old(db.nextId)
    ensures r.Err? ==> unchanged(old(db.SpacesWithCode(dto.spaceCode)))
    ensures r.Ok? ==>
              var space := old(db.FindByCode(dto.spaceCode)).value;
              && r.value.id == old(db.nextId) && r.value.id !in old(db.groups) && r.value.id in db.groups
              && var g := db.groups[r.value.id];
              && db.groups == old(db.groups)[r.value.id := g]
              && fresh(g)
              && g.name == dto.name && g.isOpen == dto.isOpen && g.createdOn == now
              && g.admin == old(db.users[adminEmail]) && g.space == space
              && g.members == {} && g.invitations == {}
              && space.groups == old(space.groups) + {g} && space.members == old(space.members)
              && r.value == GroupOutput(r.value.id, dto.name, dto.isOpen, now)
  {
    var storedUser := Lookup(db.users, adminEmail);
    var user :- Get(storedUser);

    var space :- GetSpace(db, dto.spaceCode);
    var group := new Group(dto.name, dto.isOpen, space, user, now);
    :- ThrowIfGroupNameAlreadyExists(db, space, group.name);
    space.AddGroup(group);

    // spaceRepository.save(space) persists the new group through space.groups
    var id := db.InsertGroup(group);
    r := Ok(GroupOutput(id, group.name, group.isOpen, group.createdOn));
  }

  /** The invitations that survive deleting `g`: those of other groups. */
  function InvitationsOutside(invitations: map<int, Invitation>, g: Group): (kept: map<int, Invitation>)
    ensures kept.Keys <= invitations.Keys
    ensures forall id | id in kept :: kept[id] == invitations[id] && kept[id].group != g
    ensures forall id | id in invitations && invitations[id].group != g :: id in kept
  {
    map id | id in invitations && invitations[id].group != g :: invitations[id]
  }

  /** removeGroup: only the group admin may delete it. Deleting the group
      deletes its invitations with it. */
  method RemoveGroup(db: Db, id: int, email: string) returns (r: Result<()>)
    requires db.Valid()
    modifies db
    ensures db.Valid()
    ensures db.users == old(db.users) && db.spaces == old(db.spaces) && db.nextId == old(db.nextId)
    ensures id !in old(db.groups) ==> r == Err(Error(NotFound, GroupNotFoundMessage))
    ensures id in old(db.groups) && old(db.groups[id]).admin.email != email ==>
              r == Err(Error(IllegalArgument, OnlyAdminRemovesMessage))
    ensures r.Ok? <==> id in old(db.groups) && old(db.groups[id]).admin.email == email
    ensures r.Err? ==> db.groups == old(db.groups) && db.invitations == old(db.invitations)
    ensures r.Ok? ==>
              && db.groups == old(db.groups) - {id}
              && db.invitations == InvitationsOutside(old(db.invitations), old(db.groups[id]))
  {
    var group :- GetGroup(db, id);
    :- ThrowIfNotAdmin(group, email, OnlyAdminRemovesMessage);

    // groupRepository.deleteById, cascading to the invitations of the group
    ghost var oldGroups := db.groups;
    db.groups := db.groups - {id};
    db.invitations := InvitationsOutside(db.invitations, group);
    forall k | k in db.invitations
      ensures db.StoresGroup(db.invitations[k].group)
    {
      var j :| j in oldGroups && oldGroups[j] == db.invitations[k].group;
      assert j != id && db.groups[j] == oldGroups[j];
    }
    r := Ok(());
  }

  // ---------------------------------------------------------------------
  // The older invitation operations

  /** invite (older version): only the existence of source, target and group
      is checked; the caller, membership and the combination rule are not.
      `sentByAdmin` records whether the source is the group admin. */
  method Invite(db: Db, dto: InvitationService.InvitationInput, email: string) returns (r: Result<()>)
    requires db.Valid()
    modifies db, if dto.groupId in db.groups then {db.groups[dto.groupId]} else {}
    ensures db.Valid()
    ensures db.users == old(db.users) && db.spaces == old(db.spaces) && db.groups == old(db.groups)
    ensures dto.sourceEmail !in old(db.users) ==> r == Err(Error(UsernameNotFound, SourceNotUsedMessage))
    ensures dto.sourceEmail in old(db.users) && dto.targetEmail !in old(db.users) ==>
              r == Err(Error(UsernameNotFound, TargetNotUsedMessage))
    ensures dto.sourceEmail in old(db.users) && dto.targetEmail in old(db.users) && dto.groupId !in old(db.groups) ==>
              r == Err(Error(NotFound, GroupNotFoundMessage))
    ensures r.Ok? <==> old(InvitationService.Resolved(db, dto))
    ensures r.Err? ==> db.invitations == old(db.invitations) && db.nextId == old(db.nextId)
    ensures r.Err? && dto.groupId in old(db.groups) ==> unchanged(old(db.groups[dto.groupId]))
    ensures r.Ok? ==>
              var id := old(db.nextId);
              && id !in old(db.invitations)
              && db.invitations.Keys == old(db.invitations).Keys + {id}
              && (forall k | k in old(db.invitations) :: db.invitations[k] == old(db.invitations)[k])
              && db.invitations[id].source == db.users[dto.sourceEmail]
              && db.invitations[id].target == db.users[dto.targetEmail]
              && db.invitations[id].group == db.groups[dto.groupId]
              && (db.invitations[id].sentByAdmin <==> dto.sourceEmail == db.groups[dto.groupId].admin.email)
              && db.groups[dto.groupId].invitations == old(db.groups[dto.groupId].invitations) + {db.invitations[id]}
              && db.groups[dto.groupId].members == old(db.groups[dto.groupId].members)
  {
    var storedSourceUser := Lookup(db.users, dto.sourceEmail);
    :- ThrowIfUserNotFound(storedSourceUser, SourceNotUsedMessage);
    var storedTargetUser := Lookup(db.users, dto.targetEmail);
    :- ThrowIfUserNotFound(storedTargetUser, TargetNotUsedMessage);
    var storedGroup := Lookup(db.groups, dto.groupId);
    :- ThrowIfNotFound(storedGroup, GroupNotFoundMessage);

    var source := storedSourceUser.value;
    var target := storedTargetUser.value;
    var group := storedGroup.value;
    var sentByAdmin := source.email == group.admin.email;

    var invitation := db.InsertInvitation(source, target, group, sentByAdmin);
    r := Ok(());
  }

  /** removeInvitation (older version): the same steps as the invitation
      engine's, without returning the invitation. */
  method RemoveInvitation(db: Db, id: int, email: string) returns (r: Result<()>)
    requires db.Valid()
    modifies db, if id in db.invitations then {db.invitations[id].group} else {}
    ensures db.Valid()
    ensures db.users == old(db.users) && db.spaces == old(db.spaces) && db.groups == old(db.groups)
    ensures db.nextId == old(db.nextId)
    ensures id !in old(db.invitations) ==> r == Err(Error(NotFound, InvitationService.InvitationNotFoundMessage))
    ensures id in old(db.invitations) && email != old(db.invitations[id]).source.email
              && email != old(db.invitations[id]).target.email ==>
              r == Err(Error(IllegalArgument, InvitationService.NotSourceOrTargetMessage))
    ensures r.Ok? <==>
              (id in old(db.invitations)
               && (email == old(db.invitations[id]).source.email || email == old(db.invitations[id]).target.email))
    ensures r.Err? ==> db.invitations == old(db.invitations)
    ensures r.Err? && id in old(db.invitations) ==> unchanged(old(db.invitations[id]).group)
    ensures r.Ok? ==>
              var inv := old(db.invitations[id]);
              && db.invitations == old(db.invitations) - {id}
              && inv.group.invitations == old(inv.group.invitations) - {inv}
              && inv.group.members == old(inv.group.members)
  {
    var removed := InvitationService.RemoveInvitation(db, id, email);
    r := if removed.Ok? then Ok(()) else Err(removed.error);
  }

  /** acceptInvitation (older version): only the target may accept, and the
      target is added to the group with no combination check, even when the
      target is the group admin. An invitation whose target has left the user
      table surfaces as NoSuchElement. */
  method AcceptInvitation(db: Db, id: int, email: string) returns (r: Result<()>)
    requires db.Valid()
    modifies db, if id in db.invitations then {db.invitations[id].group} else {}
    ensures db.Valid()
    ensures db.users == old(db.users) && db.spaces == old(db.spaces) && db.groups == old(db.groups)
    ensures db.nextId == old(db.nextId)
    ensures id !in old(db.invitations) ==> r == Err(Error(NotFound, InvitationService.InvitationNotFoundMessage))
    ensures id in old(db.invitations) && email != old(db.invitations[id]).target.email ==>
              r == Err(Error(IllegalArgument, InvitationService.NotTargetMessage))
    ensures id in old(db.invitations) && email == old(db.invitations[id]).target.email && email !in old(db.users) ==>
              r == Err(Error(NoSuchElement, NoValuePresent))
    ensures r.Ok? <==>
              (id in old(db.invitations) && email == old(db.invitations[id]).target.email && email in old(db.users))
    ensures r.Err? ==> db.invitations == old(db.invitations)
    ensures r.Err? && id in old(db.invitations) ==> unchanged(old(db.invitations[id]).group)
    ensures r.Ok? ==>
              var inv := old(db.invitations[id]);
              && db.invitations == old(db.invitations) - {id}
              && inv.group.invitations == old(inv.group.invitations) - {inv}
              && inv.group.members == old(inv.group.members) + {db.users[email]}
              && db.users[email].email == inv.target.email
  {
    var invitation :- InvitationService.GetInvitation(db, id);
    :- InvitationService.ThrowIfNotInvitationTarget(invitation, email);

    var user :- Get(Lookup(db.users, email));
    db.DeleteInvitation(id);   // invitationRepository.deleteById, group.removeInvitation
    invitation.group.AddMember(user);
    // groupRepository.save: the group row is already stored
    r := Ok(());
  }
}
