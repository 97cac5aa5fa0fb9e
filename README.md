# unus: membership and invitations, modelled in Dafny

unus is a Spring Boot service for organising people into **spaces**, and
spaces into **groups**. A space is identified by a random eight-character
code and has one admin and a set of members. A group belongs to one space,
has one admin, a set of members and a set of pending **invitations**. An
invitation pairs a group admin with a user who holds no group in the space.
Either party may propose it. Only the target may accept it, and accepting
adds the non-admin party to the group.

This project models the core of that service:

- the entities `UnusUser`, `Space` and `Group` (classes whose association
  sets are updated in place) and `Invitation` (a record);
- the repository queries, with the persistent store as one object `Db`;
- the four services:
  - `InvitationService`: invite, remove and accept, with the
    source/target combination rule;
  - `GroupService`: create and remove groups, plus the older invitation
    operations;
  - `SpaceService`: create a space under a fresh random code, and look a
    space up by code;
  - `UnusUserService`: sign-up, credential lookup and account removal;
- the code generator and the three guards of `ExceptionThrower`.

A Java exception becomes an `Err` value that carries the exception's kind
and its exact message. Every service method is proved to do the following:

- to fail with the right exception, in the order the source checks;
- to succeed exactly when all checks pass;
- to change exactly the rows and association sets it names, and nothing
  else;
- to keep the store invariant `Db.Valid()`. That invariant says:
  - users are keyed by their own email;
  - space codes are unique;
  - group names are unique within a space;
  - ids come from the sequence;
  - every invitation belongs to a stored group;
  - each stored group's `invitations` set is the inverse side of the
    invitation table (`mappedBy = "group"`): exactly the rows whose group it
    is. Storing an invitation therefore puts it in its group's set.

Files and modules:

| file | module | contents |
|---|---|---|
| `errors.dfy` | `Errors` | `Option`, `Result`, `Check`, the exception kinds, the guards, `Optional.get` |
| `models.dfy` | `Models` | `UnusUser`, `Space`, `Group`, `Invitation`, `String.compareTo` |
| `code_generator.dfy` | `CodeGenerator` | random codes from a supplied sequence of draws |
| `daos.dfy` | `Daos` | the store and the repository queries |
| `invitation_service.dfy` | `InvitationService` | the invitation engine and the combination rule |
| `group_service.dfy` | `GroupService` | groups and the older invitation operations |
| `space_service.dfy` | `SpaceService` | spaces and the unique-code loop |
| `unus_user_service.dfy` | `UnusUserService` | accounts |

Points where the code differs from what its own tests expect; the model
follows the code:

- `GroupService.CreateGroup` does not require the requester to belong to the
  space, because `createGroup` has no such check. The test at
  src/test/java/co/unus/controllers/GroupControllerTest.java:136-149 expects
  an outsider's request to fail with "User is not in the space".
- `GroupService.RemoveGroup` lets only the group admin remove the group,
  because `removeGroup` checks only the group admin. The test at
  src/test/java/co/unus/controllers/GroupControllerTest.java:151-163 expects
  the space admin to be able to remove it too.
- `Daos.Db.HasGroupInSpace` is modelled as its JPQL parses: `AND` binds
  tighter than `OR`. So the admin of any group "has a group" in every space,
  not only in the space the query's name and its `code` parameter suggest.
  As a result, the exclusive or of the combination rule behaves as a plain
  or on a stored group, and a valid pair always has exactly one group
  admin. This is proved in `InvitationService.CombinationInStore`.

## Model

| member | source | states |
|---|---|---|
| Errors.ThrowIfNotFound | src/main/java/co/unus/services/ExceptionThrower.java:9-13 | fails exactly when the optional is empty, with NotFound and the given message |
| Errors.ThrowIfAlreadyExists | src/main/java/co/unus/services/ExceptionThrower.java:15-19 | fails exactly when the flag is set, with AlreadyExists and the given message |
| Errors.ThrowIfIllegal | src/main/java/co/unus/services/ExceptionThrower.java:21-25 | fails exactly when the flag is set, with IllegalArgument and the given message |
| Errors.Get | src/main/java/co/unus/services/SpaceService.java:28 | Optional.get: the value when present, otherwise NoSuchElement "No value present" |
| Models.CompareStringsAntisymmetric | src/main/java/co/unus/models/UnusUser.java:88-91 | the name comparison changes sign when the operands are swapped |
| Models.CompareStringsZeroIffEqual | src/main/java/co/unus/models/UnusUser.java:88-91 | the name comparison is zero exactly for equal names |
| Models.CompareStringsTransitive | src/main/java/co/unus/models/UnusUser.java:88-91 | "sorts before" by name is transitive |
| Models.UnusUser.CompareTo | src/main/java/co/unus/models/UnusUser.java:88-91 | users compare by name alone: zero exactly when the names are equal, antisymmetric |
| Models.UnusUser.constructor | src/main/java/co/unus/models/UnusUser.java:55-60 | sets the four fields; both space sets start empty |
| Models.UnusUser.JoinSpaceAsAdmin | src/main/java/co/unus/models/UnusUser.java:62-64 | adds the space to the administered spaces, joined spaces unchanged |
| Models.UnusUser.LeaveSpaceAsAdmin | src/main/java/co/unus/models/UnusUser.java:66-68 | removes the space from the administered spaces, joined spaces unchanged |
| Models.UnusUser.JoinSpace | src/main/java/co/unus/models/UnusUser.java:70-73 | adds the space to the user's joined spaces and the user to the space's members; nothing else changes |
| Models.UnusUser.LeaveSpace | src/main/java/co/unus/models/UnusUser.java:75-78 | removes both sides of the membership; nothing else changes |
| Models.JoinSpaceTwice | src/main/java/co/unus/models/UnusUser.java:70-73 | joining twice leaves the same state as joining once |
| Models.Space.constructor | src/main/java/co/unus/models/Space.java:48-54 | sets name, code, visibility, admin and creation time; groups and members start empty |
| Models.Space.AddMember | src/main/java/co/unus/models/Space.java:56-58 | members gain the user, groups unchanged |
| Models.Space.RemoveMember | src/main/java/co/unus/models/Space.java:60-62 | members lose the user, groups unchanged |
| Models.AddThenRemoveMember | src/main/java/co/unus/models/Space.java:56-62 | adding a non-member and removing it again restores the members |
| Models.Space.AddGroup | src/main/java/co/unus/models/Space.java:64-66 | groups gain the group, members unchanged |
| Models.Space.RemoveGroup | src/main/java/co/unus/models/Space.java:68-70 | groups lose the group, members unchanged |
| Models.Group.constructor | src/main/java/co/unus/models/Group.java:49-55 | sets name, openness, space, admin and creation time; members and invitations start empty |
| Models.Group.RemoveInvitation | src/main/java/co/unus/models/Group.java:57-59 | invitations lose the invitation, members unchanged |
| Models.Group.AddMember | src/main/java/co/unus/models/Group.java:61-63 | members gain the user, invitations unchanged |
| Models.AddGroupMemberTwice | src/main/java/co/unus/models/Group.java:61-63 | adding a member twice is the same as adding it once |
| Models.Group.RemoveMember | src/main/java/co/unus/models/Group.java:65-67 | members lose the user, invitations unchanged |
| CodeGenerator.RandomIndex | src/main/java/co/unus/utils/CodeGenerator.java:18 | floor(draw * length) is a valid index for every draw in [0, 1) |
| CodeGenerator.RandomChar | src/main/java/co/unus/utils/CodeGenerator.java:17-19 | the chosen character is one of the string's |
| CodeGenerator.CodeFromInAlphabet | src/main/java/co/unus/utils/CodeGenerator.java:4-19 | every character a sequence of draws spells is in the 36-character alphabet |
| CodeGenerator.Get | src/main/java/co/unus/utils/CodeGenerator.java:4-15 | returns codeSize characters (none for a negative size), all from the alphabet, the i-th chosen by the i-th draw |
| Daos.Db.FindByCode | src/main/java/co/unus/daos/SpaceRepository.java:12 | finds a stored space with the code, and finds none exactly when no stored space has it |
| Daos.FindByCodeExact | src/main/java/co/unus/daos/SpaceRepository.java:12 | in a valid store, findByCode of a stored space's code is that space |
| Daos.SpacesWithCodeExact | src/main/java/co/unus/daos/SpaceRepository.java:12 | in a valid store, a stored space is the only one with its code |
| Daos.Db.InsertSpace | src/main/java/co/unus/models/UnusUser.java:51-53 | saving a space under an unused code appends its row, keeps the store valid, and the code then names that space only |
| Daos.UniqueCodesAppend | src/main/java/co/unus/services/SpaceService.java:47-53 | appending a space under an unused code keeps codes unique |
| Daos.Db.AlreadyExistsInSpace | src/main/java/co/unus/daos/GroupRepository.java:9-12 | false exactly when no stored group of the space with that code has the name; GroupService.NameTakenOnlyInSameSpace shows the scope is that one space |
| Daos.Db.HasGroupInSpace | src/main/java/co/unus/daos/GroupRepository.java:14-21 | as the query parses: the user administers some stored group (in any space), or is a member of a stored group of the space; characterised by GroupAdminHasGroupEverywhere, GroupMemberHasGroup and NoGroupInSpace |
| Daos.Db.InsertGroup | src/main/java/co/unus/services/GroupService.java:57-59 | saving a new group whose name is free in its space stores it under the next id and keeps the store valid, its inverse invitation set included |
| Daos.Db.DeleteInvitation | src/main/java/co/unus/services/InvitationService.java:80-82 | deleting an invitation row also drops it from its group's set, and nothing else in the tables changes; the store stays valid |
| Daos.Db.InsertInvitation | src/main/java/co/unus/models/Group.java:46-47 | saving an invitation stores it under the next id and adds it to its group's set, keeping the store valid |
| Daos.InvitationsOfAdd | src/main/java/co/unus/models/Group.java:46-47 | a row stored under a fresh key joins its own group's inverse set and no other |
| Daos.InvitationsOfRemove | src/main/java/co/unus/models/Group.java:46-47 | a deleted row leaves its own group's inverse set and no other |
| Daos.Db.IsMember | src/main/java/co/unus/daos/SpaceRepository.java:14-21 | holds only when a space with the code exists |
| Daos.IsMemberExact | src/main/java/co/unus/daos/SpaceRepository.java:14-21 | isMember of a stored space's code holds exactly when one of its members has the email |
| Daos.AdminIsNotMember | src/main/java/co/unus/daos/SpaceRepository.java:14-21 | the space admin does not count as a member unless listed among the members |
| Daos.GroupAdminHasGroupEverywhere | src/main/java/co/unus/daos/GroupRepository.java:14-21 | the admin of a stored group has a group in every space, as the query parses |
| Daos.GroupMemberHasGroup | src/main/java/co/unus/daos/GroupRepository.java:14-21 | a member of a stored group has a group in that group's space |
| Daos.NoGroupInSpace | src/main/java/co/unus/daos/GroupRepository.java:14-21 | a user who administers no group and belongs to no group of the space has no group there |
| Daos.Lookup | src/main/java/co/unus/services/InvitationService.java:115 | findById/findByEmail: present exactly when the key is stored, and then the stored row |
| InvitationService.IsValidCombination | src/main/java/co/unus/services/InvitationService.java:155 | valid exactly when one and only one of the two cases holds; a valid pair includes an admin |
| InvitationService.CombinationInStore | src/main/java/co/unus/services/InvitationService.java:150-157 | for a stored group the rule is a plain or of its two cases, and exactly one party is the group admin |
| InvitationService.GroupAdminsCannotPair | src/main/java/co/unus/services/InvitationService.java:150-157 | two group admins never form a valid pair |
| InvitationService.AdminAndOutsiderPair | src/main/java/co/unus/services/InvitationService.java:150-157 | the group admin and a user with no group form a valid pair in either direction |
| InvitationService.ThrowIfWrongSourceTargetCombination | src/main/java/co/unus/services/InvitationService.java:150-157 | passes exactly when the rule holds; otherwise IllegalArgument with the rule's message |
| InvitationService.ThrowIfInvalidInvitation | src/main/java/co/unus/services/InvitationService.java:143-148 | passes exactly when the caller is the source and the target differs; the caller check comes first |
| InvitationService.ThrowIfNotMember | src/main/java/co/unus/services/InvitationService.java:138-141 | passes exactly when isMember holds; otherwise IllegalArgument with the message |
| InvitationService.ThrowIfNotInvitationTarget | src/main/java/co/unus/services/InvitationService.java:159-162 | passes exactly when the caller is the target |
| InvitationService.ThrowIfNotInvitationSourceOrTarget | src/main/java/co/unus/services/InvitationService.java:164-168 | passes exactly when the caller is the source or the target |
| InvitationService.GetUser | src/main/java/co/unus/services/InvitationService.java:114-118 | the stored user, or NotFound with the given message |
| InvitationService.GetSpace | src/main/java/co/unus/services/InvitationService.java:120-124 | a stored space with the code, or NotFound exactly when none has it |
| InvitationService.GetGroup | src/main/java/co/unus/services/InvitationService.java:126-130 | the stored group, or NotFound |
| InvitationService.GetInvitation | src/main/java/co/unus/services/InvitationService.java:132-136 | the stored invitation, or NotFound |
| InvitationService.InviteFailure | src/main/java/co/unus/services/InvitationService.java:43-64 | the error of the first failing check, in the documented order (caller is source, distinct parties, existence, membership, combination); none exactly when every check passes |
| InvitationService.Invite | src/main/java/co/unus/services/InvitationService.java:55-68 | fails exactly with the first failing check's error; on success exactly one invitation is added under a fresh id, to the table and to its group's set, and users, spaces, groups and group members are unchanged |
| InvitationService.RemoveInvitation | src/main/java/co/unus/services/InvitationService.java:76-85 | succeeds exactly when the invitation exists and the caller is a party; it leaves the table and its group's set, group members unchanged; failures change nothing |
| InvitationService.AcceptInvitation | src/main/java/co/unus/services/InvitationService.java:95-108 | succeeds exactly when the caller is the target and the rule still holds; the invitation is deleted and the non-admin party, who held no group in the space, joins the group |
| GroupService.GetSpace | src/main/java/co/unus/services/GroupService.java:113-117 | a stored space with the code, or NotFound "Space was not found." |
| GroupService.GetGroup | src/main/java/co/unus/services/GroupService.java:119-123 | the stored group, or NotFound "Group was not found." |
| GroupService.ThrowIfGroupNameAlreadyExists | src/main/java/co/unus/services/GroupService.java:137-141 | passes exactly when no stored group of that space has the name |
| GroupService.NameTakenOnlyInSameSpace | src/main/java/co/unus/daos/GroupRepository.java:9-12 | a name taken in the same space is refused; a refusal means that space has a group with the name |
| GroupService.ThrowIfNotAdmin | src/main/java/co/unus/services/GroupService.java:149-153 | passes exactly when the caller is the group admin |
| GroupService.ThrowIfUserNotFound | src/main/java/co/unus/services/GroupService.java:155-159 | fails with UsernameNotFound exactly when the user is absent |
| GroupService.CreateGroup | src/main/java/co/unus/services/GroupService.java:50-62 | errors in order: NoSuchElement, space NotFound, name AlreadyExists; on success a fresh group under a new id, administered by the requester, joins the space's groups; the store stays valid |
| GroupService.InvitationsOutside | src/main/java/co/unus/models/Group.java:46-47 | keeps exactly the invitations of other groups, unchanged |
| GroupService.RemoveGroup | src/main/java/co/unus/services/GroupService.java:64-68 | succeeds exactly when the group exists and the caller is its admin; the group and all its invitations are deleted |
| GroupService.Invite | src/main/java/co/unus/services/GroupService.java:70-88 | checks only that source, target and group exist, in that order; adds one invitation, to the table and to its group's set, whose sentByAdmin holds exactly when the source is the group admin |
| GroupService.RemoveInvitation | src/main/java/co/unus/services/GroupService.java:90-97 | same outcome as the invitation engine's removal |
| GroupService.AcceptInvitation | src/main/java/co/unus/services/GroupService.java:99-111 | succeeds exactly when the caller is the target and is a stored user; the stored user with the target's email joins the group, with no combination check |
| SpaceService.GetSpaceByCode | src/main/java/co/unus/services/SpaceService.java:37-45 | name, code and creation time of a space with the code, or SpaceNotFound naming the code exactly when none has it |
| SpaceService.GetSpaceByCodeExact | src/main/java/co/unus/services/SpaceService.java:37-45 | in a valid store, looking up a stored space's code returns that space's summary |
| SpaceService.Attempts | src/main/java/co/unus/services/SpaceService.java:49-51 | one code per complete attempt of eight draws, in order |
| SpaceService.FirstUnusedFrom | src/main/java/co/unus/services/SpaceService.java:49-51 | the index it returns is of a code no stored space uses |
| SpaceService.BeforeFirstUnusedTaken | src/main/java/co/unus/services/SpaceService.java:49-51 | every attempt before the first unused one spells a code already taken |
| SpaceService.UnusedCodeFound | src/main/java/co/unus/services/SpaceService.java:49-51 | if some attempt from the k-th on is unused, the search finds one no later than it, so -1 means every attempt is taken |
| SpaceService.GetUniqueCode | src/main/java/co/unus/services/SpaceService.java:47-53 | returns the first attempted code that no stored space uses: eight characters from the alphabet |
| SpaceService.AttemptCode | src/main/java/co/unus/services/SpaceService.java:50 | one call of CodeGenerator.get(8) on the attempt's draws |
| SpaceService.AttemptInAlphabet | src/main/java/co/unus/services/SpaceService.java:50 | every attempt spells a code over the alphabet |
| SpaceService.SaveNewSpace | src/main/java/co/unus/services/SpaceService.java:29-32 | a fresh private space administered by the user joins its administered spaces and the space table under its unused code, which then names it only; the admin is not a member |
| SpaceService.CreateSpace | src/main/java/co/unus/services/SpaceService.java:25-35 | fails with NoSuchElement exactly when the requester is absent; otherwise one new private space under a fresh code joins the requester's administered spaces and the space table, the code now names it only, and the admin is not a member |
| UnusUserService.LoadUserByUsername | src/main/java/co/unus/services/UnusUserService.java:34-43 | the stored user's email and password exactly when the username is stored and its email is not empty; UsernameNotFound naming an absent username; IllegalArgument from the principal's constructor for an empty email |
| UnusUserService.LoadedUsernameIsEmail | src/main/java/co/unus/services/UnusUserService.java:34-43 | in a valid store a stored user loads exactly when the username is not empty, and the principal's username is the email looked up |
| UnusUserService.Signup | src/main/java/co/unus/services/UnusUserService.java:25-32 | fails with UserAlreadyExists exactly when the email is taken; otherwise the user is stored and its credentials then load under its email (or the principal is rejected, for an empty email) |
| UnusUserService.RemoveAccount | src/main/java/co/unus/services/UnusUserService.java:45-53 | fails with UsernameNotFound exactly when the email is absent; afterwards no stored user has it and the lookup fails |

## Left out

- Controllers, JWT issuing and checking (JwtService, JwtUserDetailsService),
  the DTO classes and ModelMapper: services return the fields of the output
  DTOs directly (`SpaceBase`, `GroupOutput`).
- Bean validation (`@NotNull`, `@Email`, `@Past`, non-blank names): the
  model places no requirement on names or emails.
- `Math.random()` is a sequence of draws in [0, 1) that the caller supplies,
  real numbers rather than doubles. `LocalDateTime.now()` is an `Instant`
  parameter.
- SpaceService.GetUniqueCode: requires that some supplied attempt spells an
  unused code (`EventuallyUnused`). The source retries without bound, so
  draws that never produce a fresh code make it loop forever.
- SpaceService.CreateSpace: shares that requirement. It calls the Space
  constructor with three arguments, which Space does not declare; the model
  uses the declared field default, a private space.
- InvitationService.Invite: does not state the stored invitation's
  `sentByAdmin`. The three-argument Invitation constructor it calls is not
  declared, so the field keeps its default (`false`), whoever sends.
- The surrogate ids of users and spaces: users are keyed by email and spaces
  by code, the keys the core uses. `UnusUserRepository` declares no
  `findByEmail` or `deleteByEmail`; the model gives them the meaning their
  names state. The `InvitationRepository` interface is not part of this
  model; invitations are a table keyed by id.
- Lombok's generated `hashCode` of Group includes `invitations`
  (Group.java:15) and that of Invitation includes `group` (Invitation.java:11),
  so hashing a group whose invitation set is loaded non-empty recurses
  between the two. The model's sets compare groups by identity and
  invitations by value, and do not capture this.
- GroupService.RemoveGroup: `Space.groups` is not kept equal to the group
  table (the inverse side of `mappedBy = "space"`). The deleted group stays
  in its space's `groups` set, as `removeGroup` leaves it in memory. Orphan
  removal is modelled for the invitation rows only.
- GroupService.CreateGroup: returns the id of the stored row. The source maps
  the local `group` object after `spaceRepository.save(space)`; for a space
  that is already stored that save is a merge, which persists a managed copy
  of the new group, so the id in the returned DTO may be null. The model
  does not capture this persistence-context behaviour.
- UnusUserService.RemoveAccount: deletes the user row only. The database
  cascades (administered spaces, memberships, foreign keys of groups and
  invitations) are not modelled, so the store may then refer to a deleted
  user.
- Lombok `equals`/`hashCode` on UnusUser, Space and Group: association sets
  compare by object identity. Invitation equality is structural over all its
  fields.
- `@Transactional` and concurrency: every service call is one atomic step.
- The one-argument `getUser(email)` of InvitationService is never called and
  is not modelled.
- `String.compareTo` compares UTF-16 code units; the model compares Dafny
  characters.
