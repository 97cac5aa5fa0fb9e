/** The persistent store and the repository queries the services use.

    Each repository is one field of `Db`: users keyed by email (the user
    repository's findByEmail/deleteByEmail), spaces as the rows of their table
    (looked up by code), groups and invitations keyed by their generated id.
    `nextId` is the id sequence. The JPQL queries of GroupRepository and
    SpaceRepository are functions over these tables. */
module Daos {
  import opened Errors
  import opened Models

  class Db {
    var users: map<string, UnusUser>
    var spaces: seq<Space>
    var groups: map<int, Group>
    var invitations: map<int, Invitation>
    var nextId: int

    constructor ()
      ensures Valid()
      ensures users == map[] && spaces == [] && groups == map[] && invitations == map[]
    {
      users := map[];
      spaces := [];
      groups := map[];
      invitations := map[];
      nextId := 0;
    }

    /** The store invariant: users are keyed by their own email, space codes
        are unique, group names are unique within a space, ids come from the
        sequence, every stored invitation belongs to a stored group, and each
        stored group's invitation set is the inverse side of the invitation
        table (`mappedBy = "group"`): exactly the rows whose group it is. */
    ghost predicate Valid()
      reads this, groups.Values
    {
      && (forall e | e in users :: users[e].email == e)
      && UniqueCodes(spaces)
      && (forall i, j | i in groups && j in groups && i != j && groups[i].space.code == groups[j].space.code
            :: groups[i].name != groups[j].name)
      && (forall id | id in groups :: id < nextId)
      && (forall id | id in invitations :: id < nextId && invitations[id].id == id)
      && (forall id | id in invitations :: StoresGroup(invitations[id].group))
      && InvitationSetsMatch()
    }

    /** Each stored group's invitation set holds exactly its rows of the
        invitation table. */
    ghost predicate InvitationSetsMatch()
      reads this`groups, this`invitations, groups.Values
    {
      forall id | id in groups :: groups[id].invitations == InvitationsOf(invitations, groups[id])
    }

    /** invitationRepository.save of a new invitation: the row is stored
        under the next id and shows in its group's invitation set. */
    method InsertInvitation(source: UnusUser, target: UnusUser, group: Group, sentByAdmin: bool)
      returns (inv: Invitation)
      requires Valid() && StoresGroup(group)
      modifies this`invitations, this`nextId, group`invitations
      ensures Valid()
      ensures inv == Invitation(old(nextId), source, target, group, sentByAdmin)
      ensures inv.id !in old(invitations) && invitations == old(invitations)[inv.id := inv]
      ensures nextId == old(nextId) + 1
      ensures group.invitations == old(group.invitations) + {inv}
    {
      inv := Invitation(nextId, source, target, group, sentByAdmin);
      ghost var oldInvitations := invitations;
      invitations := invitations[nextId := inv];
      nextId := nextId + 1;
      group.invitations := group.invitations + {inv};
      forall id | id in groups
        ensures groups[id].invitations == InvitationsOf(invitations, groups[id])
      {
        InvitationsOfAdd(oldInvitations, inv.id, inv, groups[id]);
      }
    }

    /** Inserts a space row under a code no stored space uses. */
    method InsertSpace(s: Space)
      requires Valid() && forall i | 0 <= i < |spaces| :: spaces[i].code != s.code
      modifies this`spaces
      ensures Valid()
      ensures spaces == old(spaces) + [s]
      ensures SpacesWithCode(s.code) == {s} && FindByCode(s.code) == Some(s)
    {
      UniqueCodesAppend(spaces, s);
      spaces := spaces + [s];
      SpacesWithCodeExact(this, s);
      FindByCodeExact(this, s);
    }

    /** Saving a new group row: it is stored under the next id, and its
        name is not yet taken in its space. */
    method InsertGroup(g: Group) returns (id: int)
      requires Valid() && !AlreadyExistsInSpace(g.space.code, g.name)
      requires g.invitations == {} && forall k | k in groups :: groups[k] != g
      modifies this`groups, this`nextId
      ensures Valid()
      ensures id == old(nextId) && id !in old(groups) && groups == old(groups)[id := g]
      ensures nextId == old(nextId) + 1
    {
      id := nextId;
      ghost var oldGroups := groups;
      groups := groups[id := g];
      nextId := id + 1;
      forall k | k in invitations
        ensures StoresGroup(invitations[k].group)
      {
        var j :| j in oldGroups && oldGroups[j] == invitations[k].group;
        assert groups[j] == oldGroups[j];
      }
      assert InvitationsOf(invitations, g) == {} by {
        forall k | k in invitations
          ensures invitations[k].group != g
        {
          var j :| j in oldGroups && oldGroups[j] == invitations[k].group;
        }
      }
    }

    /** Deleting an invitation row (invitationRepository.deleteById) together
        with its entry in its group's set, the other side of the same
        association. */
    method DeleteInvitation(id: int)
      requires Valid() && id in invitations
      modifies this`invitations, invitations[id].group`invitations
      ensures Valid()
      ensures invitations == old(invitations) - {id}
      ensures old(invitations[id]).group.invitations == old(invitations[id].group.invitations) - {old(invitations[id])}
    {
      var inv := invitations[id];
      ghost var oldInvitations := invitations;
      invitations := invitations - {id};
      inv.group.RemoveInvitation(inv);
      forall gid | gid in groups
        ensures groups[gid].invitations == InvitationsOf(invitations, groups[gid])
      {
        InvitationsOfRemove(oldInvitations, id, groups[gid]);
      }
    }

    /** The group is a row of the group table. */
    predicate StoresGroup(g: Group)
      reads this`groups
    {
      exists id | id in groups :: groups[id] == g
    }

    /** The stored spaces with `code`: at most one while the store is valid. */
    function SpacesWithCode(code: string): set<Space>
      reads this`spaces
    {
      set s | s in spaces && s.code == code
    }

    /** SpaceRepository.findByCode: the space stored with `code`, if any. */
    function FindByCode(code: string): (r: Option<Space>)
      reads this`spaces
      ensures r.Some? ==> r.value in spaces && r.value.code == code
      ensures r.None? <==> forall i | 0 <= i < |spaces| :: spaces[i].code != code
    {
      FirstWithCode(spaces, code)
    }

    /** SpaceRepository.isMember: the space with `code` has a member with
        `email`. The space's admin is not looked at. */
    function IsMember(code: string, email: string): (r: bool)
      reads this`spaces, spaces
      ensures r ==> FindByCode(code).Some?
    {
      exists i | 0 <= i < |spaces| :: spaces[i].code == code && HasMemberWithEmail(spaces[i].members, email)
    }

    /** GroupRepository.alreadyExistsInSpace: some stored group of the space
        with `spaceCode` is called `groupName`. */
    function AlreadyExistsInSpace(spaceCode: string, groupName: string): (r: bool)
      reads this`groups
      ensures !r <==> forall id | id in groups && groups[id].space.code == spaceCode :: groups[id].name != groupName
    {
      exists id | id in groups :: groups[id].space.code == spaceCode && groups[id].name == groupName
    }

    /** GroupRepository.hasGroupInSpace, as the query parses: AND binds
        tighter than OR, so a group counts when it is in the space and has the
        user as a member, or when the user is its admin, in any space. */
    function HasGroupInSpace(code: string, userEmail: string): (r: bool)
      reads this`groups, groups.Values
      ensures r <==>
                (exists id | id in groups :: groups[id].admin.email == userEmail)
                || (exists id | id in groups && groups[id].space.code == code
                      :: HasMemberWithEmail(groups[id].members, userEmail))
    {
      exists id | id in groups ::
        (groups[id].space.code == code && HasMemberWithEmail(groups[id].members, userEmail))
        || groups[id].admin.email == userEmail
    }
  }

  /** A repository's findById/findByEmail: the row stored under `key`, if any. */
  function Lookup<K, V>(table: map<K, V>, key: K): (r: Option<V>)
    ensures r.Some? <==> key in table
    ensures r.Some? ==> r.value == table[key]
  {
    if key in table then Some(table[key]) else None
  }

  /** The invitations of the table whose group is `g`. */
  function InvitationsOf(invitations: map<int, Invitation>, g: Group): set<Invitation>
  {
    set id | id in invitations && invitations[id].group == g :: invitations[id]
  }

  /** Storing a row under a fresh key adds it to its own group's set only. */
  lemma InvitationsOfAdd(invitations: map<int, Invitation>, id: int, inv: Invitation, g: Group)
    requires id !in invitations
    ensures InvitationsOf(invitations[id := inv], g) ==
              if inv.group == g then InvitationsOf(invitations, g) + {inv} else InvitationsOf(invitations, g)
  {
    var after := invitations[id := inv];
    var expected := if inv.group == g then InvitationsOf(invitations, g) + {inv} else InvitationsOf(invitations, g);
    forall x | x in InvitationsOf(after, g)
      ensures x in expected
    {
      var k :| k in after && after[k].group == g && x == after[k];
      if k != id {
        assert x in InvitationsOf(invitations, g);
      }
    }
    forall x | x in expected
      ensures x in InvitationsOf(after, g)
    {
      if x !in InvitationsOf(invitations, g) {
        assert after[id] == x;
      } else {
        var k :| k in invitations && invitations[k].group == g && x == invitations[k];
        assert after[k] == x;
      }
    }
  }

  /** Deleting a row removes it from its own group's set only, when rows
      carry their own keys. */
  lemma InvitationsOfRemove(invitations: map<int, Invitation>, id: int, g: Group)
    requires id in invitations && forall k | k in invitations :: invitations[k].id == k
    ensures InvitationsOf(invitations - {id}, g) ==
              if invitations[id].group == g then InvitationsOf(invitations, g) - {invitations[id]}
              else InvitationsOf(invitations, g)
  {
    var after := invitations - {id};
    var expected := if invitations[id].group == g then InvitationsOf(invitations, g) - {invitations[id]}
                    else InvitationsOf(invitations, g);
    forall x | x in InvitationsOf(after, g)
      ensures x in expected
    {
      var k :| k in after && after[k].group == g && x == after[k];
      assert x in InvitationsOf(invitations, g);
      assert x.id == k != id;
    }
    forall x | x in expected
      ensures x in InvitationsOf(after, g)
    {
      var k :| k in invitations && invitations[k].group == g && x == invitations[k];
      assert k != id;
      assert after[k] == x;
    }
  }

  predicate UniqueCodes(spaces: seq<Space>)
  {
    forall i, j | 0 <= i < j < |spaces| :: spaces[i].code != spaces[j].code
  }

  /** A user set, as the queries' `EXISTS ... WHERE m.email = :userEmail` see it. */
  predicate HasMemberWithEmail(members: set<UnusUser>, email: string)
  {
    exists m | m in members :: m.email == email
  }

  /** The first row of the space table with `code`. */
  function FirstWithCode(spaces: seq<Space>, code: string): (r: Option<Space>)
    ensures r.Some? ==> r.value in spaces && r.value.code == code
    ensures r.None? <==> forall i | 0 <= i < |spaces| :: spaces[i].code != code
  {
    if spaces == [] then None
    else if spaces[0].code == code then Some(spaces[0])
    else FirstWithCode(spaces[1..], code)
  }

  /** With unique codes, findByCode finds exactly the space that has the code. */
  lemma FindByCodeExact(db: Db, s: Space)
    requires db.Valid() && s in db.spaces
    ensures db.FindByCode(s.code) == Some(s)
  {
  }

  /** With unique codes, the space is the only one stored with its code. */
  lemma SpacesWithCodeExact(db: Db, s: Space)
    requires db.Valid() && s in db.spaces
    ensures db.SpacesWithCode(s.code) == {s}
  {
  }

  /** Appending a space under an unused code keeps the codes unique. */
  lemma UniqueCodesAppend(spaces: seq<Space>, s: Space)
    requires UniqueCodes(spaces) && forall i | 0 <= i < |spaces| :: spaces[i].code != s.code
    ensures UniqueCodes(spaces + [s])
  {
  }

  /** isMember looks only at the members of the space with that code. */
  lemma IsMemberExact(db: Db, s: Space, email: string)
    requires db.Valid() && s in db.spaces
    ensures db.IsMember(s.code, email) <==> HasMemberWithEmail(s.members, email)
  {
  }

  /** The space admin is not a member as far as isMember is concerned,
      unless the admin's email is also in the members set. */
  lemma AdminIsNotMember(db: Db, s: Space)
    requires db.Valid() && s in db.spaces
    requires !HasMemberWithEmail(s.members, s.admin.email)
    ensures !db.IsMember(s.code, s.admin.email)
  {
    IsMemberExact(db, s, s.admin.email);
  }

  /** The admin of any stored group "has a group" in every space. */
  lemma GroupAdminHasGroupEverywhere(db: Db, g: Group, code: string)
    requires db.StoresGroup(g)
    ensures db.HasGroupInSpace(code, g.admin.email)
  {
    var id :| id in db.groups && db.groups[id] == g;
    assert db.groups[id].admin.email == g.admin.email;
  }

  /** A member of a stored group of the space has a group in it. */
  lemma GroupMemberHasGroup(db: Db, g: Group, u: UnusUser)
    requires db.StoresGroup(g) && u in g.members
    ensures db.HasGroupInSpace(g.space.code, u.email)
  {
    var id :| id in db.groups && db.groups[id] == g;
    assert HasMemberWithEmail(db.groups[id].members, u.email);
  }

  /** Outside these two cases a user has no group in the space. */
  lemma NoGroupInSpace(db: Db, code: string, email: string)
    requires forall id | id in db.groups :: db.groups[id].admin.email != email
    requires forall id | id in db.groups && db.groups[id].space.code == code
               :: !HasMemberWithEmail(db.groups[id].members, email)
    ensures !db.HasGroupInSpace(code, email)
  {
  }
}
