/** The entities of the membership hierarchy: users, spaces, groups and
    invitations.

    UnusUser, Space and Group keep their associations in sets that their
    methods update in place, so they are classes. Fields the core never
    reassigns (names, codes, admins, owning space, timestamps) are `const`;
    the association sets are `var`. Set membership is by object identity, as
    in a persistence context where each row is loaded as one object.
    Invitation is a record built once and never updated, so it is a datatype
    and its equality is structural over all its fields. */
module Models {

  /** A clock reading (LocalDateTime.now()), supplied by the caller. */
  type Instant = int

  datatype LocalDate = LocalDate(year: int, month: int, day: int)

  /** Java's String.compareTo: the difference of the first pair of differing
      characters, or else the difference of the lengths. */
  function CompareStrings(a: string, b: string): int
  {
    if |a| == 0 || |b| == 0 then |a| - |b|
    else if a[0] != b[0] then a[0] as int - b[0] as int
    else CompareStrings(a[1..], b[1..])
  }

  /** Swapping the operands negates the comparison. */
  lemma {:induction false} CompareStringsAntisymmetric(a: string, b: string)
    ensures CompareStrings(a, b) == -CompareStrings(b, a)
  {
    if |a| > 0 && |b| > 0 && a[0] == b[0] {
      CompareStringsAntisymmetric(a[1..], b[1..]);
    }
  }

  /** The comparison is zero exactly for equal strings. */
  lemma {:induction false} CompareStringsZeroIffEqual(a: string, b: string)
    ensures CompareStrings(a, b) == 0 <==> a == b
  {
    if |a| > 0 && |b| > 0 && a[0] == b[0] {
      CompareStringsZeroIffEqual(a[1..], b[1..]);
      assert a == [a[0]] + a[1..] && b == [b[0]] + b[1..];
    }
  }

  /** "Sorts before" is transitive, so sorting users by it is well defined. */
  lemma {:induction false} CompareStringsTransitive(a: string, b: string, c: string)
    requires CompareStrings(a, b) < 0 && CompareStrings(b, c) < 0
    ensures CompareStrings(a, c) < 0
  {
    if |a| > 0 && |b| > 0 && |c| > 0 && a[0] == b[0] && b[0] == c[0] {
      CompareStringsTransitive(a[1..], b[1..], c[1..]);
    }
  }

  class UnusUser {
    const email: string
    const password: string
    const name: string
    const birthDate: LocalDate
    var joinedSpaces: set<Space>
    var administeredSpaces: set<Space>

    constructor (email: string, password: string, name: string, birthDate: LocalDate)
      ensures this.email == email && this.password == password
      ensures this.name == name && this.birthDate == birthDate
      ensures joinedSpaces == {} && administeredSpaces == {}
    {
      this.email := email;
      this.password := password;
      this.name := name;
      this.birthDate := birthDate;
      joinedSpaces := {};
      administeredSpaces := {};
    }

    method JoinSpaceAsAdmin(space: Space)
      modifies this`administeredSpaces
      ensures administeredSpaces == old(administeredSpaces) + {space}
      ensures joinedSpaces == old(joinedSpaces)
    {
      administeredSpaces := administeredSpaces + {space};
    }

    method LeaveSpaceAsAdmin(space: Space)
      modifies this`administeredSpaces
      ensures administeredSpaces == old(administeredSpaces) - {space}
      ensures joinedSpaces == old(joinedSpaces)
    {
      administeredSpaces := administeredSpaces - {space};
    }

    /** Both sides of the user/space membership are updated together. */
    method JoinSpace(space: Space)
      modifies this, space
      ensures joinedSpaces == old(joinedSpaces) + {space}
      ensures space.members == old(space.members) + {this}
      ensures administeredSpaces == old(administeredSpaces)
      ensures space.groups == old(space.groups)
    {
      joinedSpaces := joinedSpaces + {space};
      space.AddMember(this);
    }

    method LeaveSpace(space: Space)
      modifies this, space
      ensures joinedSpaces == old(joinedSpaces) - {space}
      ensures space.members == old(space.members) - {this}
      ensures administeredSpaces == old(administeredSpaces)
      ensures space.groups == old(space.groups)
    {
      joinedSpaces := joinedSpaces - {space};
      space.RemoveMember(this);
    }

    /** Users are ordered by name alone. */
    function CompareTo(o: UnusUser): (r: int)
      ensures r == 0 <==> name == o.name
      ensures r == -CompareStrings(o.name, name)
    {
      CompareStringsZeroIffEqual(name, o.name);
      CompareStringsAntisymmetric(name, o.name);
      CompareStrings(name, o.name)
    }
  }

  class Space {
    const name: string
    const code: string
    const isPublic: bool
    const admin: UnusUser
    const createdOn: Instant
    var groups: set<Group>
    var members: set<UnusUser>

    constructor (name: string, code: string, isPublic: bool, admin: UnusUser, createdOn: Instant)
      ensures this.name == name && this.code == code && this.isPublic == isPublic
      ensures this.admin == admin && this.createdOn == createdOn
      ensures groups == {} && members == {}
    {
      this.name := name;
      this.admin := admin;
      this.code := code;
      this.isPublic := isPublic;
      this.createdOn := createdOn;
      groups := {};
      members := {};
    }

    method AddMember(user: UnusUser)
      modifies this`members
      ensures members == old(members) + {user}
      ensures groups == old(groups)
    {
      members := members + {user};
    }

    method RemoveMember(user: UnusUser)
      modifies this`members
      ensures members == old(members) - {user}
      ensures groups == old(groups)
    {
      members := members - {user};
    }

    method AddGroup(group: Group)
      modifies this
      ensures groups == old(groups) + {group}
      ensures members == old(members)
    {
      groups := groups + {group};
    }

    method RemoveGroup(group: Group)
      modifies this
      ensures groups == old(groups) - {group}
      ensures members == old(members)
    {
      groups := groups - {group};
    }
  }

  class Group {
    const name: string
    const isOpen: bool
    const admin: UnusUser
    const space: Space
    const createdOn: Instant
    var members: set<UnusUser>
    var invitations: set<Invitation>

    constructor (name: string, isOpen: bool, space: Space, admin: UnusUser, createdOn: Instant)
      ensures this.name == name && this.isOpen == isOpen
      ensures this.space == space && this.admin == admin && this.createdOn == createdOn
      ensures members == {} && invitations == {}
    {
      this.name := name;
      this.isOpen := isOpen;
      this.space := space;
      this.admin := admin;
      this.createdOn := createdOn;
      members := {};
      invitations := {};
    }

    method RemoveInvitation(invitation: Invitation)
      modifies this`invitations
      ensures invitations == old(invitations) - {invitation}
      ensures members == old(members)
    {
      invitations := invitations - {invitation};
    }

    method AddMember(user: UnusUser)
      modifies this`members
      ensures members == old(members) + {user}
      ensures invitations == old(invitations)
    {
      members := members + {user};
    }

    method RemoveMember(user: UnusUser)
      modifies this`members
      ensures members == old(members) - {user}
      ensures invitations == old(invitations)
    {
      members := members - {user};
    }
  }

  /** Adding a user who was not a member and removing it again leaves the
      space's members as they were. */
  method AddThenRemoveMember(space: Space, user: UnusUser)
    requires user !in space.members
    modifies space
    ensures space.members == old(space.members) && space.groups == old(space.groups)
  {
    space.AddMember(user);
    space.RemoveMember(user);
  }

  /** Joining a space a second time changes nothing more: both sides hold
      the pair once. */
  method JoinSpaceTwice(user: UnusUser, space: Space)
    modifies user, space
    ensures user.joinedSpaces == old(user.joinedSpaces) + {space}
    ensures space.members == old(space.members) + {user}
    ensures user.administeredSpaces == old(user.administeredSpaces) && space.groups == old(space.groups)
  {
    user.JoinSpace(space);
    ghost var once := (user.joinedSpaces, space.members);
    user.JoinSpace(space);
    assert (user.joinedSpaces, space.members) == once;
  }

  /** Adding a group member twice is the same as adding it once. */
  method AddGroupMemberTwice(group: Group, user: UnusUser)
    modifies group
    ensures group.members == old(group.members) + {user}
    ensures group.invitations == old(group.invitations)
  {
    group.AddMember(user);
    group.AddMember(user);
  }

  /** A pending invitation. Source, target and group are required (the
      types are non-null); `id` is the key the invitation repository assigns
      when the record is saved. */
  datatype Invitation = Invitation(id: int, source: UnusUser, target: UnusUser, group: Group, sentByAdmin: bool)

  /** The value of `sentByAdmin` when no constructor argument sets it. */
  const DefaultSentByAdmin: bool := false
}
