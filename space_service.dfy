/** Spaces (SpaceService): creating a space under a fresh random code, and
    looking a space up by its code.

    The random source is the sequence of draws of CodeGenerator: the k-th
    attempt at a code spells draws CodeSize*k up to CodeSize*(k+1). */
module SpaceService {
  import opened Errors
  import opened Models
  import opened Daos
  import CodeGenerator

  datatype SpaceBase = SpaceBase(name: string, code: string, createdOn: Instant)

  /** The length of a space code. */
  const CodeSize: nat := 8

  /** "Space with code %s was not found." */
  function SpaceNotFoundMessage(code: string): string
  {
    "Space with code " + code + " was not found."
  }

  /** getSpaceByCode: the name, code and creation time of the space with
      the code, or SpaceNotFound naming the code. */
  function GetSpaceByCode(db: Db, code: string): (r: Result<SpaceBase>)
    reads db`spaces
    ensures r.Ok? <==> exists i | 0 <= i < |db.spaces| :: db.spaces[i].code == code
    ensures r.Ok? ==>
              exists i | 0 <= i < |db.spaces| :: db.spaces[i].code == code
                && r.value == SpaceBase(db.spaces[i].name, db.spaces[i].code, db.spaces[i].createdOn)
    ensures r.Err? ==> r.error == Error(SpaceNotFound, SpaceNotFoundMessage(code))
  {
    var storedSpace := db.FindByCode(code);
    if storedSpace.None? then
      Err(Error(SpaceNotFound, SpaceNotFoundMessage(code)))
    else
      var space := storedSpace.value;
      Ok(SpaceBase(space.name, space.code, space.createdOn))
  }

  /** In a valid store, getSpaceByCode returns the one space with that code. */
  lemma GetSpaceByCodeExact(db: Db, s: Space)
    requires db.Valid() && s in db.spaces
    ensures GetSpaceByCode(db, s.code) == Ok(SpaceBase(s.name, s.code, s.createdOn))
  {
    FindByCodeExact(db, s);
  }

  /** There are draws for a k-th attempt. */
  predicate HasAttempt(draws: seq<real>, k: int)
  {
    0 <= k && CodeSize * (k + 1) <= |draws|
  }

  /** The code the k-th attempt spells. */
  ghost function Attempt(draws: seq<real>, k: int): (code: string)
    requires CodeGenerator.AllDraws(draws) && HasAttempt(draws, k)
    ensures |code| == CodeSize
  {
    CodeGenerator.CodeFrom(draws[CodeSize * k .. CodeSize * (k + 1)])
  }

  /** The codes the draws spell, one per attempt, in order. */
  ghost function Attempts(draws: seq<real>): (codes: seq<string>)
    requires CodeGenerator.AllDraws(draws)
    ensures forall k | 0 <= k < |codes| :: HasAttempt(draws, k) && codes[k] == Attempt(draws, k)
    ensures forall k | HasAttempt(draws, k) :: k < |codes|
  {
    seq(|draws| / CodeSize, k requires 0 <= k < |draws| / CodeSize => Attempt(draws, k))
  }

  /** The first code, from the k-th on, that no stored space uses; -1 when
      every one of them is taken. */
  function FirstUnusedFrom(db: Db, codes: seq<string>, k: nat): (first: int)
    reads db`spaces
    ensures first == -1 || (k <= first < |codes| && db.FindByCode(codes[first]).None?)
    decreases |codes| - k
  {
    if k >= |codes| then -1
    else if db.FindByCode(codes[k]).None? then k
    else FirstUnusedFrom(db, codes, k + 1)
  }

  /** Every code before the first unused one is the code of a stored space. */
  lemma {:induction false} BeforeFirstUnusedTaken(db: Db, codes: seq<string>, k: nat, j: int)
    requires k <= j < FirstUnusedFrom(db, codes, k)
    ensures db.FindByCode(codes[j]).Some?
    decreases j - k
  {
    if j > k {
      BeforeFirstUnusedTaken(db, codes, k + 1, j);
    }
  }

  /** An unused code at or after k is found: the result is -1 only when every
      code from the k-th on is taken. */
  lemma {:induction false} UnusedCodeFound(db: Db, codes: seq<string>, k: nat, j: int)
    requires k <= j < |codes| && db.FindByCode(codes[j]).None?
    ensures 0 <= FirstUnusedFrom(db, codes, k) <= j
    decreases j - k
  {
    if db.FindByCode(codes[k]).Some? {
      UnusedCodeFound(db, codes, k + 1, j);
    }
  }

  /** Some attempt spells a code no stored space uses: without it the
      retry loop does not end. */
  ghost predicate EventuallyUnused(db: Db, draws: seq<real>)
    reads db`spaces
  {
    CodeGenerator.AllDraws(draws) && FirstUnusedFrom(db, Attempts(draws), 0) >= 0
  }

  /** getUniqueCode: draws codes of length CodeSize until one is not the
      code of a stored space. The result is the first unused attempt. */
  method GetUniqueCode(db: Db, draws: seq<real>) returns (code: string)
    requires EventuallyUnused(db, draws)
    ensures code == Attempts(draws)[FirstUnusedFrom(db, Attempts(draws), 0)]
    ensures |code| == CodeSize && CodeGenerator.InAlphabet(code)
    ensures forall i | 0 <= i < |db.spaces| :: db.spaces[i].code != code
  {
    ghost var codes := Attempts(draws);
    ghost var first := FirstUnusedFrom(db, codes, 0);
    var attempt := 0;
    code := AttemptCode(draws, attempt);
    while db.FindByCode(code).Some?
      invariant 0 <= attempt <= first
      invariant FirstUnusedFrom(db, codes, attempt) == first
      invariant code == codes[attempt]
      decreases first - attempt
    {
      attempt := attempt + 1;
      code := AttemptCode(draws, attempt);
    }
    AttemptInAlphabet(draws, attempt);
  }

  /** One call of CodeGenerator.get(CodeSize), on the draws of attempt k. */
  method AttemptCode(draws: seq<real>, k: int) returns (code: string)
    requires CodeGenerator.AllDraws(draws) && HasAttempt(draws, k)
    ensures code == Attempt(draws, k)
  {
    var slice := draws[CodeSize * k .. CodeSize * (k + 1)];
    code := CodeGenerator.Get(CodeSize, slice);
    assert slice[..|code|] == slice;
  }

  /** Every attempt spells a code over the alphabet. */
  lemma AttemptInAlphabet(draws: seq<real>, k: int)
    requires CodeGenerator.AllDraws(draws) && HasAttempt(draws, k)
    ensures CodeGenerator.InAlphabet(Attempt(draws, k))
  {
    CodeGenerator.CodeFromInAlphabet(draws[CodeSize * k .. CodeSize * (k + 1)]);
  }


  /** createSpace: a private space under a fresh code, administered by the
      requester, stored through the requester's administered spaces. The
      code is drawn before the requester is looked up, and an absent
      requester surfaces as NoSuchElement. */
  method CreateSpace(db: Db, name: string, adminEmail: string, draws: seq<real>, now: Instant)
    returns (r: Result<SpaceBase>)
    requires db.Valid() && EventuallyUnused(db, draws)
    modifies db`spaces, (if adminEmail in db.users then {db.users[adminEmail]} else {})`administeredSpaces
    ensures db.Valid()
    ensures r.Ok? <==> adminEmail in old(db.users)
    ensures r.Err? ==> r.error == Error(NoSuchElement, NoValuePresent) && db.spaces == old(db.spaces)
    ensures r.Ok? ==>
              var user := old(db.users[adminEmail]);
              && |db.spaces| == |old(db.spaces)| + 1
              && var s := db.spaces[|db.spaces| - 1];
              && db.spaces == old(db.spaces) + [s]
              && fresh(s)
              && s.name == name && s.code == r.value.code && s.admin == user
              && !s.isPublic && s.createdOn == now
              && s.members == {} && s.groups == {}
              && user.administeredSpaces == old(user.administeredSpaces) + {s}
              && user.joinedSpaces == old(user.joinedSpaces)
              && r.value == SpaceBase(name, s.code, now)
              // the code is fresh, spelled from the alphabet, and now names this space only
              && |r.value.code| == CodeSize
              && CodeGenerator.InAlphabet(r.value.code)
              && old(db.FindByCode(r.value.code)).None?
              && db.SpacesWithCode(r.value.code) == {s}
              // the admin is not a member of the new space
              && !db.IsMember(r.value.code, adminEmail)
  {
    var storedUser := Lookup(db.users, adminEmail);
    var code := GetUniqueCode(db, draws);
    var user :- Get(storedUser);
    var space := SaveNewSpace(db, user, name, code, now);
    r := Ok(SpaceBase(space.name, space.code, space.createdOn));
  }

  /** The second half of createSpace: a new private space administered by
      `user`, saved through the user's administered spaces. */
  method SaveNewSpace(db: Db, user: UnusUser, name: string, code: string, now: Instant) returns (space: Space)
    requires db.Valid() && forall i | 0 <= i < |db.spaces| :: db.spaces[i].code != code
    modifies db`spaces, user`administeredSpaces
    ensures db.Valid()
    ensures fresh(space) && db.spaces == old(db.spaces) + [space]
    ensures space.name == name && space.code == code && space.admin == user
    ensures !space.isPublic && space.createdOn == now
    ensures space.members == {} && space.groups == {}
    ensures user.administeredSpaces == old(user.administeredSpaces) + {space}
    ensures db.SpacesWithCode(code) == {space} && !db.IsMember(code, user.email)
  {
    space := new Space(name, code, false, user, now);

    user.JoinSpaceAsAdmin(space);
    // userRepository.save(user) persists the space through administeredSpaces
    db.InsertSpace(space);

    AdminIsNotMember(db, space);
  }
}
