/** User accounts (UnusUserService): sign-up, credential lookup for
    authentication, and account removal. Users are keyed by email. */
module UnusUserService {
  import opened Errors
  import opened Models
  import opened Daos

  /** The principal handed to the authentication layer: username and
      password, with no authorities. */
  datatype UserDetails = UserDetails(username: string, password: string)

  function EmailTakenMessage(email: string): string
  {
    "Email already present in database: " + email
  }

  function UserNotFoundMessage(username: string): string
  {
    "User not found: " + username
  }

  /** The message of Spring Security's User constructor when the username
      is empty (or a value is null). */
  const EmptyValuesMessage: string := "Cannot pass null or empty values to constructor"

  /** loadUserByUsername: the stored user's email and password, or
      UsernameNotFound naming the username. Building the principal rejects
      an empty email with IllegalArgument. */
  function LoadUserByUsername(db: Db, username: string): (r: Result<UserDetails>)
    reads db`users
    ensures r.Ok? <==> username in db.users && db.users[username].email != ""
    ensures r.Ok? ==> r.value == UserDetails(db.users[username].email, db.users[username].password)
    ensures username !in db.users ==> r == Err(Error(UsernameNotFound, UserNotFoundMessage(username)))
    ensures username in db.users && db.users[username].email == "" ==>
              r == Err(Error(IllegalArgument, EmptyValuesMessage))
  {
    var tempUser := Lookup(db.users, username);
    if tempUser.Some? then
      // new User(email, password, authorities)
      if tempUser.value.email == "" then Err(Error(IllegalArgument, EmptyValuesMessage))
      else Ok(UserDetails(tempUser.value.email, tempUser.value.password))
    else
      Err(Error(UsernameNotFound, UserNotFoundMessage(username)))
  }

  /** In a valid store a stored user's credentials load exactly when the
      username is not empty, and the principal's username is the email it
      was looked up by. */
  lemma LoadedUsernameIsEmail(db: Db, username: string)
    requires db.Valid() && username in db.users
    ensures LoadUserByUsername(db, username).Ok? <==> username != ""
    ensures username != "" ==> LoadUserByUsername(db, username).value.username == username
  {
  }

  /** signup: stores the user unless its email is already taken; afterwards
      the user's credentials load under its email. */
  method Signup(db: Db, user: UnusUser) returns (r: Result<()>)
    requires db.Valid()
    modifies db
    ensures db.Valid()
    ensures db.spaces == old(db.spaces) && db.groups == old(db.groups) && db.invitations == old(db.invitations)
    ensures db.nextId == old(db.nextId)
    ensures user.email in old(db.users) ==>
              r == Err(Error(UserAlreadyExists, EmailTakenMessage(user.email))) && db.users == old(db.users)
    ensures r.Ok? <==> user.email !in old(db.users)
    ensures r.Ok? ==> db.users == old(db.users)[user.email := user]
    ensures r.Ok? && user.email != "" ==> LoadUserByUsername(db, user.email) == Ok(UserDetails(user.email, user.password))
    ensures r.Ok? && user.email == "" ==> LoadUserByUsername(db, user.email) == Err(Error(IllegalArgument, EmptyValuesMessage))
  {
    var storedUser := Lookup(db.users, user.email);
    if storedUser.Some? {
      return Err(Error(UserAlreadyExists, EmailTakenMessage(user.email)));
    }
    db.users := db.users[user.email := user];   // userRepository.save
    r := Ok(());
  }

  /** removeAccount: deletes the user with the email; afterwards no stored
      user has it. */
  method RemoveAccount(db: Db, email: string) returns (r: Result<()>)
    requires db.Valid()
    modifies db
    ensures db.Valid()
    ensures db.spaces == old(db.spaces) && db.groups == old(db.groups) && db.invitations == old(db.invitations)
    ensures db.nextId == old(db.nextId)
    ensures email !in old(db.users) ==> r == Err(Error(UsernameNotFound, UserNotFoundMessage(email)))
    ensures r.Ok? <==> email in old(db.users)
    ensures db.users == old(db.users) - {email}
    ensures forall e | e in db.users :: db.users[e].email != email
    ensures LoadUserByUsername(db, email) == Err(Error(UsernameNotFound, UserNotFoundMessage(email)))
  {
    var storedUser := Lookup(db.users, email);
    if storedUser.None? {
      return Err(Error(UsernameNotFound, UserNotFoundMessage(email)));
    }
    db.users := db.users - {email};   // userRepository.deleteByEmail
    r := Ok(());
  }
}
