/** `CreateUserUseCase.execute`: validate the command, normalise the email,
    check the uniqueness and password rules in a fixed order, then build and
    save an active user. The fresh identifier and the clock are parameters. */
module CreateUser {

  import opened Wrappers
  import opened JavaText
  import opened Ids
  import opened Emails
  import opened ServiceUser
  import opened UserDomainService
  import UserRole

  /** `CreateUserCommand`, after its compact constructor has run. */
  datatype Command = Command(
    username: Option<string>,
    email: Option<string>,
    password: Option<string>,
    firstName: Option<string>,
    lastName: Option<string>,
    role: UserRole.Role,
    avatarUrl: Option<string>)

  /** The record's constructor: a null role becomes USER. */
  function NewCommand(username: Option<string>, email: Option<string>, password: Option<string>,
                      firstName: Option<string>, lastName: Option<string>,
                      role: Option<UserRole.Role>, avatarUrl: Option<string>): (c: Command)
    ensures c.role == (if role.Some? then role.value else UserRole.User)
    ensures c.username == username && c.email == email && c.password == password
    ensures c.firstName == firstName && c.lastName == lastName && c.avatarUrl == avatarUrl
  {
    Command(username, email, password, firstName, lastName,
            if role.None? then UserRole.User else role.value, avatarUrl)
  }

  /** A required text field of the command: present and not blank. */
  predicate Filled(s: Option<string>) {
    s.Some? && !IsBlank(s.value)
  }

  predicate WellFormed(c: Command) {
    Filled(c.username) && Filled(c.email) && Filled(c.password) && Filled(c.firstName) && Filled(c.lastName)
  }

  /** `validateCommand(command)`: a null command, then the five text fields
      in declaration order. */
  function ValidateCommand(command: Option<Command>): (r: Outcome<Exception>)
    ensures r.Pass? <==> command.Some? && WellFormed(command.value)
    ensures command.None? ==> r == Fail(IllegalArgument("Create user command cannot be null"))
    ensures command.Some? && !Filled(command.value.username)
            ==> r == Fail(IllegalArgument("Username cannot be null or empty"))
    ensures command.Some? && Filled(command.value.username) && !Filled(command.value.email)
            ==> r == Fail(IllegalArgument("Email cannot be null or empty"))
    ensures command.Some? && Filled(command.value.username) && Filled(command.value.email)
            && !Filled(command.value.password)
            ==> r == Fail(IllegalArgument("Password cannot be null or empty"))
    ensures command.Some? && Filled(command.value.username) && Filled(command.value.email)
            && Filled(command.value.password) && !Filled(command.value.firstName)
            ==> r == Fail(IllegalArgument("First name cannot be null or empty"))
    ensures command.Some? && Filled(command.value.username) && Filled(command.value.email)
            && Filled(command.value.password) && Filled(command.value.firstName)
            && !Filled(command.value.lastName)
            ==> r == Fail(IllegalArgument("Last name cannot be null or empty"))
    ensures r.Fail? ==> r.error.IllegalArgument?
  {
    if command.None? then Fail(IllegalArgument("Create user command cannot be null"))
    else
      var c := command.value;
      if !Filled(c.username) then Fail(IllegalArgument("Username cannot be null or empty"))
      else if !Filled(c.email) then Fail(IllegalArgument("Email cannot be null or empty"))
      else if !Filled(c.password) then Fail(IllegalArgument("Password cannot be null or empty"))
      else if !Filled(c.firstName) then Fail(IllegalArgument("First name cannot be null or empty"))
      else if !Filled(c.lastName) then Fail(IllegalArgument("Last name cannot be null or empty"))
      else Pass
  }

  /** `hashPassword(password)`: a placeholder that prefixes the plain text. */
  function HashPassword(password: string): (r: string)
    ensures |r| == |password| + 7 && r[7..] == password
    ensures StartsWith(r, "hashed_")
  {
    "hashed_" + password
  }

  /** What `execute` returns: the created user and the repository after the save. */
  datatype Created = Created(user: User, repo: Repository)

  /** `execute(command)`. Every check runs before the save, so a failing
      check leaves the repository as it was (the result carries no
      repository). */
  function Execute(repo: Repository, command: Option<Command>, id: UserId, now: int)
    : (r: Result<Created, Exception>)
    ensures r.Success? ==> command.Some?
    ensures r.Success? <==>
              && command.Some?
              && WellFormed(command.value)
              && Of(command.value.email).Success?
              && !ExistsByUsername(repo, command.value.username.value)
              && !ExistsByEmail(repo, Of(command.value.email).value)
              && ValidatePasswordStrength(command.value.password).Pass?
    ensures r.Success? ==>
              var c, u := command.value, r.value.user;
              && u.id == id && u.username == c.username.value
              && u.email == Of(c.email).value
              && u.passwordHash == HashPassword(c.password.value)
              && u.firstName == c.firstName.value && u.lastName == c.lastName.value
              && u.role == c.role && u.isActive && u.avatarUrl == c.avatarUrl
              && u.lastLoginAt.None? && u.createdAt == now && u.updatedAt == now
    ensures r.Success? ==> r.value.repo.users == repo.users + [r.value.user]
  {
    var commandCheck := ValidateCommand(command);
    if commandCheck.Fail? then Failure(commandCheck.error) else
    var c := command.value;
    var email :- Of(c.email);
    var usernameCheck := ValidateUniqueUsername(repo, c.username.value);
    if usernameCheck.Fail? then Failure(usernameCheck.error) else
    var emailCheck := ValidateUniqueEmail(repo, email);
    if emailCheck.Fail? then Failure(emailCheck.error) else
    var passwordCheck := ValidatePasswordStrength(c.password);
    if passwordCheck.Fail? then Failure(passwordCheck.error) else
    // The command check has filled every field the builder demands.
    var user := Build(DraftFor(c, id, email), now).value;
    Success(Created(user, Repository(repo.users + [user])))
  }

  /** The builder `execute` fills once every check has passed. */
  function DraftFor(c: Command, id: UserId, email: Email): (d: Draft)
    requires c.password.Some?
    ensures d.id == Some(id) && d.username == c.username && d.email == Some(email)
    ensures d.passwordHash == Some(HashPassword(c.password.value))
    ensures d.firstName == c.firstName && d.lastName == c.lastName
    ensures d.role == Some(c.role) && d.isActive == Some(true) && d.avatarUrl == c.avatarUrl
    ensures d.createdAt.None?
  {
    NewDraft().(id := Some(id), username := c.username, email := Some(email),
                passwordHash := Some(HashPassword(c.password.value)),
                firstName := c.firstName, lastName := c.lastName,
                role := Some(c.role), isActive := Some(true), avatarUrl := c.avatarUrl)
  }

  /** A check fails exactly as the first failing step dictates: an invalid
      command before a malformed email, a malformed email before a taken
      username, a taken username before a registered email, and that before
      a weak password. */
  lemma ExecuteCheckOrder(repo: Repository, command: Option<Command>, id: UserId, now: int)
    ensures ValidateCommand(command).Fail?
            ==> Execute(repo, command, id, now) == Failure(ValidateCommand(command).error)
    ensures ValidateCommand(command).Pass? && Of(command.value.email).Failure?
            ==> Execute(repo, command, id, now) == Failure(Of(command.value.email).error)
    ensures ValidateCommand(command).Pass? && Of(command.value.email).Success?
            && ExistsByUsername(repo, command.value.username.value)
            ==> Execute(repo, command, id, now)
                == Failure(ValidateUniqueUsername(repo, command.value.username.value).error)
    ensures ValidateCommand(command).Pass? && Of(command.value.email).Success?
            && !ExistsByUsername(repo, command.value.username.value)
            && ExistsByEmail(repo, Of(command.value.email).value)
            ==> Execute(repo, command, id, now)
                == Failure(ValidateUniqueEmail(repo, Of(command.value.email).value).error)
    ensures ValidateCommand(command).Pass? && Of(command.value.email).Success?
            && !ExistsByUsername(repo, command.value.username.value)
            && !ExistsByEmail(repo, Of(command.value.email).value)
            && ValidatePasswordStrength(command.value.password).Fail?
            ==> Execute(repo, command, id, now)
                == Failure(ValidatePasswordStrength(command.value.password).error)
  {
  }

  /** Conversely, a command that passes every check is always created. */
  lemma ExecuteSucceeds(repo: Repository, c: Command, id: UserId, now: int)
    requires WellFormed(c) && Of(c.email).Success?
    requires !ExistsByUsername(repo, c.username.value) && !ExistsByEmail(repo, Of(c.email).value)
    requires ValidatePasswordStrength(c.password).Pass?
    ensures Execute(repo, Some(c), id, now).Success?
  {
  }

  /** After a creation, the new username and email are taken, so repeating the
      same command fails on the username check. */
  lemma ExecuteTwiceFails(repo: Repository, c: Command, id: UserId, id2: UserId, now: int, later: int)
    requires Execute(repo, Some(c), id, now).Success?
    ensures var after := Execute(repo, Some(c), id, now).value.repo;
            && ExistsByUsername(after, c.username.value)
            && ExistsByEmail(after, Of(c.email).value)
            && Execute(after, Some(c), id2, later)
               == Failure(IllegalArgument("Username '" + c.username.value + "' is already taken"))
  {
    var created := Execute(repo, Some(c), id, now).value;
    var after := created.repo;
    assert after.users[|repo.users|] == created.user;
  }
}
