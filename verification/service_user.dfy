/** The user-service `User` entity: an immutable record whose business methods
    return the updated record or the exception the Java method throws. The
    caller supplies the clock reading `now` in milliseconds. */
module ServiceUser {

  import opened Wrappers
  import opened JavaText
  import opened Ids
  import opened Emails
  import UserRole

  const MillisPerDay: int := 86_400_000

  datatype User = User(
    id: UserId,
    username: string,
    email: Email,
    passwordHash: string,
    firstName: string,
    lastName: string,
    role: UserRole.Role,
    isActive: bool,
    lastLoginAt: Option<int>,
    avatarUrl: Option<string>,
    createdAt: int,
    updatedAt: int)

  /** `User.Builder` before `build()`. */
  datatype Draft = Draft(
    id: Option<UserId>,
    username: Option<string>,
    email: Option<Email>,
    passwordHash: Option<string>,
    firstName: Option<string>,
    lastName: Option<string>,
    role: Option<UserRole.Role>,
    isActive: Option<bool>,
    avatarUrl: Option<string>,
    createdAt: Option<int>)

  /** `new User.Builder()`: role USER and active. */
  function NewDraft(): (d: Draft)
    ensures d.role == Some(UserRole.User) && d.isActive == Some(true)
    ensures d.id.None? && d.username.None? && d.email.None? && d.passwordHash.None?
    ensures d.firstName.None? && d.lastName.None? && d.avatarUrl.None? && d.createdAt.None?
  {
    Draft(None, None, None, None, None, None, Some(UserRole.User), Some(true), None, None)
  }

  /** The first of the six required builder fields that is null, in the
      order the constructor checks them. */
  function MissingField(d: Draft): (r: Option<string>)
    ensures r.None? <==> d.id.Some? && d.username.Some? && d.email.Some?
                         && d.passwordHash.Some? && d.firstName.Some? && d.lastName.Some?
  {
    if d.id.None? then Some("User ID cannot be null")
    else if d.username.None? then Some("Username cannot be null")
    else if d.email.None? then Some("Email cannot be null")
    else if d.passwordHash.None? then Some("Password hash cannot be null")
    else if d.firstName.None? then Some("First name cannot be null")
    else if d.lastName.None? then Some("Last name cannot be null")
    else None
  }

  /** The constructor checks the id first, then the username, then the email. */
  lemma MissingFieldOrder(d: Draft)
    ensures d.id.None? ==> MissingField(d) == Some("User ID cannot be null")
    ensures d.id.Some? && d.username.None? ==> MissingField(d) == Some("Username cannot be null")
    ensures d.id.Some? && d.username.Some? && d.email.None? ==> MissingField(d) == Some("Email cannot be null")
  {
  }

  /** `Builder.build()`: a null role becomes USER, a null active flag becomes
      true, a null creation time becomes `now`; `updatedAt` is always `now`
      and no login is recorded. */
  function Build(d: Draft, now: int): (r: Result<User, Exception>)
    ensures r.Success? <==> MissingField(d).None?
    ensures r.Failure? ==> r.error == NullPointer(MissingField(d).value)
    ensures r.Success? ==>
              && r.value.id == d.id.value && r.value.username == d.username.value
              && r.value.email == d.email.value && r.value.passwordHash == d.passwordHash.value
              && r.value.firstName == d.firstName.value && r.value.lastName == d.lastName.value
              && r.value.avatarUrl == d.avatarUrl
    ensures r.Success? ==> r.value.role == (if d.role.Some? then d.role.value else UserRole.User)
    ensures r.Success? ==> r.value.isActive == (d.isActive != Some(false))
    ensures r.Success? ==> r.value.createdAt == (if d.createdAt.Some? then d.createdAt.value else now)
    ensures r.Success? ==> r.value.updatedAt == now && r.value.lastLoginAt.None?
  {
    var id :- RequireNonNull(d.id, "User ID cannot be null");
    var username :- RequireNonNull(d.username, "Username cannot be null");
    var email :- RequireNonNull(d.email, "Email cannot be null");
    var hash :- RequireNonNull(d.passwordHash, "Password hash cannot be null");
    var first :- RequireNonNull(d.firstName, "First name cannot be null");
    var last :- RequireNonNull(d.lastName, "Last name cannot be null");
    Success(User(id, username, email, hash, first, last,
                 if d.role.Some? then d.role.value else UserRole.User,
                 if d.isActive.Some? then d.isActive.value else true,
                 None, d.avatarUrl,
                 if d.createdAt.Some? then d.createdAt.value else now,
                 now))
  }

  /** A user built with only the required fields is an active plain user. */
  lemma BuildDefaults(id: UserId, username: string, email: Email, hash: string,
                      first: string, last: string, now: int)
    ensures var r := Build(NewDraft().(id := Some(id), username := Some(username), email := Some(email),
                                      passwordHash := Some(hash), firstName := Some(first),
                                      lastName := Some(last)), now);
            && r.Success? && r.value.role == UserRole.User && r.value.isActive
            && r.value.createdAt == now && !CanManageUsers(r.value)
  {
  }

  /** `activate()`: only an inactive user can be activated. */
  function Activate(u: User, now: int): (r: Result<User, Exception>)
    ensures r.Failure? <==> u.isActive
    ensures r.Failure? ==> r.error == IllegalState("User is already active")
    ensures r.Success? ==> r.value.isActive && r.value.updatedAt == now
    ensures r.Success? ==> r.value.(isActive := u.isActive, updatedAt := u.updatedAt) == u
  {
    if u.isActive then Failure(IllegalState("User is already active"))
    else Success(u.(isActive := true, updatedAt := now))
  }

  /** `deactivate()`: only an active user can be deactivated. */
  function Deactivate(u: User, now: int): (r: Result<User, Exception>)
    ensures r.Failure? <==> !u.isActive
    ensures r.Failure? ==> r.error == IllegalState("User is already inactive")
    ensures r.Success? ==> !r.value.isActive && r.value.updatedAt == now
    ensures r.Success? ==> r.value.(isActive := u.isActive, updatedAt := u.updatedAt) == u
  {
    if !u.isActive then Failure(IllegalState("User is already inactive"))
    else Success(u.(isActive := false, updatedAt := now))
  }

  /** Exactly one of `activate` and `deactivate` succeeds on any user, the two
      undo each other up to the modification time, and repeating either one
      fails. */
  lemma ActivationToggles(u: User, now: int, later: int)
    ensures Activate(u, now).Success? != Deactivate(u, now).Success?
    ensures Activate(u, now).Success? ==>
              && Activate(Activate(u, now).value, later).Failure?
              && Deactivate(Activate(u, now).value, later) == Success(u.(updatedAt := later))
    ensures Deactivate(u, now).Success? ==>
              && Deactivate(Deactivate(u, now).value, later).Failure?
              && Activate(Deactivate(u, now).value, later) == Success(u.(updatedAt := later))
  {
  }

  /** `recordLogin()`: only an active user may log in. */
  function RecordLogin(u: User, now: int): (r: Result<User, Exception>)
    ensures r.Failure? <==> !u.isActive
    ensures r.Failure? ==> r.error == IllegalState("Cannot record login for inactive user")
    ensures r.Success? ==> r.value.lastLoginAt == Some(now) && r.value.updatedAt == now
    ensures r.Success? ==> r.value.(lastLoginAt := u.lastLoginAt, updatedAt := u.updatedAt) == u
  {
    if !u.isActive then Failure(IllegalState("Cannot record login for inactive user"))
    else Success(u.(lastLoginAt := Some(now), updatedAt := now))
  }

  /** `changePassword(hash)`: a null or blank hash is refused. */
  function ChangePassword(u: User, hash: Option<string>, now: int): (r: Result<User, Exception>)
    ensures r.Failure? <==> hash.None? || IsBlank(hash.value)
    ensures r.Failure? ==> r.error == IllegalArgument("Password hash cannot be null or empty")
    ensures r.Success? ==> r.value.passwordHash == hash.value && r.value.updatedAt == now
    ensures r.Success? ==> r.value.(passwordHash := u.passwordHash, updatedAt := u.updatedAt) == u
  {
    if hash.None? || Trim(hash.value) == [] then
      Failure(IllegalArgument("Password hash cannot be null or empty"))
    else
      Success(u.(passwordHash := hash.value, updatedAt := now))
  }

  /** A name argument of `updateProfile` takes effect only when it has a
      non-blank trim. */
  predicate Replaces(arg: Option<string>) {
    arg.Some? && !IsBlank(arg.value)
  }

  /** `updateProfile(first, last, avatar)`: non-blank names replace the old
      ones by their trim; a non-null avatar replaces the old one by its trim,
      or clears it when blank; `updatedAt` moves only when some argument took
      effect. */
  function UpdateProfile(u: User, first: Option<string>, last: Option<string>,
                         avatar: Option<string>, now: int): (r: User)
    ensures r.firstName == if Replaces(first) then Trim(first.value) else u.firstName
    ensures r.lastName == if Replaces(last) then Trim(last.value) else u.lastName
    ensures avatar.None? ==> r.avatarUrl == u.avatarUrl
    ensures avatar.Some? && IsBlank(avatar.value) ==> r.avatarUrl.None?
    ensures avatar.Some? && !IsBlank(avatar.value) ==> r.avatarUrl == Some(Trim(avatar.value))
    ensures r.updatedAt == if Replaces(first) || Replaces(last) || avatar.Some? then now else u.updatedAt
    ensures r.(firstName := u.firstName, lastName := u.lastName, avatarUrl := u.avatarUrl,
               updatedAt := u.updatedAt) == u
  {
    var firstName := if first.Some? && Trim(first.value) != [] then Trim(first.value) else u.firstName;
    var lastName := if last.Some? && Trim(last.value) != [] then Trim(last.value) else u.lastName;
    var avatarUrl :=
      if avatar.None? then u.avatarUrl
      else if Trim(avatar.value) == [] then None
      else Some(Trim(avatar.value));
    var changed := (first.Some? && Trim(first.value) != []) || (last.Some? && Trim(last.value) != [])
                   || avatar.Some?;
    u.(firstName := firstName, lastName := lastName, avatarUrl := avatarUrl,
       updatedAt := if changed then now else u.updatedAt)
  }

  /** Null arguments change nothing at all. */
  lemma UpdateProfileNullIsNoop(u: User, now: int)
    ensures UpdateProfile(u, None, None, None, now) == u
  {
  }

  /** Applying the same update a second time at the same moment changes
      nothing more. */
  lemma UpdateProfileIdempotent(u: User, first: Option<string>, last: Option<string>,
                                avatar: Option<string>, now: int)
    ensures var once := UpdateProfile(u, first, last, avatar, now);
            UpdateProfile(once, first, last, avatar, now) == once
  {
    var once := UpdateProfile(u, first, last, avatar, now);
    var twice := UpdateProfile(once, first, last, avatar, now);
    assert twice.firstName == once.firstName && twice.lastName == once.lastName;
    assert twice.avatarUrl == once.avatarUrl && twice.updatedAt == once.updatedAt;
    assert twice.(firstName := once.firstName, lastName := once.lastName, avatarUrl := once.avatarUrl,
                  updatedAt := once.updatedAt) == once;
  }

  /** `updateEmail(email)`: null is refused; an equal address changes nothing. */
  function UpdateEmail(u: User, email: Option<Email>, now: int): (r: Result<User, Exception>)
    ensures r.Failure? <==> email.None?
    ensures r.Failure? ==> r.error == IllegalArgument("Email cannot be null")
    ensures r.Success? ==> r.value.email == email.value
    ensures r.Success? && email.value == u.email ==> r.value == u
    ensures r.Success? && email.value != u.email ==> r.value.updatedAt == now
    ensures r.Success? ==> r.value.(email := u.email, updatedAt := u.updatedAt) == u
  {
    if email.None? then Failure(IllegalArgument("Email cannot be null"))
    else if u.email != email.value then Success(u.(email := email.value, updatedAt := now))
    else Success(u)
  }

  /** `changeRole(role)`: null is refused; the same role changes nothing. */
  function ChangeRole(u: User, role: Option<UserRole.Role>, now: int): (r: Result<User, Exception>)
    ensures r.Failure? <==> role.None?
    ensures r.Failure? ==> r.error == IllegalArgument("Role cannot be null")
    ensures r.Success? ==> r.value.role == role.value
    ensures r.Success? && role.value == u.role ==> r.value == u
    ensures r.Success? && role.value != u.role ==> r.value.updatedAt == now
    ensures r.Success? ==> r.value.(role := u.role, updatedAt := u.updatedAt) == u
  {
    if role.None? then Failure(IllegalArgument("Role cannot be null"))
    else if u.role != role.value then Success(u.(role := role.value, updatedAt := now))
    else Success(u)
  }

  /** Setting the email or the role twice is the same as setting it once. */
  lemma UpdatesIdempotent(u: User, e: Email, role: UserRole.Role, now: int, later: int)
    ensures var once := UpdateEmail(u, Some(e), now).value;
            UpdateEmail(once, Some(e), later) == Success(once)
    ensures var once := ChangeRole(u, Some(role), now).value;
            ChangeRole(once, Some(role), later) == Success(once)
  {
  }

  /** `getFullName()`: the names joined by one space. */
  function FullName(u: User): (r: string)
    ensures |r| == |u.firstName| + 1 + |u.lastName|
    ensures r[..|u.firstName|] == u.firstName && r[|u.firstName|] == ' '
    ensures r[|u.firstName| + 1..] == u.lastName
  {
    u.firstName + " " + u.lastName
  }

  predicate IsAdmin(u: User)
    ensures IsAdmin(u) <==> UserRole.HasAdminPrivileges(u.role)
  {
    u.role == UserRole.Admin
  }

  predicate IsManager(u: User)
    ensures IsManager(u) ==> !IsAdmin(u)
  {
    u.role == UserRole.Manager
  }

  /** `canManageUsers()` of this entity admits managers, unlike the role
      predicate of the same name, which admits administrators only. */
  predicate CanManageUsers(u: User)
    ensures CanManageUsers(u) <==> UserRole.HasManagerPrivileges(u.role)
  {
    IsAdmin(u) || IsManager(u)
  }

  lemma ManagerMayManageUsers(u: User)
    requires u.role == UserRole.Manager
    ensures CanManageUsers(u) && !UserRole.CanManageUsers(u.role)
  {
  }

  /** `hasLoggedInRecently(days)`: the last login lies after `now - days`. */
  predicate HasLoggedInRecently(u: User, days: int, now: int)
    ensures u.lastLoginAt.None? ==> !HasLoggedInRecently(u, days, now)
  {
    u.lastLoginAt.Some? && u.lastLoginAt.value > now - days * MillisPerDay
  }

  /** A fresh login counts as recent for any positive window. */
  lemma LoginIsRecent(u: User, days: int, now: int)
    requires u.isActive && days > 0
    ensures HasLoggedInRecently(RecordLogin(u, now).value, days, now)
  {
  }
}
