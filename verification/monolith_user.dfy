/** The monolithic application's `User` entity. Unlike the user-service
    entity its state changes are unguarded: activation is unconditional,
    and the builder copies a null role or active flag through. */
module MonolithUser {

  import opened Wrappers
  import opened JavaText
  import opened Ids
  import opened Emails
  import UserRole

  /** The auditing columns `createdAt`, `updatedAt` and `version` are filled
      by the persistence layer and are not part of this record. */
  datatype User = User(
    id: UserId,
    username: string,
    email: Email,
    passwordHash: string,
    firstName: string,
    lastName: string,
    role: Option<UserRole.Role>,
    isActive: Option<bool>,
    lastLoginAt: Option<int>,
    avatarUrl: Option<string>)

  datatype Draft = Draft(
    id: Option<UserId>,
    username: Option<string>,
    email: Option<Email>,
    passwordHash: Option<string>,
    firstName: Option<string>,
    lastName: Option<string>,
    role: Option<UserRole.Role>,
    isActive: Option<bool>,
    avatarUrl: Option<string>)

  /** `new User.Builder()`: role USER and active. */
  function NewDraft(): (d: Draft)
    ensures d.role == Some(UserRole.User) && d.isActive == Some(true)
    ensures d.id.None? && d.username.None? && d.email.None? && d.passwordHash.None?
    ensures d.firstName.None? && d.lastName.None? && d.avatarUrl.None?
  {
    Draft(None, None, None, None, None, None, Some(UserRole.User), Some(true), None)
  }

  /** `Builder.build()`: six fields must be present, checked in this order;
      role and active flag are copied as they are, even when null. */
  function Build(d: Draft): (r: Result<User, Exception>)
    ensures r.Success? <==> d.id.Some? && d.username.Some? && d.email.Some?
                            && d.passwordHash.Some? && d.firstName.Some? && d.lastName.Some?
    ensures d.id.None? ==> r == Failure(NullPointer("User ID cannot be null"))
    ensures d.id.Some? && d.username.None? ==> r == Failure(NullPointer("Username cannot be null"))
    ensures d.id.Some? && d.username.Some? && d.email.None? ==> r == Failure(NullPointer("Email cannot be null"))
    ensures d.id.Some? && d.username.Some? && d.email.Some? && d.passwordHash.None?
            ==> r == Failure(NullPointer("Password hash cannot be null"))
    ensures d.id.Some? && d.username.Some? && d.email.Some? && d.passwordHash.Some? && d.firstName.None?
            ==> r == Failure(NullPointer("First name cannot be null"))
    ensures d.id.Some? && d.username.Some? && d.email.Some? && d.passwordHash.Some? && d.firstName.Some?
            && d.lastName.None?
            ==> r == Failure(NullPointer("Last name cannot be null"))
    ensures r.Failure? ==> r.error.NullPointer?
    ensures r.Success? ==>
              && r.value.id == d.id.value && r.value.username == d.username.value
              && r.value.email == d.email.value && r.value.passwordHash == d.passwordHash.value
              && r.value.firstName == d.firstName.value && r.value.lastName == d.lastName.value
              && r.value.role == d.role && r.value.isActive == d.isActive
              && r.value.avatarUrl == d.avatarUrl && r.value.lastLoginAt.None?
  {
    var id :- RequireNonNull(d.id, "User ID cannot be null");
    var username :- RequireNonNull(d.username, "Username cannot be null");
    var email :- RequireNonNull(d.email, "Email cannot be null");
    var hash :- RequireNonNull(d.passwordHash, "Password hash cannot be null");
    var first :- RequireNonNull(d.firstName, "First name cannot be null");
    var last :- RequireNonNull(d.lastName, "Last name cannot be null");
    Success(User(id, username, email, hash, first, last, d.role, d.isActive, None, d.avatarUrl))
  }

  /** Built from the defaults, a user is an active plain user. */
  lemma BuildDefaults(id: UserId, username: string, email: Email, hash: string,
                      first: string, last: string)
    ensures var r := Build(NewDraft().(id := Some(id), username := Some(username), email := Some(email),
                                      passwordHash := Some(hash), firstName := Some(first),
                                      lastName := Some(last)));
            && r.Success? && r.value.role == Some(UserRole.User) && r.value.isActive == Some(true)
            && !IsAdmin(r.value) && !IsManager(r.value)
  {
  }

  function Activate(u: User): (r: User)
    ensures r.isActive == Some(true) && r.(isActive := u.isActive) == u
  {
    u.(isActive := Some(true))
  }

  function Deactivate(u: User): (r: User)
    ensures r.isActive == Some(false) && r.(isActive := u.isActive) == u
  {
    u.(isActive := Some(false))
  }

  /** Both are idempotent and each undoes the other. */
  lemma ActivationUnguarded(u: User)
    ensures Activate(Activate(u)) == Activate(u) && Deactivate(Deactivate(u)) == Deactivate(u)
    ensures Activate(Deactivate(u)) == Activate(u) && Deactivate(Activate(u)) == Deactivate(u)
    ensures u.isActive == Some(true) ==> Activate(u) == u
  {
  }

  /** `updateLastLogin()`: records the login whether or not the user is active. */
  function UpdateLastLogin(u: User, now: int): (r: User)
    ensures r.lastLoginAt == Some(now) && r.(lastLoginAt := u.lastLoginAt) == u
  {
    u.(lastLoginAt := Some(now))
  }

  lemma InactiveUserMayLogIn(u: User, now: int)
    requires u.isActive == Some(false)
    ensures UpdateLastLogin(u, now).lastLoginAt == Some(now)
    ensures UpdateLastLogin(u, now).isActive == Some(false)
  {
  }

  function ChangePassword(u: User, hash: Option<string>): (r: Result<User, Exception>)
    ensures r.Failure? <==> hash.None? || IsBlank(hash.value)
    ensures r.Failure? ==> r.error == IllegalArgument("Password hash cannot be null or empty")
    ensures r.Success? ==> r.value.passwordHash == hash.value && r.value.(passwordHash := u.passwordHash) == u
  {
    if hash.None? || Trim(hash.value) == [] then
      Failure(IllegalArgument("Password hash cannot be null or empty"))
    else
      Success(u.(passwordHash := hash.value))
  }

  /** `updateProfile(first, last, avatar)`: non-blank names replace the old
      ones by their trim, while the avatar is always overwritten, untrimmed
      and even by null. */
  function UpdateProfile(u: User, first: Option<string>, last: Option<string>,
                         avatar: Option<string>): (r: User)
    ensures r.firstName == if first.Some? && !IsBlank(first.value) then Trim(first.value) else u.firstName
    ensures r.lastName == if last.Some? && !IsBlank(last.value) then Trim(last.value) else u.lastName
    ensures r.avatarUrl == avatar
    ensures r.(firstName := u.firstName, lastName := u.lastName, avatarUrl := u.avatarUrl) == u
  {
    var firstName := if first.Some? && Trim(first.value) != [] then Trim(first.value) else u.firstName;
    var lastName := if last.Some? && Trim(last.value) != [] then Trim(last.value) else u.lastName;
    u.(firstName := firstName, lastName := lastName, avatarUrl := avatar)
  }

  /** Passing null leaves the names but erases the avatar; repeating an
      update changes nothing more. */
  lemma UpdateProfileErasesAvatar(u: User, first: Option<string>, last: Option<string>,
                                  avatar: Option<string>)
    ensures UpdateProfile(u, None, None, None) == u.(avatarUrl := None)
    ensures var once := UpdateProfile(u, first, last, avatar);
            UpdateProfile(once, first, last, avatar) == once
  {
    if first.Some? { TrimIdempotent(first.value); }
    if last.Some? { TrimIdempotent(last.value); }
  }

  function FullName(u: User): (r: string)
    ensures |r| == |u.firstName| + 1 + |u.lastName|
    ensures r[..|u.firstName|] == u.firstName && r[|u.firstName|] == ' '
    ensures r[|u.firstName| + 1..] == u.lastName
  {
    u.firstName + " " + u.lastName
  }

  predicate IsAdmin(u: User)
    ensures IsAdmin(u) <==> u.role.Some? && UserRole.HasAdminPrivileges(u.role.value)
  {
    u.role == Some(UserRole.Admin)
  }

  predicate IsManager(u: User)
    ensures IsManager(u) ==> !IsAdmin(u)
    ensures IsManager(u) ==> u.role.Some? && UserRole.HasManagerPrivileges(u.role.value)
  {
    u.role == Some(UserRole.Manager)
  }
}
