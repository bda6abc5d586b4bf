/** `UserEntityMapper`: the conversions between the user-service `User` and
    its persistence record. Every column of the record may be null. */
module UserMapper {

  import opened Wrappers
  import opened Ids
  import opened Emails
  import opened ServiceUser
  import UserRole

  /** The shape of `UserJpaEntity`. */
  datatype JpaUser = JpaUser(
    id: Option<UserId>,
    username: Option<string>,
    email: Option<string>,
    passwordHash: Option<string>,
    firstName: Option<string>,
    lastName: Option<string>,
    role: Option<string>,
    isActive: Option<bool>,
    lastLoginAt: Option<int>,
    avatarUrl: Option<string>,
    createdAt: Option<int>,
    updatedAt: Option<int>,
    version: Option<int>)

  /** `toJpaEntity(user)`: null maps to null; otherwise every field is
      copied, the email as its value and the role as its name. The version
      stays null. */
  function ToJpaEntity(user: Option<User>): (r: Option<JpaUser>)
    ensures user.None? <==> r.None?
    ensures r.Some? ==>
              var u, j := user.value, r.value;
              && j.id == Some(u.id) && j.username == Some(u.username)
              && j.email == Some(u.email.value) && j.passwordHash == Some(u.passwordHash)
              && j.firstName == Some(u.firstName) && j.lastName == Some(u.lastName)
              && j.role == Some(UserRole.Name(u.role)) && j.isActive == Some(u.isActive)
              && j.lastLoginAt == u.lastLoginAt && j.avatarUrl == u.avatarUrl
              && j.createdAt == Some(u.createdAt) && j.updatedAt == Some(u.updatedAt)
              && j.version.None?
  {
    if user.None? then None
    else
      var u := user.value;
      Some(JpaUser(Some(u.id), Some(u.username), Some(u.email.value), Some(u.passwordHash),
                   Some(u.firstName), Some(u.lastName), Some(UserRole.Name(u.role)), Some(u.isActive),
                   u.lastLoginAt, u.avatarUrl, Some(u.createdAt), Some(u.updatedAt), None))
  }

  /** `UserId.of(uuid)` refuses null. */
  function IdOf(id: Option<UserId>): (r: Result<UserId, Exception>)
    ensures r.Success? <==> id.Some?
    ensures r.Success? ==> r.value == id.value
    ensures r.Failure? ==> r.error == NullPointer("User ID value cannot be null")
  {
    RequireNonNull(id, "User ID value cannot be null")
  }

  /** `UserRole.valueOf(name)`, which also refuses null. */
  function RoleOf(name: Option<string>): (r: Result<UserRole.Role, Exception>)
    ensures name.None? ==> r == Failure(NullPointer("Name is null"))
    ensures r.Success? ==> name.Some? && UserRole.Name(r.value) == name.value
    ensures name.Some? && r.Failure?
            ==> r.error == IllegalArgument("No enum constant " + UserRole.ServiceEnum + "." + name.value)
  {
    if name.None? then Failure(NullPointer("Name is null"))
    else UserRole.ValueOf(UserRole.ServiceEnum, name.value)
  }

  /** `toDomainEntity(entity)`: null maps to null; otherwise the id, email and
      role are converted in that order, each able to throw, and the user is
      rebuilt through the builder, which drops the last login and stamps
      `updatedAt` with `now`. */
  function ToDomainEntity(entity: Option<JpaUser>, now: int): (r: Result<Option<User>, Exception>)
    ensures entity.None? ==> r == Success(None)
    ensures entity.Some? && r.Success? ==> r.value.Some?
    ensures entity.Some? && r.Success? ==>
              var j, u := entity.value, r.value.value;
              && Some(u.id) == j.id && Some(u.username) == j.username
              && Of(j.email) == Success(u.email) && Some(u.passwordHash) == j.passwordHash
              && Some(u.firstName) == j.firstName && Some(u.lastName) == j.lastName
              && j.role == Some(UserRole.Name(u.role)) && u.isActive == (j.isActive != Some(false))
              && u.avatarUrl == j.avatarUrl
              && u.createdAt == (if j.createdAt.Some? then j.createdAt.value else now)
              && u.lastLoginAt.None? && u.updatedAt == now
    ensures entity.Some? && entity.value.id.None? ==> r == Failure(NullPointer("User ID value cannot be null"))
    ensures entity.Some? && entity.value.id.Some? && Of(entity.value.email).Failure?
            ==> r == Failure(Of(entity.value.email).error)
    ensures entity.Some? && entity.value.id.Some? && Of(entity.value.email).Success?
            && RoleOf(entity.value.role).Failure?
            ==> r == Failure(RoleOf(entity.value.role).error)
    ensures r.Success? <==> entity.None? || (Converts(entity.value) && BuilderFilled(entity.value))
    ensures entity.Some? && Converts(entity.value) && !BuilderFilled(entity.value)
            ==> r == Failure(NullPointer(BuilderMessage(entity.value)))
  {
    if entity.None? then Success(None)
    else
      var j := entity.value;
      var id :- IdOf(j.id);
      var email :- Of(j.email);
      var role :- RoleOf(j.role);
      var user :- Build(DraftOf(j, id, email, role), now);
      Success(Some(user))
  }

  /** The id, email and role of the record convert without throwing. */
  predicate Converts(j: JpaUser) {
    IdOf(j.id).Success? && Of(j.email).Success? && RoleOf(j.role).Success?
  }

  /** The record holds the four columns the builder demands besides the
      converted ones. */
  predicate BuilderFilled(j: JpaUser) {
    j.username.Some? && j.passwordHash.Some? && j.firstName.Some? && j.lastName.Some?
  }

  /** The message of the builder's first null check the record fails, given
      that its id and email are set. */
  function BuilderMessage(j: JpaUser): (m: string)
    ensures j.username.None? ==> m == "Username cannot be null"
    ensures j.username.Some? && j.passwordHash.None? ==> m == "Password hash cannot be null"
    ensures j.username.Some? && j.passwordHash.Some? && j.firstName.None? ==> m == "First name cannot be null"
    ensures j.username.Some? && j.passwordHash.Some? && j.firstName.Some? && j.lastName.None?
            ==> m == "Last name cannot be null"
  {
    if j.username.None? then "Username cannot be null"
    else if j.passwordHash.None? then "Password hash cannot be null"
    else if j.firstName.None? then "First name cannot be null"
    else "Last name cannot be null"
  }

  /** The builder calls `toDomainEntity` makes once the id, email and role
      are converted. */
  function DraftOf(j: JpaUser, id: UserId, email: Email, role: UserRole.Role): (d: Draft)
    ensures d.id == Some(id) && d.email == Some(email) && d.role == Some(role)
    ensures d.username == j.username && d.passwordHash == j.passwordHash
    ensures d.firstName == j.firstName && d.lastName == j.lastName && d.isActive == j.isActive
    ensures d.avatarUrl == j.avatarUrl && d.createdAt == j.createdAt
  {
    NewDraft().(id := Some(id), username := j.username, email := Some(email),
                passwordHash := j.passwordHash, firstName := j.firstName,
                lastName := j.lastName, role := Some(role), isActive := j.isActive,
                avatarUrl := j.avatarUrl, createdAt := j.createdAt)
  }

  /** Once the three conversions succeed, the record decodes to what the
      builder makes of it. */
  lemma DecodeConverted(j: JpaUser, now: int)
    requires IdOf(j.id).Success? && Of(j.email).Success? && RoleOf(j.role).Success?
    requires Build(DraftOf(j, IdOf(j.id).value, Of(j.email).value, RoleOf(j.role).value), now).Success?
    ensures ToDomainEntity(Some(j), now)
            == Success(Some(Build(DraftOf(j, IdOf(j.id).value, Of(j.email).value, RoleOf(j.role).value), now).value))
  {
  }

  /** The round trip domain, record, domain keeps every field of a user whose
      email is a valid one, except that the last login is lost and
      `updatedAt` becomes the time of the reload. */
  lemma RoundTrip(u: User, now: int)
    requires Valid(u.email)
    ensures ToDomainEntity(ToJpaEntity(Some(u)), now) == Success(Some(u.(lastLoginAt := None, updatedAt := now)))
  {
    var j := ToJpaEntity(Some(u)).value;
    OfIdempotent(u.email);
    UserRole.NameRoundTrip(UserRole.ServiceEnum, u.role);
    assert IdOf(j.id) == Success(u.id);
    assert Of(j.email) == Success(u.email);
    assert RoleOf(j.role) == Success(u.role);
    var draft := DraftOf(j, u.id, u.email, u.role);
    BuildFromRecord(u, draft, now);
    DecodeConverted(j, now);
  }

  lemma BuildFromRecord(u: User, d: Draft, now: int)
    requires d.id == Some(u.id) && d.username == Some(u.username) && d.email == Some(u.email)
    requires d.passwordHash == Some(u.passwordHash) && d.firstName == Some(u.firstName)
    requires d.lastName == Some(u.lastName) && d.role == Some(u.role) && d.isActive == Some(u.isActive)
    requires d.avatarUrl == u.avatarUrl && d.createdAt == Some(u.createdAt)
    ensures Build(d, now) == Success(u.(lastLoginAt := None, updatedAt := now))
  {
    var r := Build(d, now);
    assert r.Success?;
    assert r.value.(lastLoginAt := u.lastLoginAt, updatedAt := u.updatedAt) == u;
  }

  /** In particular a user who has logged in comes back as one who never did. */
  lemma RoundTripDropsLogin(u: User, now: int)
    requires Valid(u.email) && u.lastLoginAt.Some?
    ensures var r := ToDomainEntity(ToJpaEntity(Some(u)), now);
            r.Success? && r.value.Some? && r.value.value.lastLoginAt.None? && r.value.value != u
  {
    RoundTrip(u, now);
    var back := u.(lastLoginAt := None, updatedAt := now);
    assert back.lastLoginAt != u.lastLoginAt;
  }

  /** `updateJpaEntity(entity, user)`: a no-op when either is null; otherwise
      the nine mutable columns are overwritten from the user, while the id,
      the timestamps and the version stay. */
  function UpdateJpaEntity(entity: Option<JpaUser>, user: Option<User>): (r: Option<JpaUser>)
    ensures entity.None? || user.None? ==> r == entity
    ensures entity.Some? && user.Some? ==> r.Some?
    ensures entity.Some? && user.Some? ==>
              var j, u := r.value, user.value;
              && j.(username := entity.value.username, email := entity.value.email,
                    passwordHash := entity.value.passwordHash, firstName := entity.value.firstName,
                    lastName := entity.value.lastName, role := entity.value.role,
                    isActive := entity.value.isActive, lastLoginAt := entity.value.lastLoginAt,
                    avatarUrl := entity.value.avatarUrl) == entity.value
              && j.username == Some(u.username) && j.email == Some(u.email.value)
              && j.passwordHash == Some(u.passwordHash) && j.firstName == Some(u.firstName)
              && j.lastName == Some(u.lastName) && j.role == Some(UserRole.Name(u.role))
              && j.isActive == Some(u.isActive) && j.lastLoginAt == u.lastLoginAt
              && j.avatarUrl == u.avatarUrl
  {
    if entity.None? || user.None? then entity
    else
      var u := user.value;
      Some(entity.value.(username := Some(u.username), email := Some(u.email.value),
                         passwordHash := Some(u.passwordHash), firstName := Some(u.firstName),
                         lastName := Some(u.lastName), role := Some(UserRole.Name(u.role)),
                         isActive := Some(u.isActive), lastLoginAt := u.lastLoginAt,
                         avatarUrl := u.avatarUrl))
  }

  /** Updating the stored record of a user with that same user changes only
      its version-independent columns back to what `toJpaEntity` would write,
      so the record keeps its identity and timestamps; updating it with the
      user itself leaves it unchanged. */
  lemma UpdateAgreesWithToJpa(u: User, v: User)
    requires u.id == v.id
    ensures var j := UpdateJpaEntity(ToJpaEntity(Some(u)), Some(v)).value;
            j == ToJpaEntity(Some(v)).value.(createdAt := Some(u.createdAt), updatedAt := Some(u.updatedAt))
    ensures UpdateJpaEntity(ToJpaEntity(Some(u)), Some(u)) == ToJpaEntity(Some(u))
  {
  }
}
