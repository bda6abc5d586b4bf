# Task manager core: a Dafny model

This project models the core of a Spring task-manager application written in
Java: the JWT lifecycle (token issuing, parsing, validation, the logout
blacklist, the refresh endpoint and the request filter), the task domain
(`Task` and its status, priority and category value objects), the user
domain of both the monolithic application and the user service (`User`,
`Email`, `UserRole`, the domain service, the create-user use case and the
persistence mapper), and the `InputSanitizer`.

Every Java method becomes a pure function over immutable records. A
mutating method returns the updated record; a method that may throw returns
a `Result` whose failure is the Java exception with its message; a
reference that may be null is an `Option`. The clock, random ids and UUIDs
are parameters (`now`, `jti`, `id`), and times are integer milliseconds.

Modules, one per source concept:

- `Wrappers`: `Option`, `Result`, `Outcome` and the exceptions.
- `JavaText`: the `String` operations the code uses.
- `Ids`: `UserId` and `TaskId`.
- `TaskStatus`, `TaskPriority`, `TaskCategory`: the task value objects.
- `Tasks`: the `Task` entity.
- `UserRole`.
- `Emails`: the `Email` value object, which both applications copy.
- `ServiceUser`: the user service's `User`.
- `MonolithUser`: the monolith's `User`.
- `UserDomainService`, `CreateUser` and `UserMapper`.
- `JwtService`, `BearerHeader`, `AuthController` and `JwtAuthenticationFilter`.
- `InputSanitizer`.

Things the proofs bring out:

- Validity ignores the token's type. `isTokenValid` and `validateToken` never look at `type`, so a refresh token authenticates requests through the filter for its whole (longer) lifetime (`JwtAuthenticationFilter.RefreshTokenAuthenticates`). The refresh endpoint, on the other hand, refuses access tokens (`AuthController.AccessTokenCannotRefresh`).
- Lazy eviction never fires for the same token. An expired token no longer parses, so `isTokenBlacklisted` never evicts the entry that token itself wrote while it is still parseable (`JwtService.BlacklistedStaysListed`).
- `Task.updateStatus` does not consult `TaskStatus.canTransitionTo` (`Tasks.UpdateStatusIgnoresTable`).
- The two `User` classes differ:
  - Only the user service guards activation and login.
  - The monolith's `updateProfile` overwrites the avatar even with null (`MonolithUser.UpdateProfileErasesAvatar`).
  - The user service's `canManageUsers` admits managers, unlike `UserRole.canManageUsers` (`ServiceUser.ManagerMayManageUsers`).
- The password rule `.*[A-Z].*` uses `.`, which does not match line terminators. A password of at least 8 characters containing one always fails with the uppercase message (`UserDomainService.LineTerminatorFailsUppercaseRule`).

## Model

| member | source | states |
|---|---|---|
| JwtService.ValidateSecret | src/main/java/com/demo/copilot/taskmanager/infrastructure/security/JwtService.java:376-391 | the key check fails with "JWT secret cannot be null or empty" for a null or blank secret, with the 32-byte message when the UTF-8 length is under 32, and passes exactly otherwise |
| JwtService.Utf8Length | src/main/java/com/demo/copilot/taskmanager/infrastructure/security/JwtService.java:381 | the UTF-8 byte count of a secret lies between its char count and four times it |
| JwtService.AsciiSecretOfLength32Passes | src/main/java/com/demo/copilot/taskmanager/infrastructure/security/JwtService.java:35 | a 32-char printable ASCII secret is 32 bytes and passes the key check |
| JwtService.ParseClaims | src/main/java/com/demo/copilot/taskmanager/infrastructure/security/JwtService.java:109-134 | claims come back exactly when the key passes, the token is signed with the configured secret, `now` is inside [nbf, exp], the issuer is "taskmanager-api" and the audience holds "taskmanager-clients"; the claims returned are the token's own |
| JwtService.StrClaim | src/main/java/com/demo/copilot/taskmanager/infrastructure/security/JwtService.java:52-95 | a string claim reads as present exactly when it exists with a string value |
| JwtService.DateClaim | src/main/java/com/demo/copilot/taskmanager/infrastructure/security/JwtService.java:59-75 | a date claim reads as present exactly when it exists with a date value |
| JwtService.TokenClaims | src/main/java/com/demo/copilot/taskmanager/infrastructure/security/JwtService.java:183-216 | the built claim set holds every extra claim outside the registered names unchanged, plus authorities, aud, sub, iss, iat = nbf = now, exp = now + lifetime and the fresh id, and no other key |
| JwtService.BuildToken | src/main/java/com/demo/copilot/taskmanager/infrastructure/security/JwtService.java:183-216 | token building fails exactly when the key check fails, with its exception; otherwise the token is signed with the configured secret over the claim set above |
| JwtService.GenerateToken | src/main/java/com/demo/copilot/taskmanager/infrastructure/security/JwtService.java:160-162 | an access token carries exactly the registered claims, so no `type` |
| JwtService.AccessTokenShape | src/main/java/com/demo/copilot/taskmanager/infrastructure/security/JwtService.java:160-162 | with a strong secret an access token is always issued, signed with it, naming the user and their authorities, without `type`, expiring after the access lifetime |
| JwtService.GenerateTokenWithClaims | src/main/java/com/demo/copilot/taskmanager/infrastructure/security/JwtService.java:167-169 | a token with extra claims expires after the access lifetime |
| JwtService.GenerateRefreshToken | src/main/java/com/demo/copilot/taskmanager/infrastructure/security/JwtService.java:174-178 | a refresh token carries the registered claims plus `type` = "refresh" and expires after the refresh lifetime |
| JwtService.TypeIsNotRegistered | src/main/java/com/demo/copilot/taskmanager/infrastructure/security/JwtService.java:176 | the `type` claim is not overwritten by the registered claims |
| JwtService.BuildThenParse | src/main/java/com/demo/copilot/taskmanager/infrastructure/security/JwtService.java:109-134 | a built token parses back to its own claims exactly at the moments from issue to expiry |
| JwtService.ForeignSecretRejected | src/main/java/com/demo/copilot/taskmanager/infrastructure/security/JwtService.java:111 | a token signed under another secret never parses |
| JwtService.IsRefreshToken | src/main/java/com/demo/copilot/taskmanager/infrastructure/security/JwtService.java:304-311 | true exactly when the token parses and its `type` claim is the string "refresh" |
| JwtService.TokenTypes | src/main/java/com/demo/copilot/taskmanager/infrastructure/security/JwtService.java:160-178 | an access token is never a refresh token; a refresh token is recognised throughout its lifetime |
| JwtService.IsTokenBlacklisted | src/main/java/com/demo/copilot/taskmanager/infrastructure/security/JwtService.java:330-353 | true exactly when the token parses, has an id, and the id is listed with an expiry not yet passed; when the token parses and its id is listed with an expiry already passed, exactly that id is evicted; otherwise the blacklist is unchanged |
| JwtService.BlacklistToken | src/main/java/com/demo/copilot/taskmanager/infrastructure/security/JwtService.java:316-325 | a parsing token with an id and expiry lists id to expiry; a token that does not parse changes nothing; no other entry changes |
| JwtService.BlacklistIdempotent | src/main/java/com/demo/copilot/taskmanager/infrastructure/security/JwtService.java:316-325 | blacklisting a token twice is the same as once |
| JwtService.BlacklistedStaysListed | src/main/java/com/demo/copilot/taskmanager/infrastructure/security/JwtService.java:330-353 | a token blacklisted while alive is reported as blacklisted at every later moment it still parses, and the query evicts nothing |
| JwtService.UnlistedIsNotBlacklisted | src/main/java/com/demo/copilot/taskmanager/infrastructure/security/JwtService.java:334-341 | a token whose id is absent or unlisted is not blacklisted and leaves the blacklist alone |
| JwtService.BlacklistQueryIdempotent | src/main/java/com/demo/copilot/taskmanager/infrastructure/security/JwtService.java:342-346 | repeating a blacklist query gives the same answer and leaves the blacklist as the first query left it |
| JwtService.Cleanup | src/main/java/com/demo/copilot/taskmanager/infrastructure/security/JwtService.java:358-362 | the sweep keeps exactly the entries whose expiry has not passed, with their values |
| JwtService.CleanupIdempotent | src/main/java/com/demo/copilot/taskmanager/infrastructure/security/JwtService.java:358-362 | sweeping twice is sweeping once |
| JwtService.CleanupKeepsAnswers | src/main/java/com/demo/copilot/taskmanager/infrastructure/security/JwtService.java:330-362 | a sweep never changes what the blacklist query answers |
| JwtService.IsTokenValid | src/main/java/com/demo/copilot/taskmanager/infrastructure/security/JwtService.java:221-241 | valid exactly when the token parses, its subject is the user's name, it has an expiry not passed, no future not-before, and is not blacklisted; when the token parses with a subject and an expiry, the blacklist is the one the blacklist query leaves (with its eviction); otherwise it is unchanged |
| JwtService.FreshTokenValid | src/main/java/com/demo/copilot/taskmanager/infrastructure/security/JwtService.java:221-241 | a freshly built token with an unlisted id is valid for its user throughout its lifetime and leaves the blacklist alone |
| JwtService.FreshTokensValid | src/main/java/com/demo/copilot/taskmanager/infrastructure/security/JwtService.java:160-178 | access and refresh tokens alike are valid for their user; validity ignores `type` |
| JwtService.OtherUserInvalid | src/main/java/com/demo/copilot/taskmanager/infrastructure/security/JwtService.java:224-225 | a token is never valid for a user of another name |
| JwtService.ValidateToken | src/main/java/com/demo/copilot/taskmanager/infrastructure/security/JwtService.java:246-292 | valid exactly when the token parses, has a non-blank subject, an issue date and an expiry, and is not blacklisted; when those claims are present the blacklist is the one the blacklist query leaves, otherwise it is unchanged |
| JwtService.BlacklistedTokenRejected | src/main/java/com/demo/copilot/taskmanager/infrastructure/security/JwtService.java:246-292 | after blacklisting, both validity checks fail and the query reports the token as listed, for the token's whole lifetime |
| JwtService.RefreshTokenValidates | src/main/java/com/demo/copilot/taskmanager/infrastructure/security/JwtService.java:246-292 | a live refresh token with an unlisted id passes the structural validation |
| JwtService.WeakSecretDisablesService | src/main/java/com/demo/copilot/taskmanager/infrastructure/security/JwtService.java:367-391 | with a rejected secret no token is issued, every check answers false and blacklisting changes nothing |
| BearerHeader.BearerToken | src/main/java/com/demo/copilot/taskmanager/infrastructure/security/JwtAuthenticationFilter.java:50-56 | a token is read exactly when the header is present and starts with "Bearer ", and prefix plus token rebuild the header |
| BearerHeader.BearerRoundTrip | src/main/java/com/demo/copilot/taskmanager/presentation/controller/AuthController.java:85-87 | any token sent after "Bearer " is read back unchanged |
| BearerHeader.LowercaseSchemeCarriesNoToken | src/main/java/com/demo/copilot/taskmanager/presentation/controller/AuthController.java:97 | the scheme is case-sensitive: "bearer " carries no token |
| AuthController.Logout | src/main/java/com/demo/copilot/taskmanager/presentation/controller/AuthController.java:83-92 | logout only ever adds or rewrites the entry of the bearer token's id, with the token's expiry, and only for a parsing token; without a bearer header nothing changes |
| AuthController.Authority | src/main/java/com/demo/copilot/taskmanager/presentation/controller/AuthController.java:113-117 | the authority is "ROLE_" followed by a name that reads back as the user's role |
| AuthController.Reissue | src/main/java/com/demo/copilot/taskmanager/presentation/controller/AuthController.java:113-119 | the reissued token is signed, has the user's name as subject, the single authority "ROLE_<role>", no `type`, and the access lifetime |
| AuthController.Refresh | src/main/java/com/demo/copilot/taskmanager/presentation/controller/AuthController.java:94-127 | a new token is issued exactly when the bearer token is a refresh token, passes validation and names a known user; it is that user's reissued token; a missing header or a non-refresh token is a bad request that leaves the blacklist alone; a refresh token that fails validation is a bad request; an unknown user is a failed lookup; for any refresh token the blacklist afterwards is the one validation left |
| AuthController.AccessTokenCannotRefresh | src/main/java/com/demo/copilot/taskmanager/presentation/controller/AuthController.java:104-106 | an access token never buys a new token |
| AuthController.RefreshSucceeds | src/main/java/com/demo/copilot/taskmanager/presentation/controller/AuthController.java:94-127 | a live, unlisted refresh token of a known user is refreshed for that user and the blacklist is unchanged |
| AuthController.LogoutRevokesRefresh | src/main/java/com/demo/copilot/taskmanager/presentation/controller/AuthController.java:83-106 | after logout with a refresh token, refreshing with it is a bad request for the rest of its lifetime |
| JwtAuthenticationFilter.Filter | src/main/java/com/demo/copilot/taskmanager/infrastructure/security/JwtAuthenticationFilter.java:39-91 | the chain runs once; an existing authentication and the blacklist are untouched; the context changes only to the loaded user's authentication when the token's subject loads and the token is valid for that user; when the validity check is reached the blacklist is the one it leaves, otherwise it is unchanged |
| JwtAuthenticationFilter.FreshTokenAuthenticates | src/main/java/com/demo/copilot/taskmanager/infrastructure/security/JwtAuthenticationFilter.java:58-83 | a live access token with an unlisted id authenticates its user on an empty context |
| JwtAuthenticationFilter.RefreshTokenAuthenticates | src/main/java/com/demo/copilot/taskmanager/infrastructure/security/JwtAuthenticationFilter.java:69 | a live refresh token authenticates its user just as an access token does |
| JwtAuthenticationFilter.LoggedOutTokenRejected | src/main/java/com/demo/copilot/taskmanager/infrastructure/security/JwtAuthenticationFilter.java:69-83 | after logout the same token no longer authenticates anyone |
| TaskStatus.IsCompleted | src/main/java/com/demo/copilot/taskmanager/domain/valueobject/TaskStatus.java:29-31 | a completed status is not active |
| TaskStatus.IsActive | src/main/java/com/demo/copilot/taskmanager/domain/valueobject/TaskStatus.java:33-35 | a status is active exactly when it is neither completed nor cancelled |
| TaskStatus.CanTransitionTo | src/main/java/com/demo/copilot/taskmanager/domain/valueobject/TaskStatus.java:37-44 | no status moves to itself, and COMPLETED is entered only from IN_REVIEW |
| TaskStatus.TransitionTable | src/main/java/com/demo/copilot/taskmanager/domain/valueobject/TaskStatus.java:37-44 | the allowed moves are exactly the successor sets listed per status |
| TaskStatus.Successors | src/main/java/com/demo/copilot/taskmanager/domain/valueobject/TaskStatus.java:37-44 | a status never succeeds itself, has one to three successors, and COMPLETED is a successor only of IN_REVIEW |
| TaskStatus.TerminalStates | src/main/java/com/demo/copilot/taskmanager/domain/valueobject/TaskStatus.java:42-43 | CANCELLED only reactivates to TODO, COMPLETED only reopens to IN_PROGRESS; CANCELLED is neither active nor completed |
| TaskPriority.Level | monolithic-app/src/main/java/com/demo/copilot/taskmanager/domain/valueobject/TaskPriority.java:7-10 | levels run from 1 to 4 |
| TaskPriority.LevelInjective | monolithic-app/src/main/java/com/demo/copilot/taskmanager/domain/valueobject/TaskPriority.java:7-10 | distinct priorities have distinct levels |
| TaskPriority.IsLowerThan | monolithic-app/src/main/java/com/demo/copilot/taskmanager/domain/valueobject/TaskPriority.java:38-40 | lower-than is higher-than with the arguments swapped |
| TaskPriority.IsHigherThan | monolithic-app/src/main/java/com/demo/copilot/taskmanager/domain/valueobject/TaskPriority.java:34-36 | a priority higher than another differs from it, is never LOW, and the other is never URGENT |
| TaskPriority.IsCritical | monolithic-app/src/main/java/com/demo/copilot/taskmanager/domain/valueobject/TaskPriority.java:42-44 | critical exactly at level 3 or more |
| TaskPriority.HigherIsStrictOrder | monolithic-app/src/main/java/com/demo/copilot/taskmanager/domain/valueobject/TaskPriority.java:34-40 | higher-than is irreflexive, asymmetric and transitive, and distinct priorities are related one way |
| TaskCategory.RequiresCollaboration | src/main/java/com/demo/copilot/taskmanager/domain/valueobject/TaskCategory.java:39-41 | a collaborative category that is not work-related is MEETING |
| TaskCategory.IsWorkRelated | src/main/java/com/demo/copilot/taskmanager/domain/valueobject/TaskCategory.java:34-37 | work-related exactly for the six categories other than PERSONAL, MEETING, RESEARCH and OTHER |
| TaskCategory.CategoryTable | src/main/java/com/demo/copilot/taskmanager/domain/valueobject/TaskCategory.java:34-41 | MEETING is collaborative and not work; exactly PERSONAL, RESEARCH and OTHER are neither |
| Tasks.NewDraft | src/main/java/com/demo/copilot/taskmanager/domain/entity/Task.java:230-241 | the builder starts with TODO, MEDIUM, not archived, and no id, title or users |
| Tasks.Build | src/main/java/com/demo/copilot/taskmanager/domain/entity/Task.java:298-305 | building succeeds exactly when id, title, assignee and creator are set, failing on the first missing one with its message; the task copies every set field, with no completion time and no actual hours |
| Tasks.BuildDefaults | src/main/java/com/demo/copilot/taskmanager/domain/entity/Task.java:230-305 | a task from the defaults is a TODO, MEDIUM, unarchived task that is not overdue |
| Tasks.BuildConsistent | src/main/java/com/demo/copilot/taskmanager/domain/entity/Task.java:87-99 | a built task keeps the completion-time invariant |
| Tasks.UpdateStatus | src/main/java/com/demo/copilot/taskmanager/domain/entity/Task.java:102-114 | null is refused; entering COMPLETED stamps `now`, leaving it clears the stamp, otherwise the stamp stays; nothing else changes |
| Tasks.UpdateStatusIgnoresTable | src/main/java/com/demo/copilot/taskmanager/domain/entity/Task.java:102-114 | a move the transition table forbids is still carried out |
| Tasks.UpdateStatusConsistent | src/main/java/com/demo/copilot/taskmanager/domain/entity/Task.java:102-114 | every status change keeps the completion-time invariant |
| Tasks.Complete | src/main/java/com/demo/copilot/taskmanager/domain/entity/Task.java:148-150 | completing yields COMPLETED with the old stamp if already completed, else `now` |
| Tasks.CompleteIdempotent | src/main/java/com/demo/copilot/taskmanager/domain/entity/Task.java:148-150 | completing twice keeps the first completion time |
| Tasks.ReopenRestamps | src/main/java/com/demo/copilot/taskmanager/domain/entity/Task.java:102-114 | reopening clears the stamp and completing again stamps the new time |
| Tasks.AssignTo | src/main/java/com/demo/copilot/taskmanager/domain/entity/Task.java:116-118 | null is refused with "Assigned user ID cannot be null"; otherwise only the assignee changes |
| Tasks.UpdatePriority | src/main/java/com/demo/copilot/taskmanager/domain/entity/Task.java:120-122 | null is refused with "Priority cannot be null"; otherwise only the priority changes |
| Tasks.UpdateDetails | src/main/java/com/demo/copilot/taskmanager/domain/entity/Task.java:124-129 | a non-blank title replaces the old one trimmed; the description is always replaced, by its trim or null |
| Tasks.UpdateDetailsTrims | src/main/java/com/demo/copilot/taskmanager/domain/entity/Task.java:124-129 | the title never becomes blank and a new description is already trimmed |
| Tasks.SetDueDate | src/main/java/com/demo/copilot/taskmanager/domain/entity/Task.java:131-133 | only the due date changes, to the argument |
| Tasks.DueDateDrivesOverdue | src/main/java/com/demo/copilot/taskmanager/domain/entity/Task.java:131-164 | with a due date set the task is overdue exactly when that date has passed and it is open; with none it is neither overdue nor due soon |
| Tasks.UpdateTimeEstimate | src/main/java/com/demo/copilot/taskmanager/domain/entity/Task.java:135-138 | each estimate takes a non-negative argument and otherwise keeps its old value |
| Tasks.UpdateTimeEstimateNonNegative | src/main/java/com/demo/copilot/taskmanager/domain/entity/Task.java:135-138 | non-negative estimates stay non-negative |
| Tasks.UpdateTimeEstimateNoOp | src/main/java/com/demo/copilot/taskmanager/domain/entity/Task.java:135-138 | null or negative arguments change nothing, and repeating an update is a no-op |
| Tasks.Archive | src/main/java/com/demo/copilot/taskmanager/domain/entity/Task.java:140-142 | archiving sets the flag and nothing else |
| Tasks.Unarchive | src/main/java/com/demo/copilot/taskmanager/domain/entity/Task.java:144-146 | unarchiving clears the flag and nothing else |
| Tasks.ArchiveRoundTrip | src/main/java/com/demo/copilot/taskmanager/domain/entity/Task.java:140-146 | archive and unarchive undo each other and keep the completion invariant |
| Tasks.FieldUpdatesConsistent | src/main/java/com/demo/copilot/taskmanager/domain/entity/Task.java:116-146 | the field updates other than the status change keep the completion invariant |
| Tasks.IsOverdue | src/main/java/com/demo/copilot/taskmanager/domain/entity/Task.java:153-157 | an overdue task has a passed due date and is not completed |
| Tasks.IsDueSoon | src/main/java/com/demo/copilot/taskmanager/domain/entity/Task.java:159-164 | a task without a due date, or completed, is never due soon |
| Tasks.OverdueIsDueSoon | src/main/java/com/demo/copilot/taskmanager/domain/entity/Task.java:153-164 | an overdue task is due soon for every non-negative threshold, and the window grows with the threshold |
| Tasks.IsAssignedTo | src/main/java/com/demo/copilot/taskmanager/domain/entity/Task.java:166-168 | a null user is never the assignee |
| Tasks.IsCreatedBy | src/main/java/com/demo/copilot/taskmanager/domain/entity/Task.java:170-172 | a null user is never the creator |
| Tasks.IsHighPriority | src/main/java/com/demo/copilot/taskmanager/domain/entity/Task.java:174-176 | high priority exactly when the priority is critical |
| Tasks.IsCompletedTask | src/main/java/com/demo/copilot/taskmanager/domain/entity/Task.java:178-180 | completed exactly when the status is the completed one |
| Tasks.IsInProgress | src/main/java/com/demo/copilot/taskmanager/domain/entity/Task.java:182-184 | an in-progress task is active |
| Tasks.AssignToQueries | src/main/java/com/demo/copilot/taskmanager/domain/entity/Task.java:116-172 | after assignment the task is assigned to that user and its creator is unchanged |
| Tasks.CompletedQueries | src/main/java/com/demo/copilot/taskmanager/domain/entity/Task.java:148-184 | a completed task is neither overdue, in progress nor due soon |
| UserRole.HasAdminPrivileges | src/main/java/com/demo/copilot/taskmanager/domain/valueobject/UserRole.java:29-31 | admin privileges imply manager privileges |
| UserRole.HasManagerPrivileges | src/main/java/com/demo/copilot/taskmanager/domain/valueobject/UserRole.java:33-35 | manager privileges belong to every role but USER |
| UserRole.CanManageUsers | src/main/java/com/demo/copilot/taskmanager/domain/valueobject/UserRole.java:37-39 | managing users needs admin privileges; a manager cannot |
| UserRole.CanManageTasks | src/main/java/com/demo/copilot/taskmanager/domain/valueobject/UserRole.java:41-43 | managing tasks is exactly manager privileges |
| UserRole.CanViewAllTasks | src/main/java/com/demo/copilot/taskmanager/domain/valueobject/UserRole.java:45-47 | viewing all tasks is exactly manager privileges |
| UserRole.PlainUserHasNoPrivileges | src/main/java/com/demo/copilot/taskmanager/domain/valueobject/UserRole.java:29-47 | USER holds none of the privileges |
| UserRole.ValueOf | src/main/java/com/demo/copilot/taskmanager/domain/valueobject/UserRole.java:8-11 | a name is accepted exactly when it names a constant, which it then names back; any other name fails with IllegalArgumentException "No enum constant " followed by the enum's canonical class name, '.', and the name |
| UserRole.Name | src/main/java/com/demo/copilot/taskmanager/domain/valueobject/UserRole.java:8-11 | every constant name has at least four chars, all uppercase letters |
| UserRole.NameRoundTrip | src/main/java/com/demo/copilot/taskmanager/domain/valueobject/UserRole.java:8-11 | every role survives a trip through its name, whichever enum class reads it |
| Emails.Of | monolithic-app/src/main/java/com/demo/copilot/taskmanager/domain/valueobject/Email.java:35-55 | null or blank input fails with "Email cannot be null or empty"; a trimmed, lowercased form that misses the pattern fails with "Invalid email format: " and the raw input; a matching one longer than 255 chars fails with "Email cannot exceed 255 characters", so the format is checked first; otherwise it succeeds as that normalised form |
| Emails.OfIsValid | user-service/src/main/java/com/demo/copilot/taskmanager/user/domain/valueobject/Email.java:30-50 | every email built is lowercase, matches the pattern and has at most 255 chars |
| Emails.OfIdempotent | monolithic-app/src/main/java/com/demo/copilot/taskmanager/domain/valueobject/Email.java:39-55 | a valid email rebuilt from its value is the same email |
| Emails.OfNormalized | user-service/src/main/java/com/demo/copilot/taskmanager/user/domain/valueobject/Email.java:34-50 | an already normalised, matching, short enough input is kept as it is |
| Emails.OfIgnoresPadding | monolithic-app/src/main/java/com/demo/copilot/taskmanager/domain/valueobject/Email.java:44 | inputs differing by trimmable padding build the same email |
| Emails.OfIgnoresCase | user-service/src/main/java/com/demo/copilot/taskmanager/user/domain/valueobject/Email.java:39 | inputs with the same lowercase form build the same email |
| Emails.EndsAreNotTrimmable | monolithic-app/src/main/java/com/demo/copilot/taskmanager/domain/valueobject/Email.java:18-20 | a matching string is non-empty and has no trimmable char at either end |
| Emails.MatchesPattern | user-service/src/main/java/com/demo/copilot/taskmanager/user/domain/valueobject/Email.java:17-19 | a matching string has at least six chars and contains '@' |
| Emails.OnlyOneAt | user-service/src/main/java/com/demo/copilot/taskmanager/user/domain/valueobject/Email.java:17-19 | a matching string holds exactly one '@', at its split point |
| Emails.NoAtInLocal | user-service/src/main/java/com/demo/copilot/taskmanager/user/domain/valueobject/Email.java:17-19 | the local-part class excludes '@' |
| Emails.NoAtInHost | user-service/src/main/java/com/demo/copilot/taskmanager/user/domain/valueobject/Email.java:17-19 | the host part excludes '@' |
| Emails.LowerTrimCommutes | monolithic-app/src/main/java/com/demo/copilot/taskmanager/domain/valueobject/Email.java:44 | lowercasing and trimming commute |
| Emails.LowerKeepsPattern | user-service/src/main/java/com/demo/copilot/taskmanager/user/domain/valueobject/Email.java:39-41 | lowercasing a matching string keeps it matching |
| Emails.PartsRejoin | monolithic-app/src/main/java/com/demo/copilot/taskmanager/domain/valueobject/Email.java:64-81 | for a valid email the local part and domain exist, hold no '@', match their halves of the pattern and rejoin around '@' to the value |
| Emails.LocalPart | monolithic-app/src/main/java/com/demo/copilot/taskmanager/domain/valueobject/Email.java:75-81 | the local part exists exactly when the value has an '@'; it is the prefix before the first '@' and holds none |
| Emails.Domain | monolithic-app/src/main/java/com/demo/copilot/taskmanager/domain/valueobject/Email.java:64-70 | the domain exists exactly when the value has an '@'; it is the text after the first '@', so the local part, "@" and the domain rejoin to the value |
| Emails.PartsRejoinAt | monolithic-app/src/main/java/com/demo/copilot/taskmanager/domain/valueobject/Email.java:64-81 | at the split point of a valid email, the local part is the text before it and the domain the text after it, neither holds '@', and they rejoin to the value |
| ServiceUser.NewDraft | user-service/src/main/java/com/demo/copilot/taskmanager/user/domain/entity/User.java:217-228 | the builder starts with role USER, active, and nothing else set |
| ServiceUser.MissingField | user-service/src/main/java/com/demo/copilot/taskmanager/user/domain/entity/User.java:34-40 | a message is reported exactly when a required field is missing |
| ServiceUser.MissingFieldOrder | user-service/src/main/java/com/demo/copilot/taskmanager/user/domain/entity/User.java:35-37 | the id is checked first, then the username, then the email, each with its own message |
| ServiceUser.Build | user-service/src/main/java/com/demo/copilot/taskmanager/user/domain/entity/User.java:34-46 | building succeeds exactly when the six required fields are set, failing with a NullPointerException carrying the message of the first missing one; a null role becomes USER, a null flag active, a null creation time `now`; no login yet |
| ServiceUser.BuildDefaults | user-service/src/main/java/com/demo/copilot/taskmanager/user/domain/entity/User.java:34-46 | a user built from the defaults is an active USER created now |
| ServiceUser.Activate | user-service/src/main/java/com/demo/copilot/taskmanager/user/domain/entity/User.java:54-60 | activating an active user fails with "User is already active"; otherwise only the flag and update time change |
| ServiceUser.Deactivate | user-service/src/main/java/com/demo/copilot/taskmanager/user/domain/entity/User.java:66-72 | deactivating an inactive user fails with "User is already inactive"; otherwise only the flag and update time change |
| ServiceUser.ActivationToggles | user-service/src/main/java/com/demo/copilot/taskmanager/user/domain/entity/User.java:54-72 | exactly one of activate and deactivate succeeds, and the other undoes it |
| ServiceUser.RecordLogin | user-service/src/main/java/com/demo/copilot/taskmanager/user/domain/entity/User.java:78-84 | an inactive user cannot log in; otherwise the login and update times become `now` |
| ServiceUser.ChangePassword | user-service/src/main/java/com/demo/copilot/taskmanager/user/domain/entity/User.java:90-96 | a null or blank hash is refused; otherwise only the hash and update time change |
| ServiceUser.UpdateProfile | user-service/src/main/java/com/demo/copilot/taskmanager/user/domain/entity/User.java:102-121 | non-blank names replace the old ones trimmed; a present avatar becomes its trim, or null when blank; the update time moves exactly when an argument was applied |
| ServiceUser.UpdateProfileNullIsNoop | user-service/src/main/java/com/demo/copilot/taskmanager/user/domain/entity/User.java:102-121 | an update with every argument null leaves the user, update time included, unchanged |
| ServiceUser.UpdateProfileIdempotent | user-service/src/main/java/com/demo/copilot/taskmanager/user/domain/entity/User.java:102-121 | repeating an update at the same moment changes nothing more |
| ServiceUser.UpdateEmail | user-service/src/main/java/com/demo/copilot/taskmanager/user/domain/entity/User.java:127-135 | null is refused; the same email changes nothing; a new one is stored with the update time |
| ServiceUser.ChangeRole | user-service/src/main/java/com/demo/copilot/taskmanager/user/domain/entity/User.java:141-149 | null is refused; the same role changes nothing; a new one is stored with the update time |
| ServiceUser.UpdatesIdempotent | user-service/src/main/java/com/demo/copilot/taskmanager/user/domain/entity/User.java:127-149 | repeating an email or role update changes nothing |
| ServiceUser.FullName | user-service/src/main/java/com/demo/copilot/taskmanager/user/domain/entity/User.java:153-155 | the full name is the first name, a space, and the last name |
| ServiceUser.IsAdmin | user-service/src/main/java/com/demo/copilot/taskmanager/user/domain/entity/User.java:157-159 | admin exactly when the role has admin privileges |
| ServiceUser.IsManager | user-service/src/main/java/com/demo/copilot/taskmanager/user/domain/entity/User.java:161-163 | a manager is not an admin |
| ServiceUser.CanManageUsers | user-service/src/main/java/com/demo/copilot/taskmanager/user/domain/entity/User.java:172-174 | the user may manage users exactly when its role has manager privileges |
| ServiceUser.ManagerMayManageUsers | user-service/src/main/java/com/demo/copilot/taskmanager/user/domain/entity/User.java:172-174 | a manager may manage users here although the role itself says it cannot |
| ServiceUser.HasLoggedInRecently | user-service/src/main/java/com/demo/copilot/taskmanager/user/domain/entity/User.java:165-170 | a user who never logged in has not logged in recently |
| ServiceUser.LoginIsRecent | user-service/src/main/java/com/demo/copilot/taskmanager/user/domain/entity/User.java:78-84 | right after a login the user has logged in recently for any positive threshold |
| MonolithUser.NewDraft | monolithic-app/src/main/java/com/demo/copilot/taskmanager/domain/entity/User.java:171-180 | the builder starts with role USER, active, and nothing else set |
| MonolithUser.Build | monolithic-app/src/main/java/com/demo/copilot/taskmanager/domain/entity/User.java:227-235 | building succeeds exactly when the six required fields are set; otherwise it fails with the NullPointerException message of the first missing one, in the order id, username, email, password hash, first name, last name; role and flag are copied even when null |
| MonolithUser.BuildDefaults | monolithic-app/src/main/java/com/demo/copilot/taskmanager/domain/entity/User.java:171-235 | a user from the defaults is an active USER |
| MonolithUser.Activate | monolithic-app/src/main/java/com/demo/copilot/taskmanager/domain/entity/User.java:88-90 | activation sets the flag and nothing else |
| MonolithUser.Deactivate | monolithic-app/src/main/java/com/demo/copilot/taskmanager/domain/entity/User.java:92-94 | deactivation clears the flag and nothing else |
| MonolithUser.ActivationUnguarded | monolithic-app/src/main/java/com/demo/copilot/taskmanager/domain/entity/User.java:88-94 | activation and deactivation are idempotent and override each other, with no guard |
| MonolithUser.UpdateLastLogin | monolithic-app/src/main/java/com/demo/copilot/taskmanager/domain/entity/User.java:96-98 | only the login time changes, to `now` |
| MonolithUser.InactiveUserMayLogIn | monolithic-app/src/main/java/com/demo/copilot/taskmanager/domain/entity/User.java:96-98 | an inactive user's login is recorded and it stays inactive |
| MonolithUser.ChangePassword | monolithic-app/src/main/java/com/demo/copilot/taskmanager/domain/entity/User.java:100-105 | a null or blank hash is refused; otherwise only the hash changes |
| MonolithUser.UpdateProfile | monolithic-app/src/main/java/com/demo/copilot/taskmanager/domain/entity/User.java:107-115 | non-blank names replace the old ones trimmed; the avatar is always overwritten, null included |
| MonolithUser.UpdateProfileErasesAvatar | monolithic-app/src/main/java/com/demo/copilot/taskmanager/domain/entity/User.java:107-115 | an update without an avatar erases the stored one; repeating an update changes nothing |
| MonolithUser.FullName | monolithic-app/src/main/java/com/demo/copilot/taskmanager/domain/entity/User.java:117-119 | the full name is the first name, a space, and the last name |
| MonolithUser.IsAdmin | monolithic-app/src/main/java/com/demo/copilot/taskmanager/domain/entity/User.java:121-123 | admin exactly when a role is set and it has admin privileges |
| MonolithUser.IsManager | monolithic-app/src/main/java/com/demo/copilot/taskmanager/domain/entity/User.java:125-127 | a manager has a role with manager privileges and is not an admin |
| UserDomainService.Usernames | user-service/src/main/java/com/demo/copilot/taskmanager/user/domain/service/UserDomainService.java:31 | the name set holds exactly the names the repository knows |
| UserDomainService.ValidateUniqueUsername | user-service/src/main/java/com/demo/copilot/taskmanager/user/domain/service/UserDomainService.java:30-34 | fails exactly when the name is taken, with the source's message |
| UserDomainService.ValidateUniqueEmail | user-service/src/main/java/com/demo/copilot/taskmanager/user/domain/service/UserDomainService.java:44-48 | fails exactly when the email is registered, with the source's message |
| UserDomainService.ValidateUserUpdate | user-service/src/main/java/com/demo/copilot/taskmanager/user/domain/service/UserDomainService.java:60-71 | passes exactly when each changed, present value is free; a taken new name fails as the name check does; once the name check passes, a changed email fails exactly as the email check does |
| UserDomainService.KeepingCurrentValuesPasses | user-service/src/main/java/com/demo/copilot/taskmanager/user/domain/service/UserDomainService.java:60-71 | keeping the user's own name and email, or passing nulls, always passes |
| UserDomainService.OtherActiveAdmins | user-service/src/main/java/com/demo/copilot/taskmanager/user/domain/service/UserDomainService.java:86-90 | the filter keeps exactly the active admins with another id |
| UserDomainService.CanDeleteUser | user-service/src/main/java/com/demo/copilot/taskmanager/user/domain/service/UserDomainService.java:80-93 | deletable exactly when not an admin or another active admin exists |
| UserDomainService.LastAdminIsKept | user-service/src/main/java/com/demo/copilot/taskmanager/user/domain/service/UserDomainService.java:80-93 | the only active admin cannot be deleted |
| UserDomainService.ValidatePasswordStrength | user-service/src/main/java/com/demo/copilot/taskmanager/user/domain/service/UserDomainService.java:103-123 | a null or short password fails the length rule; it passes exactly when at least 8 chars, free of line terminators, with an upper, a lower, a digit and a special char; otherwise the first missing class, in the order upper, lower, digit, special, decides the message |
| UserDomainService.LineTerminatorFailsUppercaseRule | user-service/src/main/java/com/demo/copilot/taskmanager/user/domain/service/UserDomainService.java:108-110 | a long enough password containing a line terminator always fails with the uppercase message |
| UserDomainService.StrongPasswordStaysStrong | user-service/src/main/java/com/demo/copilot/taskmanager/user/domain/service/UserDomainService.java:103-123 | a passing password still passes with any line-terminator-free text added before or after it |
| UserDomainService.Render | user-service/src/main/java/com/demo/copilot/taskmanager/user/domain/service/UserDomainService.java:133 | a null name renders as "null" in the concatenation |
| UserDomainService.KeepUsernameChars | user-service/src/main/java/com/demo/copilot/taskmanager/user/domain/service/UserDomainService.java:134 | only letters, digits and dots survive, in order, and a clean string is unchanged; a single char is kept exactly when it is a letter, digit or dot |
| UserDomainService.KeepUsernameCharsConcat | user-service/src/main/java/com/demo/copilot/taskmanager/user/domain/service/UserDomainService.java:134 | the filter works char by char: filtering a concatenation concatenates the filtered parts |
| UserDomainService.BaseUsername | user-service/src/main/java/com/demo/copilot/taskmanager/user/domain/service/UserDomainService.java:133-134 | the base name holds only lowercase letters, digits and dots |
| UserDomainService.BaseUsernameParts | user-service/src/main/java/com/demo/copilot/taskmanager/user/domain/service/UserDomainService.java:133-134 | the base name is the filtered lowercase first name, a dot, and the filtered lowercase last name |
| UserDomainService.BaseUsernameOfPlainNames | user-service/src/main/java/com/demo/copilot/taskmanager/user/domain/service/UserDomainService.java:133-134 | lowercase names give "first.last" |
| UserDomainService.Candidate | user-service/src/main/java/com/demo/copilot/taskmanager/user/domain/service/UserDomainService.java:136-142 | the 0th candidate is the base, the k-th the base followed by k |
| UserDomainService.CandidateInjective | user-service/src/main/java/com/demo/copilot/taskmanager/user/domain/service/UserDomainService.java:140 | distinct counters give distinct candidates |
| UserDomainService.Tried | user-service/src/main/java/com/demo/copilot/taskmanager/user/domain/service/UserDomainService.java:139-142 | the tried set holds every earlier candidate |
| UserDomainService.TriedSize | user-service/src/main/java/com/demo/copilot/taskmanager/user/domain/service/UserDomainService.java:139-142 | after k attempts exactly k distinct names were tried |
| UserDomainService.GenerateUniqueUsername | user-service/src/main/java/com/demo/copilot/taskmanager/user/domain/service/UserDomainService.java:132-145 | the name returned is free and is the first free candidate: every earlier candidate is taken |
| CreateUser.NewCommand | user-service/src/main/java/com/demo/copilot/taskmanager/user/application/usecase/CreateUserUseCase.java:100-115 | a null role becomes USER; other fields are kept |
| CreateUser.ValidateCommand | user-service/src/main/java/com/demo/copilot/taskmanager/user/application/usecase/CreateUserUseCase.java:70-89 | passes exactly for a present command with five non-blank fields; the first failing check, in the order command, username, email, password, first name, last name, decides the message |
| CreateUser.HashPassword | user-service/src/main/java/com/demo/copilot/taskmanager/user/application/usecase/CreateUserUseCase.java:91-95 | the hash is "hashed_" followed by the password |
| CreateUser.Execute | user-service/src/main/java/com/demo/copilot/taskmanager/user/application/usecase/CreateUserUseCase.java:37-68 | creation succeeds exactly when every check passes, and the user saved carries the command's fields, the normalised email, the hashed password, active, created now, appended to the repository |
| CreateUser.ExecuteCheckOrder | user-service/src/main/java/com/demo/copilot/taskmanager/user/application/usecase/CreateUserUseCase.java:37-51 | the checks run in order: command, email, username, email uniqueness, password strength, each failure returned as thrown |
| CreateUser.ExecuteSucceeds | user-service/src/main/java/com/demo/copilot/taskmanager/user/application/usecase/CreateUserUseCase.java:37-68 | when every check passes, creation succeeds |
| CreateUser.ExecuteTwiceFails | user-service/src/main/java/com/demo/copilot/taskmanager/user/application/usecase/CreateUserUseCase.java:37-68 | repeating a successful creation fails on the now-taken username |
| UserMapper.ToJpaEntity | user-service/src/main/java/com/demo/copilot/taskmanager/user/infrastructure/persistence/mapper/UserEntityMapper.java:25-52 | null maps to null; otherwise every field is copied, the role by name, with no version |
| UserMapper.IdOf | user-service/src/main/java/com/demo/copilot/taskmanager/user/infrastructure/persistence/mapper/UserEntityMapper.java:66 | an id is read exactly when present; a null id fails with "User ID value cannot be null" |
| UserMapper.RoleOf | user-service/src/main/java/com/demo/copilot/taskmanager/user/infrastructure/persistence/mapper/UserEntityMapper.java:72 | a null name fails with NullPointerException "Name is null"; an accepted name names the role; any other name fails with the user service's enum class name in the message |
| UserMapper.ToDomainEntity | user-service/src/main/java/com/demo/copilot/taskmanager/user/infrastructure/persistence/mapper/UserEntityMapper.java:60-77 | null maps to null; otherwise the id, email and role are read in that order, the first failure being returned, and then the builder's first missing-field message; the result succeeds exactly when all three convert and username, password hash and names are set, and the user built carries the row's fields, with no login time and a new update time |
| UserMapper.RoundTrip | user-service/src/main/java/com/demo/copilot/taskmanager/user/infrastructure/persistence/mapper/UserEntityMapper.java:25-77 | a user with a valid email survives storing and reloading except for its login time and update time |
| UserMapper.RoundTripDropsLogin | user-service/src/main/java/com/demo/copilot/taskmanager/user/infrastructure/persistence/mapper/UserEntityMapper.java:60-77 | a user who logged in does not come back equal: the login time is lost |
| UserMapper.UpdateJpaEntity | user-service/src/main/java/com/demo/copilot/taskmanager/user/infrastructure/persistence/mapper/UserEntityMapper.java:88-104 | with both present the nine mutable columns take the user's values and the rest of the row is kept; otherwise nothing happens |
| UserMapper.UpdateAgreesWithToJpa | user-service/src/main/java/com/demo/copilot/taskmanager/user/infrastructure/persistence/mapper/UserEntityMapper.java:25-104 | updating a row of the same user agrees with mapping afresh except for the row's own timestamps; updating with the same user changes nothing |
| InputSanitizer.RemoveAll | src/main/java/com/demo/copilot/taskmanager/infrastructure/security/InputSanitizer.java:65-68 | removal never lengthens and never introduces a char; text in which no match starts comes back unchanged |
| InputSanitizer.RemoveAllCleanPrefix | src/main/java/com/demo/copilot/taskmanager/infrastructure/security/InputSanitizer.java:65 | text before the first match is copied through and the removal goes on after it |
| InputSanitizer.RemoveAllDropsMatch | src/main/java/com/demo/copilot/taskmanager/infrastructure/security/InputSanitizer.java:65-68 | the leftmost match is dropped, the text before it kept, and the removal resumes right after it |
| InputSanitizer.TagAt | src/main/java/com/demo/copilot/taskmanager/infrastructure/security/InputSanitizer.java:49 | a tag match starts with '<', ends at the first '>', and has at least one char between |
| InputSanitizer.RemoveNul | src/main/java/com/demo/copilot/taskmanager/infrastructure/security/InputSanitizer.java:62 | no NUL remains, no other char appears, and a NUL-free text is unchanged; a single char is dropped exactly when it is NUL |
| InputSanitizer.RemoveNulConcat | src/main/java/com/demo/copilot/taskmanager/infrastructure/security/InputSanitizer.java:62 | NUL removal works char by char: removing from a concatenation concatenates the parts' removals |
| InputSanitizer.Sanitize | src/main/java/com/demo/copilot/taskmanager/infrastructure/security/InputSanitizer.java:54-74 | an input without text comes back as it is; otherwise the result is NUL-free, trimmed, no longer than the input, and made of its chars |
| InputSanitizer.IsDangerous | src/main/java/com/demo/copilot/taskmanager/infrastructure/security/InputSanitizer.java:79-105 | dangerous exactly when the input has text and an XSS or SQL match, a "../" or "..\" or a NUL |
| InputSanitizer.TraversalIsDangerous | src/main/java/com/demo/copilot/taskmanager/infrastructure/security/InputSanitizer.java:95-97 | any path-traversal sequence makes the input dangerous |
| InputSanitizer.NulIsDangerous | src/main/java/com/demo/copilot/taskmanager/infrastructure/security/InputSanitizer.java:100-102 | any NUL makes the input dangerous |
| InputSanitizer.ValidateAndSanitize | src/main/java/com/demo/copilot/taskmanager/infrastructure/security/InputSanitizer.java:110-124 | input without text is returned; too long fails with the length message; dangerous fails with its message; otherwise the sanitised input is returned |
| InputSanitizer.LengthCheckedFirst | src/main/java/com/demo/copilot/taskmanager/infrastructure/security/InputSanitizer.java:115-121 | an input both too long and dangerous is refused for its length |
| InputSanitizer.RemoveFilenameSpecials | src/main/java/com/demo/copilot/taskmanager/infrastructure/security/InputSanitizer.java:135 | no path separator or reserved char remains, and a clean name is unchanged; a single char is dropped exactly when it is a path separator or reserved char |
| InputSanitizer.RemoveFilenameSpecialsConcat | src/main/java/com/demo/copilot/taskmanager/infrastructure/security/InputSanitizer.java:135 | the removal works char by char: on a concatenation it concatenates the cleaned parts |
| InputSanitizer.RemoveLeadingDots | src/main/java/com/demo/copilot/taskmanager/infrastructure/security/InputSanitizer.java:138 | the result does not start with a dot and is the suffix of the input left after a run of dots |
| InputSanitizer.SanitizeFilename | src/main/java/com/demo/copilot/taskmanager/infrastructure/security/InputSanitizer.java:129-146 | a name without text is returned; otherwise the result is the first min(255, n) chars of the name with its special chars and then its leading dots removed, n being that cleaned length, so it has no special char, no leading dot and at most 255 chars |
| InputSanitizer.SanitizeFilenameIdempotent | src/main/java/com/demo/copilot/taskmanager/infrastructure/security/InputSanitizer.java:129-146 | sanitising a file name twice is sanitising once, and a name with text is left as it is exactly when it has no special char, no leading dot and at most 255 chars |
| InputSanitizer.IsValidEmail | src/main/java/com/demo/copilot/taskmanager/infrastructure/security/InputSanitizer.java:151-181 | valid exactly when it has text, matches the pattern, is not dangerous, has at most 254 chars and no ".." |
| InputSanitizer.ValidEmailIsEmail | src/main/java/com/demo/copilot/taskmanager/infrastructure/security/InputSanitizer.java:151-181 | an email the sanitizer accepts is accepted by the email value object, as its lowercase form |
| InputSanitizer.IsValidUsername | src/main/java/com/demo/copilot/taskmanager/infrastructure/security/InputSanitizer.java:186-200 | a valid username has 3 to 50 letters, digits or underscores |
| InputSanitizer.UsernameDangerIsRegexOnly | src/main/java/com/demo/copilot/taskmanager/infrastructure/security/InputSanitizer.java:186-200 | for a username of the right shape only the XSS and SQL matchers can refuse it |

## Left out

- JWT signing and serialisation are not modelled, and neither is the `typ` header. HMAC-SHA, base64url and the compact form belong to the JJWT library. A token is its claims plus the secret it was signed with, and the controllers take the decoder as a parameter.
- JWT dates are kept in milliseconds. The library's truncation of NumericDate to whole seconds is not modelled, so neither is the sub-second slack it gives at expiry.
- A claim of an unexpected type reads as absent. The library would instead throw a conversion error, which every caller catches as well.
- Each `extractX` call parses the token again and reads the clock again. The model uses one `now` per public call.
- JwtService.BlacklistToken: a token that parses but lacks an id or an expiry is not listed. The Java map would store a null key or value, and a later sweep would then throw; tokens this service issues always carry both.
- The weak-secret warning (`contains("demo")` and the like) is a log line only and is not modelled.
- The concurrency of the shared `HashMap` blacklist is not modelled: every call is atomic here.
- `register` and `login` in `AuthController` are not modelled, because they delegate to Spring's `AuthenticationManager`.
- `UserService.getUserByUsername` and `UserDetailsService.loadUserByUsername` are not modelled. Both are function parameters that answer None when the call throws, and the HTTP status of that exception is left to the global handler.
- The `UUID` values behind `UserId` and `TaskId` are opaque numbers. `UserId.of(String)` parsing is not modelled.
- The user service's `UserId` and `UserRole` are not part of this model. They are assumed to match the monolith's `UserId` (null message "User ID value cannot be null") and the shared `UserRole` constants. `UserRole.valueOf` messages name the user service's own class, `com.demo.copilot.taskmanager.user.domain.valueobject.UserRole`, as imported by the mapper.
- The display names and descriptions of the enums are not modelled.
- `equals`, `hashCode`, `toString` and the getters are not modelled.
- JPA auditing is not modelled: `createdAt`, `updatedAt` and `version` on `Task` and on the JPA row are filled in by the persistence layer.
- `UserRepository.save` is modelled as appending to a sequence. `CreateUser.Execute` returns the user it built, where Java returns whatever the repository hands back.
- `toLowerCase` is modelled for ASCII letters only. Java also lowercases other Unicode letters (e.g. the Kelvin sign to 'k'), which could change whether a non-ASCII email matches the pattern.
- UTF-8 byte length is computed per code point. A Java `String` is UTF-16, and an unpaired surrogate encodes as one '?' byte rather than three.
- `String.length()` counts UTF-16 units, while the model counts code points. Length limits differ for text beyond the Basic Multilingual Plane.
- Integer overflow is not modelled: `int`/`long` arithmetic in `isDueSoon`, `hasLoggedInRecently` and token expiry is unbounded.
- InputSanitizer.Sanitize: the XSS and SQL-injection regular expressions are parameters: anchored matchers giving the length of a match at a position. Only the HTML-tag pattern `<[^>]+>` is spelled out. The properties hold for any matcher, so they are weaker than what the concrete patterns would give.
- UserDomainService.GenerateUniqueUsername: the counter is unbounded. The Java `int` counter would wrap after 2^31 taken names.
