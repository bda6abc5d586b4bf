/** `UserDomainService`: the uniqueness rules, the last-administrator rule,
    the password-strength rule and the username generator of the user
    service. The repository is modelled as the finite sequence of stored
    users; its lookups are the queries below. */
module UserDomainService {

  import opened Wrappers
  import opened JavaText
  import opened Emails
  import opened ServiceUser
  import UserRole

  /** The stored users, in storage order. */
  datatype Repository = Repository(users: seq<User>)

  predicate ExistsByUsername(repo: Repository, username: string) {
    exists i :: 0 <= i < |repo.users| && repo.users[i].username == username
  }

  predicate ExistsByEmail(repo: Repository, email: Email) {
    exists i :: 0 <= i < |repo.users| && repo.users[i].email == email
  }

  function Usernames(repo: Repository): (r: set<string>)
    ensures forall name :: name in r <==> ExistsByUsername(repo, name)
  {
    set i | 0 <= i < |repo.users| :: repo.users[i].username
  }

  /** `validateUniqueUsername(username)`: throws when the name is taken. */
  function ValidateUniqueUsername(repo: Repository, username: string): (r: Outcome<Exception>)
    ensures r.Fail? <==> ExistsByUsername(repo, username)
    ensures r.Fail? ==> r.error == IllegalArgument("Username '" + username + "' is already taken")
  {
    if ExistsByUsername(repo, username) then
      Fail(IllegalArgument("Username '" + username + "' is already taken"))
    else Pass
  }

  /** `validateUniqueEmail(email)`: throws when the address is registered. */
  function ValidateUniqueEmail(repo: Repository, email: Email): (r: Outcome<Exception>)
    ensures r.Fail? <==> ExistsByEmail(repo, email)
    ensures r.Fail? ==> r.error == IllegalArgument("Email '" + email.value + "' is already registered")
  {
    if ExistsByEmail(repo, email) then
      Fail(IllegalArgument("Email '" + email.value + "' is already registered"))
    else Pass
  }

  /** `validateUserUpdate(user, username, email)`: only a non-null value that
      differs from the current one is checked for uniqueness, username
      first. */
  function ValidateUserUpdate(repo: Repository, u: User, newUsername: Option<string>,
                              newEmail: Option<Email>): (r: Outcome<Exception>)
    ensures r.Pass? <==>
              && (newUsername.Some? && newUsername.value != u.username ==> !ExistsByUsername(repo, newUsername.value))
              && (newEmail.Some? && newEmail.value != u.email ==> !ExistsByEmail(repo, newEmail.value))
    ensures newUsername.Some? && newUsername.value != u.username && ExistsByUsername(repo, newUsername.value)
            ==> r == ValidateUniqueUsername(repo, newUsername.value)
    ensures (newUsername.None? || newUsername.value == u.username || !ExistsByUsername(repo, newUsername.value))
            && newEmail.Some? && newEmail.value != u.email
            ==> r == ValidateUniqueEmail(repo, newEmail.value)
  {
    var usernameCheck := if newUsername.Some? && newUsername.value != u.username
                         then ValidateUniqueUsername(repo, newUsername.value) else Pass;
    if usernameCheck.Fail? then usernameCheck
    else if newEmail.Some? && newEmail.value != u.email then ValidateUniqueEmail(repo, newEmail.value)
    else Pass
  }

  /** Keeping the current username and email, or passing null, never fails,
      whatever the repository holds. */
  lemma KeepingCurrentValuesPasses(repo: Repository, u: User)
    ensures ValidateUserUpdate(repo, u, Some(u.username), Some(u.email)).Pass?
    ensures ValidateUserUpdate(repo, u, None, None).Pass?
  {
  }

  /** `findByRole("ADMIN")` filtered to the active users other than `u`. */
  function OtherActiveAdmins(users: seq<User>, u: User): (r: seq<User>)
    ensures forall v :: v in r <==> v in users && v.role == UserRole.Admin && v.isActive && v.id != u.id
    ensures |r| <= |users|
  {
    if users == [] then []
    else
      var rest := OtherActiveAdmins(users[1..], u);
      var v := users[0];
      assert users == [v] + users[1..];
      if v.role == UserRole.Admin && v.isActive && v.id != u.id then [v] + rest else rest
  }

  /** `canDeleteUser(user)`: anyone but an administrator may be deleted; an
      administrator only while another active administrator remains. */
  predicate CanDeleteUser(repo: Repository, u: User)
    ensures CanDeleteUser(repo, u) <==>
              !IsAdmin(u) || exists v :: v in repo.users && IsAdmin(v) && v.isActive && v.id != u.id
  {
    !IsAdmin(u) ||
      var others := OtherActiveAdmins(repo.users, u);
      assert |others| > 0 ==> others[0] in others;
      |others| > 0
  }

  /** The last active administrator cannot be deleted, and an inactive
      administrator does not count as a remaining one. */
  lemma LastAdminIsKept(repo: Repository, u: User)
    requires IsAdmin(u)
    requires forall v :: v in repo.users && IsAdmin(v) && v.isActive ==> v.id == u.id
    ensures !CanDeleteUser(repo, u)
  {
  }

  /** Java regex `.` without DOTALL matches any char but a line terminator. */
  predicate IsLineTerminator(c: char) {
    c == '\n' || c == '\r' || c == '\U{85}' || c == '\U{2028}' || c == '\U{2029}'
  }

  /** The class `[!@#$%^&*()_+\-=\[\]{};':"\\|,.<>/?]`. */
  predicate IsSpecial(c: char) {
    c in "!@#$%^&*()_+-=[]{};':\"\\|,.<>/?"
  }

  /** No char of `s` is a line terminator, so `.` matches each of them. */
  predicate LineFree(s: string) {
    forall i :: 0 <= i < |s| ==> !IsLineTerminator(s[i])
  }

  /** Some char of `s` is in the class. */
  predicate HasCharIn(s: string, inClass: char -> bool) {
    exists i :: 0 <= i < |s| && inClass(s[i])
  }

  /** `s.matches(".*[X].*")`: the whole string is line-terminator free and
      some char is in the class. */
  predicate MatchesSomewhere(s: string, inClass: char -> bool) {
    LineFree(s) && HasCharIn(s, inClass)
  }

  const MinPasswordLength: nat := 8

  /** `validatePasswordStrength(password)`: the length rule first, then an
      uppercase letter, a lowercase letter, a digit and a special char, the
      first missing class deciding the message. */
  function ValidatePasswordStrength(password: Option<string>): (r: Outcome<Exception>)
    ensures password.None? || |password.value| < MinPasswordLength
            ==> r == Fail(IllegalArgument("Password must be at least 8 characters long"))
    ensures r.Pass? <==>
              && password.Some? && |password.value| >= MinPasswordLength
              && LineFree(password.value)
              && HasCharIn(password.value, IsAsciiUpper) && HasCharIn(password.value, IsAsciiLower)
              && HasCharIn(password.value, IsDigit) && HasCharIn(password.value, IsSpecial)
    ensures r.Fail? ==> r.error.IllegalArgument?
    ensures password.Some? && |password.value| >= MinPasswordLength
            && !MatchesSomewhere(password.value, IsAsciiUpper)
            ==> r == Fail(IllegalArgument("Password must contain at least one uppercase letter"))
    ensures password.Some? && |password.value| >= MinPasswordLength
            && MatchesSomewhere(password.value, IsAsciiUpper)
            && !MatchesSomewhere(password.value, IsAsciiLower)
            ==> r == Fail(IllegalArgument("Password must contain at least one lowercase letter"))
    ensures password.Some? && |password.value| >= MinPasswordLength
            && MatchesSomewhere(password.value, IsAsciiUpper)
            && MatchesSomewhere(password.value, IsAsciiLower)
            && !MatchesSomewhere(password.value, IsDigit)
            ==> r == Fail(IllegalArgument("Password must contain at least one digit"))
    ensures password.Some? && |password.value| >= MinPasswordLength
            && MatchesSomewhere(password.value, IsAsciiUpper)
            && MatchesSomewhere(password.value, IsAsciiLower)
            && MatchesSomewhere(password.value, IsDigit)
            && !MatchesSomewhere(password.value, IsSpecial)
            ==> r == Fail(IllegalArgument("Password must contain at least one special character"))
  {
    if password.None? || |password.value| < MinPasswordLength then
      Fail(IllegalArgument("Password must be at least 8 characters long"))
    else if !MatchesSomewhere(password.value, IsAsciiUpper) then
      Fail(IllegalArgument("Password must contain at least one uppercase letter"))
    else if !MatchesSomewhere(password.value, IsAsciiLower) then
      Fail(IllegalArgument("Password must contain at least one lowercase letter"))
    else if !MatchesSomewhere(password.value, IsDigit) then
      Fail(IllegalArgument("Password must contain at least one digit"))
    else if !MatchesSomewhere(password.value, IsSpecial) then
      Fail(IllegalArgument("Password must contain at least one special character"))
    else Pass
  }

  /** Because `.` does not match a line terminator, a password holding one is
      reported as lacking an uppercase letter even when it has one. */
  lemma LineTerminatorFailsUppercaseRule(password: string, k: nat)
    requires |password| >= MinPasswordLength && k < |password| && IsLineTerminator(password[k])
    ensures ValidatePasswordStrength(Some(password))
            == Fail(IllegalArgument("Password must contain at least one uppercase letter"))
  {
  }

  /** A strong password stays strong when line-terminator-free text is
      added before or after it: every rule asks only for the presence of
      some char. */
  lemma StrongPasswordStaysStrong(password: string, pre: string, post: string)
    requires ValidatePasswordStrength(Some(password)).Pass?
    requires LineFree(pre) && LineFree(post)
    ensures ValidatePasswordStrength(Some(pre + password + post)).Pass?
  {
    var p := pre + password + post;
    assert LineFree(p) by {
      forall i | 0 <= i < |p| ensures !IsLineTerminator(p[i]) {
        if i < |pre| {
          assert p[i] == pre[i];
        } else if i < |pre| + |password| {
          assert p[i] == password[i - |pre|];
        } else {
          assert p[i] == post[i - |pre| - |password|];
        }
      }
    }
    ShiftedWitness(pre, password, post, IsAsciiUpper);
    ShiftedWitness(pre, password, post, IsAsciiLower);
    ShiftedWitness(pre, password, post, IsDigit);
    ShiftedWitness(pre, password, post, IsSpecial);
  }

  lemma ShiftedWitness(pre: string, s: string, post: string, inClass: char -> bool)
    requires HasCharIn(s, inClass)
    ensures HasCharIn(pre + s + post, inClass)
  {
    var i :| 0 <= i < |s| && inClass(s[i]);
    assert (pre + s + post)[|pre| + i] == s[i];
  }

  /** Java's rendering of a string that may be null inside a concatenation. */
  function Render(s: Option<string>): (r: string)
    ensures s.Some? ==> r == s.value
    ensures s.None? ==> r == "null"
  {
    if s.Some? then s.value else "null"
  }

  predicate IsUsernameChar(c: char) {
    IsAsciiLetter(c) || IsDigit(c) || c == '.'
  }

  /** `replaceAll("[^a-zA-Z0-9.]", "")`. */
  function KeepUsernameChars(s: string): (r: string)
    ensures |r| <= |s|
    ensures forall i :: 0 <= i < |r| ==> IsUsernameChar(r[i])
    ensures forall c :: c in r ==> c in s
    ensures (forall i :: 0 <= i < |s| ==> IsUsernameChar(s[i])) ==> r == s
    ensures |s| == 1 ==> r == (if IsUsernameChar(s[0]) then s else [])
  {
    if s == [] then []
    else if IsUsernameChar(s[0]) then [s[0]] + KeepUsernameChars(s[1..])
    else KeepUsernameChars(s[1..])
  }

  /** The filter works char by char: on a concatenation it is the
      concatenation of the filtered parts, so the kept chars stay in order. */
  lemma {:induction false} KeepUsernameCharsConcat(a: string, b: string)
    ensures KeepUsernameChars(a + b) == KeepUsernameChars(a) + KeepUsernameChars(b)
    decreases |a|
  {
    if a != [] {
      assert (a + b)[0] == a[0];
      assert (a + b)[1..] == a[1..] + b;
      KeepUsernameCharsConcat(a[1..], b);
    } else {
      assert a + b == b;
    }
  }

  /** `(first + "." + last).toLowerCase()` with every char outside
      `[a-zA-Z0-9.]` removed. */
  function BaseUsername(first: Option<string>, last: Option<string>): (r: string)
    ensures forall i :: 0 <= i < |r| ==> IsUsernameChar(r[i]) && !IsAsciiUpper(r[i])
  {
    var lowered := ToLower(Render(first) + "." + Render(last));
    assert forall c :: c in lowered ==> !IsAsciiUpper(c);
    KeepUsernameChars(lowered)
  }

  /** The base name is the filtered, lowercased first name, a dot, and the
      filtered, lowercased last name; a null name counts as "null". */
  lemma BaseUsernameParts(first: Option<string>, last: Option<string>)
    ensures BaseUsername(first, last)
            == KeepUsernameChars(ToLower(Render(first))) + "." + KeepUsernameChars(ToLower(Render(last)))
  {
    var f, l := Render(first), Render(last);
    assert ToLower(f + "." + l) == ToLower(f) + "." + ToLower(l);
    KeepUsernameCharsConcat(ToLower(f) + ".", ToLower(l));
    KeepUsernameCharsConcat(ToLower(f), ".");
  }

  /** The base of a name pair made of lowercase letters is just the two names
      joined by a dot. */
  lemma BaseUsernameOfPlainNames(first: string, last: string)
    requires forall i :: 0 <= i < |first| ==> IsAsciiLower(first[i])
    requires forall i :: 0 <= i < |last| ==> IsAsciiLower(last[i])
    ensures BaseUsername(Some(first), Some(last)) == first + "." + last
  {
    var joined := first + "." + last;
    assert forall i :: 0 <= i < |joined| ==> IsAsciiLower(joined[i]) || joined[i] == '.';
    assert ToLower(joined) == joined;
  }

  /** The k-th name tried: the base itself, then the base followed by 1, 2, ... */
  function Candidate(base: string, k: nat): (r: string)
    ensures k == 0 <==> r == base
  {
    if k == 0 then base else base + Decimal(k)
  }

  lemma {:induction false} CandidateInjective(base: string, j: nat, k: nat)
    requires Candidate(base, j) == Candidate(base, k)
    ensures j == k
  {
    if j > 0 && k > 0 {
      assert Decimal(j) == Candidate(base, j)[|base|..];
      assert Decimal(k) == Candidate(base, k)[|base|..];
      DecimalInjective(j, k);
    }
  }

  /** The first `k` candidates as a set. */
  function Tried(base: string, k: nat): (r: set<string>)
    ensures forall j :: 0 <= j < k ==> Candidate(base, j) in r
  {
    set j | 0 <= j < k :: Candidate(base, j)
  }

  lemma {:induction false} TriedSize(base: string, k: nat)
    ensures |Tried(base, k)| == k
  {
    if k > 0 {
      TriedSize(base, k - 1);
      assert Tried(base, k) == Tried(base, k - 1) + {Candidate(base, k - 1)};
      if Candidate(base, k - 1) in Tried(base, k - 1) {
        var j :| 0 <= j < k - 1 && Candidate(base, j) == Candidate(base, k - 1);
        CandidateInjective(base, j, k - 1);
      }
    }
  }

  /** `generateUniqueUsername(first, last)`: the first candidate not taken.
      The loop runs at most once per stored username, since every rejected
      candidate is a distinct taken name. */
  method GenerateUniqueUsername(repo: Repository, first: Option<string>, last: Option<string>)
    returns (username: string)
    ensures !ExistsByUsername(repo, username)
    ensures exists k: nat :: username == Candidate(BaseUsername(first, last), k)
                             && forall j :: 0 <= j < k ==> ExistsByUsername(repo, Candidate(BaseUsername(first, last), j))
  {
    var base := BaseUsername(first, last);
    var taken := Usernames(repo);
    username := base;
    var counter: nat := 0;
    while username in taken
      invariant username == Candidate(base, counter)
      invariant forall j :: 0 <= j < counter ==> Candidate(base, j) in taken
      invariant Tried(base, counter) <= taken
      decreases |taken| - counter
    {
      TriedSize(base, counter + 1);
      assert Tried(base, counter + 1) <= taken;
      assert |Tried(base, counter + 1)| <= |taken| by {
        SubsetSize(Tried(base, counter + 1), taken);
      }
      counter := counter + 1;
      username := base + Decimal(counter);
    }
  }

  lemma SubsetSize<T>(a: set<T>, b: set<T>)
    requires a <= b
    ensures |a| <= |b|
  {
    assert b == a + (b - a);
  }
}
