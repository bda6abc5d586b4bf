/** `InputSanitizer`: input cleaning and the danger, username and email
    checks built on it.

    A regular expression is represented by its anchored matcher: given the
    text from some position on, the length of the match that starts there,
    or 0 when none does. `find()` asks whether some position starts a match;
    `replaceAll(..., "")` walks the text left to right, dropping each match
    and resuming after it. The XSS and SQL-injection expressions are left
    abstract as such matchers; the HTML-tag expression `<[^>]+>` is given
    concretely. */
module InputSanitizer {

  import opened Wrappers
  import opened JavaText
  import Emails

  /** The anchored matchers of `XSS_PATTERN` and `SQL_INJECTION_PATTERN`. */
  datatype Patterns = Patterns(xssAt: string -> nat, sqlAt: string -> nat)

  /** `matcher(s).find()`. */
  predicate Find(s: string, at: string -> nat) {
    exists i :: 0 <= i < |s| && at(s[i..]) > 0
  }

  /** No match starts among the first `n` positions of `s`. */
  predicate NoMatchBefore(s: string, n: nat, at: string -> nat)
    requires n <= |s|
  {
    forall k {:trigger at(s[k..])} :: 0 <= k < n ==> at(s[k..]) == 0
  }

  /** `matcher(s).replaceAll("")`. */
  function RemoveAll(s: string, at: string -> nat): (r: string)
    ensures |r| <= |s|
    ensures forall c :: c in r ==> c in s
    ensures NoMatchBefore(s, |s|, at) ==> r == s
    decreases |s|
  {
    if s == [] then []
    else
      assert NoMatchBefore(s, |s|, at) ==> at(s) == 0 && NoMatchBefore(s[1..], |s| - 1, at) by {
        if NoMatchBefore(s, |s|, at) {
          assert s[0..] == s;
          forall k | 0 <= k < |s| - 1 ensures at(s[1..][k..]) == 0 {
            assert s[1..][k..] == s[k + 1..];
          }
        }
      }
      var n := at(s);
      if 0 < n <= |s| then
        var rest := RemoveAll(s[n..], at);
        assert forall c :: c in rest ==> c in s by {
          forall c | c in rest ensures c in s {
            var k :| 0 <= k < |s[n..]| && s[n..][k] == c;
            assert s[n + k] == c;
          }
        }
        rest
      else
        var rest := RemoveAll(s[1..], at);
        assert forall c :: c in rest ==> c in s by {
          forall c | c in rest ensures c in s {
            var k :| 0 <= k < |s[1..]| && s[1..][k] == c;
            assert s[1 + k] == c;
          }
        }
        [s[0]] + rest
  }

  /** Where no match starts, `replaceAll` keeps the char and goes on. */
  lemma RemoveAllKeepsHead(s: string, at: string -> nat)
    requires s != [] && at(s) == 0
    ensures RemoveAll(s, at) == [s[0]] + RemoveAll(s[1..], at)
  {
  }

  /** Text in which no match starts is copied through, and the removal goes
      on after it. */
  lemma {:induction false} RemoveAllCleanPrefix(s: string, n: nat, at: string -> nat)
    requires n <= |s| && NoMatchBefore(s, n, at)
    ensures RemoveAll(s, at) == s[..n] + RemoveAll(s[n..], at)
    decreases n
  {
    if n == 0 {
      assert s[..0] == [] && s[0..] == s;
    } else {
      assert RemoveAll(s, at) == [s[0]] + RemoveAll(s[1..], at) by {
        assert s[0..] == s;
        RemoveAllKeepsHead(s, at);
      }
      assert RemoveAll(s[1..], at) == s[1..n] + RemoveAll(s[n..], at) by {
        NoMatchShift(s, n, at);
        RemoveAllCleanPrefix(s[1..], n - 1, at);
        assert s[1..][n - 1..] == s[n..] && s[1..][..n - 1] == s[1..n];
      }
      ConsPrefix(s, n, RemoveAll(s[n..], at));
    }
  }

  /** The first char put back in front of the rest of a prefix. */
  lemma ConsPrefix(s: string, n: nat, rest: string)
    requires 0 < n <= |s|
    ensures [s[0]] + (s[1..n] + rest) == s[..n] + rest
  {
    assert [s[0]] + s[1..n] == s[..n];
  }

  /** Dropping the first char keeps the rest of a clean prefix clean. */
  lemma NoMatchShift(s: string, n: nat, at: string -> nat)
    requires 0 < n <= |s| && NoMatchBefore(s, n, at)
    ensures NoMatchBefore(s[1..], n - 1, at)
  {
    forall k | 0 <= k < n - 1 ensures at(s[1..][k..]) == 0 {
      assert s[1..][k..] == s[k + 1..];
    }
  }

  /** `replaceAll` drops the leftmost match, the `len` chars from `n` on,
      keeps the text before it, and resumes right after it. */
  lemma RemoveAllDropsMatch(s: string, n: nat, len: nat, at: string -> nat)
    requires n + len <= |s| && NoMatchBefore(s, n, at)
    requires at(s[n..]) == len > 0
    ensures RemoveAll(s, at) == s[..n] + RemoveAll(s[n + len..], at)
  {
    RemoveAllCleanPrefix(s, n, at);
    assert RemoveAll(s[n..], at) == RemoveAll(s[n + len..], at) by {
      RemoveAllSkipsMatch(s[n..], at);
      assert s[n..][len..] == s[n + len..];
    }
  }

  /** Where a match starts, `replaceAll` drops it and goes on after it. */
  lemma RemoveAllSkipsMatch(s: string, at: string -> nat)
    requires 0 < at(s) <= |s|
    ensures RemoveAll(s, at) == RemoveAll(s[at(s)..], at)
  {
  }

  /** The anchored matcher of `<[^>]+>`: a '<', at least one char other than
      '>', and the first '>' after them. */
  function TagAt(s: string): (n: nat)
    ensures n > 0 ==> 3 <= n <= |s| && s[0] == '<' && s[n - 1] == '>'
    ensures n > 0 ==> forall i :: 1 <= i < n - 1 ==> s[i] != '>'
  {
    if |s| > 0 && s[0] == '<' then
      var j := IndexOf(s[1..], '>');
      if j > 0 then
        assert forall i :: 1 <= i < j + 1 ==> s[i] == s[1..][..j][i - 1];
        j + 2
      else 0
    else 0
  }

  /** `s.replace("\0", "")`. */
  function RemoveNul(s: string): (r: string)
    ensures '\0' !in r && |r| <= |s|
    ensures forall c :: c in r ==> c in s
    ensures '\0' !in s ==> r == s
    ensures |s| == 1 ==> r == (if s[0] == '\0' then [] else s)
  {
    if s == [] then []
    else if s[0] == '\0' then RemoveNul(s[1..])
    else [s[0]] + RemoveNul(s[1..])
  }

  /** NUL removal works char by char: on a concatenation it is the
      concatenation of the parts with their NULs removed. */
  lemma {:induction false} RemoveNulConcat(a: string, b: string)
    ensures RemoveNul(a + b) == RemoveNul(a) + RemoveNul(b)
    decreases |a|
  {
    if a != [] {
      assert (a + b)[0] == a[0];
      assert (a + b)[1..] == a[1..] + b;
      RemoveNulConcat(a[1..], b);
    } else {
      assert a + b == b;
    }
  }

  /** `sanitize(input)`: text-free input comes back as it was; otherwise NUL
      chars, HTML tags and XSS matches are removed and the rest trimmed. */
  function Sanitize(input: Option<string>, p: Patterns): (r: Option<string>)
    ensures !OptHasText(input) ==> r == input
    ensures OptHasText(input) ==> r.Some? && '\0' !in r.value && Trim(r.value) == r.value
    ensures OptHasText(input) ==> |r.value| <= |input.value|
    ensures OptHasText(input) ==> forall c :: c in r.value ==> c in input.value
  {
    if !OptHasText(input) then input
    else
      var withoutNul := RemoveNul(input.value);
      var withoutTags := RemoveAll(withoutNul, TagAt);
      var withoutXss := RemoveAll(withoutTags, p.xssAt);
      var trimmed := Trim(withoutXss);
      assert '\0' !in withoutTags;
      assert '\0' !in withoutXss;
      assert '\0' !in trimmed;
      TrimIdempotent(withoutXss);
      Some(trimmed)
  }

  /** `isDangerous(input)`: text-free input is harmless; otherwise an XSS or
      SQL-injection match, a path-traversal sequence or a NUL makes it
      dangerous. */
  predicate IsDangerous(input: Option<string>, p: Patterns)
    ensures !OptHasText(input) ==> !IsDangerous(input, p)
    ensures IsDangerous(input, p) <==>
              && OptHasText(input)
              && (|| Find(input.value, p.xssAt) || Find(input.value, p.sqlAt)
                  || Contains(input.value, "../") || Contains(input.value, "..\\")
                  || '\0' in input.value)
  {
    if !OptHasText(input) then false
    else if Find(input.value, p.xssAt) then true
    else if Find(input.value, p.sqlAt) then true
    else if Contains(input.value, "../") || Contains(input.value, "..\\") then true
    else '\0' in input.value
  }

  /** Path traversal and NUL chars are caught whatever the two regular
      expressions are. */
  lemma TraversalIsDangerous(s: string, k: nat, p: Patterns)
    requires k + 3 <= |s| && (s[k..k + 3] == "../" || s[k..k + 3] == "..\\")
    ensures IsDangerous(Some(s), p)
  {
    assert s[k] == '.' && !IsJavaWhitespace(s[k]);
    if s[k..k + 3] == "../" {
      ContainsAt(s, "../", k);
    } else {
      ContainsAt(s, "..\\", k);
    }
  }

  lemma NulIsDangerous(s: string, k: nat, p: Patterns)
    requires k < |s| && s[k] == '\0'
    ensures IsDangerous(Some(s), p)
  {
    assert !IsJavaWhitespace(s[k]);
  }

  /** `validateAndSanitize(input, maxLength)`: the length check comes before
      the danger check, and accepted input is sanitised. */
  function ValidateAndSanitize(input: Option<string>, maxLength: int, p: Patterns)
    : (r: Result<Option<string>, Exception>)
    ensures !OptHasText(input) ==> r == Success(input)
    ensures OptHasText(input) && |input.value| > maxLength
            ==> r == Failure(IllegalArgument("Input exceeds maximum length of " + IntToString(maxLength)))
    ensures OptHasText(input) && |input.value| <= maxLength && IsDangerous(input, p)
            ==> r == Failure(IllegalArgument("Input contains potentially dangerous content"))
    ensures r.Success? <==> !OptHasText(input) || (|input.value| <= maxLength && !IsDangerous(input, p))
    ensures r.Success? ==> r.value == Sanitize(input, p)
  {
    if !OptHasText(input) then Success(input)
    else if |input.value| > maxLength then
      Failure(IllegalArgument("Input exceeds maximum length of " + IntToString(maxLength)))
    else if IsDangerous(input, p) then
      Failure(IllegalArgument("Input contains potentially dangerous content"))
    else Success(Sanitize(input, p))
  }

  /** An over-long input is refused for its length even when it is also
      dangerous. */
  lemma LengthCheckedFirst(s: string, maxLength: int, p: Patterns)
    requires OptHasText(Some(s)) && |s| > maxLength && IsDangerous(Some(s), p)
    ensures ValidateAndSanitize(Some(s), maxLength, p).error.message
            == "Input exceeds maximum length of " + IntToString(maxLength)
  {
  }

  /** The chars `[/\\:*?"<>|]` removed from file names. */
  predicate IsFilenameSpecial(c: char) {
    c == '/' || c == '\\' || c == ':' || c == '*' || c == '?' || c == '"' || c == '<' || c == '>' || c == '|'
  }

  function RemoveFilenameSpecials(s: string): (r: string)
    ensures forall i :: 0 <= i < |r| ==> !IsFilenameSpecial(r[i])
    ensures forall c :: c in r ==> c in s
    ensures (forall i :: 0 <= i < |s| ==> !IsFilenameSpecial(s[i])) ==> r == s
    ensures |s| == 1 ==> r == (if IsFilenameSpecial(s[0]) then [] else s)
  {
    if s == [] then []
    else if IsFilenameSpecial(s[0]) then RemoveFilenameSpecials(s[1..])
    else [s[0]] + RemoveFilenameSpecials(s[1..])
  }

  /** Removing the special chars works char by char: on a concatenation it
      is the concatenation of the cleaned parts. */
  lemma {:induction false} RemoveFilenameSpecialsConcat(a: string, b: string)
    ensures RemoveFilenameSpecials(a + b) == RemoveFilenameSpecials(a) + RemoveFilenameSpecials(b)
    decreases |a|
  {
    if a != [] {
      assert (a + b)[0] == a[0];
      assert (a + b)[1..] == a[1..] + b;
      RemoveFilenameSpecialsConcat(a[1..], b);
    } else {
      assert a + b == b;
    }
  }

  /** `replaceAll("^\\.*", "")`. */
  function RemoveLeadingDots(s: string): (r: string)
    ensures r == [] || r[0] != '.'
    ensures |r| <= |s| && r == s[|s| - |r|..]
    ensures forall i :: 0 <= i < |s| - |r| ==> s[i] == '.'
    ensures s == [] || s[0] != '.' ==> r == s
  {
    if s != [] && s[0] == '.' then RemoveLeadingDots(s[1..]) else s
  }

  const MaxFilenameLength: nat := 255

  /** `sanitizeFilename(name)`: text-free names come back as they were;
      otherwise the special chars and then the leading dots are removed, and
      the result is cut to 255 chars. */
  function SanitizeFilename(filename: Option<string>): (r: Option<string>)
    ensures !OptHasText(filename) ==> r == filename
    ensures OptHasText(filename) ==> r.Some? && |r.value| <= MaxFilenameLength
    ensures OptHasText(filename) ==> forall i :: 0 <= i < |r.value| ==> !IsFilenameSpecial(r.value[i])
    ensures OptHasText(filename) ==> r.value == [] || r.value[0] != '.'
    ensures OptHasText(filename) ==>
              var cleaned := RemoveLeadingDots(RemoveFilenameSpecials(filename.value));
              && |r.value| == (if |cleaned| <= MaxFilenameLength then |cleaned| else MaxFilenameLength)
              && r.value == cleaned[..|r.value|]
  {
    if !OptHasText(filename) then filename
    else
      var special := RemoveFilenameSpecials(filename.value);
      var cleaned := RemoveLeadingDots(special);
      NoSpecialsInSlice(special, |special| - |cleaned|, |special|);
      if |cleaned| > MaxFilenameLength then
        NoSpecialsInSlice(cleaned, 0, MaxFilenameLength);
        Some(cleaned[..MaxFilenameLength])
      else Some(cleaned)
  }

  lemma NoSpecialsInSlice(s: string, i: nat, j: nat)
    requires i <= j <= |s|
    requires forall k :: 0 <= k < |s| ==> !IsFilenameSpecial(s[k])
    ensures forall k :: 0 <= k < j - i ==> !IsFilenameSpecial(s[i..j][k])
  {
    forall k | 0 <= k < j - i ensures !IsFilenameSpecial(s[i..j][k]) {
      assert s[i..j][k] == s[i + k];
    }
  }

  /** A file name `sanitizeFilename` has nothing to remove from: no special
      char, no leading dot, at most 255 chars. */
  predicate CleanFilename(s: string) {
    && |s| <= MaxFilenameLength
    && (forall i :: 0 <= i < |s| ==> !IsFilenameSpecial(s[i]))
    && (s == [] || s[0] != '.')
  }

  /** Sanitising a sanitised file name changes nothing, and the names left
      as they are are exactly the clean ones. */
  lemma SanitizeFilenameIdempotent(filename: Option<string>)
    ensures SanitizeFilename(SanitizeFilename(filename)) == SanitizeFilename(filename)
    ensures OptHasText(filename) ==> (SanitizeFilename(filename) == filename <==> CleanFilename(filename.value))
  {
    var once := SanitizeFilename(filename);
    if OptHasText(filename) && OptHasText(once) {
      var s := once.value;
      assert RemoveFilenameSpecials(s) == s;
      assert RemoveLeadingDots(s) == s;
    }
    if OptHasText(filename) && CleanFilename(filename.value) {
      var s := filename.value;
      assert RemoveFilenameSpecials(s) == s;
      assert RemoveLeadingDots(s) == s;
    }
  }

  /** `isValidEmail(email)`: has text, matches the same pattern the `Email`
      value object uses, is not dangerous, has at most 254 chars and no
      "..". */
  predicate IsValidEmail(email: Option<string>, p: Patterns)
    ensures IsValidEmail(email, p) <==>
              && OptHasText(email) && Emails.MatchesPattern(email.value)
              && !IsDangerous(email, p) && |email.value| <= 254 && !Contains(email.value, "..")
  {
    if !OptHasText(email) then false
    else if !Emails.MatchesPattern(email.value) then false
    else if IsDangerous(email, p) then false
    else if |email.value| > 254 then false
    else !Contains(email.value, "..")
  }

  /** Every address the sanitizer accepts is accepted by the `Email` value
      object, which stores its lowercase form. */
  lemma ValidEmailIsEmail(email: string, p: Patterns)
    requires IsValidEmail(Some(email), p)
    ensures Emails.Of(Some(email)).Success?
    ensures Emails.Of(Some(email)).value.value == ToLower(email)
  {
    Emails.EndsAreNotTrimmable(email);
    TrimOfTrimmed(email);
    Emails.LowerKeepsPattern(email);
    assert !IsBlank(email);
  }

  predicate IsUsernameChar(c: char) {
    IsAsciiLetter(c) || IsDigit(c) || c == '_'
  }

  /** A text lacking the first char of `sub` does not contain `sub`. */
  lemma {:induction false} AbsentHeadNotContained(s: string, sub: string)
    requires sub != [] && sub[0] !in s
    ensures !Contains(s, sub)
    decreases |s|
  {
    if |s| >= |sub| {
      assert s[..|sub|][0] == s[0];
    }
    if |s| > 0 {
      AbsentHeadNotContained(s[1..], sub);
    }
  }

  /** `isValidUsername(name)`: has text, matches `^[a-zA-Z0-9_]{3,50}$` and is
      not dangerous. */
  predicate IsValidUsername(username: Option<string>, p: Patterns)
    ensures IsValidUsername(username, p) ==>
              && username.Some? && 3 <= |username.value| <= 50
              && forall i :: 0 <= i < |username.value| ==> IsUsernameChar(username.value[i])
  {
    && OptHasText(username)
    && 3 <= |username.value| <= 50
    && (forall i :: 0 <= i < |username.value| ==> IsUsernameChar(username.value[i]))
    && !IsDangerous(username, p)
  }

  /** A name made of 3 to 50 username chars is valid exactly when neither
      regular expression matches in it; it can never hold a traversal
      sequence or a NUL. */
  lemma UsernameDangerIsRegexOnly(u: string, p: Patterns)
    requires 3 <= |u| <= 50 && forall i :: 0 <= i < |u| ==> IsUsernameChar(u[i])
    ensures IsValidUsername(Some(u), p) <==> !Find(u, p.xssAt) && !Find(u, p.sqlAt)
  {
    assert !IsJavaWhitespace(u[0]);
    assert '.' !in u && '\0' !in u;
    AbsentHeadNotContained(u, "../");
    AbsentHeadNotContained(u, "..\\");
  }
}
