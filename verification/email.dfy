/** The `Email` value object. The monolithic application and the user
    service each carry an identical copy; this module models both. A value is
    the input trimmed and lowercased, checked against the pattern
    `local@domain.tld` and then against a 255-char cap. */
module Emails {

  import opened Wrappers
  import opened JavaText

  const MaxLength: nat := 255

  /** The messages of the two checks after the null check. */
  const InvalidFormat := "Invalid email format: "
  const TooLong := "Email cannot exceed 255 characters"

  datatype Email = Email(value: string)

  /** `[a-zA-Z0-9._%+-]`. */
  predicate IsLocalChar(c: char) {
    IsAsciiLetter(c) || IsDigit(c) || c == '.' || c == '_' || c == '%' || c == '+' || c == '-'
  }

  /** `[a-zA-Z0-9.-]`. */
  predicate IsDomainChar(c: char) {
    IsAsciiLetter(c) || IsDigit(c) || c == '.' || c == '-'
  }

  predicate AllLocal(s: string) { forall i :: 0 <= i < |s| ==> IsLocalChar(s[i]) }
  predicate AllDomain(s: string) { forall i :: 0 <= i < |s| ==> IsDomainChar(s[i]) }
  predicate AllLetters(s: string) { forall i :: 0 <= i < |s| ==> IsAsciiLetter(s[i]) }

  /** `[a-zA-Z0-9.-]+\.[a-zA-Z]{2,}`, split at the dot `d`. */
  predicate HostSplitAt(h: string, d: int)
  {
    && 1 <= d < |h|
    && h[d] == '.'
    && AllDomain(h[..d])
    && |h| - (d + 1) >= 2
    && AllLetters(h[d + 1..])
  }

  predicate IsHost(h: string) {
    exists d :: 0 <= d < |h| && HostSplitAt(h, d)
  }

  /** `^[a-zA-Z0-9._%+-]+@[a-zA-Z0-9.-]+\.[a-zA-Z]{2,}$`, split at the `@` at `a`. */
  predicate SplitAt(s: string, a: int)
  {
    && 1 <= a < |s|
    && s[a] == '@'
    && AllLocal(s[..a])
    && IsHost(s[a + 1..])
  }

  predicate MatchesPattern(s: string)
    ensures MatchesPattern(s) ==> |s| >= 6 && '@' in s
  {
    exists a :: 0 <= a < |s| && SplitAt(s, a)
  }

  lemma NoAtInLocal(x: string)
    requires AllLocal(x)
    ensures '@' !in x
  {
    forall i | 0 <= i < |x| ensures x[i] != '@' {
      assert IsLocalChar(x[i]);
    }
  }

  lemma NoAtInHost(h: string)
    requires IsHost(h)
    ensures '@' !in h
  {
    var d :| 0 <= d < |h| && HostSplitAt(h, d);
    forall i | 0 <= i < |h| ensures h[i] != '@' {
      if i < d {
        assert h[i] == h[..d][i];
        assert IsDomainChar(h[i]);
      } else if i > d {
        assert h[i] == h[d + 1..][i - (d + 1)];
        assert IsAsciiLetter(h[i]);
      }
    }
  }

  /** Neither side of the pattern admits '@', so a matching string has exactly
      one, at its split point. */
  lemma OnlyOneAt(s: string, a: int)
    requires SplitAt(s, a)
    ensures forall i :: 0 <= i < |s| && s[i] == '@' ==> i == a
    ensures IndexOf(s, '@') == a
  {
    NoAtInLocal(s[..a]);
    NoAtInHost(s[a + 1..]);
    forall i | 0 <= i < |s| && i != a ensures s[i] != '@' {
      if i < a {
        assert s[i] == s[..a][i];
      } else {
        assert s[i] == s[a + 1..][i - (a + 1)];
      }
    }
  }

  /** `Email.of(value)` on a value that may be null. */
  function Of(input: Option<string>): (r: Result<Email, Exception>)
    ensures input.None? || IsBlank(input.value) ==> r == Failure(IllegalArgument("Email cannot be null or empty"))
    ensures r.Success? ==> r.value.value == ToLower(Trim(input.value))
    ensures input.Some? && !IsBlank(input.value) && !MatchesPattern(ToLower(Trim(input.value)))
            ==> r == Failure(IllegalArgument(InvalidFormat + input.value))
    ensures input.Some? && !IsBlank(input.value) && MatchesPattern(ToLower(Trim(input.value)))
            ==> (r.Success? <==> |ToLower(Trim(input.value))| <= MaxLength)
    ensures input.Some? && !IsBlank(input.value) && MatchesPattern(ToLower(Trim(input.value)))
            && |ToLower(Trim(input.value))| > MaxLength
            ==> r == Failure(IllegalArgument(TooLong))
  {
    if input.None? || IsBlank(input.value) then
      Failure(IllegalArgument("Email cannot be null or empty"))
    else
      var normalized := ToLower(Trim(input.value));
      if !MatchesPattern(normalized) then
        Failure(IllegalArgument(InvalidFormat + input.value))
      else if |normalized| > MaxLength then
        Failure(IllegalArgument(TooLong))
      else
        Success(Email(normalized))
  }

  /** Every `Email` the factory returns is valid. */
  lemma OfIsValid(input: Option<string>)
    requires Of(input).Success?
    ensures Valid(Of(input).value)
  {
    ToLowerIdempotent(Trim(input.value));
  }

  /** What every `Email` the factory builds satisfies: lowercase, matching the
      pattern, at most 255 chars. */
  predicate Valid(e: Email) {
    && MatchesPattern(e.value)
    && |e.value| <= MaxLength
    && ToLower(e.value) == e.value
  }

  /** A valid value is its own normalised form: re-creating an `Email` from its
      value yields the same `Email`. */
  lemma OfIdempotent(e: Email)
    requires Valid(e)
    ensures Of(Some(e.value)) == Success(e)
  {
    var s := e.value;
    EndsAreNotTrimmable(s);
    TrimOfTrimmed(s);
    assert !IsBlank(s);
    OfNormalized(s);
  }

  lemma EndsAreNotTrimmable(s: string)
    requires MatchesPattern(s)
    ensures |s| > 0 && !Trimmable(s[0]) && !Trimmable(s[|s| - 1])
  {
    var a :| 0 <= a < |s| && SplitAt(s, a);
    EndsAt(s, a);
  }

  lemma EndsAt(s: string, a: int)
    requires SplitAt(s, a)
    ensures |s| > 0 && !Trimmable(s[0]) && !Trimmable(s[|s| - 1])
  {
    assert IsLocalChar(s[..a][0]);
    var h := s[a + 1..];
    var d :| 0 <= d < |h| && HostSplitAt(h, d);
    HostEndsWithLetter(h, d);
    assert s[|s| - 1] == h[|h| - 1];
  }

  lemma HostEndsWithLetter(h: string, d: int)
    requires HostSplitAt(h, d)
    ensures IsAsciiLetter(h[|h| - 1])
  {
    assert h[|h| - 1] == h[d + 1..][|h| - d - 2];
  }

  lemma OfNormalized(s: string)
    requires !IsBlank(s) && ToLower(Trim(s)) == s
    requires MatchesPattern(s) && |s| <= MaxLength
    ensures Of(Some(s)) == Success(Email(s))
  {
  }

  /** Surrounding whitespace and ASCII case do not matter: inputs that differ
      only by trimmable padding build the same `Email`. */
  lemma OfIgnoresPadding(pre: string, s: string, post: string)
    requires forall i :: 0 <= i < |pre| ==> Trimmable(pre[i])
    requires forall i :: 0 <= i < |post| ==> Trimmable(post[i])
    ensures Of(Some(pre + s + post)).Success? <==> Of(Some(s)).Success?
    ensures Of(Some(pre + s + post)).Success? ==> Of(Some(pre + s + post)) == Of(Some(s))
  {
    var x := pre + s + post;
    assert ToLower(Trim(x)) == ToLower(Trim(s)) by {
      TrimIgnoresPadding(pre, s, post);
    }
    if Of(Some(s)).Success? {
      SameNormalForm(s, x);
    } else if Of(Some(x)).Success? {
      SameNormalForm(x, s);
    }
  }

  /** Inputs with the same lowercase form build the same `Email`. */
  lemma OfIgnoresCase(s: string, t: string)
    requires ToLower(s) == ToLower(t)
    requires Of(Some(s)).Success?
    ensures Of(Some(t)) == Of(Some(s))
  {
    LowerTrimCommutes(s);
    LowerTrimCommutes(t);
    SameNormalForm(s, t);
  }

  /** Two non-null inputs with the same normal form build the same `Email`. */
  lemma SameNormalForm(s: string, t: string)
    requires ToLower(Trim(s)) == ToLower(Trim(t))
    requires Of(Some(s)).Success?
    ensures Of(Some(t)) == Of(Some(s))
  {
    assert |Trim(t)| == |ToLower(Trim(t))| == |Trim(s)|;
  }

  /** Lowercasing never touches a trimmable char, so it commutes with `trim`. */
  lemma {:induction false} LowerTrimCommutes(s: string)
    ensures ToLower(Trim(s)) == Trim(ToLower(s))
  {
    LowerTrimStart(s);
    LowerTrimEnd(TrimStart(s));
  }

  lemma {:induction false} LowerTrimStart(s: string)
    ensures ToLower(TrimStart(s)) == TrimStart(ToLower(s))
    decreases |s|
  {
    if |s| > 0 {
      var l := ToLower(s);
      assert l[0] == LowerChar(s[0]);
      if Trimmable(s[0]) {
        assert ToLower(s[1..]) == l[1..];
        LowerTrimStart(s[1..]);
      }
    }
  }

  lemma {:induction false} LowerTrimEnd(s: string)
    ensures ToLower(TrimEnd(s)) == TrimEnd(ToLower(s))
    decreases |s|
  {
    if |s| > 0 {
      var l := ToLower(s);
      assert l[|s| - 1] == LowerChar(s[|s| - 1]);
      if Trimmable(s[|s| - 1]) {
        assert ToLower(s[..|s| - 1]) == l[..|l| - 1];
        LowerTrimEnd(s[..|s| - 1]);
      }
    }
  }

  /** Lowercasing keeps every char in its class, so a matching string still
      matches once lowercased. */
  lemma LowerKeepsPattern(s: string)
    requires MatchesPattern(s)
    ensures MatchesPattern(ToLower(s))
  {
    var a :| 0 <= a < |s| && SplitAt(s, a);
    var l := ToLower(s);
    LowerOfSlice(s, 0, a);
    LowerOfSlice(s, a + 1, |s|);
    assert l[..a] == ToLower(s[..a]);
    assert l[a + 1..] == ToLower(s[a + 1..]);
    LowerKeepsClasses(s[..a]);
    LowerKeepsHost(s[a + 1..]);
    assert l[a] == '@';
    assert SplitAt(l, a);
  }

  lemma LowerKeepsHost(h: string)
    requires IsHost(h)
    ensures IsHost(ToLower(h))
  {
    var d :| 0 <= d < |h| && HostSplitAt(h, d);
    var l := ToLower(h);
    LowerOfSlice(h, 0, d);
    LowerOfSlice(h, d + 1, |h|);
    assert l[..d] == ToLower(h[..d]);
    assert l[d + 1..] == ToLower(h[d + 1..]);
    LowerKeepsClasses(h[..d]);
    LowerKeepsClasses(h[d + 1..]);
    assert HostSplitAt(l, d);
  }

  /** Lowercasing commutes with taking a slice. */
  lemma LowerOfSlice(s: string, i: nat, j: nat)
    requires i <= j <= |s|
    ensures ToLower(s)[i..j] == ToLower(s[i..j])
  {
  }

  /** Lowercasing maps each pattern char class into itself. */
  lemma LowerKeepsClasses(x: string)
    ensures AllLocal(x) ==> AllLocal(ToLower(x))
    ensures AllDomain(x) ==> AllDomain(ToLower(x))
    ensures AllLetters(x) ==> AllLetters(ToLower(x))
  {
  }

  /** `getLocalPart()`: the text before the first '@', or null. */
  function LocalPart(e: Email): (r: Option<string>)
    ensures r.Some? <==> '@' in e.value
    ensures r.Some? ==> |r.value| < |e.value| && e.value[|r.value|] == '@'
    ensures r.Some? ==> '@' !in r.value && r.value == e.value[..|r.value|]
  {
    var at := IndexOf(e.value, '@');
    if at != -1 then Some(e.value[..at]) else None
  }

  /** `getDomain()`: the text after the first '@', or null. */
  function Domain(e: Email): (r: Option<string>)
    ensures r.Some? <==> '@' in e.value
    ensures r.Some? ==> |r.value| < |e.value| && r.value == e.value[|e.value| - |r.value|..]
    ensures r.Some? ==> LocalPart(e).Some? && e.value == LocalPart(e).value + "@" + r.value
  {
    var at := IndexOf(e.value, '@');
    if at != -1 then Some(e.value[at + 1..]) else None
  }

  /** For every valid email, local part and domain are present, contain no
      '@', and rejoin to the whole value. */
  lemma PartsRejoin(e: Email)
    requires Valid(e)
    ensures LocalPart(e).Some? && Domain(e).Some?
    ensures LocalPart(e).value + "@" + Domain(e).value == e.value
    ensures '@' !in LocalPart(e).value && '@' !in Domain(e).value
    ensures AllLocal(LocalPart(e).value) && IsHost(Domain(e).value)
  {
    var a :| 0 <= a < |e.value| && SplitAt(e.value, a);
    PartsRejoinAt(e, a);
  }

  lemma PartsRejoinAt(e: Email, a: int)
    requires SplitAt(e.value, a)
    ensures LocalPart(e) == Some(e.value[..a]) && Domain(e) == Some(e.value[a + 1..])
    ensures e.value[..a] + "@" + e.value[a + 1..] == e.value
    ensures '@' !in e.value[..a] && '@' !in e.value[a + 1..]
  {
    var s := e.value;
    OnlyOneAt(s, a);
    assert s == s[..a] + "@" + s[a + 1..];
    NoAtInLocal(s[..a]);
    NoAtInHost(s[a + 1..]);
  }
}
