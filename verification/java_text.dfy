/** The `java.lang.String` operations the modelled code relies on, over
    `seq<char>`: `trim`, `isEmpty`, `toLowerCase` (ASCII only),
    `startsWith`, `contains`, `indexOf`, Spring's `StringUtils.hasText`,
    and the decimal rendering of a non-negative `int`. */
module JavaText {

  import opened Wrappers

  /** `String.trim` strips every char whose code is at most U+0020. */
  predicate Trimmable(c: char) { c <= ' ' }

  function TrimStart(s: string): (r: string)
    ensures |r| <= |s| && r == s[|s| - |r|..]
    ensures r == [] || !Trimmable(r[0])
    ensures forall i :: 0 <= i < |s| - |r| ==> Trimmable(s[i])
  {
    if |s| > 0 && Trimmable(s[0]) then TrimStart(s[1..]) else s
  }

  function TrimEnd(s: string): (r: string)
    ensures |r| <= |s| && r == s[..|r|]
    ensures r == [] || !Trimmable(r[|r| - 1])
    ensures forall i :: |r| <= i < |s| ==> Trimmable(s[i])
  {
    if |s| > 0 && Trimmable(s[|s| - 1]) then TrimEnd(s[..|s| - 1]) else s
  }

  /** `s.trim()`: the longest infix of `s` that neither starts nor ends with a
      trimmable char. */
  function Trim(s: string): (r: string)
    ensures |r| <= |s|
    ensures r == [] || (!Trimmable(r[0]) && !Trimmable(r[|r| - 1]))
    ensures forall c :: c in r ==> c in s
  {
    TrimEnd(TrimStart(s))
  }

  /** A string with no trimmable char at either end is its own trim. */
  lemma {:induction false} TrimOfTrimmed(s: string)
    requires s == [] || (!Trimmable(s[0]) && !Trimmable(s[|s| - 1]))
    ensures Trim(s) == s
  {
  }

  /** `trim` is idempotent. */
  lemma TrimIdempotent(s: string)
    ensures Trim(Trim(s)) == Trim(s)
  {
    TrimOfTrimmed(Trim(s));
  }

  /** Padding a string with trimmable chars on either side does not change its trim. */
  lemma {:induction false} TrimIgnoresPadding(pre: string, s: string, post: string)
    requires forall i :: 0 <= i < |pre| ==> Trimmable(pre[i])
    requires forall i :: 0 <= i < |post| ==> Trimmable(post[i])
    ensures Trim(pre + s + post) == Trim(s)
  {
    assert pre + s + post == pre + (s + post);
    TrimStartIgnoresPrefix(pre, s + post);
    var t := TrimStart(s);
    if t == [] {
      AllTrimmable(s);
      assert forall i :: 0 <= i < |s + post| ==> Trimmable((s + post)[i]);
      TrimStartAllTrimmable(s + post);
    } else {
      TrimStartOfSuffix(s, post);
      TrimEndIgnoresSuffix(t, post);
    }
  }

  lemma {:induction false} TrimStartIgnoresPrefix(pre: string, s: string)
    requires forall i :: 0 <= i < |pre| ==> Trimmable(pre[i])
    ensures TrimStart(pre + s) == TrimStart(s)
    decreases |pre|
  {
    if pre != [] {
      var x := pre + s;
      assert x[0] == pre[0];
      assert TrimStart(x) == TrimStart(x[1..]);
      var rest := pre[1..];
      assert x[1..] == rest + s;
      assert forall i :: 0 <= i < |rest| ==> Trimmable(rest[i]) by {
        forall i | 0 <= i < |rest| ensures Trimmable(rest[i]) {
          assert rest[i] == pre[i + 1];
        }
      }
      TrimStartIgnoresPrefix(rest, s);
    } else {
      assert pre + s == s;
    }
  }

  lemma {:induction false} TrimStartOfSuffix(s: string, post: string)
    requires TrimStart(s) != []
    ensures TrimStart(s + post) == TrimStart(s) + post
    decreases |s|
  {
    assert (s + post)[0] == s[0];
    if Trimmable(s[0]) {
      assert (s + post)[1..] == s[1..] + post;
      TrimStartOfSuffix(s[1..], post);
    }
  }

  lemma AllTrimmable(s: string)
    requires TrimStart(s) == []
    ensures forall i :: 0 <= i < |s| ==> Trimmable(s[i])
  {
  }

  lemma {:induction false} TrimStartAllTrimmable(s: string)
    requires forall i :: 0 <= i < |s| ==> Trimmable(s[i])
    ensures TrimStart(s) == []
    decreases |s|
  {
    if s != [] {
      TrimStartAllTrimmable(s[1..]);
    }
  }

  lemma {:induction false} TrimEndAllTrimmable(s: string)
    requires forall i :: 0 <= i < |s| ==> Trimmable(s[i])
    ensures TrimEnd(s) == []
    decreases |s|
  {
    if s != [] {
      TrimEndAllTrimmable(s[..|s| - 1]);
    }
  }

  lemma {:induction false} TrimEndIgnoresSuffix(s: string, post: string)
    requires forall i :: 0 <= i < |post| ==> Trimmable(post[i])
    ensures TrimEnd(s + post) == TrimEnd(s)
    decreases |post|
  {
    if post != [] {
      var x := s + post;
      var p := post[..|post| - 1];
      assert x[|x| - 1] == post[|post| - 1];
      assert TrimEnd(x) == TrimEnd(x[..|x| - 1]);
      assert x[..|x| - 1] == s + p;
      assert forall i :: 0 <= i < |p| ==> Trimmable(p[i]) by {
        forall i | 0 <= i < |p| ensures Trimmable(p[i]) {
          assert p[i] == post[i];
        }
      }
      TrimEndIgnoresSuffix(s, p);
    } else {
      assert s + post == s;
    }
  }

  /** `s == null || s.trim().isEmpty()` for a non-null `s`. */
  predicate IsBlank(s: string) { Trim(s) == [] }

  lemma BlankIffAllTrimmable(s: string)
    ensures IsBlank(s) <==> forall i :: 0 <= i < |s| ==> Trimmable(s[i])
  {
    if forall i :: 0 <= i < |s| ==> Trimmable(s[i]) {
      TrimStartAllTrimmable(s);
    }
  }

  /** `Character.isWhitespace`: the Unicode space separators other than the
      no-break spaces, plus the ASCII controls TAB, LF, VT, FF, CR and FS..US. */
  predicate IsJavaWhitespace(c: char) {
    || c == ' ' || c == '\t' || c == '\n' || c == '\U{B}' || c == '\U{C}' || c == '\r'
    || ('\U{1C}' <= c <= '\U{1F}')
    || c == '\U{1680}' || ('\U{2000}' <= c <= '\U{2006}') || ('\U{2008}' <= c <= '\U{200A}')
    || c == '\U{2028}' || c == '\U{2029}' || c == '\U{205F}' || c == '\U{3000}'
  }

  /** Spring's `StringUtils.hasText` on a non-null string. */
  predicate HasText(s: string) {
    exists i :: 0 <= i < |s| && !IsJavaWhitespace(s[i])
  }

  /** A Java string that may be null has text only when it is non-null. */
  predicate OptHasText(s: Option<string>)
  {
    s.Some? && HasText(s.value)
  }

  function LowerChar(c: char): (r: char)
    ensures 'A' <= c <= 'Z' ==> r as int == c as int + 32
    ensures !('A' <= c <= 'Z') ==> r == c
  {
    if 'A' <= c <= 'Z' then (c as int + 32) as char else c
  }

  /** `String.toLowerCase`, restricted to ASCII letters. */
  function ToLower(s: string): (r: string)
    ensures |r| == |s|
    ensures forall i :: 0 <= i < |s| ==> r[i] == LowerChar(s[i])
  {
    seq(|s|, i requires 0 <= i < |s| => LowerChar(s[i]))
  }

  lemma ToLowerIdempotent(s: string)
    ensures ToLower(ToLower(s)) == ToLower(s)
  {
  }

  predicate IsAsciiUpper(c: char) { 'A' <= c <= 'Z' }
  predicate IsAsciiLower(c: char) { 'a' <= c <= 'z' }
  predicate IsAsciiLetter(c: char) { IsAsciiUpper(c) || IsAsciiLower(c) }
  predicate IsDigit(c: char) { '0' <= c <= '9' }

  predicate StartsWith(s: string, prefix: string) {
    |prefix| <= |s| && s[..|prefix|] == prefix
  }

  /** `s.contains(sub)`: some suffix of `s` starts with `sub`. */
  predicate Contains(s: string, sub: string)
    decreases |s|
  {
    StartsWith(s, sub) || (|s| > 0 && Contains(s[1..], sub))
  }

  lemma {:induction false} ContainsAt(s: string, sub: string, k: nat)
    requires k + |sub| <= |s| && s[k..k + |sub|] == sub
    ensures Contains(s, sub)
    decreases k
  {
    if k > 0 {
      assert s[1..][k - 1..k - 1 + |sub|] == s[k..k + |sub|];
      ContainsAt(s[1..], sub, k - 1);
    }
  }

  lemma {:induction false} ContainsWitness(s: string, sub: string) returns (k: nat)
    requires Contains(s, sub)
    ensures k + |sub| <= |s| && s[k..k + |sub|] == sub
    decreases |s|
  {
    if StartsWith(s, sub) {
      k := 0;
    } else {
      var j := ContainsWitness(s[1..], sub);
      k := j + 1;
      assert s[k..k + |sub|] == s[1..][j..j + |sub|];
    }
  }

  /** `s.indexOf(c)`: the first position of `c`, or -1. */
  function IndexOf(s: string, c: char): (r: int)
    ensures -1 <= r < |s|
    ensures r == -1 <==> c !in s
    ensures r >= 0 ==> s[r] == c && c !in s[..r]
  {
    if |s| == 0 then -1
    else if s[0] == c then 0
    else
      var k := IndexOf(s[1..], c);
      assert s == [s[0]] + s[1..];
      if k == -1 then -1 else k + 1
  }

  /** `String.valueOf(n)` for a non-negative `int`. */
  function Decimal(n: nat): (r: string)
    ensures |r| >= 1
    ensures forall i :: 0 <= i < |r| ==> IsDigit(r[i])
    ensures n < 10 <==> |r| == 1
    decreases n
  {
    if n < 10 then [DigitChar(n)] else Decimal(n / 10) + [DigitChar(n % 10)]
  }

  /** `String.valueOf(n)` for any `int`. */
  function IntToString(n: int): (r: string)
    ensures n >= 0 ==> r == Decimal(n)
    ensures n < 0 ==> r == "-" + Decimal(-n)
  {
    if n >= 0 then Decimal(n) else "-" + Decimal(-n)
  }

  function DigitChar(d: nat): (c: char)
    requires d < 10
    ensures IsDigit(c) && c as int - '0' as int == d
  {
    ('0' as int + d) as char
  }

  /** Distinct numbers render differently. */
  lemma {:induction false} DecimalInjective(a: nat, b: nat)
    requires Decimal(a) == Decimal(b)
    ensures a == b
    decreases a
  {
    var da, db := Decimal(a), Decimal(b);
    if a >= 10 && b >= 10 {
      assert da[|da| - 1] == DigitChar(a % 10);
      assert db[|db| - 1] == DigitChar(b % 10);
      assert Decimal(a / 10) == da[..|da| - 1] == db[..|db| - 1] == Decimal(b / 10);
      DecimalInjective(a / 10, b / 10);
    } else {
      assert da[0] == db[0];
    }
  }
}
