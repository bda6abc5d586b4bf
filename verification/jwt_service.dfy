/** `JwtService`: issuing, parsing and checking signed tokens, and the
    in-memory blacklist used at logout.

    A token is abstract: the claim set it carries and the secret it was
    signed with. Signing and base64url serialisation belong to the JWT
    library; "the signature verifies" means "signed with the configured
    secret". Dates are milliseconds and the clock reading `now` is a
    parameter of every operation that reads the clock. */
module JwtService {

  import opened Wrappers
  import opened JavaText

  const MinSecretLength: nat := 32
  const Issuer: string := "taskmanager-api"
  const Audience: string := "taskmanager-clients"
  const RefreshType: string := "refresh"

  /** A claim value: a string, a date or number, or a list of strings. */
  datatype ClaimValue = Str(s: string) | Num(n: int) | StrList(items: seq<string>)

  type Claims = map<string, ClaimValue>

  /** How a compact token was protected: signed with a secret, not at all,
      or not a well-formed token in the first place. */
  datatype Form = Signed(secret: string) | Unsecured | Garbled

  /** A compact token after decoding: its form and the claims it carries
      (meaningless for a garbled token, which never parses). */
  datatype Token = Token(form: Form, claims: Claims)

  /** The service's configuration: the secret and the two lifetimes. */
  datatype Config = Config(secret: Option<string>, accessLifetime: int, refreshLifetime: int)

  /** The part of Spring's `UserDetails` a token is built from. */
  datatype UserDetails = UserDetails(username: string, authorities: seq<string>)

  /** Maps a token id to the expiry of the blacklisted token. */
  type Blacklist = map<string, int>

  /** The number of bytes `c` takes in UTF-8. */
  function Utf8Width(c: char): (n: nat)
    ensures 1 <= n <= 4
  {
    if c as int < 0x80 then 1
    else if c as int < 0x800 then 2
    else if c as int < 0x10000 then 3
    else 4
  }

  function Utf8Length(s: string): (n: nat)
    ensures |s| <= n <= 4 * |s|
  {
    if s == [] then 0 else Utf8Width(s[0]) + Utf8Length(s[1..])
  }

  /** `validateSecretKey()`: the secret must have text and at least 32
      bytes, the key size HS256 needs (section 3.2 of RFC 7518). A secret
      naming a placeholder word only draws a log warning. */
  function ValidateSecret(secret: Option<string>): (r: Outcome<Exception>)
    ensures secret.None? || IsBlank(secret.value) ==> r == Fail(IllegalState("JWT secret cannot be null or empty"))
    ensures secret.Some? && !IsBlank(secret.value) && Utf8Length(secret.value) < MinSecretLength
            ==> r == Fail(IllegalState("JWT secret must be at least 32 bytes long for security"))
    ensures r.Pass? <==> secret.Some? && !IsBlank(secret.value) && Utf8Length(secret.value) >= MinSecretLength
  {
    if secret.None? || Trim(secret.value) == [] then Fail(IllegalState("JWT secret cannot be null or empty"))
    else if Utf8Length(secret.value) < MinSecretLength then
      Fail(IllegalState("JWT secret must be at least 32 bytes long for security"))
    else Pass
  }

  /** A 32-char ASCII secret is long enough, even one made of placeholder words. */
  lemma AsciiSecretOfLength32Passes(secret: string)
    requires |secret| == 32 && forall i :: 0 <= i < |secret| ==> ' ' < secret[i] < '\U{7F}'
    ensures ValidateSecret(Some(secret)).Pass?
  {
    AsciiUtf8Length(secret);
    assert !Trimmable(secret[0]);
    if IsBlank(secret) {
      BlankIffAllTrimmable(secret);
    }
  }

  lemma {:induction false} AsciiUtf8Length(s: string)
    requires forall i :: 0 <= i < |s| ==> s[i] < '\U{80}'
    ensures Utf8Length(s) == |s|
  {
    if s != [] {
      AsciiUtf8Length(s[1..]);
    }
  }

  /** Typed reads of a claim: an absent claim, or one of another type, reads
      as null. */
  function StrClaim(c: Claims, name: string): (r: Option<string>)
    ensures r.Some? <==> name in c && c[name].Str?
    ensures r.Some? ==> c[name] == Str(r.value)
  {
    if name in c && c[name].Str? then Some(c[name].s) else None
  }

  function DateClaim(c: Claims, name: string): (r: Option<int>)
    ensures r.Some? <==> name in c && c[name].Num?
    ensures r.Some? ==> c[name] == Num(r.value)
  {
    if name in c && c[name].Num? then Some(c[name].n) else None
  }

  /** Why the library refuses to hand out a token's claims. */
  datatype ParseError =
    | KeyRejected(cause: Exception)
    | Malformed
    | Unsupported
    | SignatureMismatch
    | Expired
    | Premature
    | IncorrectClaim(name: string)

  predicate HasAudience(c: Claims) {
    "aud" in c && (c["aud"] == Str(Audience) || (c["aud"].StrList? && Audience in c["aud"].items))
  }

  /** `extractAllClaims(token)`: the key is checked first, then the token's
      form and signature, then its validity window (expired when `now` is
      past `exp`, premature when `now` is before `nbf`), then the required
      issuer and audience. */
  function ParseClaims(cfg: Config, t: Token, now: int): (r: Result<Claims, ParseError>)
    ensures r.Success? <==>
              && ValidateSecret(cfg.secret).Pass? && t.form == Signed(cfg.secret.value)
              && (DateClaim(t.claims, "exp").Some? ==> now <= DateClaim(t.claims, "exp").value)
              && (DateClaim(t.claims, "nbf").Some? ==> DateClaim(t.claims, "nbf").value <= now)
              && StrClaim(t.claims, "iss") == Some(Issuer) && HasAudience(t.claims)
    ensures r.Success? ==> r.value == t.claims
    ensures ValidateSecret(cfg.secret).Fail? ==> r == Failure(KeyRejected(ValidateSecret(cfg.secret).error))
  {
    var key := ValidateSecret(cfg.secret);
    if key.Fail? then Failure(KeyRejected(key.error))
    else
      var c := t.claims;
      match t.form
      case Garbled => Failure(Malformed)
      case Unsecured => Failure(Unsupported)
      case Signed(secret) =>
        if secret != cfg.secret.value then Failure(SignatureMismatch)
        else if DateClaim(c, "exp").Some? && now > DateClaim(c, "exp").value then Failure(Expired)
        else if DateClaim(c, "nbf").Some? && now < DateClaim(c, "nbf").value then Failure(Premature)
        else if StrClaim(c, "iss") != Some(Issuer) then Failure(IncorrectClaim("iss"))
        else if !HasAudience(c) then Failure(IncorrectClaim("aud"))
        else Success(c)
  }

  /** The claim set `buildToken(extra, user, lifetime)` signs: the extra
      claims, overwritten by `authorities` and `aud`, overwritten in turn by
      the registered claims of section 4.1 of RFC 7519. */
  function TokenClaims(extra: Claims, user: UserDetails, lifetime: int, now: int, jti: string): (c: Claims)
    ensures c.Keys == extra.Keys + RegisteredNames
    ensures StrClaim(c, "sub") == Some(user.username) && StrClaim(c, "iss") == Some(Issuer)
    ensures "aud" in c && c["aud"] == Str(Audience)
    ensures "authorities" in c && c["authorities"] == StrList(user.authorities)
    ensures DateClaim(c, "iat") == Some(now) && DateClaim(c, "nbf") == Some(now)
    ensures DateClaim(c, "exp") == Some(now + lifetime) && StrClaim(c, "jti") == Some(jti)
    ensures forall k :: k in extra && k !in RegisteredNames ==> k in c && c[k] == extra[k]
  {
    extra["authorities" := StrList(user.authorities)]["aud" := Str(Audience)]
         ["sub" := Str(user.username)]["iss" := Str(Issuer)]["iat" := Num(now)]
         ["nbf" := Num(now)]["exp" := Num(now + lifetime)]["jti" := Str(jti)]
  }

  /** `buildToken(extra, user, lifetime)`: the claims above, signed with the
      configured secret, which must pass the key check. */
  function BuildToken(cfg: Config, extra: Claims, user: UserDetails, lifetime: int, now: int, jti: string)
    : (r: Result<Token, Exception>)
    ensures r.Failure? <==> ValidateSecret(cfg.secret).Fail?
    ensures r.Failure? ==> r.error == ValidateSecret(cfg.secret).error
    ensures r.Success? ==> r.value == Token(Signed(cfg.secret.value), TokenClaims(extra, user, lifetime, now, jti))
  {
    var key := ValidateSecret(cfg.secret);
    if key.Fail? then Failure(key.error)
    else Success(Token(Signed(cfg.secret.value), TokenClaims(extra, user, lifetime, now, jti)))
  }

  /** The claim names `buildToken` always writes. */
  const RegisteredNames: set<string> := {"authorities", "aud", "sub", "iss", "iat", "nbf", "exp", "jti"}

  /** `generateToken(user)`: no extra claims, access lifetime. */
  function GenerateToken(cfg: Config, user: UserDetails, now: int, jti: string): (r: Result<Token, Exception>)
    ensures r.Success? ==> r.value.claims.Keys == RegisteredNames
  {
    BuildToken(cfg, map[], user, cfg.accessLifetime, now, jti)
  }

  /** What an access token carries: the user's name and authorities, no
      `type` claim, and the access lifetime. */
  lemma AccessTokenShape(cfg: Config, user: UserDetails, now: int, jti: string)
    requires ValidateSecret(cfg.secret).Pass?
    ensures GenerateToken(cfg, user, now, jti).Success?
    ensures var t := GenerateToken(cfg, user, now, jti).value;
            && t.form == Signed(cfg.secret.value)
            && StrClaim(t.claims, "sub") == Some(user.username)
            && "authorities" in t.claims && t.claims["authorities"] == StrList(user.authorities)
            && StrClaim(t.claims, "type").None?
            && DateClaim(t.claims, "exp") == Some(now + cfg.accessLifetime)
  {
    var c := TokenClaims(map[], user, cfg.accessLifetime, now, jti);
    assert GenerateToken(cfg, user, now, jti) == Success(Token(Signed(cfg.secret.value), c));
    TypeIsNotRegistered();
    assert "type" !in c;
  }

  /** `generateToken(extra, user)`. */
  function GenerateTokenWithClaims(cfg: Config, extra: Claims, user: UserDetails, now: int, jti: string)
    : (r: Result<Token, Exception>)
    ensures r.Success? ==> DateClaim(r.value.claims, "exp") == Some(now + cfg.accessLifetime)
  {
    BuildToken(cfg, extra, user, cfg.accessLifetime, now, jti)
  }

  /** `generateRefreshToken(user)`: `type` = "refresh", refresh lifetime; it
      carries the user's authorities like any other token. */
  function GenerateRefreshToken(cfg: Config, user: UserDetails, now: int, jti: string)
    : (r: Result<Token, Exception>)
    ensures r.Success? ==> r.value.claims.Keys == RegisteredNames + {"type"}
    ensures r.Success? ==> StrClaim(r.value.claims, "type") == Some(RefreshType)
    ensures r.Success? ==> DateClaim(r.value.claims, "exp") == Some(now + cfg.refreshLifetime)
  {
    TypeIsNotRegistered();
    BuildToken(cfg, map["type" := Str(RefreshType)], user, cfg.refreshLifetime, now, jti)
  }

  lemma TypeIsNotRegistered()
    ensures "type" !in RegisteredNames
  {
  }

  /** A token just built parses back to its own claims at every moment of
      its lifetime, and is refused outside it. */
  lemma BuildThenParse(cfg: Config, extra: Claims, user: UserDetails, lifetime: int, now: int,
                       jti: string, at: int)
    requires BuildToken(cfg, extra, user, lifetime, now, jti).Success?
    ensures var t := BuildToken(cfg, extra, user, lifetime, now, jti).value;
            && (now <= at <= now + lifetime <==> ParseClaims(cfg, t, at).Success?)
            && (now <= at <= now + lifetime ==> ParseClaims(cfg, t, at).value == t.claims)
  {
  }

  /** A token signed with another secret never parses. */
  lemma ForeignSecretRejected(cfg: Config, other: Config, user: UserDetails, now: int, jti: string, at: int)
    requires other.secret != cfg.secret && other.secret.Some? && cfg.secret.Some?
    requires GenerateToken(other, user, now, jti).Success?
    ensures ParseClaims(cfg, GenerateToken(other, user, now, jti).value, at).Failure?
  {
  }

  /** `isRefreshToken(token)`: the parsed `type` claim is the string
      "refresh"; any parse failure answers false. */
  predicate IsRefreshToken(cfg: Config, t: Token, now: int)
    ensures IsRefreshToken(cfg, t, now) <==>
              ParseClaims(cfg, t, now).Success? && StrClaim(t.claims, "type") == Some(RefreshType)
  {
    var parsed := ParseClaims(cfg, t, now);
    parsed.Success? && StrClaim(parsed.value, "type") == Some(RefreshType)
  }

  /** Refresh tokens are recognised as such while they are alive, access
      tokens never are. */
  lemma TokenTypes(cfg: Config, user: UserDetails, now: int, jti: string, at: int)
    requires GenerateToken(cfg, user, now, jti).Success?
    ensures !IsRefreshToken(cfg, GenerateToken(cfg, user, now, jti).value, at)
    ensures now <= at <= now + cfg.refreshLifetime
            ==> IsRefreshToken(cfg, GenerateRefreshToken(cfg, user, now, jti).value, at)
  {
    var access := GenerateToken(cfg, user, now, jti).value;
    TypeIsNotRegistered();
    assert StrClaim(access.claims, "type").None?;
    if now <= at <= now + cfg.refreshLifetime {
      BuildThenParse(cfg, map["type" := Str(RefreshType)], user, cfg.refreshLifetime, now, jti, at);
    }
  }

  /** The answer of a blacklist query together with the blacklist after it. */
  datatype Verdict = Verdict(ok: bool, blacklist: Blacklist)

  /** The token parses and its id is listed with an expiry already passed:
      the case in which a blacklist query evicts the entry. */
  predicate ExpiredListing(cfg: Config, bl: Blacklist, t: Token, now: int) {
    && ParseClaims(cfg, t, now).Success? && StrClaim(t.claims, "jti").Some?
    && StrClaim(t.claims, "jti").value in bl && bl[StrClaim(t.claims, "jti").value] < now
  }

  /** `isTokenBlacklisted(token)`: true when the token's id is listed with an
      expiry not yet passed; a listed expiry already passed is removed on the
      way. Any parse failure answers false. */
  function IsTokenBlacklisted(cfg: Config, bl: Blacklist, t: Token, now: int): (r: Verdict)
    ensures r.ok <==> ParseClaims(cfg, t, now).Success? && StrClaim(t.claims, "jti").Some?
                      && StrClaim(t.claims, "jti").value in bl && !(bl[StrClaim(t.claims, "jti").value] < now)
    ensures ExpiredListing(cfg, bl, t, now) ==> r.blacklist == bl - {StrClaim(t.claims, "jti").value}
    ensures !ExpiredListing(cfg, bl, t, now) ==> r.blacklist == bl
    ensures r.ok ==> r.blacklist == bl
  {
    var parsed := ParseClaims(cfg, t, now);
    if parsed.Failure? then Verdict(false, bl)
    else
      var jti := StrClaim(parsed.value, "jti");
      if jti.None? || jti.value !in bl then Verdict(false, bl)
      else if bl[jti.value] < now then Verdict(false, bl - {jti.value})
      else Verdict(true, bl)
  }

  /** `blacklistToken(token)`: lists the token's id with its expiry; a token
      that does not parse, or lacks an id or an expiry, changes nothing. */
  function BlacklistToken(cfg: Config, bl: Blacklist, t: Token, now: int): (r: Blacklist)
    ensures ParseClaims(cfg, t, now).Failure? ==> r == bl
    ensures ParseClaims(cfg, t, now).Success? && StrClaim(t.claims, "jti").Some? && DateClaim(t.claims, "exp").Some?
            ==> r == bl[StrClaim(t.claims, "jti").value := DateClaim(t.claims, "exp").value]
    ensures forall k :: k in bl && (StrClaim(t.claims, "jti") != Some(k) || r == bl) ==> k in r && r[k] == bl[k]
  {
    var parsed := ParseClaims(cfg, t, now);
    if parsed.Failure? then bl
    else
      var jti := StrClaim(parsed.value, "jti");
      var exp := DateClaim(parsed.value, "exp");
      if jti.Some? && exp.Some? then bl[jti.value := exp.value] else bl
  }

  /** Blacklisting twice is blacklisting once. */
  lemma BlacklistIdempotent(cfg: Config, bl: Blacklist, t: Token, now: int)
    ensures BlacklistToken(cfg, BlacklistToken(cfg, bl, t, now), t, now) == BlacklistToken(cfg, bl, t, now)
  {
    var parsed := ParseClaims(cfg, t, now);
    var jti, exp := StrClaim(t.claims, "jti"), DateClaim(t.claims, "exp");
    var once := BlacklistToken(cfg, bl, t, now);
    if parsed.Success? && jti.Some? && exp.Some? {
      assert once == bl[jti.value := exp.value];
      OverwriteTwice(bl, jti.value, exp.value);
    } else {
      assert once == bl;
    }
  }

  lemma OverwriteTwice(m: Blacklist, k: string, v: int)
    ensures m[k := v][k := v] == m[k := v]
  {
  }

  /** Once blacklisted, a token that parses is reported as blacklisted until
      it expires, and the query leaves the blacklist as it is: the eviction
      branch never fires for the entry the same token wrote, because a token
      whose expiry has passed no longer parses. */
  lemma BlacklistedStaysListed(cfg: Config, bl: Blacklist, t: Token, now: int, later: int)
    requires StrClaim(t.claims, "jti").Some? && DateClaim(t.claims, "exp").Some?
    requires ParseClaims(cfg, t, now).Success? && ParseClaims(cfg, t, later).Success?
    ensures IsTokenBlacklisted(cfg, BlacklistToken(cfg, bl, t, now), t, later)
            == Verdict(true, BlacklistToken(cfg, bl, t, now))
  {
  }

  /** Repeating a blacklist query gives the same answer and changes nothing
      more: the first query has already evicted what it evicts. */
  lemma BlacklistQueryIdempotent(cfg: Config, bl: Blacklist, t: Token, now: int)
    ensures var first := IsTokenBlacklisted(cfg, bl, t, now);
            IsTokenBlacklisted(cfg, first.blacklist, t, now) == first
  {
    var first := IsTokenBlacklisted(cfg, bl, t, now);
    if ExpiredListing(cfg, bl, t, now) {
      assert !ExpiredListing(cfg, first.blacklist, t, now);
    }
  }

  /** An id that is not listed is never reported. */
  lemma UnlistedIsNotBlacklisted(cfg: Config, bl: Blacklist, t: Token, now: int)
    requires StrClaim(t.claims, "jti").None? || StrClaim(t.claims, "jti").value !in bl
    ensures IsTokenBlacklisted(cfg, bl, t, now) == Verdict(false, bl)
  {
  }

  /** `cleanupExpiredBlacklistedTokens()`: keeps exactly the entries whose
      expiry has not passed. */
  function Cleanup(bl: Blacklist, now: int): (r: Blacklist)
    ensures forall k :: k in r <==> k in bl && !(bl[k] < now)
    ensures forall k :: k in r ==> r[k] == bl[k]
  {
    map k | k in bl && !(bl[k] < now) :: bl[k]
  }

  /** Sweeping twice is sweeping once; a sweep never changes what
      `isTokenBlacklisted` answers. */
  lemma CleanupIdempotent(bl: Blacklist, now: int)
    ensures Cleanup(Cleanup(bl, now), now) == Cleanup(bl, now)
  {
  }

  lemma CleanupKeepsAnswers(cfg: Config, bl: Blacklist, t: Token, now: int)
    ensures IsTokenBlacklisted(cfg, Cleanup(bl, now), t, now).ok == IsTokenBlacklisted(cfg, bl, t, now).ok
  {
  }

  /** `isTokenValid(token, user)`: subject is the user's name, the token is
      not expired and not premature, and it is not blacklisted. A missing
      subject or expiry throws before the blacklist is consulted and reads as
      false; otherwise the blacklist query runs, with its eviction, whatever
      the other checks found. The `type` claim plays no part. */
  function IsTokenValid(cfg: Config, bl: Blacklist, t: Token, user: UserDetails, now: int): (r: Verdict)
    ensures r.ok <==>
              && ParseClaims(cfg, t, now).Success?
              && StrClaim(t.claims, "sub") == Some(user.username)
              && DateClaim(t.claims, "exp").Some? && !(DateClaim(t.claims, "exp").value < now)
              && !(DateClaim(t.claims, "nbf").Some? && DateClaim(t.claims, "nbf").value > now)
              && !IsTokenBlacklisted(cfg, bl, t, now).ok
    ensures ParseClaims(cfg, t, now).Success? && StrClaim(t.claims, "sub").Some? && DateClaim(t.claims, "exp").Some?
            ==> r.blacklist == IsTokenBlacklisted(cfg, bl, t, now).blacklist
    ensures !(ParseClaims(cfg, t, now).Success? && StrClaim(t.claims, "sub").Some? && DateClaim(t.claims, "exp").Some?)
            ==> r.blacklist == bl
  {
    var parsed := ParseClaims(cfg, t, now);
    if parsed.Failure? then Verdict(false, bl)
    else
      var sub := StrClaim(parsed.value, "sub");
      var exp := DateClaim(parsed.value, "exp");
      if sub.None? || exp.None? then Verdict(false, bl)
      else
        var nbf := DateClaim(parsed.value, "nbf");
        var usernameValid := sub.value == user.username;
        var notExpired := !(exp.value < now);
        var notTooEarly := !(nbf.Some? && nbf.value > now);
        var listed := IsTokenBlacklisted(cfg, bl, t, now);
        Verdict(usernameValid && notExpired && notTooEarly && !listed.ok, listed.blacklist)
  }

  /** A fresh token of either kind is valid for its own user within its own
      lifetime, provided its id is not listed. */
  lemma FreshTokenValid(cfg: Config, bl: Blacklist, extra: Claims, user: UserDetails, lifetime: int,
                        now: int, jti: string, at: int)
    requires BuildToken(cfg, extra, user, lifetime, now, jti).Success? && jti !in bl
    requires now <= at <= now + lifetime
    ensures IsTokenValid(cfg, bl, BuildToken(cfg, extra, user, lifetime, now, jti).value, user, at) == Verdict(true, bl)
  {
    var t := BuildToken(cfg, extra, user, lifetime, now, jti).value;
    BuildThenParse(cfg, extra, user, lifetime, now, jti, at);
    UnlistedIsNotBlacklisted(cfg, bl, t, at);
  }

  /** Access and refresh tokens alike: `isTokenValid` ignores `type`. */
  lemma FreshTokensValid(cfg: Config, bl: Blacklist, user: UserDetails, now: int, jti: string, at: int)
    requires GenerateToken(cfg, user, now, jti).Success? && jti !in bl
    requires now <= at <= now + cfg.accessLifetime && now <= at <= now + cfg.refreshLifetime
    ensures IsTokenValid(cfg, bl, GenerateToken(cfg, user, now, jti).value, user, at) == Verdict(true, bl)
    ensures IsTokenValid(cfg, bl, GenerateRefreshToken(cfg, user, now, jti).value, user, at) == Verdict(true, bl)
  {
    FreshTokenValid(cfg, bl, map[], user, cfg.accessLifetime, now, jti, at);
    FreshTokenValid(cfg, bl, map["type" := Str(RefreshType)], user, cfg.refreshLifetime, now, jti, at);
  }

  /** Another user's name never validates the token. */
  lemma OtherUserInvalid(cfg: Config, bl: Blacklist, user: UserDetails, other: UserDetails,
                         now: int, jti: string, at: int)
    requires GenerateToken(cfg, user, now, jti).Success? && other.username != user.username
    ensures !IsTokenValid(cfg, bl, GenerateToken(cfg, user, now, jti).value, other, at).ok
  {
  }

  /** The claims `validateToken` demands before it consults the blacklist:
      the token parses and has a non-blank subject, an issue date and an
      expiry. */
  predicate RequiredClaims(cfg: Config, t: Token, now: int) {
    && ParseClaims(cfg, t, now).Success?
    && StrClaim(t.claims, "sub").Some? && !IsBlank(StrClaim(t.claims, "sub").value)
    && DateClaim(t.claims, "iat").Some? && DateClaim(t.claims, "exp").Some?
  }

  /** `validateToken(token)`: parses, has a non-blank subject, an issue date
      and an expiry, and is not blacklisted. Refresh tokens pass as well. */
  function ValidateToken(cfg: Config, bl: Blacklist, t: Token, now: int): (r: Verdict)
    ensures r.ok <==>
              && ParseClaims(cfg, t, now).Success?
              && StrClaim(t.claims, "sub").Some? && !IsBlank(StrClaim(t.claims, "sub").value)
              && DateClaim(t.claims, "iat").Some? && DateClaim(t.claims, "exp").Some?
              && !IsTokenBlacklisted(cfg, bl, t, now).ok
    ensures RequiredClaims(cfg, t, now) ==> r.blacklist == IsTokenBlacklisted(cfg, bl, t, now).blacklist
    ensures !RequiredClaims(cfg, t, now) ==> r.blacklist == bl
  {
    var parsed := ParseClaims(cfg, t, now);
    if parsed.Failure? then Verdict(false, bl)
    else
      var sub := StrClaim(parsed.value, "sub");
      if sub.None? || Trim(sub.value) == [] then Verdict(false, bl)
      else if DateClaim(parsed.value, "iat").None? then Verdict(false, bl)
      else if DateClaim(parsed.value, "exp").None? then Verdict(false, bl)
      else
        var listed := IsTokenBlacklisted(cfg, bl, t, now);
        Verdict(!listed.ok, listed.blacklist)
  }

  /** After logout the token fails both checks for as long as it would
      otherwise be alive. */
  lemma BlacklistedTokenRejected(cfg: Config, bl: Blacklist, user: UserDetails, now: int, jti: string, at: int)
    requires GenerateToken(cfg, user, now, jti).Success?
    requires now <= at <= now + cfg.accessLifetime
    ensures var t := GenerateToken(cfg, user, now, jti).value;
            var listed := BlacklistToken(cfg, bl, t, now);
            && !ValidateToken(cfg, listed, t, at).ok
            && !IsTokenValid(cfg, listed, t, user, at).ok
            && IsTokenBlacklisted(cfg, listed, t, at) == Verdict(true, listed)
  {
  }

  /** A refresh token passes `validateToken` just as an access token does. */
  lemma RefreshTokenValidates(cfg: Config, bl: Blacklist, user: UserDetails, now: int, jti: string, at: int)
    requires GenerateRefreshToken(cfg, user, now, jti).Success? && jti !in bl && !IsBlank(user.username)
    requires now <= at <= now + cfg.refreshLifetime
    ensures ValidateToken(cfg, bl, GenerateRefreshToken(cfg, user, now, jti).value, at) == Verdict(true, bl)
  {
  }

  /** A weak secret yields no token and makes every check answer false. */
  lemma WeakSecretDisablesService(cfg: Config, bl: Blacklist, t: Token, user: UserDetails, now: int, jti: string)
    requires ValidateSecret(cfg.secret).Fail?
    ensures GenerateToken(cfg, user, now, jti).Failure? && GenerateRefreshToken(cfg, user, now, jti).Failure?
    ensures IsTokenValid(cfg, bl, t, user, now) == Verdict(false, bl)
    ensures ValidateToken(cfg, bl, t, now) == Verdict(false, bl)
    ensures !IsRefreshToken(cfg, t, now) && BlacklistToken(cfg, bl, t, now) == bl
  {
  }
}
