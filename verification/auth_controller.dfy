/** The logout and refresh endpoints of `AuthController`. The request's
    `Authorization` header is a parameter, and so are the services the
    controller calls: `decode` reads a compact token into its form and
    claims, `users` stands for `UserService.getUserByUsername` (None when
    the lookup throws), and the clock reading `now` and the fresh token id
    `jti` replace `new Date()` and `UUID.randomUUID()`. */
module AuthController {

  import opened Wrappers
  import opened JavaText
  import opened JwtService
  import opened BearerHeader
  import UserRole

  /** The part of a `UserResponse` the refresh endpoint reads. */
  datatype Account = Account(username: string, role: UserRole.Role)

  /** `POST /auth/logout`: blacklists the bearer token, if there is one, and
      answers 200 whatever happened; the result is the blacklist after the
      call. */
  function Logout(cfg: Config, decode: string -> Token, bl: Blacklist, header: Option<string>, now: int)
    : (r: Blacklist)
    ensures BearerToken(header).None? ==> r == bl
    ensures forall k :: k in bl && k !in r ==> false
    ensures forall k :: k in r && (k !in bl || r[k] != bl[k]) ==>
              && BearerToken(header).Some?
              && ParseClaims(cfg, decode(BearerToken(header).value), now).Success?
              && StrClaim(decode(BearerToken(header).value).claims, "jti") == Some(k)
              && DateClaim(decode(BearerToken(header).value).claims, "exp") == Some(r[k])
  {
    var token := BearerToken(header);
    if token.None? then bl else BlacklistToken(cfg, bl, decode(token.value), now)
  }

  /** The authority the refreshed token carries: "ROLE_" and the role's name. */
  function Authority(role: UserRole.Role): (a: string)
    ensures StartsWith(a, "ROLE_") && UserRole.ValueOf(UserRole.MonolithEnum, a[5..]) == Success(role)
  {
    var a := "ROLE_" + UserRole.Name(role);
    assert a[5..] == UserRole.Name(role);
    UserRole.NameRoundTrip(UserRole.MonolithEnum, role);
    a
  }

  datatype Response =
    | BadRequest
    | LookupFailed
    | Refreshed(token: Token, user: Account)

  /** The answer of the refresh endpoint and the blacklist after it. */
  datatype RefreshResult = RefreshResult(response: Response, blacklist: Blacklist)

  /** The checks the endpoint demands of the token before it reads the user. */
  predicate Refreshable(cfg: Config, bl: Blacklist, t: Token, now: int) {
    IsRefreshToken(cfg, t, now) && ValidateToken(cfg, bl, t, now).ok
  }

  /** The subject of the token names a user the lookup finds. */
  predicate KnownSubject(users: string -> Option<Account>, t: Token) {
    StrClaim(t.claims, "sub").Some? && users(StrClaim(t.claims, "sub").value).Some?
  }

  /** The access token the endpoint issues for `account`: its name as
      subject, "ROLE_<role>" as its only authority, no `type` claim, the
      access lifetime. */
  function Reissue(cfg: Config, account: Account, now: int, jti: string): (t: Token)
    requires ValidateSecret(cfg.secret).Pass?
    ensures t.form == Signed(cfg.secret.value)
    ensures StrClaim(t.claims, "sub") == Some(account.username)
    ensures "authorities" in t.claims && t.claims["authorities"] == StrList([Authority(account.role)])
    ensures StrClaim(t.claims, "type").None?
    ensures DateClaim(t.claims, "exp") == Some(now + cfg.accessLifetime)
  {
    var user := UserDetails(account.username, [Authority(account.role)]);
    AccessTokenShape(cfg, user, now, jti);
    GenerateToken(cfg, user, now, jti).value
  }

  /** `POST /auth/refresh`: a bearer token that is a refresh token and
      passes `validateToken` buys a new access token for its subject, with
      the single authority "ROLE_<role>". The refresh token itself stays
      usable. */
  function Refresh(cfg: Config, decode: string -> Token, bl: Blacklist, header: Option<string>,
                   users: string -> Option<Account>, now: int, jti: string)
    : (r: RefreshResult)
    ensures r.response.Refreshed? <==>
              && BearerToken(header).Some?
              && Refreshable(cfg, bl, decode(BearerToken(header).value), now)
              && KnownSubject(users, decode(BearerToken(header).value))
    ensures r.response.Refreshed? ==>
              && ValidateSecret(cfg.secret).Pass?
              && r.response.user == users(StrClaim(decode(BearerToken(header).value).claims, "sub").value).value
              && r.response.token == Reissue(cfg, r.response.user, now, jti)
    ensures BearerToken(header).None? || !IsRefreshToken(cfg, decode(BearerToken(header).value), now)
            ==> r == RefreshResult(BadRequest, bl)
    ensures BearerToken(header).Some? && IsRefreshToken(cfg, decode(BearerToken(header).value), now)
            && !ValidateToken(cfg, bl, decode(BearerToken(header).value), now).ok
            ==> r == RefreshResult(BadRequest, ValidateToken(cfg, bl, decode(BearerToken(header).value), now).blacklist)
    ensures BearerToken(header).Some? && Refreshable(cfg, bl, decode(BearerToken(header).value), now)
            && !KnownSubject(users, decode(BearerToken(header).value))
            ==> r.response == LookupFailed
    ensures BearerToken(header).Some? && IsRefreshToken(cfg, decode(BearerToken(header).value), now)
            ==> r.blacklist == ValidateToken(cfg, bl, decode(BearerToken(header).value), now).blacklist
  {
    var token := BearerToken(header);
    if token.None? then RefreshResult(BadRequest, bl)
    else
      var t := decode(token.value);
      if !IsRefreshToken(cfg, t, now) then RefreshResult(BadRequest, bl)
      else
        var valid := ValidateToken(cfg, bl, t, now);
        if !valid.ok then RefreshResult(BadRequest, valid.blacklist)
        else
          var account := users(StrClaim(t.claims, "sub").value);
          if account.None? then RefreshResult(LookupFailed, valid.blacklist)
          else
            RefreshResult(Refreshed(Reissue(cfg, account.value, now, jti), account.value), valid.blacklist)
  }

  /** An access token never buys a new one, however fresh. */
  lemma AccessTokenCannotRefresh(cfg: Config, decode: string -> Token, bl: Blacklist, text: string,
                                 users: string -> Option<Account>, user: UserDetails,
                                 issued: int, now: int, jti: string, newJti: string)
    requires GenerateToken(cfg, user, issued, jti).Success?
    requires decode(text) == GenerateToken(cfg, user, issued, jti).value
    ensures Refresh(cfg, decode, bl, Some(Prefix + text), users, now, newJti) == RefreshResult(BadRequest, bl)
  {
    BearerRoundTrip(text);
    TokenTypes(cfg, user, issued, jti, now);
  }

  /** A live refresh token of a known user, whose id is not blacklisted,
      buys an access token for that user and leaves the blacklist alone; the
      same header works again on the next call. */
  lemma RefreshSucceeds(cfg: Config, decode: string -> Token, bl: Blacklist, text: string,
                        users: string -> Option<Account>, user: UserDetails,
                        issued: int, now: int, jti: string, newJti: string)
    requires GenerateRefreshToken(cfg, user, issued, jti).Success?
    requires decode(text) == GenerateRefreshToken(cfg, user, issued, jti).value
    requires jti !in bl && !IsBlank(user.username) && users(user.username).Some?
    requires issued <= now <= issued + cfg.refreshLifetime
    ensures var r := Refresh(cfg, decode, bl, Some(Prefix + text), users, now, newJti);
            && r.blacklist == bl
            && r.response.Refreshed? && r.response.user == users(user.username).value
  {
    BearerRoundTrip(text);
    var t := decode(text);
    TokenTypes(cfg, user, issued, jti, now);
    RefreshTokenValidates(cfg, bl, user, issued, jti, now);
    assert StrClaim(t.claims, "sub") == Some(user.username);
    AcceptedRefresh(cfg, decode, bl, Some(Prefix + text), users, now, newJti);
  }

  /** A refresh token that passes every check leaves the blacklist as it was
      and answers with the account its subject names. */
  lemma AcceptedRefresh(cfg: Config, decode: string -> Token, bl: Blacklist, header: Option<string>,
                        users: string -> Option<Account>, now: int, jti: string)
    requires BearerToken(header).Some?
    requires var t := decode(BearerToken(header).value);
             && IsRefreshToken(cfg, t, now) && ValidateToken(cfg, bl, t, now) == Verdict(true, bl)
             && KnownSubject(users, t)
    ensures var r := Refresh(cfg, decode, bl, header, users, now, jti);
            && r.blacklist == bl && r.response.Refreshed?
            && r.response.user == users(StrClaim(decode(BearerToken(header).value).claims, "sub").value).value
  {
  }

  /** Once the refresh token has been sent to logout, refreshing with it
      fails until it expires. */
  lemma LogoutRevokesRefresh(cfg: Config, decode: string -> Token, bl: Blacklist, text: string,
                             users: string -> Option<Account>, user: UserDetails,
                             issued: int, now: int, later: int, jti: string, newJti: string)
    requires GenerateRefreshToken(cfg, user, issued, jti).Success?
    requires decode(text) == GenerateRefreshToken(cfg, user, issued, jti).value
    requires issued <= now <= later <= issued + cfg.refreshLifetime
    ensures var out := Logout(cfg, decode, bl, Some(Prefix + text), now);
            Refresh(cfg, decode, out, Some(Prefix + text), users, later, newJti).response == BadRequest
  {
    BearerRoundTrip(text);
    var t := decode(text);
    BuildThenParse(cfg, map["type" := Str(RefreshType)], user, cfg.refreshLifetime, issued, jti, now);
    BuildThenParse(cfg, map["type" := Str(RefreshType)], user, cfg.refreshLifetime, issued, jti, later);
    BlacklistedStaysListed(cfg, bl, t, now, later);
  }
}
