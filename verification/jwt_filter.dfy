/** `JwtAuthenticationFilter`: authenticates a request from its bearer
    token. The request's header, the security context's current
    authentication and the blacklist are inputs; `decode` reads a compact
    token and `loadUser` stands for `UserDetailsService.loadUserByUsername`
    (None when it throws). */
module JwtAuthenticationFilter {

  import opened Wrappers
  import opened JwtService
  import opened BearerHeader

  /** The authentication the filter puts in the security context: the
      loaded user and its authorities. */
  datatype Authentication = Authentication(principal: UserDetails, authorities: seq<string>)

  /** The security context after the filter, the blacklist after it, and how
      many times the rest of the chain was invoked. */
  datatype FilterOutcome = FilterOutcome(context: Option<Authentication>, blacklist: Blacklist, chainCalls: nat)

  /** The filter reaches `isTokenValid`: a bearer token that parses and
      names a subject, no authentication yet, and a user loaded under that
      subject. */
  predicate ChecksValidity(cfg: Config, decode: string -> Token, header: Option<string>,
                           context: Option<Authentication>, loadUser: string -> Option<UserDetails>, now: int)
  {
    && BearerToken(header).Some?
    && var t := decode(BearerToken(header).value);
    && ParseClaims(cfg, t, now).Success?
    && StrClaim(t.claims, "sub").Some?
    && context.None?
    && loadUser(StrClaim(t.claims, "sub").value).Some?
  }

  /** `doFilterInternal`: without a bearer token, with a token that does not
      parse or names no subject, or with an authentication already in place,
      the context is left alone; otherwise the subject's user is loaded and
      authenticated when `isTokenValid` accepts the token. Every exception is
      swallowed, and the chain runs exactly once. */
  function Filter(cfg: Config, decode: string -> Token, bl: Blacklist, header: Option<string>,
                  context: Option<Authentication>, loadUser: string -> Option<UserDetails>, now: int)
    : (r: FilterOutcome)
    ensures r.chainCalls == 1
    ensures context.Some? ==> r.context == context && r.blacklist == bl
    ensures r.context != context ==>
              && BearerToken(header).Some?
              && var t := decode(BearerToken(header).value);
              && StrClaim(t.claims, "sub").Some?
              && loadUser(StrClaim(t.claims, "sub").value).Some?
              && var user := loadUser(StrClaim(t.claims, "sub").value).value;
              && IsTokenValid(cfg, bl, t, user, now).ok
              && r.context == Some(Authentication(user, user.authorities))
    ensures r.blacklist == bl || (BearerToken(header).Some? &&
              r.blacklist == IsTokenBlacklisted(cfg, bl, decode(BearerToken(header).value), now).blacklist)
    ensures ChecksValidity(cfg, decode, header, context, loadUser, now)
            ==> var t := decode(BearerToken(header).value);
                r.blacklist == IsTokenValid(cfg, bl, t, loadUser(StrClaim(t.claims, "sub").value).value, now).blacklist
    ensures !ChecksValidity(cfg, decode, header, context, loadUser, now) ==> r.blacklist == bl
  {
    var jwt := BearerToken(header);
    if jwt.None? then FilterOutcome(context, bl, 1)
    else
      var t := decode(jwt.value);
      if ParseClaims(cfg, t, now).Failure? then FilterOutcome(context, bl, 1)
      else
        var username := StrClaim(t.claims, "sub");
        if username.None? || context.Some? then FilterOutcome(context, bl, 1)
        else
          var user := loadUser(username.value);
          if user.None? then FilterOutcome(context, bl, 1)
          else
            var valid := IsTokenValid(cfg, bl, t, user.value, now);
            if valid.ok then FilterOutcome(Some(Authentication(user.value, user.value.authorities)), valid.blacklist, 1)
            else FilterOutcome(context, valid.blacklist, 1)
  }

  /** A fresh token whose id is not blacklisted authenticates its user on a
      request with an empty context, provided the user loads under the
      token's subject. */
  lemma FreshTokenAuthenticates(cfg: Config, decode: string -> Token, bl: Blacklist, text: string,
                                loadUser: string -> Option<UserDetails>, user: UserDetails,
                                issued: int, now: int, jti: string)
    requires GenerateToken(cfg, user, issued, jti).Success?
    requires decode(text) == GenerateToken(cfg, user, issued, jti).value
    requires jti !in bl && loadUser(user.username) == Some(user)
    requires issued <= now <= issued + cfg.accessLifetime
    ensures Filter(cfg, decode, bl, Some(Prefix + text), None, loadUser, now)
            == FilterOutcome(Some(Authentication(user, user.authorities)), bl, 1)
  {
    BearerRoundTrip(text);
    FreshTokenValid(cfg, bl, map[], user, cfg.accessLifetime, issued, jti, now);
    BuildThenParse(cfg, map[], user, cfg.accessLifetime, issued, jti, now);
  }

  /** A refresh token authenticates just as an access token does: the
      filter never looks at the `type` claim, so a refresh token serves as
      an access token for the whole refresh lifetime. */
  lemma RefreshTokenAuthenticates(cfg: Config, decode: string -> Token, bl: Blacklist, text: string,
                                  loadUser: string -> Option<UserDetails>, user: UserDetails,
                                  issued: int, now: int, jti: string)
    requires GenerateRefreshToken(cfg, user, issued, jti).Success?
    requires decode(text) == GenerateRefreshToken(cfg, user, issued, jti).value
    requires jti !in bl && loadUser(user.username) == Some(user)
    requires issued <= now <= issued + cfg.refreshLifetime
    ensures Filter(cfg, decode, bl, Some(Prefix + text), None, loadUser, now)
            == FilterOutcome(Some(Authentication(user, user.authorities)), bl, 1)
  {
    BearerRoundTrip(text);
    FreshTokenValid(cfg, bl, map["type" := Str(RefreshType)], user, cfg.refreshLifetime, issued, jti, now);
    BuildThenParse(cfg, map["type" := Str(RefreshType)], user, cfg.refreshLifetime, issued, jti, now);
  }

  /** After logout the same header no longer authenticates anyone. */
  lemma LoggedOutTokenRejected(cfg: Config, decode: string -> Token, bl: Blacklist, text: string,
                               loadUser: string -> Option<UserDetails>, user: UserDetails,
                               issued: int, now: int, later: int, jti: string)
    requires GenerateToken(cfg, user, issued, jti).Success?
    requires decode(text) == GenerateToken(cfg, user, issued, jti).value
    requires issued <= now <= later <= issued + cfg.accessLifetime
    ensures var listed := BlacklistToken(cfg, bl, decode(text), now);
            Filter(cfg, decode, listed, Some(Prefix + text), None, loadUser, later).context.None?
  {
    BearerRoundTrip(text);
    var t := decode(text);
    BuildThenParse(cfg, map[], user, cfg.accessLifetime, issued, jti, now);
    BuildThenParse(cfg, map[], user, cfg.accessLifetime, issued, jti, later);
    BlacklistedStaysListed(cfg, bl, t, now, later);
  }
}
