/** The `Authorization: Bearer <token>` header both the authentication
    filter and the logout/refresh endpoints read. */
module BearerHeader {

  import opened Wrappers
  import opened JavaText

  const Prefix: string := "Bearer "

  /** The token carried by the header: the text after "Bearer ", when the
      header is present and starts with that prefix (case-sensitive). */
  function BearerToken(header: Option<string>): (r: Option<string>)
    ensures r.Some? <==> header.Some? && StartsWith(header.value, Prefix)
    ensures r.Some? ==> header.value == Prefix + r.value
  {
    if header.Some? && StartsWith(header.value, Prefix) then
      var token := header.value[|Prefix|..];
      assert header.value == header.value[..|Prefix|] + token;
      Some(token)
    else None
  }

  /** Every token sent as `Bearer <token>` is read back unchanged, whatever
      its text; a header without the exact prefix carries no token. */
  lemma BearerRoundTrip(token: string)
    ensures BearerToken(Some(Prefix + token)) == Some(token)
  {
    assert (Prefix + token)[..|Prefix|] == Prefix;
  }

  lemma LowercaseSchemeCarriesNoToken(token: string)
    ensures BearerToken(Some("bearer " + token)).None?
  {
    assert ("bearer " + token)[0] == 'b';
  }
}
