/** The request filter that reads a bearer token from the `Authorization`
    header and, when the token checks out, puts the authenticated user into
    the security context. Checking the token (signature, expiry, claims) is
    done by the token utility, which is a parameter here: each of its two
    reads yields `None` where it would throw. */
module JwtAuthFilter {
  import opened Wrappers
  import opened Text

  const BearerPrefix: string := "Bearer "

  /** The principal put into the security context. */
  datatype AuthenticatedUser = AuthenticatedUser(userId: int, username: string)

  /** Spring's `StringUtils.hasText`: present, and holding at least one
      character that is not white space. */
  predicate HasText(s: Option<string>) {
    s.Some? && exists i :: 0 <= i < |s.value| && !IsJavaWhitespace(s.value[i])
  }

  /** `extractTokenFromHeader`: the text after "Bearer " when the header has
      text and starts with that exact prefix (case-sensitive, one space).
      The text test never decides anything on its own: a header with the
      prefix always has text. */
  function ExtractToken(header: Option<string>): (token: Option<string>)
    ensures !HasText(header) ==> token.None?
    ensures token.Some? <==> header.Some? && StartsWith(header.value, BearerPrefix)
    ensures token.Some? ==> BearerPrefix + token.value == header.value
  {
    if header.Some? && StartsWith(header.value, BearerPrefix) then
      assert !IsJavaWhitespace(header.value[0]);
      if HasText(header) then Some(header.value[|BearerPrefix|..]) else None
    else
      None
  }

  /** Any token sent behind the prefix is the token read back. */
  lemma TokenRoundTrip(token: string)
    ensures ExtractToken(Some(BearerPrefix + token)) == Some(token)
  {
    var header := BearerPrefix + token;
    assert StartsWith(header, BearerPrefix);
    assert header[|BearerPrefix|..] == token;
  }

  /** The prefix alone gives the empty token, not an absent one. */
  lemma PrefixAloneGivesEmptyToken()
    ensures ExtractToken(Some(BearerPrefix)) == Some("")
  {
    TokenRoundTrip("");
    assert BearerPrefix + "" == BearerPrefix;
  }

  /** The scheme is matched case-sensitively and needs its space. */
  lemma SchemeIsExact(token: string)
    ensures ExtractToken(Some("bearer " + token)) == None
    ensures ExtractToken(Some("Bearer")) == None
  {
    var lower := "bearer " + token;
    assert lower[0] != BearerPrefix[0];
  }

  /** The user the token utility reads from the header's token, or `None`
      when there is no token or either read throws. */
  function Authentication(header: Option<string>, userIdOf: string -> Option<int>, usernameOf: string -> Option<string>)
    : (auth: Option<AuthenticatedUser>)
    ensures auth.Some? ==> ExtractToken(header).Some?
    ensures auth.Some? <==>
      ExtractToken(header).Some? && userIdOf(ExtractToken(header).value).Some?
      && usernameOf(ExtractToken(header).value).Some?
  {
    var token := ExtractToken(header);
    if token.None? then None
    else
      var userId := userIdOf(token.value);
      var username := usernameOf(token.value);
      if userId.Some? && username.Some? then Some(AuthenticatedUser(userId.value, username.value)) else None
  }

  /** A header carrying a token that the utility accepts authenticates the
      user the utility reads from that token. */
  lemma BearerHeaderAuthenticates(token: string, userIdOf: string -> Option<int>, usernameOf: string -> Option<string>)
    requires userIdOf(token).Some? && usernameOf(token).Some?
    ensures Authentication(Some(BearerPrefix + token), userIdOf, usernameOf)
      == Some(AuthenticatedUser(userIdOf(token).value, usernameOf(token).value))
  {
    TokenRoundTrip(token);
  }

  /** What one request's pass through the filter changes: the security
      context's authentication, and how often the rest of the chain ran. */
  class RequestContext {
    var authentication: Option<AuthenticatedUser>
    var chainCalls: nat

    /** A request arrives with an empty context and the chain not yet run. */
    constructor()
      ensures authentication == None && chainCalls == 0
    {
      authentication := None;
      chainCalls := 0;
    }

    /** `doFilterInternal`: set the authentication when the header's token
        checks out, leave the context alone otherwise (a failed check is only
        logged), and in every case run the rest of the chain exactly once. */
    method DoFilterInternal(header: Option<string>, userIdOf: string -> Option<int>, usernameOf: string -> Option<string>)
      modifies this
      ensures chainCalls == old(chainCalls) + 1
      ensures Authentication(header, userIdOf, usernameOf).Some? ==>
        authentication == Authentication(header, userIdOf, usernameOf)
      ensures Authentication(header, userIdOf, usernameOf).None? ==> authentication == old(authentication)
    {
      var token := ExtractToken(header);
      if token.Some? {
        var userId := userIdOf(token.value);
        var username := usernameOf(token.value);
        if userId.Some? && username.Some? {
          authentication := Some(AuthenticatedUser(userId.value, username.value));
        }
      }
      chainCalls := chainCalls + 1;
    }
  }

  /** On a fresh request the filter authenticates exactly when the header
      carries a token the utility accepts, and the chain runs once. */
  method FilterFreshRequest(header: Option<string>, userIdOf: string -> Option<int>, usernameOf: string -> Option<string>)
    returns (authenticated: bool, chainCalls: nat)
    ensures authenticated <==> Authentication(header, userIdOf, usernameOf).Some?
    ensures chainCalls == 1
  {
    var context := new RequestContext();
    context.DoFilterInternal(header, userIdOf, usernameOf);
    authenticated := context.authentication.Some?;
    chainCalls := context.chainCalls;
  }
}
