/**
 * The two request gates of the HTTP middleware: how the `Authorization` header is
 * taken apart before the token goes to verification, and the role check.
 */
module Middleware {
  import opened Wrappers
  import opened Strings

  /** Why a request is turned away with 401 Unauthorized by the header parse. */
  datatype AuthError = HeaderRequired | WrongFormat

  function AuthMessage(e: AuthError): string {
    match e
    case HeaderRequired => "authorization header is required"
    case WrongFormat => "authorization header must be in the format 'Bearer <token>'"
  }

  /**
   * The header parse of `JWTMiddleware`: an empty header is refused, otherwise the
   * header is split on single spaces and must give exactly `"Bearer"` and the token.
   * The result is the token handed to the (foreign) verifier.
   */
  function ParseAuthorization(header: string): (r: Result<string, AuthError>)
    ensures header == "" ==> r == Err(HeaderRequired)
    ensures r.Ok? ==> header == "Bearer " + r.value
  {
    if header == "" then Err(HeaderRequired)
    else
      var parts := Split(header, ' ');
      if |parts| != 2 || parts[0] != "Bearer" then Err(WrongFormat)
      else
        SplitJoinRoundTrip(header, ' ');
        Ok(parts[1])
  }

  /** The header passes the parse exactly when it is `"Bearer "` followed by a token without spaces. */
  lemma ParseAuthorizationAccepts(header: string, token: string)
    ensures ParseAuthorization(header) == Ok(token) <==> header == "Bearer " + token && ' ' !in token
  {
    if ParseAuthorization(header) == Ok(token) {
      SplitPiecesHaveNoSeparator(header, ' ');
      assert Split(header, ' ')[1] == token;
    }
    if header == "Bearer " + token && ' ' !in token {
      assert header == "Bearer" + [' '] + token;
      SplitAtFirstSeparator("Bearer", ' ', token);
      SplitWithoutSeparator(token, ' ');
    }
  }

  /** Every header that is not empty and not of that form is refused as badly formatted. */
  lemma ParseAuthorizationRejects(header: string)
    requires header != ""
    requires |header| < 7 || header[..7] != "Bearer " || ' ' in header[7..]
    ensures ParseAuthorization(header) == Err(WrongFormat)
  {
    if ParseAuthorization(header).Ok? {
      var token := ParseAuthorization(header).value;
      ParseAuthorizationAccepts(header, token);
      assert false;
    }
  }

  /** `"Bearer "` passes the parse with the empty token. */
  lemma ParseAuthorizationEmptyToken()
    ensures ParseAuthorization("Bearer ") == Ok("")
  {
    ParseAuthorizationAccepts("Bearer ", "");
  }

  /** A missing token, the wrong case, an extra part and a doubled space are all refused. */
  lemma ParseAuthorizationRefusedExamples()
    ensures ParseAuthorization("Bearer") == Err(WrongFormat)
    ensures ParseAuthorization("bearer x") == Err(WrongFormat)
    ensures ParseAuthorization("Bearer a b") == Err(WrongFormat)
    ensures ParseAuthorization("Bearer  x") == Err(WrongFormat)
  {
    ParseAuthorizationRejects("Bearer");
    assert "bearer x"[0] == 'b';
    ParseAuthorizationRejects("bearer x");
    assert "Bearer a b"[7..][1] == ' ';
    ParseAuthorizationRejects("Bearer a b");
    assert "Bearer  x"[7..][0] == ' ';
    ParseAuthorizationRejects("Bearer  x");
  }

  /** What `c.Get("role")` finds in the request context: nothing, a string, or a value of another type. */
  datatype ContextValue = StringValue(s: string) | OtherValue

  /** The text of every refusal of the header parse: the empty header has its own message. */
  lemma ParseAuthorizationMessages(header: string)
    ensures ParseAuthorization(header).Err? ==>
      AuthMessage(ParseAuthorization(header).error)
        == if header == "" then "authorization header is required"
           else "authorization header must be in the format 'Bearer <token>'"
  {
  }

  /** Distinct refusals carry distinct texts. */
  lemma AuthMessagesDistinct(e1: AuthError, e2: AuthError)
    requires AuthMessage(e1) == AuthMessage(e2)
    ensures e1 == e2
  {
  }

  /** Why `RoleMiddleware` answers 403 Forbidden. */
  datatype RoleError = RoleNotFound | RoleTypeInvalid | NoPermission

  function RoleMessage(e: RoleError): string {
    match e
    case RoleNotFound => "role not found in context"
    case RoleTypeInvalid => "role type is invalid in context"
    case NoPermission => "you do not have permission to access this resource"
  }

  /** The linear search of `RoleMiddleware` over the roles it was configured with. */
  function HasRole(roles: seq<string>, role: string): (found: bool)
    ensures found <==> exists i :: 0 <= i < |roles| && roles[i] == role
    decreases |roles|
  {
    if |roles| == 0 then false
    else if roles[0] == role then true
    else HasRole(roles[1..], role)
  }

  /**
   * `RoleMiddleware(roles...)`: a missing role and a role that is not a string are
   * refused before any comparison; otherwise the request continues iff the role is listed.
   */
  function CheckRole(role: Option<ContextValue>, roles: seq<string>): (r: Result<string, RoleError>)
    ensures role.None? ==> r == Err(RoleNotFound)
    ensures role == Some(OtherValue) ==> r == Err(RoleTypeInvalid)
    ensures r.Ok? <==> role.Some? && role.value.StringValue? && role.value.s in roles
    ensures r.Ok? ==> r.value == role.value.s
    ensures role.Some? && role.value.StringValue? && role.value.s !in roles ==> r == Err(NoPermission)
  {
    match role
    case None => Err(RoleNotFound)
    case Some(OtherValue) => Err(RoleTypeInvalid)
    case Some(StringValue(s)) => if HasRole(roles, s) then Ok(s) else Err(NoPermission)
  }

  /** With no roles configured, every request is forbidden. */
  lemma EmptyRoleListForbids(role: Option<ContextValue>)
    ensures CheckRole(role, []).Err?
  {
  }

  /** The text of every refusal of the role gate, in the order the checks are made. */
  lemma CheckRoleMessages(role: Option<ContextValue>, roles: seq<string>)
    ensures CheckRole(role, roles).Err? ==>
      RoleMessage(CheckRole(role, roles).error)
        == if role.None? then "role not found in context"
           else if role.value.OtherValue? then "role type is invalid in context"
           else "you do not have permission to access this resource"
  {
  }
}
