/** The `login_required` decorator of `decorators.py`: it reads the Authorization header,
    removes one leading "Bearer ", asks the token service for the user, and either answers 401
    or records the user as the request's current user before the wrapped route runs. */
module Decorators {
  import opened Types

  const BearerPrefix := "Bearer "
  const TokenRequired := Response(UNAUTHORIZED, "Authorization token required")
  const TokenInvalid := Response(UNAUTHORIZED, "Invalid or expired token")

  predicate StartsWith(s: string, prefix: string) {
    |prefix| <= |s| && s[..|prefix|] == prefix
  }

  /** `token[7:]` when the header starts with "Bearer ", the header itself otherwise. */
  function StripBearer(header: string): (token: string)
    ensures StartsWith(header, BearerPrefix) ==> header == BearerPrefix + token
    ensures !StartsWith(header, BearerPrefix) ==> token == header
  {
    if StartsWith(header, BearerPrefix) then header[|BearerPrefix|..] else header
  }

  /** Only one prefix is removed: a token that itself starts with "Bearer " keeps it. */
  lemma StripBearerOnce(token: string)
    ensures StripBearer(BearerPrefix + token) == token
  {
    assert (BearerPrefix + token)[..|BearerPrefix|] == BearerPrefix;
  }

  /** The decorator's decision. */
  datatype Gate = Rejected(response: Response) | Authenticated(user: UserId)

  function Authenticate(header: Option<string>, verify: string -> Option<UserId>): (g: Gate)
    ensures g.Rejected? ==> g.response.status == UNAUTHORIZED
    ensures g.Authenticated? ==> Truthy(header) && verify(StripBearer(header.value)) == Some(g.user)
  {
    if !Truthy(header) then Rejected(TokenRequired)
    else
      match verify(StripBearer(header.value))
      case None => Rejected(TokenInvalid)
      case Some(u) => Authenticated(u)
  }

  /** An absent or empty header is refused before the token service is consulted: the answer
      does not depend on `verify` at all. */
  lemma MissingHeaderRejected(header: Option<string>, verify: string -> Option<UserId>,
                              other: string -> Option<UserId>)
    requires !Truthy(header)
    ensures Authenticate(header, verify) == Authenticate(header, other) == Rejected(TokenRequired)
  {
  }

  /** "Bearer <t>" is verified as <t>, and any other non-empty header is verified as it is. */
  lemma TokenPassedToVerify(header: string, verify: string -> Option<UserId>)
    requires header != ""
    ensures var token := if StartsWith(header, BearerPrefix) then header[7..] else header;
            Authenticate(Some(header), verify) ==
              if verify(token).Some? then Authenticated(verify(token).value) else Rejected(TokenInvalid)
  {
  }

  lemma BearerTokenAuthenticates(token: string, verify: string -> Option<UserId>)
    ensures Authenticate(Some(BearerPrefix + token), verify) ==
              if verify(token).Some? then Authenticated(verify(token).value) else Rejected(TokenInvalid)
  {
    StripBearerOnce(token);
  }

  /** Flask's request-scoped `g`, of which the decorator writes `current_user`. */
  class RequestContext {
    var currentUser: Option<UserId>

    constructor ()
      ensures currentUser == None
    {
      currentUser := None;
    }

    /** Runs the decorator's checks. `None` means the wrapped route may run, with the verified
        user as current user; otherwise the 401 response to return, and nothing is recorded. */
    method LoginRequired(header: Option<string>, verify: string -> Option<UserId>)
      returns (rejection: Option<Response>)
      modifies this
      ensures Authenticate(header, verify).Rejected? ==>
                rejection == Some(Authenticate(header, verify).response) && currentUser == old(currentUser)
      ensures Authenticate(header, verify).Authenticated? ==>
                rejection == None && currentUser == Some(Authenticate(header, verify).user)
    {
      if header.None? || header.value == "" {
        return Some(TokenRequired);
      }
      var token := header.value;
      if StartsWith(token, BearerPrefix) {
        token := token[7..];
      }
      var user := verify(token);
      if user.None? {
        return Some(TokenInvalid);
      }
      currentUser := user;
      return None;
    }
  }
}
