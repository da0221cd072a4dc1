/** The authentication middleware: the Bearer header check with token verification as a
    parameter, and the admin role check. */
module Auth {
  import opened Wrappers
  import opened Http
  import opened Js

  /** The decoded token payload kept on `req.user`. */
  datatype Claims = Claims(userId: int, role: string)

  const BearerPrefix: string := "Bearer "

  /** The token `authenticate` hands to verification: the header after its 7-character
      `Bearer ` prefix, or None when the header is missing or has another scheme. */
  function BearerToken(header: Option<string>): (token: Option<string>)
    ensures token.Some? <==> header.Some? && StartsWith(header.value, BearerPrefix)
    ensures token.Some? ==> header.value == BearerPrefix + token.value
  {
    if header.Some? && StartsWith(header.value, BearerPrefix) then Some(header.value[|BearerPrefix|..]) else None
  }

  /** Every token is recovered from the header that carries it. */
  lemma BearerTokenRoundTrip(token: string)
    ensures BearerToken(Some(BearerPrefix + token)) == Some(token)
  {
    assert (BearerPrefix + token)[..|BearerPrefix|] == BearerPrefix;
    assert (BearerPrefix + token)[|BearerPrefix|..] == token;
  }

  /** The parts of an Express request the middleware reads and writes. */
  class Request {
    /** `req.headers.authorization`. */
    const authorization: Option<string>
    /** `req.user`. */
    var user: Option<Claims>

    constructor (authorization: Option<string>)
      ensures this.authorization == authorization && user == None
    {
      this.authorization := authorization;
      user := None;
    }

    /** `authenticate`: check the header, verify the token, and on success attach the claims and
        call `next`. `verify` stands for `jwt.verify` with the server's secret; None is a throw. */
    method Authenticate(verify: string -> Option<Claims>) returns (v: Verdict)
      modifies this
      ensures BearerToken(authorization).None? ==> v == Reject(401, "Missing or invalid token")
      ensures BearerToken(authorization).Some? && verify(BearerToken(authorization).value).None? ==>
        v == Reject(401, "Invalid or expired token")
      ensures v == Next <==> BearerToken(authorization).Some? && verify(BearerToken(authorization).value).Some?
      ensures v == Next ==> user == verify(BearerToken(authorization).value)
      ensures v != Next ==> user == old(user)
    {
      var token := BearerToken(authorization);
      if token.None? {
        return Reject(401, "Missing or invalid token");
      }
      var decoded := verify(token.value);
      if decoded.None? {
        return Reject(401, "Invalid or expired token");
      }
      user := decoded;
      return Next;
    }
  }

  /** `requireAdmin`: only a request whose claims carry exactly the role "admin" passes. */
  function RequireAdmin(user: Option<Claims>): (v: Verdict)
    ensures v == Next <==> user.Some? && user.value.role == "admin"
    ensures v != Next ==> v == Reject(403, "Admin access required")
  {
    if user.None? || user.value.role != "admin" then Reject(403, "Admin access required") else Next
  }
}
