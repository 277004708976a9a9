/**
 The two request guards: `authUser` for shoppers and `adminAuth` for the
 admin panel. Token verification is a parameter: it either yields the
 token's claims or rejects the token with a message.
 */
module Auth {
  import opened Wrappers
  import Text

  /**
   The claims a token carries: `id` 0 when the payload has no (or a falsy)
   `id`; `email` `None` when it has none.
   */
  datatype Claims = Claims(id: int, email: Option<string>)

  /** What `jwt.verify` does with a token. */
  datatype Verification = Verified(claims: Claims) | Rejected(message: string)

  /**
   What a guard decides: call the next handler with what it attached to the
   request, answer with an error, or throw without answering.
   */
  datatype Gate = Proceed(attached: Claims) | Deny(status: int, message: string) | Unhandled

  const Bearer: string := "Bearer "

  predicate HasBearer(header: Option<string>)
  {
    header.Some? && Text.StartsWith(header.value, Bearer)
  }

  /** `header.split(" ")[1]`: what follows "Bearer " up to the next space. */
  function BearerToken(header: string): (token: string)
    requires Text.StartsWith(header, Bearer)
    ensures token == Text.Word(header[7..], ' ')
  {
    TokenIsSecondField(header);
    Text.Split(header, ' ')[1]
  }

  /**
   The header splits into "Bearer" followed by the fields of the rest, so the
   token is the rest up to its first space.
   */
  lemma TokenIsSecondField(header: string)
    requires Text.StartsWith(header, Bearer)
    ensures |Text.Split(header, ' ')| >= 2
    ensures Text.Split(header, ' ')[0] == "Bearer"
    ensures Text.Split(header, ' ')[1] == Text.Word(header[7..], ' ')
  {
    var rest := header[7..];
    assert header == "Bearer" + [' '] + rest;
    Text.SplitAfterWord("Bearer", ' ', rest);
    Text.SplitFirst(rest, ' ');
  }

  /** The token never contains a space and is what follows "Bearer " up to the next space. */
  lemma BearerTokenShape(header: string)
    requires Text.StartsWith(header, Bearer)
    ensures var t := BearerToken(header);
      ' ' !in t && header[..7 + |t|] == Bearer + t
      && (7 + |t| < |header| ==> header[7 + |t|] == ' ')
  {
    TokenIsSecondField(header);
    var t := BearerToken(header);
    assert header[..7] == Bearer;
    assert header[..7 + |t|] == header[..7] + header[7..][..|t|];
  }

  /** `authUser`. */
  function AuthUser(header: Option<string>, verify: string -> Verification): (g: Gate)
    ensures !HasBearer(header) ==> g == Deny(401, "Not Authorized Login Again")
    ensures g.Proceed? <==>
      HasBearer(header) && verify(BearerToken(header.value)).Verified?
      && verify(BearerToken(header.value)).claims.id != 0
    ensures g.Proceed? ==> g.attached == Claims(verify(BearerToken(header.value)).claims.id, None)
    ensures g.Deny? || g.Proceed?
    ensures g.Deny? ==> g.status == 401
    ensures HasBearer(header) && verify(BearerToken(header.value)).Rejected? ==>
      g == Deny(401, verify(BearerToken(header.value)).message)
  {
    if !HasBearer(header) then Deny(401, "Not Authorized Login Again")
    else
      match verify(BearerToken(header.value))
      case Rejected(message) => Deny(401, message)
      case Verified(claims) =>
        if claims.id == 0 then Deny(401, "Invalid token: No user ID")
        else Proceed(Claims(claims.id, None))
  }

  /**
   `adminAuth`. A token that fails verification throws out of the guard:
   there is no answer, not a 401. `adminEmail` is the configured ADMIN_EMAIL,
   `None` when unset.
   */
  function AdminAuth(header: Option<string>, verify: string -> Verification, adminEmail: Option<string>): (g: Gate)
    ensures !HasBearer(header) ==> g == Deny(401, "Not Authorized. Login Again")
    ensures g.Unhandled? <==> HasBearer(header) && verify(BearerToken(header.value)).Rejected?
    ensures g.Proceed? <==>
      HasBearer(header) && verify(BearerToken(header.value)).Verified?
      && verify(BearerToken(header.value)).claims.email == adminEmail
    ensures g.Proceed? ==> g.attached == verify(BearerToken(header.value)).claims
    ensures g.Deny? && HasBearer(header) ==> g == Deny(403, "Forbidden. Admin Access Only")
  {
    if !HasBearer(header) then Deny(401, "Not Authorized. Login Again")
    else
      match verify(BearerToken(header.value))
      case Rejected(_) => Unhandled
      case Verified(claims) =>
        if claims.email != adminEmail then Deny(403, "Forbidden. Admin Access Only")
        else Proceed(claims)
  }

  /**
   With ADMIN_EMAIL unset, any verified token without an email passes the
   admin guard, because `undefined !== undefined` is false.
   */
  lemma AdminAuthUnsetEmail(token: string, verify: string -> Verification, id: int)
    requires ' ' !in token
    requires verify(token) == Verified(Claims(id, None))
    ensures AdminAuth(Some(Bearer + token), verify, None) == Proceed(Claims(id, None))
  {
    BearerTokenOf(token);
  }

  /** A space-free token sent as "Bearer <token>" is the token the guards verify. */
  lemma BearerTokenOf(token: string)
    requires ' ' !in token
    ensures Text.StartsWith(Bearer + token, Bearer)
    ensures BearerToken(Bearer + token) == token
  {
    var header := Bearer + token;
    assert header[..7] == Bearer;
    assert header[7..] == token;
  }
}
