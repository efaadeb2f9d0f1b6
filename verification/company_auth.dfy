/** `protectCompany`: the middleware that resolves a company principal from a signed
    token before any company route runs. Token verification (`jwt.verify`) is an
    opaque oracle passed in as a function of the raw token. */
module CompanyAuth {
  import opened Base
  import opened Tables
  import opened Models

  datatype Headers = Headers(authorization: Option<string>, token: Option<string>)

  /** What `jwt.verify` does with a token: returns a payload whose `id` is read as a
      request id, or throws one of the three error kinds the middleware tells apart. */
  datatype VerifyOutcome = Decoded(id: IdArg) | JsonWebTokenError | TokenExpiredError | OtherError

  /** Either `next()` runs with `req.company` set, or the middleware answers itself. */
  datatype Decision = Next(company: CompanyProfile) | Halt(response: Response)

  /** `req.headers.authorization || req.headers.token`, used raw (no "Bearer " stripping). */
  function SelectToken(h: Headers): (t: Option<string>)
    ensures Truthy(h.authorization) ==> t == h.authorization
    ensures !Truthy(h.authorization) ==> t == h.token
    // a usable token is found exactly when either header carries one
    ensures Truthy(t) <==> Truthy(h.authorization) || Truthy(h.token)
  {
    if Truthy(h.authorization) then h.authorization else h.token
  }

  function ProtectCompany(h: Headers, verify: string -> VerifyOutcome, companies: Table<Company>): (d: Decision)
    // no token at all: 401 and `next` is not called
    ensures !Truthy(h.authorization) && !Truthy(h.token) ==>
              d == Halt(Fail(401, "Access denied. No token provided."))
    // `next` runs exactly when the raw token verifies to an id of an existing company,
    // and it receives that company minus its password
    ensures d.Next? <==>
              && Truthy(SelectToken(h))
              && verify(SelectToken(h).value).Decoded?
              && verify(SelectToken(h).value).id.Given?
              && HasId(companies, verify(SelectToken(h).value).id.id)
    ensures d.Next? ==> exists i :: 0 <= i < |companies| && d.company == ProfileOf(companies[i])
                                    && companies[i].id == verify(SelectToken(h).value).id.id
    // the halting answers, one per failure
    ensures Truthy(SelectToken(h)) ==>
              match verify(SelectToken(h).value)
              case JsonWebTokenError => d == Halt(Fail(401, "Invalid token"))
              case TokenExpiredError => d == Halt(Fail(401, "Token expired"))
              case OtherError => d == Halt(Fail(500, "Server error in authentication"))
              case Decoded(Missing) => d == Halt(Fail(401, "Invalid token format"))
              case Decoded(Malformed) => d == Halt(Fail(500, "Server error in authentication"))
              case Decoded(Given(id)) => !HasId(companies, id) ==> d == Halt(Fail(404, "Company not found"))
  {
    var token := SelectToken(h);
    if !Truthy(token) then Halt(Fail(401, "Access denied. No token provided."))
    else match verify(token.value)
      case JsonWebTokenError => Halt(Fail(401, "Invalid token"))
      case TokenExpiredError => Halt(Fail(401, "Token expired"))
      case OtherError => Halt(Fail(500, "Server error in authentication"))
      case Decoded(Missing) => Halt(Fail(401, "Invalid token format"))
      // `Company.findById` throws a CastError, which is neither JWT error kind
      case Decoded(Malformed) => Halt(Fail(500, "Server error in authentication"))
      case Decoded(Given(id)) =>
        match FindId(companies, id)
        case None => Halt(Fail(404, "Company not found"))
        case Some(i) => Next(ProfileOf(companies[i]))
  }

  /** A token that arrives only in the `token` header is used when `authorization` is
      absent or empty, whatever the verification oracle. */
  lemma TokenHeaderFallback(h: Headers, verify: string -> VerifyOutcome, companies: Table<Company>)
    requires !Truthy(h.authorization) && Truthy(h.token)
    ensures ProtectCompany(h, verify, companies) == ProtectCompany(Headers(None, h.token), verify, companies)
  {
  }
}
