/**
 * The authorization gate put in front of handlers (`jwt_required`) and the
 * token check it uses (`decode_token`).
 *
 * Checking a token's signature is the JWT library's job; its outcome is an
 * input here: the claims the token decodes to, or `None` when the token is
 * forged or malformed.
 */
module Auth {
  import opened Common

  /** The decoded claims of a token: the caller's id, the admin flag (as truthiness) and the expiry, in seconds. */
  datatype Claims = Claims(id: Option<int>, isAdmin: bool, exp: int)

  /** Why `decode_token` raised. */
  datatype TokenError = InvalidToken | TokenExpired

  /** Why the gate refused a request. */
  datatype GateError =
    | LoginRequired
    | OwnerOrAdminRequired
    | AdminRequired
    | BadToken(reason: TokenError)

  /** `jwt_required(admin=..., owner=...)`: the two flags are fixed when the gate is built. */
  datatype Gate = Gate(admin: bool, owner: bool)

  /**
   * What the gate reads from a request: the `Authorization` header (absent
   * or not), what the signature check decodes it to, and the current time
   * in whole seconds.
   */
  datatype Request = Request(header: Option<string>, decoded: Option<Claims>, now: int)

  /** The wrapped handler's own result, or the gate's refusal with its HTTP status. */
  datatype Guarded<R> = Allowed(result: R) | Denied(status: int, error: GateError)

  /**
   * `decode_token`: a token whose signature does not check is refused;
   * otherwise it is refused exactly when its expiry lies before now, so a
   * token that expires this very second is still accepted.
   */
  function DecodeToken(decoded: Option<Claims>, now: int): (r: Result<Claims, TokenError>)
    ensures r == Err(TokenExpired) <==> decoded.Some? && decoded.value.exp < now
    ensures r == Err(InvalidToken) <==> decoded.None?
    ensures r.Ok? <==> decoded.Some? && now <= decoded.value.exp
    ensures r.Ok? ==> r.value == decoded.value
  {
    match decoded
    case None => Err(InvalidToken)
    case Some(c) => if c.exp < now then Err(TokenExpired) else Ok(c)
  }

  /** A header counts as a token when it is present and not empty. */
  predicate HasToken(header: Option<string>) {
    header.Some? && header.value != ""
  }

  /**
   * The decorated handler: `handler(args)` is what the undecorated
   * endpoint would return. `pathId` is the `id_` argument of the route, if
   * it has one.
   */
  function Guard<A, R>(gate: Gate, req: Request, pathId: Option<int>, args: A, handler: A -> R): (r: Guarded<R>)
    ensures r.Denied? ==> r.status == 400
    ensures !HasToken(req.header) ==> r == Denied(400, LoginRequired)
    ensures r.Allowed? ==> r.result == handler(args)
    // Neither flag set: the token is never decoded, any non-empty header passes.
    ensures !gate.owner && !gate.admin ==> (r.Allowed? <==> HasToken(req.header))
    // The flags add up: owner AND admin, not owner OR admin.
    ensures r.Allowed? <==>
      && HasToken(req.header)
      && ((gate.owner || gate.admin) ==> DecodeToken(req.decoded, req.now).Ok?)
      && (gate.owner ==> req.decoded.value.id == pathId)
      && (gate.admin ==> req.decoded.value.isAdmin)
    ensures HasToken(req.header) && (gate.owner || gate.admin) && DecodeToken(req.decoded, req.now).Err? ==>
      r == Denied(400, BadToken(DecodeToken(req.decoded, req.now).error))
    ensures HasToken(req.header) && gate.owner && DecodeToken(req.decoded, req.now).Ok? && req.decoded.value.id != pathId ==>
      r == Denied(400, OwnerOrAdminRequired)
    ensures (&& HasToken(req.header) && gate.admin && DecodeToken(req.decoded, req.now).Ok?
             && (gate.owner ==> req.decoded.value.id == pathId) && !req.decoded.value.isAdmin) ==>
      r == Denied(400, AdminRequired)
  {
    if !HasToken(req.header) then
      Denied(400, LoginRequired)
    else if gate.owner && DecodeToken(req.decoded, req.now).Err? then
      Denied(400, BadToken(DecodeToken(req.decoded, req.now).error))
    else if gate.owner && DecodeToken(req.decoded, req.now).value.id != pathId then
      Denied(400, OwnerOrAdminRequired)
    else if gate.admin && DecodeToken(req.decoded, req.now).Err? then
      Denied(400, BadToken(DecodeToken(req.decoded, req.now).error))
    else if gate.admin && !DecodeToken(req.decoded, req.now).value.isAdmin then
      Denied(400, AdminRequired)
    else
      Allowed(handler(args))
  }

  /** A refused request never reaches the handler: which handler is wrapped makes no difference. */
  lemma DeniedIgnoresHandler<A, R>(gate: Gate, req: Request, pathId: Option<int>, args: A, h1: A -> R, h2: A -> R)
    ensures Guard(gate, req, pathId, args, h1).Denied? ==>
      Guard(gate, req, pathId, args, h1) == Guard(gate, req, pathId, args, h2)
  {
  }

  /** An expired token is refused by any gate that decodes it, whatever its other claims say. */
  lemma ExpiredTokenRefused<A, R>(gate: Gate, req: Request, pathId: Option<int>, args: A, handler: A -> R)
    requires HasToken(req.header) && (gate.owner || gate.admin)
    requires req.decoded.Some? && req.decoded.value.exp < req.now
    ensures Guard(gate, req, pathId, args, handler) == Denied(400, BadToken(TokenExpired))
  {
  }

  /** With both flags, the owner of the resource is still refused unless also an admin. */
  lemma OwnerWithoutAdminRefused<A, R>(req: Request, pathId: Option<int>, args: A, handler: A -> R)
    requires HasToken(req.header) && DecodeToken(req.decoded, req.now).Ok?
    requires req.decoded.value.id == pathId && !req.decoded.value.isAdmin
    ensures Guard(Gate(true, true), req, pathId, args, handler) == Denied(400, AdminRequired)
  {
  }

  /** With both flags, an admin is still refused on a resource that is not theirs. */
  lemma AdminNotOwnerRefused<A, R>(req: Request, pathId: Option<int>, args: A, handler: A -> R)
    requires HasToken(req.header) && DecodeToken(req.decoded, req.now).Ok?
    requires req.decoded.value.id != pathId && req.decoded.value.isAdmin
    ensures Guard(Gate(true, true), req, pathId, args, handler) == Denied(400, OwnerOrAdminRequired)
  {
  }
}
