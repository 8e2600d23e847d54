/** The bearer-token gate: token extraction from the `Authorization`
    header, the mandatory and optional middlewares, and token issuing.
    Signing and verification belong to the JSON Web Token library and are
    modelled as an oracle whose expected behaviour is stated by `JwtSound`. */
module Auth {
  import opened Results
  import opened JsStrings

  /** The `expiresIn: '7d'` lifetime, in seconds. */
  const TokenLifetime: nat := 7 * 24 * 60 * 60

  const DefaultSecret: string := "your-secret-key-change-in-production"

  const MsgTokenRequired: string := "Access token required"
  const MsgTokenInvalid: string := "Invalid or expired token"

  /** `process.env.JWT_SECRET || default`: an unset or empty variable falls back. */
  function JwtSecret(configured: Option<string>): (secret: string)
    ensures secret != ""
    ensures Truthy(configured) ==> secret == configured.value
    ensures !Truthy(configured) ==> secret == DefaultSecret
  {
    if Truthy(configured) then configured.value else DefaultSecret
  }

  /** The decoded token as attached to the request: the signed
      `{userId, email}` plus the library's issued-at and expiry times. */
  datatype Claims = Claims(userId: string, email: string, iat: nat, exp: nat)

  /** The token library: `sign(userId, email, secret, issuedAt, lifetime)`
      and `verify(token, secret, now)`. Clock readings are parameters. */
  datatype Jwt = Jwt(
    sign: (string, string, string, nat, nat) -> string,
    verify: (string, string, nat) -> Option<Claims>)

  /** A compact token is non-empty and never contains a space. */
  predicate TokenShaped(t: string) {
    t != "" && ' ' !in t
  }

  /** What the model assumes of the library: signed tokens are compact, and
      a token signed with a secret verifies under that secret to exactly
      the signed claims until its expiry time, and not at or after it. */
  ghost predicate JwtSound(jwt: Jwt) {
    && (forall u: string, e: string, s: string, iat: nat, life: nat :: TokenShaped(jwt.sign(u, e, s, iat, life)))
    && (forall u: string, e: string, s: string, iat: nat, now: nat ::
          jwt.verify(jwt.sign(u, e, s, iat, TokenLifetime), s, now)
            == if now < iat + TokenLifetime then Some(Claims(u, e, iat, iat + TokenLifetime)) else None)
  }

  /** `generateToken(userId, email)`: sign `{userId, email}` for seven days. */
  function GenerateToken(jwt: Jwt, secret: string, userId: string, email: string, now: nat): string {
    jwt.sign(userId, email, secret, now, TokenLifetime)
  }

  /** A generated token verifies to its `{userId, email}` payload for seven
      days after issue, and is refused from then on. */
  lemma GeneratedTokenVerifies(jwt: Jwt, secret: string, userId: string, email: string, issued: nat, now: nat)
    requires JwtSound(jwt)
    ensures TokenShaped(GenerateToken(jwt, secret, userId, email, issued))
    ensures now < issued + TokenLifetime ==>
              jwt.verify(GenerateToken(jwt, secret, userId, email, issued), secret, now)
                == Some(Claims(userId, email, issued, issued + TokenLifetime))
    ensures now >= issued + TokenLifetime ==>
              jwt.verify(GenerateToken(jwt, secret, userId, email, issued), secret, now).None?
  {
  }

  // ------------------------------------------------------- extraction

  /** `authHeader && authHeader.split(' ')[1]`, read for truthiness: the
      second space-separated field, absent when the header is missing or
      empty, has no space, or that field is empty. The scheme word is not
      looked at. */
  function ExtractToken(header: Option<string>): (t: Option<string>)
    ensures t.Some? ==> Truthy(header) && TokenShaped(t.value)
  {
    if !Truthy(header) then None
    else
      var fields := Split(header.value, ' ');
      if |fields| < 2 || fields[1] == "" then None else Some(fields[1])
  }

  /** Any space-free scheme word followed by one space and a compact token
      yields that token; "Bearer" is not required. */
  lemma ExtractAfterScheme(scheme: string, token: string)
    requires ' ' !in scheme
    requires TokenShaped(token)
    ensures ExtractToken(Some(scheme + " " + token)) == Some(token)
  {
    SplitAfterWord(scheme, ' ', token);
    SplitNoSeparator(token, ' ');
  }

  /** A token present means: a space occurs, and the text after the first
      space begins with the token, which ends at the next space or at the end. */
  lemma ExtractedTokenPosition(h: string)
    ensures ExtractToken(Some(h)).Some? ==>
      exists i :: 0 <= i < |h| && h[i] == ' ' && ' ' !in h[..i]
        && var t := ExtractToken(Some(h)).value;
           t != "" && ' ' !in t && i + 1 + |t| <= |h| && h[i + 1..i + 1 + |t|] == t
           && (i + 1 + |t| == |h| || h[i + 1 + |t|] == ' ')
  {
    if ExtractToken(Some(h)).Some? {
      var fields := Split(h, ' ');
      var i := |fields[0]|;
      JoinShape(fields, ' ');
      assert h == fields[0] + [' '] + Join(fields[1..], ' ');
      var rest := Join(fields[1..], ' ');
      assert h[i + 1..] == rest;
      JoinShape(fields[1..], ' ');
      assert fields[1..][0] == fields[1];
      assert h[..i] == fields[0];
    }
  }

  /** No header, an empty header, or a header without a space carries no token. */
  lemma NoSpaceNoToken(header: Option<string>)
    requires header.Some? ==> ' ' !in header.value
    ensures ExtractToken(header).None?
  {
    if Truthy(header) {
      SplitNoSeparator(header.value, ' ');
    }
  }

  /** "Bearer " with nothing after it, or two spaces in a row, carries no token. */
  lemma EmptySecondFieldNoToken(scheme: string, rest: string)
    requires ' ' !in scheme
    requires |rest| == 0 || rest[0] == ' '
    ensures ExtractToken(Some(scheme + " " + rest)).None?
  {
    SplitAfterWord(scheme, ' ', rest);
    if |rest| > 0 {
      assert rest == [' '] + rest[1..];
      SplitAfterWord("", ' ', rest[1..]);
      assert "" + [' '] + rest[1..] == rest;
    }
  }

  // ------------------------------------------------------- middlewares

  /** The JSON error envelope `{success: false, message}` with its status. */
  datatype Response = Response(status: nat, success: bool, message: string)

  /** What a middleware did to the request: the response it sent (if any),
      the identity it attached as `req.user` (if any), and how many times
      it called `next`. */
  datatype GateResult = GateResult(response: Option<Response>, user: Option<Claims>, nextCalls: nat)

  /** `authenticateToken`: 401 without a token, 403 when the token does not
      verify, otherwise attach the decoded claims and continue. */
  function AuthenticateToken(jwt: Jwt, secret: string, header: Option<string>, now: nat): (g: GateResult)
    ensures g.nextCalls <= 1
    ensures g.nextCalls == 1 <==> g.response.None?
    ensures g.nextCalls == 1 <==> g.user.Some?
    ensures g.response.Some? ==> !g.response.value.success
    ensures ExtractToken(header).None? ==>
              g.response == Some(Response(401, false, MsgTokenRequired))
    ensures ExtractToken(header).Some? ==>
              match jwt.verify(ExtractToken(header).value, secret, now)
              case None => g.response == Some(Response(403, false, MsgTokenInvalid))
              case Some(c) => g.user == Some(c)
  {
    match ExtractToken(header)
    case None => GateResult(Some(Response(401, false, MsgTokenRequired)), None, 0)
    case Some(token) =>
      match jwt.verify(token, secret, now)
      case None => GateResult(Some(Response(403, false, MsgTokenInvalid)), None, 0)
      case Some(c) => GateResult(None, Some(c), 1)
  }

  /** `optionalAuth`: never responds, always continues exactly once, and
      attaches an identity only for a present token that verifies. */
  function OptionalAuth(jwt: Jwt, secret: string, header: Option<string>, now: nat): (g: GateResult)
    ensures g.response.None? && g.nextCalls == 1
    ensures g.user.Some? <==>
              ExtractToken(header).Some? && jwt.verify(ExtractToken(header).value, secret, now).Some?
    ensures g.user.Some? ==> g.user == jwt.verify(ExtractToken(header).value, secret, now)
  {
    match ExtractToken(header)
    case None => GateResult(None, None, 1)
    case Some(token) => GateResult(None, jwt.verify(token, secret, now), 1)
  }

  /** The optional gate attaches exactly the identity the mandatory gate
      would, and differs from it only by letting rejected requests through. */
  lemma OptionalAgreesWithMandatory(jwt: Jwt, secret: string, header: Option<string>, now: nat)
    ensures OptionalAuth(jwt, secret, header, now).user == AuthenticateToken(jwt, secret, header, now).user
    ensures AuthenticateToken(jwt, secret, header, now).nextCalls == 1 ==>
              OptionalAuth(jwt, secret, header, now) == AuthenticateToken(jwt, secret, header, now)
  {
  }

  /** A token issued by `GenerateToken` and sent as "<scheme> <token>"
      passes the mandatory gate with its `{userId, email}` for seven days,
      and is answered with 403, not 401, afterwards. */
  lemma IssuedTokenPassesGate(jwt: Jwt, secret: string, scheme: string, userId: string, email: string, issued: nat, now: nat)
    requires JwtSound(jwt)
    requires ' ' !in scheme
    ensures var g := AuthenticateToken(jwt, secret, Some(scheme + " " + GenerateToken(jwt, secret, userId, email, issued)), now);
            if now < issued + TokenLifetime then
              g.nextCalls == 1 && g.user == Some(Claims(userId, email, issued, issued + TokenLifetime))
            else
              g.nextCalls == 0 && g.response == Some(Response(403, false, MsgTokenInvalid))
  {
    var t := GenerateToken(jwt, secret, userId, email, issued);
    GeneratedTokenVerifies(jwt, secret, userId, email, issued, now);
    ExtractAfterScheme(scheme, t);
  }
}
