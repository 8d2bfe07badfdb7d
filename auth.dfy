/** The access gate `authenticateToken` (server.js:180-203) and the `/login`
    handler (server.js:206-239). Signing and verifying tokens belong to the
    JWT library: they are parameters, `sign` from the claims to a token and
    `verify` from a token to the verdict the library's callback receives. */
module Auth {
  import opened Strings
  import opened Http

  /** The claims the login handler signs: `{ admin: true, timestamp }`. */
  datatype Payload = Payload(admin: bool, timestamp: nat)

  /** What is handed to the signer: the claims and `expiresIn: '24h'`. */
  datatype Claims = Claims(payload: Payload, expiresInSeconds: nat)

  const TokenLifetimeSeconds: nat := 24 * 60 * 60

  /** What `jwt.verify` passes to its callback: the decoded user, or an
      error with its message. */
  datatype Verification = Verified(user: Payload) | Rejected(error: string)

  const MissingTokenMessage := "Token de acesso necessário"
  const InvalidTokenMessage := "Token inválido"
  const InvalidDataMessage := "Dados inválidos"
  const LoginMessage := "Login realizado com sucesso"
  const WrongPasswordMessage := "Password incorreta"

  const DefaultAdminPassword := "admin123"

  /** ADMIN_PASSWORD, `process.env.ADMIN_PASSWORD || 'admin123'`
      (server.js:18): an unset or empty variable selects the default, so
      the password is never empty. */
  function AdminPassword(env: Option<string>): (p: string)
    ensures p != []
    ensures env.Some? && env.value != [] ==> p == env.value
    ensures env.None? || env.value == [] ==> p == DefaultAdminPassword
  {
    match env
    case Some(v) => if v != [] then v else DefaultAdminPassword
    case None => DefaultAdminPassword
  }

  /** `authHeader && authHeader.split(' ')[1]`, where a missing, empty or
      absent second field is no token. */
  function BearerToken(header: Option<string>): (t: Option<string>)
    ensures t.Some? ==> t.value != [] && ' ' !in t.value
  {
    match header
    case None => None
    case Some(h) =>
      var fields := Split(h, ' ');
      if |fields| >= 2 && fields[1] != [] then Some(fields[1]) else None
  }

  /** The token is the second space-separated field, whatever the first
      field and any later ones are. */
  lemma BearerTokenIsSecondField(fields: seq<string>)
    requires |fields| >= 2 && fields[1] != []
    requires forall i :: 0 <= i < |fields| ==> ' ' !in fields[i]
    ensures BearerToken(Some(Join(fields, ' '))) == Some(fields[1])
  {
    SplitJoin(fields, ' ');
  }

  /** `scheme + " " + token` yields the token back, for any scheme. */
  lemma BearerRoundTrip(scheme: string, token: string)
    requires ' ' !in scheme && ' ' !in token && token != []
    ensures BearerToken(Some(scheme + " " + token)) == Some(token)
  {
    var fields := [scheme, token];
    assert Join(fields, ' ') == scheme + " " + token by {
      assert Join(fields[1..], ' ') == token;
    }
    BearerTokenIsSecondField(fields);
  }

  /** A header without a space (a bare token, no scheme) carries no token. */
  lemma BareTokenRefused(h: string)
    requires ' ' !in h
    ensures BearerToken(Some(h)) == None
  {
    SplitJoin([h], ' ');
  }

  datatype GateOutcome = Denied(reply: Reply, event: SecurityEvent) | Granted(user: Payload)

  /** The decision `authenticateToken` takes for a request to `endpoint`. */
  function Gate(header: Option<string>, endpoint: string, verify: string -> Verification): (o: GateOutcome)
    ensures o.Denied? ==> !o.reply.success && !o.event.FailedLogin? && o.event.endpoint == endpoint
    ensures o.Granted? ==> BearerToken(header).Some? && verify(BearerToken(header).value) == Verified(o.user)
  {
    match BearerToken(header)
    case None => Denied(Failure(Unauthorized, MissingTokenMessage), UnauthorizedAccess(endpoint))
    case Some(token) =>
      match verify(token)
      case Rejected(error) => Denied(Failure(Forbidden, InvalidTokenMessage), InvalidToken(endpoint, error))
      case Verified(user) => Granted(user)
  }

  /** The three outcomes of the gate: 401 exactly when there is no token,
      403 exactly when the library rejects the token, and passage with the
      decoded user exactly when it accepts it; a refusal is logged. */
  lemma GateOutcomes(header: Option<string>, endpoint: string, verify: string -> Verification)
    ensures Gate(header, endpoint, verify).Denied? ==> !Gate(header, endpoint, verify).reply.success
    ensures Gate(header, endpoint, verify).Denied? && Gate(header, endpoint, verify).reply.status == 401
        <==> BearerToken(header).None?
    ensures Gate(header, endpoint, verify).Denied? && Gate(header, endpoint, verify).reply.status == 403
        <==> BearerToken(header).Some? && verify(BearerToken(header).value).Rejected?
    ensures Gate(header, endpoint, verify).Granted?
        <==> BearerToken(header).Some? && verify(BearerToken(header).value).Verified?
    ensures Gate(header, endpoint, verify).Granted? ==>
        Gate(header, endpoint, verify).user == verify(BearerToken(header).value).user
  {
  }

  /** Without a token the verifier is never consulted: any two verifiers
      give the same outcome, a 401. */
  lemma MissingTokenNeverVerified(header: Option<string>, endpoint: string, v1: string -> Verification, v2: string -> Verification)
    requires BearerToken(header).None?
    ensures Gate(header, endpoint, v1) == Gate(header, endpoint, v2)
    ensures Gate(header, endpoint, v1).Denied? && Gate(header, endpoint, v1).reply.status == 401
  {
  }

  /** The scheme word is not checked: "Bearer t" and "Basic t" are
      treated alike. */
  lemma SchemeIgnored(s1: string, s2: string, token: string, endpoint: string, verify: string -> Verification)
    requires ' ' !in s1 && ' ' !in s2 && ' ' !in token && token != []
    ensures Gate(Some(s1 + " " + token), endpoint, verify) == Gate(Some(s2 + " " + token), endpoint, verify)
  {
    BearerRoundTrip(s1, token);
    BearerRoundTrip(s2, token);
  }

  datatype LoginOutcome = LoginOutcome(reply: Reply, token: Option<string>, event: Option<SecurityEvent>)

  /** The claims signed for a login at time `now`. */
  function AdminClaims(now: nat): Claims
  {
    Claims(Payload(true, now), TokenLifetimeSeconds)
  }

  /** The `/login` handler: `password` is the body's field (None when
      absent), `env` the ADMIN_PASSWORD variable, `now` the clock. */
  function Login(password: Option<string>, env: Option<string>, now: nat, sign: Claims -> string): (o: LoginOutcome)
    ensures o.token.Some? <==> o.reply.success
    ensures o.token.Some? ==> password == Some(AdminPassword(env)) && o.token.value == sign(AdminClaims(now))
    ensures o.event.Some? ==> o.event.value == FailedLogin("***")
  {
    if password.None? || password.value == [] then
      LoginOutcome(Failure(BadRequest, InvalidDataMessage), None, None)
    else if password.value == AdminPassword(env) then
      LoginOutcome(Success(LoginMessage), Some(sign(AdminClaims(now))), None)
    else
      LoginOutcome(Failure(Unauthorized, WrongPasswordMessage), None, Some(FailedLogin("***")))
  }

  /** The login decision table: 400 for a missing or empty password, 200
      and a token exactly for the configured password, 401 and a logged
      failure for any other; a token is issued only on success. */
  lemma LoginOutcomes(password: Option<string>, env: Option<string>, now: nat, sign: Claims -> string)
    ensures Login(password, env, now, sign).reply.status == 400 <==> password.None? || password.value == []
    ensures Login(password, env, now, sign).reply.status == 200 <==> password == Some(AdminPassword(env))
    ensures Login(password, env, now, sign).reply.status == 401 <==>
        password.Some? && password.value != [] && password.value != AdminPassword(env)
    ensures Login(password, env, now, sign).token.Some? <==> Login(password, env, now, sign).reply.status == 200
    ensures Login(password, env, now, sign).event.Some? <==> Login(password, env, now, sign).reply.status == 401
    ensures Login(password, env, now, sign).reply.success <==> Login(password, env, now, sign).reply.status == 200
  {
  }

  /** The issued token carries `{ admin: true, timestamp: now }` and a
      24-hour lifetime. */
  lemma IssuedTokenClaims(password: Option<string>, env: Option<string>, now: nat, sign: Claims -> string)
    requires Login(password, env, now, sign).token.Some?
    ensures Login(password, env, now, sign).token.value == sign(Claims(Payload(true, now), 86400))
  {
  }

  /** A failed login records a masked password, never the one tried: the
      logged event is the same whoever tried which password. */
  lemma LoginNeverLogsPassword(p1: string, p2: string, env: Option<string>, now: nat, sign: Claims -> string)
    requires Login(Some(p1), env, now, sign).reply.status == 401
    requires Login(Some(p2), env, now, sign).reply.status == 401
    ensures Login(Some(p1), env, now, sign).event == Login(Some(p2), env, now, sign).event == Some(FailedLogin("***"))
  {
  }

  /** Logging in and presenting the token as `<scheme> <token>` passes the
      gate as the admin of that login, provided the library verifies what
      it signed and the signed token holds no space. */
  lemma LoginThenGate(env: Option<string>, now: nat, sign: Claims -> string, verify: string -> Verification,
                      scheme: string, endpoint: string)
    requires verify(sign(AdminClaims(now))) == Verified(AdminClaims(now).payload)
    requires ' ' !in sign(AdminClaims(now)) && sign(AdminClaims(now)) != []
    requires ' ' !in scheme
    ensures Login(Some(AdminPassword(env)), env, now, sign).token.Some?
    ensures Gate(Some(scheme + " " + Login(Some(AdminPassword(env)), env, now, sign).token.value), endpoint, verify)
        == Granted(Payload(true, now))
  {
    BearerRoundTrip(scheme, sign(AdminClaims(now)));
  }

  /** One request and its response, as `authenticateToken` sees them:
      the Authorization header, `req.path`, `req.user`, the reply sent (if
      any) and the security log. */
  class Exchange {
    var authorization: Option<string>
    var path: string
    var user: Option<Payload>
    var response: Option<Reply>
    var log: seq<SecurityEvent>

    constructor (authorization: Option<string>, path: string)
      ensures this.authorization == authorization && this.path == path
      ensures user == None && response == None && log == []
    {
      this.authorization := authorization;
      this.path := path;
      user := None;
      response := None;
      log := [];
    }

    /** `authenticateToken(req, res, next)`: answers 401 or 403 and logs, or
        sets `req.user` and reports that `next` is called. */
    method AuthenticateToken(verify: string -> Verification) returns (callsNext: bool)
      modifies this
      ensures authorization == old(authorization) && path == old(path)
      ensures callsNext <==> Gate(authorization, path, verify).Granted?
      ensures callsNext ==>
        user == Some(Gate(authorization, path, verify).user) && response == old(response) && log == old(log)
      ensures !callsNext ==>
        user == old(user) && response == Some(Gate(authorization, path, verify).reply)
        && log == old(log) + [Gate(authorization, path, verify).event]
    {
      var token := BearerToken(authorization);
      if token.None? {
        log := log + [UnauthorizedAccess(path)];
        response := Some(Failure(Unauthorized, MissingTokenMessage));
        return false;
      }
      var verdict := verify(token.value);
      if verdict.Rejected? {
        log := log + [InvalidToken(path, verdict.error)];
        response := Some(Failure(Forbidden, InvalidTokenMessage));
        return false;
      }
      user := Some(verdict.user);
      return true;
    }
  }
}
