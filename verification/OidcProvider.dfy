/**
 The development identity provider's store and handlers (`authorize`, `login`, `token`,
 `userinfo`, `end_session`). Every handler runs under the store's lock, so a request is one
 step; it reads the clock once. Generated UUIDs are inputs of the step.
 */
module OidcProvider {
  import opened Wrappers

  const CODE_TTL: nat := 300
  const TOKEN_TTL: nat := 3600
  const SESSION_TTL: nat := 604800

  datatype User = User(username: string, email: string)
  datatype Client = Client(id: string, redirectUris: seq<string>)

  /** Configured clients and users, and the S256 transformation of code verifiers. */
  datatype Config = Config(clients: seq<Client>, users: seq<User>, s256: string -> string)

  datatype Session = Session(username: string, expiresAt: nat)

  datatype AuthCode = AuthCode(
    username: string, clientId: string, redirectUri: string, challenge: Option<string>, challengeMethod: Option<string>,
    nonce: Option<string>, scope: string, expiresAt: nat)

  datatype TokenRecord = TokenRecord(username: string, clientId: string, scope: string, expiresAt: nat)

  datatype Store = Store(sessions: map<string, Session>, codes: map<string, AuthCode>, tokens: map<string, TokenRecord>)

  const EMPTY := Store(map[], map[], map[])

  /** The parameters `issue_code` copies from the request. */
  datatype CodeParams = CodeParams(
    scope: Option<string>, nonce: Option<string>, challenge: Option<string>, challengeMethod: Option<string>)

  datatype Request =
    | Authorize(responseType: Option<string>, clientId: Option<string>, redirectUri: Option<string>,
                params: CodeParams, cookie: Option<string>)
    | Login(username: string, loginClient: string, loginUri: string, loginScope: string,
            loginNonce: Option<string>, loginChallenge: Option<string>, loginMethod: Option<string>)
    | Token(grantType: Option<string>, code: Option<string>, tokenUri: Option<string>, formClient: Option<string>,
            basicClient: Option<string>, verifier: Option<string>)
    | UserInfo(bearer: Option<string>)
    | EndSession(sessionCookie: Option<string>)

  /** Clock, generated UUIDs, and whether signing the ID token works, as one step sees them. */
  datatype Moment = Moment(now: nat, id: string, secondId: string, signs: bool)

  datatype Response =
    | Redirected(uri: string, code: string)
    | Picker
    | LoggedIn(sid: string, loginCode: string, returnUri: string)
    | TokenIssued(token: string, subject: string, audience: string, scope: string, nonce: Option<string>)
    | SigningFailed
    | Claims(user: User)
    | LoggedOut
    | Rejected(reason: string)

  // ----- lookups -----

  function FindUser(users: seq<User>, username: string): (r: Option<User>)
    ensures r.Some? ==> r.value in users && r.value.username == username
  {
    if users == [] then None
    else if users[0].username == username then Some(users[0])
    else FindUser(users[1..], username)
  }

  function FindClient(clients: seq<Client>, id: string): (r: Option<Client>)
    ensures r.Some? ==> r.value in clients && r.value.id == id
  {
    if clients == [] then None
    else if clients[0].id == id then Some(clients[0])
    else FindClient(clients[1..], id)
  }

  predicate Registered(cfg: Config, clientId: string, uri: string) {
    var client := FindClient(cfg.clients, clientId);
    client.Some? && uri in client.value.redirectUris
  }

  // ----- what the lookups mean -----

  ghost predicate KnownUser(cfg: Config, username: string) {
    exists user :: user in cfg.users && user.username == username
  }

  /** The first client configured under an ID. */
  predicate FirstClient(cfg: Config, i: int, id: string) {
    0 <= i < |cfg.clients| && cfg.clients[i].id == id && forall k :: 0 <= k < i ==> cfg.clients[k].id != id
  }

  ghost predicate KnownClient(cfg: Config, id: string) { exists i :: FirstClient(cfg, i, id) }

  ghost predicate RegisteredUri(cfg: Config, id: string, uri: string) {
    exists i :: FirstClient(cfg, i, id) && uri in cfg.clients[i].redirectUris
  }

  lemma {:induction false} UserIsFound(users: seq<User>, username: string)
    ensures FindUser(users, username).Some? <==> exists user :: user in users && user.username == username
  {
    if users != [] {
      UserIsFound(users[1..], username);
      assert forall user :: user in users <==> user == users[0] || user in users[1..];
    }
  }

  lemma {:induction false} ClientIsFound(clients: seq<Client>, id: string) returns (i: nat)
    ensures FindClient(clients, id)
      == if i < |clients| && clients[i].id == id then Some(clients[i]) else None
    ensures i <= |clients| && (forall k :: 0 <= k < i ==> clients[k].id != id)
    ensures i < |clients| ==> clients[i].id == id
  {
    if clients == [] || clients[0].id == id {
      i := 0;
    } else {
      var rest := ClientIsFound(clients[1..], id);
      i := rest + 1;
    }
  }

  /** The lookups answer what the configuration says. */
  lemma Lookups(cfg: Config, username: string, id: string, uri: string)
    ensures FindUser(cfg.users, username).Some? <==> KnownUser(cfg, username)
    ensures FindClient(cfg.clients, id).Some? <==> KnownClient(cfg, id)
    ensures Registered(cfg, id, uri) <==> RegisteredUri(cfg, id, uri)
  {
    UserIsFound(cfg.users, username);
    var i := ClientIsFound(cfg.clients, id);
    if i < |cfg.clients| {
      assert FirstClient(cfg, i, id);
    }
    forall k | FirstClient(cfg, k, id) ensures k == i {
      assert !(k < i) && !(i < k);
    }
  }

  function NonEmpty(s: Option<string>): Option<string> { if s == Some("") then None else s }

  // ----- codes -----

  function ScopeOf(p: CodeParams): string {
    if p.scope.Some? then p.scope.value else "openid profile email"
  }

  function NewCode(username: string, clientId: string, uri: string, p: CodeParams, now: nat): AuthCode {
    AuthCode(username, clientId, uri, p.challenge, p.challengeMethod, p.nonce,
             ScopeOf(p), now + CODE_TTL)
  }

  /** `verify_pkce` (section 4.6 of RFC 7636): no challenge means nothing to prove. */
  function VerifyPkce(cfg: Config, code: AuthCode, verifier: Option<string>): Result<(), string> {
    if code.challenge.None? then Ok(())
    else if verifier.None? then Err("code_verifier required")
    else
      var transform := if code.challengeMethod.Some? then code.challengeMethod.value else "plain";
      if transform == "S256" then
        if cfg.s256(verifier.value) == code.challenge.value then Ok(()) else Err("invalid code_verifier")
      else if transform == "plain" then
        if verifier.value == code.challenge.value then Ok(()) else Err("invalid code_verifier")
      else Err("unsupported code_challenge_method")
  }

  // ----- one step per handler -----

  function AuthorizeStep(s: Store, cfg: Config, q: Request, m: Moment): (Store, Response)
    requires q.Authorize?
  {
    if q.responseType != Some("code") then (s, Rejected("response_type must be code"))
    else if q.clientId.None? then (s, Rejected("client_id required"))
    else if q.redirectUri.None? then (s, Rejected("redirect_uri required"))
    else if FindClient(cfg.clients, q.clientId.value).None? then (s, Rejected("unknown client_id"))
    else if !Registered(cfg, q.clientId.value, q.redirectUri.value) then (s, Rejected("redirect_uri not registered"))
    else if q.cookie.None? || q.cookie.value !in s.sessions then (s, Picker)
    else
      var session := s.sessions[q.cookie.value];
      if session.expiresAt > m.now && FindUser(cfg.users, session.username).Some? then
        var code := NewCode(session.username, q.clientId.value, q.redirectUri.value, q.params, m.now);
        (s.(codes := s.codes[m.id := code]), Redirected(q.redirectUri.value, m.id))
      else (s.(sessions := s.sessions - {q.cookie.value}), Picker)
  }

  function LoginStep(s: Store, cfg: Config, f: Request, m: Moment): (Store, Response)
    requires f.Login?
  {
    if FindClient(cfg.clients, f.loginClient).None? then (s, Rejected("unknown client_id"))
    else if !Registered(cfg, f.loginClient, f.loginUri) then (s, Rejected("redirect_uri not registered"))
    else if FindUser(cfg.users, f.username).None? then (s, Rejected("unknown user"))
    else
      var params := CodeParams(
        Some(f.loginScope), NonEmpty(f.loginNonce), NonEmpty(f.loginChallenge), NonEmpty(f.loginMethod));
      var session := Session(f.username, m.now + SESSION_TTL);
      var code := NewCode(f.username, f.loginClient, f.loginUri, params, m.now);
      (s.(sessions := s.sessions[m.id := session], codes := s.codes[m.secondId := code]),
       LoggedIn(m.id, m.secondId, f.loginUri))
  }

  function ClientOf(f: Request): Option<string>
    requires f.Token?
  {
    if f.formClient.Some? then f.formClient else f.basicClient
  }

  /** Why a found code is not redeemed, in the order of the checks. */
  function RedeemError(cfg: Config, code: AuthCode, f: Request, clientId: string, now: nat): Option<string>
    requires f.Token?
  {
    if code.expiresAt < now then Some("invalid_grant")
    else if code.clientId != clientId then Some("invalid_grant")
    else if f.tokenUri.Some? && f.tokenUri.value != code.redirectUri then Some("invalid_grant")
    else if VerifyPkce(cfg, code, f.verifier).Err? then Some(VerifyPkce(cfg, code, f.verifier).error)
    else if FindUser(cfg.users, code.username).None? then Some("invalid_grant")
    else None
  }

  /** The checks that come before the store is touched. */
  function TokenPrecheck(cfg: Config, f: Request): Option<string>
    requires f.Token?
  {
    if f.grantType != Some("authorization_code") then Some("unsupported_grant_type")
    else if f.code.None? then Some("invalid_request")
    else if ClientOf(f).None? then Some("invalid_client")
    else if FindClient(cfg.clients, ClientOf(f).value).None? then Some("invalid_client")
    else None
  }

  function TokenStep(s: Store, cfg: Config, f: Request, m: Moment): (Store, Response)
    requires f.Token?
  {
    var early := TokenPrecheck(cfg, f);
    if early.Some? then (s, Rejected(early.value))
    else if f.code.value !in s.codes then (s, Rejected("invalid_grant"))
    else
      var code, clientId := s.codes[f.code.value], ClientOf(f).value;
      var taken := s.(codes := s.codes - {f.code.value});
      var refused := RedeemError(cfg, code, f, clientId, m.now);
      if refused.Some? then (taken, Rejected(refused.value))
      else
        var record := TokenRecord(code.username, clientId, code.scope, m.now + TOKEN_TTL);
        (taken.(tokens := taken.tokens[m.id := record]),
         if m.signs then TokenIssued(m.id, code.username, clientId, code.scope, code.nonce) else SigningFailed)
  }

  function UserInfoStep(s: Store, cfg: Config, q: Request, m: Moment): (Store, Response)
    requires q.UserInfo?
  {
    if q.bearer.None? || q.bearer.value !in s.tokens then (s, Rejected("invalid_token"))
    else
      var record := s.tokens[q.bearer.value];
      var user := FindUser(cfg.users, record.username);
      if record.expiresAt < m.now || user.None? then (s, Rejected("invalid_token")) else (s, Claims(user.value))
  }

  function EndSessionStep(s: Store, q: Request): (Store, Response)
    requires q.EndSession?
  {
    (if q.sessionCookie.Some? then s.(sessions := s.sessions - {q.sessionCookie.value}) else s, LoggedOut)
  }

  function Step(s: Store, cfg: Config, r: Request, m: Moment): (Store, Response) {
    match r
    case Authorize(_, _, _, _, _) => AuthorizeStep(s, cfg, r, m)
    case Login(_, _, _, _, _, _, _) => LoginStep(s, cfg, r, m)
    case Token(_, _, _, _, _, _) => TokenStep(s, cfg, r, m)
    case UserInfo(_) => UserInfoStep(s, cfg, r, m)
    case EndSession(_) => EndSessionStep(s, r)
  }

  // ----- the handlers on the shared store -----

  class Provider {
    const cfg: Config
    var sessions: map<string, Session>
    var codes: map<string, AuthCode>
    var tokens: map<string, TokenRecord>

    ghost function State(): Store
      reads this
    {
      Store(sessions, codes, tokens)
    }

    constructor (cfg: Config)
      ensures this.cfg == cfg && State() == EMPTY
    {
      this.cfg := cfg;
      sessions, codes, tokens := map[], map[], map[];
    }

    method IssueCode(username: string, clientId: string, uri: string, p: CodeParams, now: nat, id: string)
      modifies this`codes
      ensures codes == old(codes)[id := NewCode(username, clientId, uri, p, now)]
    {
      codes := codes[id := NewCode(username, clientId, uri, p, now)];
    }

    method HandleAuthorize(q: Request, m: Moment) returns (response: Response)
      requires q.Authorize?
      modifies this
      ensures (State(), response) == AuthorizeStep(old(State()), cfg, q, m)
    {
      if q.responseType != Some("code") { return Rejected("response_type must be code"); }
      if q.clientId.None? { return Rejected("client_id required"); }
      if q.redirectUri.None? { return Rejected("redirect_uri required"); }
      var client := FindClient(cfg.clients, q.clientId.value);
      if client.None? { return Rejected("unknown client_id"); }
      if q.redirectUri.value !in client.value.redirectUris { return Rejected("redirect_uri not registered"); }
      if q.cookie.Some? && q.cookie.value in sessions {
        var session := sessions[q.cookie.value];
        if session.expiresAt > m.now && FindUser(cfg.users, session.username).Some? {
          IssueCode(session.username, q.clientId.value, q.redirectUri.value, q.params, m.now, m.id);
          return Redirected(q.redirectUri.value, m.id);
        }
        sessions := sessions - {q.cookie.value};
      }
      response := Picker;
    }

    method HandleLogin(f: Request, m: Moment) returns (response: Response)
      requires f.Login?
      modifies this
      ensures (State(), response) == LoginStep(old(State()), cfg, f, m)
    {
      var client := FindClient(cfg.clients, f.loginClient);
      if client.None? { return Rejected("unknown client_id"); }
      if f.loginUri !in client.value.redirectUris { return Rejected("redirect_uri not registered"); }
      if FindUser(cfg.users, f.username).None? { return Rejected("unknown user"); }
      var params := CodeParams(
        Some(f.loginScope), NonEmpty(f.loginNonce), NonEmpty(f.loginChallenge), NonEmpty(f.loginMethod));
      sessions := sessions[m.id := Session(f.username, m.now + SESSION_TTL)];
      IssueCode(f.username, f.loginClient, f.loginUri, params, m.now, m.secondId);
      response := LoggedIn(m.id, m.secondId, f.loginUri);
    }

    /** The code is removed before any of its checks. */
    method HandleToken(f: Request, m: Moment) returns (response: Response)
      requires f.Token?
      modifies this
      ensures (State(), response) == TokenStep(old(State()), cfg, f, m)
    {
      if f.grantType != Some("authorization_code") { return Rejected("unsupported_grant_type"); }
      if f.code.None? { return Rejected("invalid_request"); }
      var clientId := if f.formClient.Some? then f.formClient else f.basicClient;
      if clientId.None? { return Rejected("invalid_client"); }
      if FindClient(cfg.clients, clientId.value).None? { return Rejected("invalid_client"); }
      if f.code.value !in codes { return Rejected("invalid_grant"); }
      var code := codes[f.code.value];
      codes := codes - {f.code.value};
      if code.expiresAt < m.now { return Rejected("invalid_grant"); }
      if code.clientId != clientId.value { return Rejected("invalid_grant"); }
      if f.tokenUri.Some? && f.tokenUri.value != code.redirectUri { return Rejected("invalid_grant"); }
      var pkce := VerifyPkce(cfg, code, f.verifier);
      if pkce.Err? { return Rejected(pkce.error); }
      var user := FindUser(cfg.users, code.username);
      if user.None? { return Rejected("invalid_grant"); }
      tokens := tokens[m.id := TokenRecord(user.value.username, clientId.value, code.scope, m.now + TOKEN_TTL)];
      response := if m.signs then TokenIssued(m.id, user.value.username, clientId.value, code.scope, code.nonce)
                  else SigningFailed;
    }

    method HandleUserInfo(q: Request, m: Moment) returns (response: Response)
      requires q.UserInfo?
      ensures (State(), response) == UserInfoStep(State(), cfg, q, m)
    {
      if q.bearer.None? || q.bearer.value !in tokens { return Rejected("invalid_token"); }
      var record := tokens[q.bearer.value];
      if record.expiresAt < m.now { return Rejected("invalid_token"); }
      var user := FindUser(cfg.users, record.username);
      response := if user.None? then Rejected("invalid_token") else Claims(user.value);
    }

    method HandleEndSession(q: Request) returns (response: Response)
      requires q.EndSession?
      modifies this`sessions
      ensures (State(), response) == EndSessionStep(old(State()), q)
    {
      if q.sessionCookie.Some? { sessions := sessions - {q.sessionCookie.value}; }
      response := LoggedOut;
    }
  }
}
