/**
 What holds over every run of the identity provider: where claims come from, how long they
 last, and that codes and ended sessions never come back.
 */
module OidcHistory {
  import opened Wrappers
  import opened OidcProvider

  datatype Entry = Entry(request: Request, moment: Moment, response: Response)

  ghost function StoreAfter(cfg: Config, run: seq<Entry>): Store {
    if run == [] then EMPTY
    else
      var last := run[|run| - 1];
      Step(StoreAfter(cfg, run[..|run| - 1]), cfg, last.request, last.moment).0
  }

  ghost function Ids(run: seq<Entry>): set<string> {
    (set i | 0 <= i < |run| :: run[i].moment.id) + (set i | 0 <= i < |run| :: run[i].moment.secondId)
  }

  /** Entry `b`: the response is the handler's, the clock does not go back, and the generated
      UUIDs are new. */
  ghost predicate Follows(cfg: Config, run: seq<Entry>, b: nat)
    requires b < |run|
  {
    var e := run[b];
    && e.response == Step(StoreAfter(cfg, run[..b]), cfg, e.request, e.moment).1
    && (b > 0 ==> run[b - 1].moment.now <= e.moment.now)
    && e.moment.id != e.moment.secondId
    && e.moment.id !in Ids(run[..b]) && e.moment.secondId !in Ids(run[..b])
  }

  /** A run from the empty store. */
  ghost predicate IsRun(cfg: Config, run: seq<Entry>) {
    forall b: nat :: b < |run| ==> Follows(cfg, run, b)
  }

  // ----- origins -----

  /** Entry `i` is a successful login as `user`. */
  predicate LoginAt(run: seq<Entry>, i: nat, user: string) {
    i < |run| && run[i].request.Login? && run[i].response.LoggedIn? && run[i].request.username == user
  }

  function At(run: seq<Entry>, i: nat): nat { if i < |run| then run[i].moment.now else 0 }

  /** The code and redirect URI a response hands out. */
  function Issued(r: Response): Option<(string, string)> {
    match r
    case Redirected(uri, code) => Some((code, uri))
    case LoggedIn(_, code, uri) => Some((code, uri))
    case _ => None
  }

  /** The client, redirect URI and parameters a request for a code names. */
  function AskedClient(r: Request): string {
    if r.Authorize? && r.clientId.Some? then r.clientId.value else if r.Login? then r.loginClient else ""
  }

  function AskedUri(r: Request): string {
    if r.Authorize? && r.redirectUri.Some? then r.redirectUri.value else if r.Login? then r.loginUri else ""
  }

  /** A field of the login form; an empty one counts as not given. */
  function Given(field: Option<string>): Option<string> {
    if field.Some? && |field.value| > 0 then field else None
  }

  function AskedParams(r: Request): CodeParams {
    if r.Authorize? then r.params
    else if r.Login? then
      CodeParams(Some(r.loginScope), Given(r.loginNonce), Given(r.loginChallenge), Given(r.loginMethod))
    else CodeParams(None, None, None, None)
  }

  function AskedScope(asked: CodeParams): string {
    if asked.scope.Some? then asked.scope.value else "openid profile email"
  }

  /** The code that a request at a time is worth, for a user. */
  function AskedCode(username: string, r: Request, at: nat): AuthCode {
    var asked := AskedParams(r);
    AuthCode(username, AskedClient(r), AskedUri(r), asked.challenge, asked.challengeMethod, asked.nonce,
             AskedScope(asked), at + 300)
  }

  /** A verifier meets the challenge of the request for the code (section 4.6 of RFC 7636). */
  predicate PkceMet(cfg: Config, asked: CodeParams, verifier: Option<string>) {
    asked.challenge.Some? ==>
      && verifier.Some?
      && (asked.challengeMethod == Some("S256") || asked.challengeMethod in {None, Some("plain")})
      && (if asked.challengeMethod == Some("S256") then cfg.s256(verifier.value) else verifier.value)
         == asked.challenge.value
  }

  /** `VerifyPkce` on a code decides about the request it was issued for. */
  lemma VerifiesIffMet(cfg: Config, username: string, asked: Request, at: nat, verifier: Option<string>)
    ensures VerifyPkce(cfg, AskedCode(username, asked, at), verifier).Ok?
      <==> PkceMet(cfg, AskedParams(asked), verifier)
  {
  }

  predicate SessionOrigin(run: seq<Entry>, i: nat, sid: string, session: Session) {
    && LoginAt(run, i, session.username) && run[i].response.sid == sid
    && session.expiresAt == At(run, i) + 604800
  }

  /** Entry `j` acts for a user: it is the login `i` as that user, or an authorize request with
      the session of that login, within the session's lifetime. */
  predicate OnBehalfOf(run: seq<Entry>, i: nat, j: nat, user: string) {
    && i <= j < |run| && LoginAt(run, i, user) && At(run, j) < At(run, i) + 604800
    && (i == j || (run[j].request.Authorize? && run[j].request.cookie == Some(run[i].response.sid)))
  }

  /** Code `c` was issued by entry `j`, on behalf of the user who logged in at `i`, with exactly
      the registered client and URI and the parameters that entry asked for. */
  ghost predicate CodeOrigin(cfg: Config, run: seq<Entry>, i: nat, j: nat, c: string, code: AuthCode) {
    && OnBehalfOf(run, i, j, code.username)
    && Issued(run[j].response) == Some((c, AskedUri(run[j].request)))
    && RegisteredUri(cfg, AskedClient(run[j].request), AskedUri(run[j].request))
    && code == AskedCode(code.username, run[j].request, At(run, j))
  }

  /** Token `t` was created by entry `k`, which redeemed the code issued by entry `j` in time: for
      the client that asked for the code, with the redirect URI that was asked for if one was
      given, and with a verifier that meets the challenge that was asked for. */
  ghost predicate TokenOrigin(cfg: Config, run: seq<Entry>, i: nat, j: nat, k: nat, t: string, record: TokenRecord) {
    && j < k < |run| && OnBehalfOf(run, i, j, record.username)
    && RegisteredUri(cfg, AskedClient(run[j].request), AskedUri(run[j].request))
    && run[k].request.Token? && run[k].request.code.Some? && run[k].moment.id == t
    && Issued(run[j].response) == Some((run[k].request.code.value, AskedUri(run[j].request)))
    && ClientOf(run[k].request) == Some(AskedClient(run[j].request))
    && (run[k].request.tokenUri.Some? ==> run[k].request.tokenUri.value == AskedUri(run[j].request))
    && PkceMet(cfg, AskedParams(run[j].request), run[k].request.verifier)
    && At(run, k) <= At(run, j) + 300
    && record == TokenRecord(record.username, AskedClient(run[j].request), AskedScope(AskedParams(run[j].request)),
                             At(run, k) + 3600)
  }

  ghost predicate SessionBacked(run: seq<Entry>, sid: string, session: Session) {
    exists i :: SessionOrigin(run, i, sid, session)
  }

  ghost predicate CodeBacked(cfg: Config, run: seq<Entry>, c: string, code: AuthCode) {
    exists i, j :: CodeOrigin(cfg, run, i, j, c, code)
  }

  ghost predicate TokenBacked(cfg: Config, run: seq<Entry>, t: string, record: TokenRecord) {
    exists i, j, k :: TokenOrigin(cfg, run, i, j, k, t, record)
  }

  /** Everything in the store has an origin in the run. */
  ghost predicate Backed(cfg: Config, run: seq<Entry>, s: Store) {
    && (forall sid :: sid in s.sessions ==> sid in Ids(run) && SessionBacked(run, sid, s.sessions[sid]))
    && (forall c :: c in s.codes ==> c in Ids(run) && CodeBacked(cfg, run, c, s.codes[c]))
    && (forall t :: t in s.tokens ==> TokenBacked(cfg, run, t, s.tokens[t]))
  }

  // ----- the invariant -----

  lemma IdsGrow(run: seq<Entry>, e: Entry)
    ensures Ids(run + [e]) == Ids(run) + {e.moment.id, e.moment.secondId}
  {
    var all := run + [e];
    forall x ensures x in Ids(all) <==> x in Ids(run) + {e.moment.id, e.moment.secondId} {
      if x in Ids(run) {
        if i :| 0 <= i < |run| && run[i].moment.id == x {
          assert all[i] == run[i];
        } else {
          var j :| 0 <= j < |run| && run[j].moment.secondId == x;
          assert all[j] == run[j];
        }
      }
      assert all[|run|] == e;
    }
  }

  lemma SessionPersists(run: seq<Entry>, e: Entry, sid: string, session: Session)
    requires SessionBacked(run, sid, session)
    ensures SessionBacked(run + [e], sid, session)
  {
    var i: nat :| SessionOrigin(run, i, sid, session);
    assert SessionOrigin(run + [e], i, sid, session);
  }

  lemma CodePersists(cfg: Config, run: seq<Entry>, e: Entry, c: string, code: AuthCode)
    requires CodeBacked(cfg, run, c, code)
    ensures CodeBacked(cfg, run + [e], c, code)
  {
    var i, j :| CodeOrigin(cfg, run, i, j, c, code);
    assert CodeOrigin(cfg, run + [e], i, j, c, code);
  }

  lemma TokenPersists(cfg: Config, run: seq<Entry>, e: Entry, t: string, record: TokenRecord)
    requires TokenBacked(cfg, run, t, record)
    ensures TokenBacked(cfg, run + [e], t, record)
  {
    var i, j, k :| TokenOrigin(cfg, run, i, j, k, t, record);
    assert TokenOrigin(cfg, run + [e], i, j, k, t, record);
  }

  /** Origins stay origins when the run goes on. */
  lemma OriginsPersist(cfg: Config, run: seq<Entry>, e: Entry, s: Store)
    requires Backed(cfg, run, s)
    ensures Backed(cfg, run + [e], s)
  {
    IdsGrow(run, e);
    forall sid | sid in s.sessions ensures SessionBacked(run + [e], sid, s.sessions[sid]) {
      SessionPersists(run, e, sid, s.sessions[sid]);
    }
    forall c | c in s.codes ensures CodeBacked(cfg, run + [e], c, s.codes[c]) {
      CodePersists(cfg, run, e, c, s.codes[c]);
    }
    forall t | t in s.tokens ensures TokenBacked(cfg, run + [e], t, s.tokens[t]) {
      TokenPersists(cfg, run, e, t, s.tokens[t]);
    }
  }

  /** A code issued from a stored session goes back to the login that opened it. */
  lemma AuthorizedCodeBacked(cfg: Config, run: seq<Entry>, e: Entry, session: Session, sid: string, code: AuthCode)
    requires SessionBacked(run, sid, session) && session.expiresAt > e.moment.now
    requires e.request.Authorize? && e.request.cookie == Some(sid)
    requires RegisteredUri(cfg, AskedClient(e.request), AskedUri(e.request))
    requires e.response == Redirected(AskedUri(e.request), e.moment.id)
    requires code == AskedCode(session.username, e.request, e.moment.now)
    ensures CodeBacked(cfg, run + [e], e.moment.id, code)
  {
    var i: nat :| SessionOrigin(run, i, sid, session);
    var all, n := run + [e], |run|;
    assert all[n] == e && all[i] == run[i];
    assert OnBehalfOf(all, i, n, session.username);
    assert CodeOrigin(cfg, all, i, n, e.moment.id, code);
  }

  lemma OneMoreCodeBacked(cfg: Config, run: seq<Entry>, s: Store, c: string, code: AuthCode)
    requires Backed(cfg, run, s) && c in Ids(run) && CodeBacked(cfg, run, c, code)
    ensures Backed(cfg, run, s.(codes := s.codes[c := code]))
  {
  }

  lemma OneMoreSessionBacked(cfg: Config, run: seq<Entry>, s: Store, sid: string, session: Session)
    requires Backed(cfg, run, s) && sid in Ids(run) && SessionBacked(run, sid, session)
    ensures Backed(cfg, run, s.(sessions := s.sessions[sid := session]))
  {
  }

  lemma AuthorizeBacked(cfg: Config, run: seq<Entry>, e: Entry, s: Store)
    requires Backed(cfg, run, s) && e.request.Authorize?
    requires e.response == AuthorizeStep(s, cfg, e.request, e.moment).1
    ensures Backed(cfg, run + [e], AuthorizeStep(s, cfg, e.request, e.moment).0)
  {
    OriginsPersist(cfg, run, e, s);
    IdsGrow(run, e);
    if e.response.Redirected? {
      Lookups(cfg, "", AskedClient(e.request), AskedUri(e.request));
      var sid := e.request.cookie.value;
      var code := NewCode(s.sessions[sid].username, e.request.clientId.value, e.request.redirectUri.value,
                          e.request.params, e.moment.now);
      AuthorizedCodeBacked(cfg, run, e, s.sessions[sid], sid, code);
      OneMoreCodeBacked(cfg, run + [e], s, e.moment.id, code);
    }
  }

  /** A login is the origin of the session it opens and of the code it issues. */
  lemma LoginIsOrigin(cfg: Config, run: seq<Entry>, e: Entry, session: Session, code: AuthCode)
    requires e.request.Login? && e.response == LoggedIn(e.moment.id, e.moment.secondId, AskedUri(e.request))
    requires session == Session(e.request.username, e.moment.now + SESSION_TTL)
    requires code == AskedCode(e.request.username, e.request, e.moment.now)
    requires RegisteredUri(cfg, AskedClient(e.request), AskedUri(e.request))
    ensures SessionBacked(run + [e], e.moment.id, session)
    ensures CodeBacked(cfg, run + [e], e.moment.secondId, code)
  {
    var all, n := run + [e], |run|;
    assert all[n] == e;
    assert SessionOrigin(all, n, e.moment.id, session);
    assert OnBehalfOf(all, n, n, e.request.username);
    assert CodeOrigin(cfg, all, n, n, e.moment.secondId, code);
  }

  lemma LoginBacked(cfg: Config, run: seq<Entry>, e: Entry, s: Store)
    requires Backed(cfg, run, s) && e.request.Login?
    requires e.response == LoginStep(s, cfg, e.request, e.moment).1
    ensures Backed(cfg, run + [e], LoginStep(s, cfg, e.request, e.moment).0)
  {
    OriginsPersist(cfg, run, e, s);
    IdsGrow(run, e);
    if e.response.LoggedIn? {
      Lookups(cfg, "", AskedClient(e.request), AskedUri(e.request));
      var after := LoginStep(s, cfg, e.request, e.moment).0;
      var session, code := after.sessions[e.moment.id], after.codes[e.moment.secondId];
      LoginIsOrigin(cfg, run, e, session, code);
      OneMoreSessionBacked(cfg, run + [e], s, e.moment.id, session);
      OneMoreCodeBacked(cfg, run + [e], s.(sessions := s.sessions[e.moment.id := session]), e.moment.secondId, code);
    }
  }

  lemma RedeemedTokenBacked(cfg: Config, run: seq<Entry>, e: Entry, c: string, code: AuthCode)
    requires CodeBacked(cfg, run, c, code) && e.request.Token? && e.request.code == Some(c)
    requires ClientOf(e.request).Some?
    requires RedeemError(cfg, code, e.request, ClientOf(e.request).value, e.moment.now).None?
    ensures TokenBacked(cfg, run + [e], e.moment.id,
                        TokenRecord(code.username, code.clientId, code.scope, e.moment.now + TOKEN_TTL))
  {
    var i: nat, j: nat :| CodeOrigin(cfg, run, i, j, c, code);
    var all, n := run + [e], |run|;
    assert all[n] == e && all[j] == run[j] && all[i] == run[i];
    var asked := run[j].request;
    VerifiesIffMet(cfg, code.username, asked, At(run, j), e.request.verifier);
    var record := TokenRecord(code.username, code.clientId, code.scope, e.moment.now + TOKEN_TTL);
    assert OnBehalfOf(all, i, j, code.username);
    assert TokenOrigin(cfg, all, i, j, n, e.moment.id, record);
  }

  /** The store after the token step, put together from its three outcomes. */
  lemma TokenOutcomes(s: Store, cfg: Config, f: Request, m: Moment) returns (taken: Store)
    requires f.Token?
    ensures
      var after := TokenStep(s, cfg, f, m).0;
      || after == s
      || (&& f.code.Some? && f.code.value in s.codes
          && taken == s.(codes := s.codes - {f.code.value})
          && (after == taken
              || (var code := s.codes[f.code.value];
                  && ClientOf(f).Some? && RedeemError(cfg, code, f, ClientOf(f).value, m.now).None?
                  && after == taken.(tokens := taken.tokens[m.id :=
                       TokenRecord(code.username, code.clientId, code.scope, m.now + TOKEN_TTL)]))))
  {
    taken := if f.code.Some? then s.(codes := s.codes - {f.code.value}) else s;
  }

  lemma FewerCodesBacked(cfg: Config, run: seq<Entry>, s: Store, c: string)
    requires Backed(cfg, run, s)
    ensures Backed(cfg, run, s.(codes := s.codes - {c}))
  {
  }

  lemma OneMoreTokenBacked(cfg: Config, run: seq<Entry>, s: Store, t: string, record: TokenRecord)
    requires Backed(cfg, run, s) && TokenBacked(cfg, run, t, record)
    ensures Backed(cfg, run, s.(tokens := s.tokens[t := record]))
  {
  }

  lemma TokenStepBacked(cfg: Config, run: seq<Entry>, e: Entry, s: Store)
    requires Backed(cfg, run, s) && e.request.Token?
    ensures Backed(cfg, run + [e], TokenStep(s, cfg, e.request, e.moment).0)
  {
    var taken := TokenOutcomes(s, cfg, e.request, e.moment);
    var after := TokenStep(s, cfg, e.request, e.moment).0;
    OriginsPersist(cfg, run, e, s);
    if after != s {
      var c := e.request.code.value;
      FewerCodesBacked(cfg, run + [e], s, c);
      if after != taken {
        var code := s.codes[c];
        RedeemedTokenBacked(cfg, run, e, c, code);
        OneMoreTokenBacked(cfg, run + [e], taken, e.moment.id,
                           TokenRecord(code.username, code.clientId, code.scope, e.moment.now + TOKEN_TTL));
      }
    }
  }

  lemma RunPrefix(cfg: Config, run: seq<Entry>, m: nat)
    requires IsRun(cfg, run) && m <= |run|
    ensures IsRun(cfg, run[..m])
  {
    forall b: nat | b < m ensures Follows(cfg, run[..m], b) {
      assert Follows(cfg, run, b) && run[..m][..b] == run[..b];
    }
  }

  /** Entry `b` of a run, seen from the state before it. */
  lemma EntryAt(cfg: Config, run: seq<Entry>, b: nat)
    requires IsRun(cfg, run) && b < |run|
    ensures IsRun(cfg, run[..b]) && IsRun(cfg, run[..b + 1])
    ensures run[b].response == Step(StoreAfter(cfg, run[..b]), cfg, run[b].request, run[b].moment).1
    ensures StoreAfter(cfg, run[..b + 1]) == Step(StoreAfter(cfg, run[..b]), cfg, run[b].request, run[b].moment).0
    ensures run[b].moment.id !in Ids(run[..b]) && run[b].moment.secondId !in Ids(run[..b])
    ensures Ids(run[..b + 1]) == Ids(run[..b]) + {run[b].moment.id, run[b].moment.secondId}
  {
    RunPrefix(cfg, run, b);
    RunPrefix(cfg, run, b + 1);
    assert Follows(cfg, run, b);
    assert run[..b + 1] == run[..b] + [run[b]] && run[..b + 1][..b] == run[..b];
    IdsGrow(run[..b], run[b]);
  }

  /** In every run, everything in the store has an origin. */
  lemma {:induction false} RunIsBacked(cfg: Config, run: seq<Entry>)
    requires IsRun(cfg, run)
    ensures Backed(cfg, run, StoreAfter(cfg, run))
    decreases run
  {
    if run != [] {
      var front, e := run[..|run| - 1], run[|run| - 1];
      var s := StoreAfter(cfg, front);
      assert run == front + [e] && run[..|run|] == run;
      EntryAt(cfg, run, |run| - 1);
      RunIsBacked(cfg, front);
      match e.request {
        case Authorize(_, _, _, _, _) => AuthorizeBacked(cfg, front, e, s);
        case Login(_, _, _, _, _, _, _) => LoginBacked(cfg, front, e, s);
        case Token(_, _, _, _, _, _) => TokenStepBacked(cfg, front, e, s);
        case UserInfo(_) => OriginsPersist(cfg, front, e, s);
        case EndSession(_) => OriginsPersist(cfg, front, e, s);
      }
    }
  }

  // ----- claims -----

  lemma ClaimsNeedToken(s: Store, cfg: Config, r: Request, m: Moment)
    requires Step(s, cfg, r, m).1.Claims?
    ensures r.UserInfo? && r.bearer.Some? && r.bearer.value in s.tokens
    ensures
      var record := s.tokens[r.bearer.value];
      m.now <= record.expiresAt && Step(s, cfg, r, m).1.user.username == record.username
  {
  }

  /** A stored token goes back to a login of its user less than a session, a code and a token
      lifetime before it expires. */
  lemma TokenTraces(cfg: Config, run: seq<Entry>, t: string, record: TokenRecord) returns (i: nat, j: nat, k: nat)
    requires TokenBacked(cfg, run, t, record)
    ensures TokenOrigin(cfg, run, i, j, k, t, record)
    ensures record.expiresAt < At(run, i) + 604800 + 300 + 3600
  {
    i, j, k :| TokenOrigin(cfg, run, i, j, k, t, record);
  }

  /** A userinfo answer about a user goes back to a login as that user less than seven days,
      five minutes and one hour earlier, through a code that a request on that user's behalf
      obtained for a registered client and redirect URI, and that this client redeemed with the
      proof the request had asked for. */
  lemma ClaimsComeFromRecentLogin(cfg: Config, run: seq<Entry>)
    returns (i: nat, j: nat, k: nat, record: TokenRecord)
    requires IsRun(cfg, run) && run != [] && run[|run| - 1].response.Claims?
    ensures
      var front, last := run[..|run| - 1], run[|run| - 1];
      && last.request.UserInfo? && last.request.bearer.Some?
      && record.username == last.response.user.username
      && TokenOrigin(cfg, front, i, j, k, last.request.bearer.value, record)
      && last.moment.now < At(front, i) + 604800 + 300 + 3600
  {
    var front, last := run[..|run| - 1], run[|run| - 1];
    var s := StoreAfter(cfg, front);
    EntryAt(cfg, run, |run| - 1);
    RunIsBacked(cfg, front);
    ClaimsNeedToken(s, cfg, last.request, last.moment);
    var t := last.request.bearer.value;
    record := s.tokens[t];
    i, j, k := TokenTraces(cfg, front, t, record);
  }

  // ----- nothing comes back -----

  /** Codes and sessions a step adds carry IDs generated in that step. */
  lemma NewIdsOnly(s: Store, cfg: Config, r: Request, m: Moment, x: string)
    requires x != m.id && x != m.secondId
    ensures x in Step(s, cfg, r, m).0.codes ==> x in s.codes
    ensures x in Step(s, cfg, r, m).0.sessions ==> x in s.sessions
  {
  }

  /** A generated ID that is no code (session) any more never becomes one again. */
  lemma {:induction false} GoneStaysGone(cfg: Config, run: seq<Entry>, m: nat, b: nat, x: string)
    requires IsRun(cfg, run) && m <= b <= |run| && x in Ids(run[..m])
    ensures x in Ids(run[..b])
    ensures x !in StoreAfter(cfg, run[..m]).codes ==> x !in StoreAfter(cfg, run[..b]).codes
    ensures x !in StoreAfter(cfg, run[..m]).sessions ==> x !in StoreAfter(cfg, run[..b]).sessions
    decreases b
  {
    if m < b {
      GoneStaysGone(cfg, run, m, b - 1, x);
      EntryAt(cfg, run, b - 1);
      NewIdsOnly(StoreAfter(cfg, run[..b - 1]), cfg, run[b - 1].request, run[b - 1].moment, x);
    }
  }

  /** The code named by a token request that got as far as the store. */
  ghost predicate Consumes(cfg: Config, run: seq<Entry>, a: nat, c: string) {
    && a < |run| && run[a].request.Token? && run[a].request.code == Some(c)
    && TokenPrecheck(cfg, run[a].request).None? && c in StoreAfter(cfg, run[..a]).codes
  }

  lemma TokenStepTakesCode(s: Store, cfg: Config, f: Request, m: Moment, c: string)
    requires f.Token? && f.code == Some(c)
    ensures TokenPrecheck(cfg, f).None? && c in s.codes ==> c !in Step(s, cfg, f, m).0.codes
    ensures c !in s.codes ==> Step(s, cfg, f, m).1.Rejected?
    ensures !Step(s, cfg, f, m).1.Rejected? ==> TokenPrecheck(cfg, f).None? && c in s.codes
  {
  }

  /** Once a token request has found a code, redeemed or not, every later request with that
      code is rejected. */
  lemma CodeIsUsedAtMostOnce(cfg: Config, run: seq<Entry>, a: nat, b: nat, c: string)
    requires IsRun(cfg, run) && Consumes(cfg, run, a, c) && a < b < |run|
    requires run[b].request.Token? && run[b].request.code == Some(c)
    ensures run[b].response.Rejected?
  {
    EntryAt(cfg, run, a);
    EntryAt(cfg, run, b);
    RunIsBacked(cfg, run[..a]);
    TokenStepTakesCode(StoreAfter(cfg, run[..a]), cfg, run[a].request, run[a].moment, c);
    GoneStaysGone(cfg, run, a + 1, b, c);
    TokenStepTakesCode(StoreAfter(cfg, run[..b]), cfg, run[b].request, run[b].moment, c);
  }

  lemma OnlyTokenRequestsIssueTokens(s: Store, cfg: Config, r: Request, m: Moment)
    ensures
      var response := Step(s, cfg, r, m).1;
      response.TokenIssued? || response.SigningFailed? ==> r.Token? && r.code.Some?
  {
  }

  /** A redemption, successful or cut off by a signing error, consumes its code. */
  lemma RedemptionConsumes(cfg: Config, run: seq<Entry>, a: nat)
    requires IsRun(cfg, run) && a < |run| && (run[a].response.TokenIssued? || run[a].response.SigningFailed?)
    ensures run[a].request.Token? && run[a].request.code.Some?
    ensures Consumes(cfg, run, a, run[a].request.code.value)
  {
    EntryAt(cfg, run, a);
    var s := StoreAfter(cfg, run[..a]);
    OnlyTokenRequestsIssueTokens(s, cfg, run[a].request, run[a].moment);
    TokenStepTakesCode(s, cfg, run[a].request, run[a].moment, run[a].request.code.value);
  }

  lemma SessionSteps(s: Store, cfg: Config, r: Request, m: Moment, sid: string)
    ensures r == EndSession(Some(sid)) ==> sid !in Step(s, cfg, r, m).0.sessions
    ensures r.Authorize? && r.cookie == Some(sid) && sid !in s.sessions ==> !Step(s, cfg, r, m).1.Redirected?
  {
  }

  /** After end_session no code is ever issued from that session ID. */
  lemma EndedSessionIssuesNothing(cfg: Config, run: seq<Entry>, a: nat, b: nat, sid: string)
    requires IsRun(cfg, run) && a < b < |run| && sid in Ids(run[..a])
    requires run[a].request == EndSession(Some(sid))
    requires run[b].request.Authorize? && run[b].request.cookie == Some(sid)
    ensures !run[b].response.Redirected?
  {
    EntryAt(cfg, run, a);
    EntryAt(cfg, run, b);
    SessionSteps(StoreAfter(cfg, run[..a]), cfg, run[a].request, run[a].moment, sid);
    GoneStaysGone(cfg, run, a + 1, b, sid);
    SessionSteps(StoreAfter(cfg, run[..b]), cfg, run[b].request, run[b].moment, sid);
  }
}
