/**
 When a code is handed out: every answer of `authorize` and `login` in terms of the requests of
 the run alone.
 */
module OidcAccess {
  import opened Wrappers
  import opened OidcProvider
  import opened OidcHistory

  // ----- login -----

  /** A login succeeds exactly for a registered client and redirect URI and a configured user. */
  lemma LoginSucceedsIff(cfg: Config, run: seq<Entry>, j: nat)
    requires IsRun(cfg, run) && j < |run| && run[j].request.Login?
    ensures
      var q, m := run[j].request, run[j].moment;
      run[j].response
        == if !KnownClient(cfg, q.loginClient) then Rejected("unknown client_id")
           else if !RegisteredUri(cfg, q.loginClient, q.loginUri) then Rejected("redirect_uri not registered")
           else if !KnownUser(cfg, q.username) then Rejected("unknown user")
           else LoggedIn(m.id, m.secondId, q.loginUri)
  {
    var q := run[j].request;
    EntryAt(cfg, run, j);
    Lookups(cfg, q.username, q.loginClient, q.loginUri);
  }

  // ----- authorize requests that name no session -----

  /** Asks for a code, for a registered client and redirect URI. */
  ghost predicate AsksForCode(cfg: Config, q: Request) {
    && q.Authorize? && q.responseType == Some("code") && q.clientId.Some? && q.redirectUri.Some?
    && RegisteredUri(cfg, q.clientId.value, q.redirectUri.value)
  }

  /** Why any other authorize request is refused. */
  ghost function AuthorizeRefusal(cfg: Config, q: Request): string
    requires q.Authorize?
  {
    if q.responseType != Some("code") then "response_type must be code"
    else if q.clientId.None? then "client_id required"
    else if q.redirectUri.None? then "redirect_uri required"
    else if !KnownClient(cfg, q.clientId.value) then "unknown client_id"
    else "redirect_uri not registered"
  }

  lemma AuthorizeAnswers(s: Store, cfg: Config, q: Request, m: Moment)
    requires q.Authorize?
    ensures !AsksForCode(cfg, q) ==> AuthorizeStep(s, cfg, q, m) == (s, Rejected(AuthorizeRefusal(cfg, q)))
    ensures AsksForCode(cfg, q) && (q.cookie.None? || q.cookie.value !in s.sessions) ==>
      AuthorizeStep(s, cfg, q, m) == (s, Picker)
    ensures AsksForCode(cfg, q) && q.cookie.Some? && q.cookie.value in s.sessions ==>
      var session := s.sessions[q.cookie.value];
      AuthorizeStep(s, cfg, q, m).1
        == if m.now < session.expiresAt && KnownUser(cfg, session.username)
           then Redirected(q.redirectUri.value, m.id) else Picker
  {
    if q.clientId.Some? && q.redirectUri.Some? {
      var name := if q.cookie.Some? && q.cookie.value in s.sessions then s.sessions[q.cookie.value].username else "";
      Lookups(cfg, name, q.clientId.value, q.redirectUri.value);
    }
  }

  /** No login of the run handed out this session ID before entry `j`. */
  ghost predicate NeverOpened(run: seq<Entry>, j: nat, sid: string) {
    forall i :: 0 <= i < j && i < |run| && run[i].response.LoggedIn? ==> run[i].response.sid != sid
  }

  lemma StoredWasOpened(cfg: Config, run: seq<Entry>, j: nat, sid: string)
    requires IsRun(cfg, run) && j <= |run| && sid in StoreAfter(cfg, run[..j]).sessions
    ensures !NeverOpened(run, j, sid)
  {
    var session := StoreAfter(cfg, run[..j]).sessions[sid];
    RunPrefix(cfg, run, j);
    RunIsBacked(cfg, run[..j]);
    var i: nat :| SessionOrigin(run[..j], i, sid, session);
    assert run[i] == run[..j][i];
  }

  /** Ill-formed requests are refused with their reason, and requests without the session of a
      login get the picker. */
  lemma WithoutSession(cfg: Config, run: seq<Entry>, j: nat)
    requires IsRun(cfg, run) && j < |run| && run[j].request.Authorize?
    requires var q := run[j].request;
      AsksForCode(cfg, q) ==> q.cookie.None? || NeverOpened(run, j, q.cookie.value)
    ensures run[j].response
      == if AsksForCode(cfg, run[j].request) then Picker else Rejected(AuthorizeRefusal(cfg, run[j].request))
  {
    var q, s := run[j].request, StoreAfter(cfg, run[..j]);
    EntryAt(cfg, run, j);
    AuthorizeAnswers(s, cfg, q, run[j].moment);
    if q.cookie.Some? && q.cookie.value in s.sessions {
      StoredWasOpened(cfg, run, j, q.cookie.value);
    }
  }

  // ----- authorize requests with the session of a login -----

  lemma {:induction false} TimeGoesOn(cfg: Config, run: seq<Entry>, a: nat, b: nat)
    requires IsRun(cfg, run) && a <= b < |run|
    ensures run[a].moment.now <= run[b].moment.now
  {
    if a < b {
      TimeGoesOn(cfg, run, a, b - 1);
      assert Follows(cfg, run, b);
    }
  }

  lemma SessionStep(s: Store, cfg: Config, r: Request, m: Moment, sid: string, session: Session)
    requires sid != m.id && (sid in s.sessions ==> s.sessions[sid] == session)
    ensures
      var after := Step(s, cfg, r, m).0;
      && (sid in after.sessions ==> after.sessions[sid] == session)
      && ((sid in s.sessions && r != EndSession(Some(sid)) && m.now < session.expiresAt
           && KnownUser(cfg, session.username)) ==> sid in after.sessions)
  {
    Lookups(cfg, session.username, "", "");
  }

  lemma LoginOpens(s: Store, cfg: Config, r: Request, m: Moment)
    requires Step(s, cfg, r, m).1.LoggedIn?
    ensures r.Login? && Step(s, cfg, r, m).1.sid == m.id && KnownUser(cfg, r.username)
    ensures m.id in Step(s, cfg, r, m).0.sessions
    ensures Step(s, cfg, r, m).0.sessions[m.id] == Session(r.username, m.now + 604800)
  {
    if r.Login? {
      Lookups(cfg, r.username, "", "");
    }
  }

  /** No entry after `i` and before `b` ends the session. */
  predicate NotEnded(run: seq<Entry>, i: nat, b: nat, sid: string) {
    forall k :: i < k < b && k < |run| ==> run[k].request != EndSession(Some(sid))
  }

  /** After `b` entries the session of login `i`, if it is still there, is as it was opened. */
  ghost predicate Unaltered(cfg: Config, run: seq<Entry>, i: nat, b: nat, sid: string) {
    && i < |run| && run[i].request.Login? && b <= |run| && sid in Ids(run[..b])
    && var sessions := StoreAfter(cfg, run[..b]).sessions;
    sid in sessions ==> sessions[sid] == Session(run[i].request.username, run[i].moment.now + 604800)
  }

  /** The session of login `i` has had no reason to go before `b`. */
  predicate Lasting(run: seq<Entry>, i: nat, b: nat) {
    && i < b <= |run| && run[i].response.LoggedIn? && NotEnded(run, i, b, run[i].response.sid)
    && run[b - 1].moment.now < run[i].moment.now + 604800
  }

  lemma SessionOpened(cfg: Config, run: seq<Entry>, i: nat)
    requires IsRun(cfg, run) && i < |run| && run[i].response.LoggedIn?
    ensures run[i].request.Login? && KnownUser(cfg, run[i].request.username)
    ensures Unaltered(cfg, run, i, i + 1, run[i].response.sid)
    ensures run[i].response.sid in StoreAfter(cfg, run[..i + 1]).sessions
  {
    EntryAt(cfg, run, i);
    LoginOpens(StoreAfter(cfg, run[..i]), cfg, run[i].request, run[i].moment);
  }

  lemma SessionGoesOn(cfg: Config, run: seq<Entry>, i: nat, b: nat, sid: string)
    requires IsRun(cfg, run) && i < b < |run| && Unaltered(cfg, run, i, b, sid)
    ensures Unaltered(cfg, run, i, b + 1, sid)
    ensures (sid in StoreAfter(cfg, run[..b]).sessions && run[b].request != EndSession(Some(sid))
             && KnownUser(cfg, run[i].request.username) && run[b].moment.now < run[i].moment.now + 604800)
      ==> sid in StoreAfter(cfg, run[..b + 1]).sessions
  {
    EntryAt(cfg, run, b);
    SessionStep(StoreAfter(cfg, run[..b]), cfg, run[b].request, run[b].moment, sid,
                Session(run[i].request.username, run[i].moment.now + 604800));
  }

  lemma LastingBefore(cfg: Config, run: seq<Entry>, i: nat, b: nat)
    requires IsRun(cfg, run) && Lasting(run, i, b + 1) && i < b
    ensures Lasting(run, i, b) && run[b].request != EndSession(Some(run[i].response.sid))
    ensures run[b].moment.now < run[i].moment.now + 604800
  {
    TimeGoesOn(cfg, run, b - 1, b);
  }

  lemma {:induction false} SessionUnaltered(cfg: Config, run: seq<Entry>, i: nat, b: nat)
    requires IsRun(cfg, run) && i < b <= |run| && run[i].response.LoggedIn?
    ensures Unaltered(cfg, run, i, b, run[i].response.sid)
    decreases b
  {
    if b == i + 1 {
      SessionOpened(cfg, run, i);
    } else {
      SessionUnaltered(cfg, run, i, b - 1);
      SessionGoesOn(cfg, run, i, b - 1, run[i].response.sid);
    }
  }

  lemma SessionStays(cfg: Config, run: seq<Entry>, i: nat, b: nat)
    requires IsRun(cfg, run) && i < b < |run| && run[i].response.LoggedIn?
    requires run[b].request != EndSession(Some(run[i].response.sid))
    requires run[b].moment.now < run[i].moment.now + 604800
    requires run[i].response.sid in StoreAfter(cfg, run[..b]).sessions
    ensures run[i].response.sid in StoreAfter(cfg, run[..b + 1]).sessions
  {
    SessionOpened(cfg, run, i);
    SessionUnaltered(cfg, run, i, b);
    SessionGoesOn(cfg, run, i, b, run[i].response.sid);
  }

  lemma {:induction false} SessionLasts(cfg: Config, run: seq<Entry>, i: nat, b: nat)
    requires IsRun(cfg, run) && Lasting(run, i, b)
    ensures run[i].response.sid in StoreAfter(cfg, run[..b]).sessions
    decreases b
  {
    if b == i + 1 {
      SessionOpened(cfg, run, i);
    } else {
      LastingBefore(cfg, run, i, b - 1);
      SessionLasts(cfg, run, i, b - 1);
      SessionStays(cfg, run, i, b - 1);
    }
  }

  /** What becomes of the session of login `i`: it keeps its user and expiry, and stays until it
      is ended or expires. */
  lemma SessionWaits(cfg: Config, run: seq<Entry>, i: nat, b: nat)
    requires IsRun(cfg, run) && i < b <= |run| && run[i].response.LoggedIn?
    ensures run[i].request.Login? && KnownUser(cfg, run[i].request.username)
    ensures Unaltered(cfg, run, i, b, run[i].response.sid)
    ensures Lasting(run, i, b) ==> run[i].response.sid in StoreAfter(cfg, run[..b]).sessions
  {
    SessionOpened(cfg, run, i);
    SessionUnaltered(cfg, run, i, b);
    if Lasting(run, i, b) {
      SessionLasts(cfg, run, i, b);
    }
  }

  lemma EndedIsGone(cfg: Config, run: seq<Entry>, i: nat, k: nat, j: nat, sid: string)
    requires IsRun(cfg, run) && i < k < j < |run| && run[i].response.LoggedIn? && run[i].response.sid == sid
    requires run[k].request == EndSession(Some(sid))
    ensures sid !in StoreAfter(cfg, run[..j]).sessions
  {
    SessionWaits(cfg, run, i, k);
    EntryAt(cfg, run, k);
    SessionSteps(StoreAfter(cfg, run[..k]), cfg, run[k].request, run[k].moment, sid);
    GoneStaysGone(cfg, run, k + 1, j, sid);
  }

  /** In every run: a request for a code with the session of login `i` is redirected to its URI with
      a new code exactly if it comes less than 604800 seconds after the login and the session has
      not been ended since; otherwise it gets the picker. */
  lemma AuthorizeRedirectsIff(cfg: Config, run: seq<Entry>, i: nat, j: nat)
    requires IsRun(cfg, run) && i < j < |run| && run[i].response.LoggedIn?
    requires AsksForCode(cfg, run[j].request) && run[j].request.cookie == Some(run[i].response.sid)
    ensures run[j].response
      == if run[j].moment.now < run[i].moment.now + 604800 && NotEnded(run, i, j, run[i].response.sid)
         then Redirected(run[j].request.redirectUri.value, run[j].moment.id) else Picker
  {
    var sid := run[i].response.sid;
    EntryAt(cfg, run, j);
    SessionWaits(cfg, run, i, j);
    TimeGoesOn(cfg, run, j - 1, j);
    AuthorizeAnswers(StoreAfter(cfg, run[..j]), cfg, run[j].request, run[j].moment);
    if k :| i < k < j && run[k].request == EndSession(Some(sid)) {
      EndedIsGone(cfg, run, i, k, j, sid);
    }
  }

  // ----- other requests that are refused -----

  lemma TokenAnswers(s: Store, cfg: Config, r: Request, m: Moment)
    requires r.Token? && (TokenRefusal(cfg, r) == "invalid_grant" ==> r.code.value !in s.codes)
    ensures TokenStep(s, cfg, r, m) == (s, Rejected(TokenRefusal(cfg, r)))
  {
    if ClientOf(r).Some? {
      Lookups(cfg, "", ClientOf(r).value, "");
    }
  }

  /** Why a token request without a code of the provider is refused (section 5.2 of RFC 6749). */
  ghost function TokenRefusal(cfg: Config, r: Request): string
    requires r.Token?
  {
    var sender := if r.formClient.Some? then r.formClient else r.basicClient;
    if r.grantType != Some("authorization_code") then "unsupported_grant_type"
    else if r.code.None? then "invalid_request"
    else if sender.None? || !KnownClient(cfg, sender.value) then "invalid_client"
    else "invalid_grant"
  }

  /** No entry before `b` handed out this code. */
  predicate NeverIssued(run: seq<Entry>, b: nat, c: string) {
    forall j :: 0 <= j < b && j < |run| && Issued(run[j].response).Some? ==> Issued(run[j].response).value.0 != c
  }

  lemma StoredWasIssued(cfg: Config, run: seq<Entry>, b: nat, c: string)
    requires IsRun(cfg, run) && b <= |run| && c in StoreAfter(cfg, run[..b]).codes
    ensures !NeverIssued(run, b, c)
  {
    var code := StoreAfter(cfg, run[..b]).codes[c];
    RunPrefix(cfg, run, b);
    RunIsBacked(cfg, run[..b]);
    var i: nat, j: nat :| CodeOrigin(cfg, run[..b], i, j, c, code);
    assert run[j] == run[..b][j];
  }

  /** A token request that is not well-formed, or whose code was never handed out, is refused with
      its reason. */
  lemma TokenRefused(cfg: Config, run: seq<Entry>, b: nat)
    requires IsRun(cfg, run) && b < |run| && run[b].request.Token?
    requires TokenRefusal(cfg, run[b].request) == "invalid_grant" ==> NeverIssued(run, b, run[b].request.code.value)
    ensures run[b].response == Rejected(TokenRefusal(cfg, run[b].request))
  {
    var r, s := run[b].request, StoreAfter(cfg, run[..b]);
    EntryAt(cfg, run, b);
    if r.code.Some? && r.code.value in s.codes {
      StoredWasIssued(cfg, run, b, r.code.value);
    }
    TokenAnswers(s, cfg, r, run[b].moment);
  }
  lemma StoredWasDrawn(cfg: Config, run: seq<Entry>, b: nat, t: string)
    requires IsRun(cfg, run) && b <= |run| && t in StoreAfter(cfg, run[..b]).tokens
    ensures exists k :: 0 <= k < b && run[k].request.Token? && run[k].moment.id == t
  {
    RunPrefix(cfg, run, b);
    RunIsBacked(cfg, run[..b]);
    var i: nat, j: nat, k: nat :| TokenOrigin(cfg, run[..b], i, j, k, t, StoreAfter(cfg, run[..b]).tokens[t]);
    assert run[k] == run[..b][k];
  }

  /** A userinfo request without a token, or with one that no token request drew, is refused. */
  lemma UserInfoRefused(cfg: Config, run: seq<Entry>, b: nat)
    requires IsRun(cfg, run) && b < |run| && run[b].request.UserInfo?
    requires var t := run[b].request.bearer;
      t.Some? ==> forall k :: 0 <= k < b && run[k].request.Token? ==> run[k].moment.id != t.value
    ensures run[b].response == Rejected("invalid_token")
  {
    var r, s := run[b].request, StoreAfter(cfg, run[..b]);
    EntryAt(cfg, run, b);
    if r.bearer.Some? && r.bearer.value in s.tokens {
      StoredWasDrawn(cfg, run, b, r.bearer.value);
    }
  }
}
