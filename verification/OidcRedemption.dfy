/**
 When codes and tokens do work: the exact conditions under which a code is redeemed and a token
 answers userinfo, whatever other requests came in between.
 */
module OidcRedemption {
  import opened Wrappers
  import opened OidcProvider
  import opened OidcHistory

  predicate Presents(r: Request, c: string) { r.Token? && r.code == Some(c) }

  /** The client a token request is from: the form's, or else the one of the Basic header. */
  function Sender(r: Request): Option<string>
    requires r.Token?
  {
    if r.formClient.None? then r.basicClient else r.formClient
  }

  /** A well-formed token request for `c`: the right grant type, from a configured client. */
  ghost predicate Presented(cfg: Config, r: Request, c: string) {
    && Presents(r, c) && r.grantType == Some("authorization_code")
    && Sender(r).Some? && KnownClient(cfg, Sender(r).value)
  }

  /** Only such requests get as far as the store. */
  lemma PresentedIff(cfg: Config, r: Request, c: string)
    ensures Presented(cfg, r, c) <==> Presents(r, c) && TokenPrecheck(cfg, r).None?
  {
    if r.Token? && Sender(r).Some? {
      Lookups(cfg, "", Sender(r).value, "");
    }
  }

  lemma CodeStays(s: Store, cfg: Config, r: Request, m: Moment, c: string)
    requires c in s.codes && c != m.id && c != m.secondId && !Presented(cfg, r, c)
    ensures c in Step(s, cfg, r, m).0.codes && Step(s, cfg, r, m).0.codes[c] == s.codes[c]
  {
    PresentedIff(cfg, r, c);
  }

  lemma TokenStays(s: Store, cfg: Config, r: Request, m: Moment, t: string)
    requires t in s.tokens && t != m.id
    ensures t in Step(s, cfg, r, m).0.tokens && Step(s, cfg, r, m).0.tokens[t] == s.tokens[t]
  {
  }

  /** What is stored for an issued code is what the request asked for. */
  lemma IssuedIsStored(s: Store, cfg: Config, r: Request, m: Moment)
    requires Issued(Step(s, cfg, r, m).1).Some?
    ensures
      var (c, uri) := Issued(Step(s, cfg, r, m).1).value;
      && c in {m.id, m.secondId} && c in Step(s, cfg, r, m).0.codes && uri == AskedUri(r)
      && (var code := Step(s, cfg, r, m).0.codes[c];
          && code == AskedCode(code.username, r, m.now)
          && FindUser(cfg.users, code.username).Some?
          && (if r.Login? then code.username == r.username
              else r.Authorize? && r.cookie.Some? && r.cookie.value in s.sessions
                   && s.sessions[r.cookie.value].username == code.username
                   && m.now < s.sessions[r.cookie.value].expiresAt))
  {
  }

  lemma GrantIsStored(s: Store, cfg: Config, r: Request, m: Moment)
    requires Step(s, cfg, r, m).1.TokenIssued?
    ensures
      var (after, response) := Step(s, cfg, r, m);
      && response.token == m.id && m.id in after.tokens
      && after.tokens[m.id].username == response.subject && after.tokens[m.id].expiresAt == m.now + 3600
      && FindUser(cfg.users, response.subject).Some?
  {
  }

  ghost predicate Unpresented(cfg: Config, run: seq<Entry>, from: nat, to: nat, c: string) {
    forall i :: from <= i < to && i < |run| ==> !Presented(cfg, run[i].request, c)
  }

  ghost predicate Granted(cfg: Config, run: seq<Entry>, b: nat, t: string, record: TokenRecord) {
    b <= |run| && t in Ids(run[..b]) && t in StoreAfter(cfg, run[..b]).tokens
    && StoreAfter(cfg, run[..b]).tokens[t] == record
  }

  lemma StaysGranted(cfg: Config, run: seq<Entry>, b: nat, t: string, record: TokenRecord)
    requires IsRun(cfg, run) && b < |run| && Granted(cfg, run, b, t, record)
    ensures Granted(cfg, run, b + 1, t, record)
  {
    EntryAt(cfg, run, b);
    TokenStays(StoreAfter(cfg, run[..b]), cfg, run[b].request, run[b].moment, t);
  }

  /** An issued token stays in the store, unchanged. */
  lemma {:induction false} TokenWaits(cfg: Config, run: seq<Entry>, a: nat, b: nat, t: string, record: TokenRecord)
    requires IsRun(cfg, run) && a <= b <= |run| && Granted(cfg, run, a, t, record)
    ensures Granted(cfg, run, b, t, record)
    decreases b
  {
    if a < b {
      TokenWaits(cfg, run, a, b - 1, t, record);
      StaysGranted(cfg, run, b - 1, t, record);
    }
  }

  lemma TokenOutcome(s: Store, cfg: Config, r: Request, m: Moment, c: string)
    requires Presented(cfg, r, c) && c in s.codes
    ensures
      var error, code := RedeemError(cfg, s.codes[c], r, Sender(r).value, m.now), s.codes[c];
      Step(s, cfg, r, m).1
        == if error.Some? then Rejected(error.value)
           else if m.signs then TokenIssued(m.id, code.username, Sender(r).value, code.scope, code.nonce)
           else SigningFailed
  {
    PresentedIff(cfg, r, c);
  }

  /** The conditions under which a request redeems the code that another one asked for. */
  predicate Redeems(cfg: Config, asked: Request, at: nat, r: Request, now: nat)
    requires r.Token?
  {
    && now <= at + 300 && Sender(r) == Some(AskedClient(asked))
    && (r.tokenUri.Some? ==> r.tokenUri.value == AskedUri(asked))
    && PkceMet(cfg, AskedParams(asked), r.verifier)
  }

  /** What a request that does not redeem the code is told (section 5.2 of RFC 6749; the code says
      more where only the proof is wrong). */
  function Refusal(asked: Request, at: nat, r: Request, now: nat): string
    requires r.Token?
  {
    var p := AskedParams(asked);
    if now > at + 300 || Sender(r) != Some(AskedClient(asked))
      || (r.tokenUri.Some? && r.tokenUri.value != AskedUri(asked)) then "invalid_grant"
    else if r.verifier.None? then "code_verifier required"
    else if p.challengeMethod in {None, Some("plain"), Some("S256")} then "invalid code_verifier"
    else "unsupported code_challenge_method"
  }

  lemma RedeemsIffNoError(cfg: Config, user: string, asked: Request, at: nat, r: Request, now: nat)
    requires r.Token? && Sender(r).Some? && KnownUser(cfg, user)
    ensures RedeemError(cfg, AskedCode(user, asked, at), r, Sender(r).value, now)
      == if Redeems(cfg, asked, at, r, now) then None else Some(Refusal(asked, at, r, now))
  {
    VerifiesIffMet(cfg, user, asked, at, r.verifier);
    Lookups(cfg, user, "", "");
  }

  /** The answer to the first well-formed request for a code that `asked` had asked for. */
  ghost predicate AnswersRedemption(cfg: Config, user: string, asked: Request, at: nat, r: Request, m: Moment,
                                    response: Response)
    requires r.Token?
  {
    if !Redeems(cfg, asked, at, r, m.now) then response == Rejected(Refusal(asked, at, r, m.now))
    else if !m.signs then response == SigningFailed
    else response == TokenIssued(m.id, user, AskedClient(asked), AskedScope(AskedParams(asked)),
                                 AskedParams(asked).nonce)
  }

  lemma RedemptionAnswer(s: Store, cfg: Config, user: string, asked: Request, at: nat, r: Request, m: Moment, c: string)
    requires Presented(cfg, r, c) && c in s.codes && KnownUser(cfg, user)
    requires s.codes[c] == AskedCode(user, asked, at)
    ensures AnswersRedemption(cfg, user, asked, at, r, m, Step(s, cfg, r, m).1)
  {
    TokenOutcome(s, cfg, r, m, c);
    RedeemsIffNoError(cfg, user, asked, at, r, m.now);
  }

  lemma RedeemAt(cfg: Config, run: seq<Entry>, b: nat, user: string, asked: Request, at: nat, c: string)
    requires IsRun(cfg, run) && b < |run| && Presented(cfg, run[b].request, c)
    requires Stored(cfg, run, b, c, user, asked, at)
    ensures AnswersRedemption(cfg, user, asked, at, run[b].request, run[b].moment, run[b].response)
  {
    EntryAt(cfg, run, b);
    RedemptionAnswer(StoreAfter(cfg, run[..b]), cfg, user, asked, at, run[b].request, run[b].moment, c);
  }

  /** The user a stored code speaks for had asked for it. */
  lemma IssuedOnBehalf(cfg: Config, front: seq<Entry>, run: seq<Entry>, s: Store, user: string) returns (i: nat)
    requires front < run && Backed(cfg, front, s)
    requires
      var e := run[|front|];
      if e.request.Login? then e.response.LoggedIn? && user == e.request.username
      else e.request.Authorize? && e.request.cookie.Some? && e.request.cookie.value in s.sessions
           && s.sessions[e.request.cookie.value].username == user
           && e.moment.now < s.sessions[e.request.cookie.value].expiresAt
    ensures OnBehalfOf(run, i, |front|, user)
  {
    if run[|front|].request.Login? {
      i := |front|;
    } else {
      var sid := run[|front|].request.cookie.value;
      i :| SessionOrigin(front, i, sid, s.sessions[sid]);
      assert run[i] == front[i];
    }
  }

  lemma IssuedCode(cfg: Config, run: seq<Entry>, j: nat, c: string) returns (code: AuthCode, i: nat)
    requires IsRun(cfg, run) && j < |run| && Issued(run[j].response).Some? && Issued(run[j].response).value.0 == c
    ensures c in Ids(run[..j + 1]) && c in StoreAfter(cfg, run[..j + 1]).codes
    ensures code == StoreAfter(cfg, run[..j + 1]).codes[c] && KnownUser(cfg, code.username)
    ensures
      var asked := run[j].request;
      code == AskedCode(code.username, asked, run[j].moment.now)
    ensures OnBehalfOf(run, i, j, code.username)
  {
    EntryAt(cfg, run, j);
    IssuedIsStored(StoreAfter(cfg, run[..j]), cfg, run[j].request, run[j].moment);
    code := StoreAfter(cfg, run[..j + 1]).codes[c];
    Lookups(cfg, code.username, "", "");
    RunIsBacked(cfg, run[..j]);
    OnlyLoginsLogIn(StoreAfter(cfg, run[..j]), cfg, run[j].request, run[j].moment);
    i := IssuedOnBehalf(cfg, run[..j], run, StoreAfter(cfg, run[..j]), code.username);
  }

  lemma OnlyLoginsLogIn(s: Store, cfg: Config, r: Request, m: Moment)
    requires Issued(Step(s, cfg, r, m).1).Some?
    ensures r.Login? ==> Step(s, cfg, r, m).1.LoggedIn?
  {
  }

  /** Code `c` is stored after `b` entries as `asked` had asked for it at time `at`. */
  ghost predicate Stored(cfg: Config, run: seq<Entry>, b: nat, c: string, user: string, asked: Request, at: nat) {
    && b <= |run| && c in Ids(run[..b]) && c in StoreAfter(cfg, run[..b]).codes && KnownUser(cfg, user)
    && StoreAfter(cfg, run[..b]).codes[c] == AskedCode(user, asked, at)
  }

  lemma StaysStored(cfg: Config, run: seq<Entry>, b: nat, c: string, user: string, asked: Request, at: nat)
    requires IsRun(cfg, run) && b < |run| && Stored(cfg, run, b, c, user, asked, at)
    requires !Presented(cfg, run[b].request, c)
    ensures Stored(cfg, run, b + 1, c, user, asked, at)
  {
    EntryAt(cfg, run, b);
    CodeStays(StoreAfter(cfg, run[..b]), cfg, run[b].request, run[b].moment, c);
  }

  lemma IssuedIsKept(cfg: Config, run: seq<Entry>, j: nat, c: string) returns (i: nat, user: string)
    requires IsRun(cfg, run) && j < |run| && Issued(run[j].response).Some? && Issued(run[j].response).value.0 == c
    ensures Stored(cfg, run, j + 1, c, user, run[j].request, run[j].moment.now) && OnBehalfOf(run, i, j, user)
  {
    var code;
    code, i := IssuedCode(cfg, run, j, c);
    user := code.username;
  }

  /** An issued code that nobody presents well-formed is still stored as it was asked for. */
  lemma {:induction false} WaitingCode(cfg: Config, run: seq<Entry>, j: nat, b: nat, c: string)
    returns (i: nat, user: string)
    requires IsRun(cfg, run) && j < b <= |run| && Unpresented(cfg, run, j + 1, b, c)
    requires Issued(run[j].response).Some? && Issued(run[j].response).value.0 == c
    ensures Stored(cfg, run, b, c, user, run[j].request, run[j].moment.now) && OnBehalfOf(run, i, j, user)
    decreases b
  {
    if b == j + 1 {
      i, user := IssuedIsKept(cfg, run, j, c);
    } else {
      i, user := WaitingCode(cfg, run, j, b - 1, c);
      StaysStored(cfg, run, b - 1, c, user, run[j].request, run[j].moment.now);
    }
  }

  /** The first well-formed token request for a code is answered exactly if it comes within the
      code's lifetime, from the client the code was asked for, with the redirect URI that was
      asked for if one is given, and meets the challenge that was asked for. The answer is a
      token for the user on whose behalf the code was asked for, with the client, scope and nonce
      of the request for the code, unless signing fails. */
  lemma CodeRedeemsIff(cfg: Config, run: seq<Entry>, j: nat, b: nat, c: string) returns (i: nat, user: string)
    requires IsRun(cfg, run) && j < b < |run|
    requires Issued(run[j].response).Some? && Issued(run[j].response).value.0 == c
    requires Unpresented(cfg, run, j + 1, b, c) && Presented(cfg, run[b].request, c)
    ensures OnBehalfOf(run, i, j, user)
    ensures AnswersRedemption(cfg, user, run[j].request, run[j].moment.now, run[b].request, run[b].moment,
                              run[b].response)
  {
    i, user := WaitingCode(cfg, run, j, b, c);
    RedeemAt(cfg, run, b, user, run[j].request, run[j].moment.now, c);
  }

  /** The first user configured under a name. */
  ghost predicate IsFirstUser(users: seq<User>, user: User) {
    exists i :: 0 <= i < |users| && users[i] == user && forall k :: 0 <= k < i ==> users[k].username != user.username
  }

  lemma {:induction false} FoundIsFirst(users: seq<User>, username: string)
    requires FindUser(users, username).Some?
    ensures IsFirstUser(users, FindUser(users, username).value)
  {
    if users[0].username != username {
      FoundIsFirst(users[1..], username);
      var user := FindUser(users, username).value;
      var i :| 0 <= i < |users[1..]| && users[1..][i] == user
        && forall k :: 0 <= k < i ==> users[1..][k].username != user.username;
      assert users[i + 1] == user;
      forall k | 0 <= k < i + 1 ensures users[k].username != user.username {
        assert k > 0 ==> users[k] == users[1..][k - 1];
      }
    }
  }

  lemma UserInfoOutcome(s: Store, cfg: Config, m: Moment, t: string)
    requires t in s.tokens && FindUser(cfg.users, s.tokens[t].username).Some?
    ensures
      var response := Step(s, cfg, UserInfo(Some(t)), m).1;
      if m.now <= s.tokens[t].expiresAt
      then response.Claims? && response.user.username == s.tokens[t].username && IsFirstUser(cfg.users, response.user)
      else response == Rejected("invalid_token")
  {
    FoundIsFirst(cfg.users, s.tokens[t].username);
  }

  /** An issued token answers userinfo about its subject, as configured, for exactly one hour. */
  lemma TokenAnswersIff(cfg: Config, run: seq<Entry>, k: nat, b: nat)
    requires IsRun(cfg, run) && k < b < |run| && run[k].response.TokenIssued?
    requires run[b].request == UserInfo(Some(run[k].response.token))
    ensures
      var response := run[b].response;
      if run[b].moment.now <= run[k].moment.now + 3600
      then response.Claims? && response.user.username == run[k].response.subject
           && IsFirstUser(cfg.users, response.user)
      else response == Rejected("invalid_token")
  {
    EntryAt(cfg, run, k);
    GrantIsStored(StoreAfter(cfg, run[..k]), cfg, run[k].request, run[k].moment);
    var t := run[k].response.token;
    TokenWaits(cfg, run, k + 1, b, t, StoreAfter(cfg, run[..k + 1]).tokens[t]);
    EntryAt(cfg, run, b);
    UserInfoOutcome(StoreAfter(cfg, run[..b]), cfg, run[b].moment, run[k].response.token);
  }
}
