/** Single-use authorization codes (internal/store/oidccodes.go and the
    authorize and authorization_code paths of internal/oidcserver/provider.go). */
module AuthCodes {
  import opened IdentityLoad
  import opened Integers
  import opened Options
  import opened Tables

  type Code = nat
  type Clients = map<string, Client>

  const CODE_TTL: int := 120 * SECOND
  const REAUTH_GRACE: int := 5 * SECOND

  datatype AuthRequest = AuthRequest(
    client: string,
    redirectURI: string,
    responseType: string,
    scope: string,
    nonce: string,
    challenge: string,
    challengeMethod: string,
    promptLogin: bool,
    promptNone: bool,
    maxAge: Option<int>)

  /** A browser session: who logged in, and when. */
  datatype Login = Login(user: string, at: int)

  datatype CodeRow = CodeRow(request: AuthRequest, user: string, expiresAt: int, usedAt: Option<int>)

  datatype AuthOutcome = BadRequest | ErrorRedirect(error: string) | LoginPage | Issue(row: CodeRow)

  /** The login is too old for what the request asks; the age limit is an int64
      number of nanoseconds. */
  predicate NeedsReauth(q: AuthRequest, login: Login, now: int) {
    || (q.promptLogin && now - login.at > REAUTH_GRACE)
    || (q.maxAge.Some? && q.maxAge.value >= 0 && now - login.at > Wrap64(q.maxAge.value * SECOND))
  }

  function Authorize(clients: Clients, q: AuthRequest, login: Option<Login>, now: int): AuthOutcome {
    if q.redirectURI == "" then BadRequest
    else if q.client !in clients || q.redirectURI !in clients[q.client].redirectURIs then BadRequest
    else if q.responseType != "code" then ErrorRedirect("unsupported_response_type")
    else if clients[q.client].public && (q.challenge == "" || q.challengeMethod != "S256") then
      ErrorRedirect("invalid_request")
    else if login.None? || NeedsReauth(q, login.value, now) then
      if q.promptNone then ErrorRedirect("login_required") else LoginPage
    else Issue(CodeRow(q, login.value.user, now + CODE_TTL, None))
  }

  type Rows = map<Code, CodeRow>

  /** One redemption transaction. */
  function Redeemed(rows: Rows, code: Code, now: int): (Rows, Option<CodeRow>) {
    if code !in rows || rows[code].usedAt.Some? || now > rows[code].expiresAt then (rows, None)
    else (rows[code := rows[code].(usedAt := Some(now))], Some(rows[code]))
  }

  function Swept(rows: Rows, now: int): Rows {
    map c | c in rows && rows[c].expiresAt >= now :: rows[c]
  }

  class OIDCCodeStore {
    var rows: Rows

    constructor ()
      ensures rows == map[]
    {
      rows := map[];
    }

    method Insert(code: Code, row: CodeRow) returns (ok: bool)
      modifies this
      ensures ok <==> code !in old(rows)
      ensures rows == if ok then old(rows)[code := row] else old(rows)
    {
      if code in rows {
        return false;
      }
      rows := rows[code := row];
      ok := true;
    }

    method Redeem(code: Code, now: int) returns (r: Option<CodeRow>)
      modifies this
      ensures (rows, r) == Redeemed(old(rows), code, now)
      ensures r.Some? <==> code in old(rows) && old(rows)[code].usedAt.None? && now <= old(rows)[code].expiresAt
      ensures r.Some? ==> r.value == old(rows)[code] && rows == old(rows)[code := r.value.(usedAt := Some(now))]
      ensures r.None? ==> rows == old(rows)
    {
      if code !in rows {
        return None;
      }
      var row := rows[code];
      if row.usedAt.Some? || now > row.expiresAt {
        return None;
      }
      rows := rows[code := row.(usedAt := Some(now))];
      r := Some(row);
    }

    method DeleteExpired(now: int) returns (n: nat)
      modifies this
      ensures rows == Swept(old(rows), now) && n == |old(rows)| - |rows|
      ensures forall c :: c in rows <==> c in old(rows) && !(old(rows)[c].expiresAt < now)
      ensures forall c :: c in rows ==> rows[c] == old(rows)[c]
    {
      var gone := set c | c in rows && rows[c].expiresAt < now;
      n := |gone|;
      DeletedRows(rows, gone);
      rows := rows - gone;
    }
  }

  datatype TokenRequest = TokenRequest(
    client: string,
    clientSecret: string,
    code: Code,
    verifier: string,
    redirectURI: string)

  datatype Grant = InvalidClient | InvalidGrant | Tokens(user: string, client: string, scope: string, nonce: string)

  predicate Authenticated(clients: Clients, q: TokenRequest) {
    q.client in clients && (clients[q.client].public || q.clientSecret == clients[q.client].secret)
  }

  /** The checks that follow a successful redemption; the code is spent either way. */
  function Decide(s256: string -> string, row: CodeRow, q: TokenRequest): Grant {
    if row.request.client != q.client then InvalidGrant
    else if q.redirectURI != row.request.redirectURI then InvalidGrant
    else if row.request.challenge == "" && q.verifier != "" then InvalidGrant
    else if row.request.challenge != "" && s256(q.verifier) != row.request.challenge then InvalidGrant
    else Tokens(row.user, q.client, row.request.scope, row.request.nonce)
  }

  function Exchange(s256: string -> string, clients: Clients, rows: Rows, q: TokenRequest, now: int): (Rows, Grant) {
    if !Authenticated(clients, q) then (rows, InvalidClient)
    else
      var (after, row) := Redeemed(rows, q.code, now);
      (after, if row.None? then InvalidGrant else Decide(s256, row.value, q))
  }

  // ---- Runs over all replicas; each request brings the client list its replica holds

  datatype Request =
    | Tick(to: int)
    | Visit(clients: Clients, q: AuthRequest, login: Option<Login>, code: Code)
    | Trade(clients: Clients, t: TokenRequest)
    | Sweep

  /** The record, as an observer keeps it: which request a code was issued for, and
      every request for tokens with its answer. */
  datatype Entry =
    | Issued(code: Code, client: Client, q: AuthRequest, user: string, at: int)
    | Traded(t: TokenRequest, grant: Grant, at: int)

  datatype System = System(now: int, rows: Rows, log: seq<Entry>)

  function Step(s256: string -> string, s: System, r: Request): System {
    match r
    case Tick(to) => if to >= s.now then s.(now := to) else s
    case Visit(clients, q, login, code) =>
      var o := Authorize(clients, q, login, s.now);
      if o.Issue? && code !in s.rows && q.client in clients
      then s.(rows := s.rows[code := o.row], log := s.log + [Issued(code, clients[q.client], q, o.row.user, s.now)])
      else s
    case Trade(clients, t) =>
      var (rows, grant) := Exchange(s256, clients, s.rows, t, s.now);
      s.(rows := rows, log := s.log + [Traded(t, grant, s.now)])
    case Sweep => s.(rows := Swept(s.rows, s.now))
  }

  function Issuance(log: seq<Entry>, code: Code): (r: Option<Entry>)
    ensures r.Some? ==> r.value.Issued? && r.value.code == code && r.value in log
  {
    if log == [] then None else
      var e := log[|log| - 1];
      if e.Issued? && e.code == code then Some(e) else Issuance(log[..|log| - 1], code)
  }

  /** How often an authenticated client presented the code after it was issued and
      before it expired. */
  function Presented(log: seq<Entry>, code: Code): nat {
    if log == [] then 0 else
      var e, before := log[|log| - 1], log[..|log| - 1];
      if e.Issued? && e.code == code then 0
      else Presented(before, code) + if Presents(before, e, code) then 1 else 0
  }

  predicate Presents(log: seq<Entry>, e: Entry, code: Code) {
    && e.Traded? && e.t.code == code && e.grant != InvalidClient
    && Issuance(log, code).Some? && e.at <= Issuance(log, code).value.at + CODE_TTL
  }

  const START := System(0, map[], [])

  function After(s256: string -> string, run: seq<Request>): System {
    if run == [] then START else Step(s256, After(s256, run[..|run| - 1]), run[|run| - 1])
  }

  /** Generated codes are new. */
  predicate IsRun(s256: string -> string, run: seq<Request>) {
    run == [] ||
    (IsRun(s256, run[..|run| - 1]) &&
     (run[|run| - 1].Visit? ==> Issuance(After(s256, run[..|run| - 1]).log, run[|run| - 1].code).None?))
  }

  /** The table agrees with the record: a row is its issuance, used exactly when it
      was presented; a code without a row was never issued or has expired. */
  ghost predicate RowMatches(s: System, code: Code) {
    var i := Issuance(s.log, code);
    if code in s.rows then
      && i.Some?
      && s.rows[code].request == i.value.q && s.rows[code].user == i.value.user
      && s.rows[code].expiresAt == i.value.at + CODE_TTL
      && s.rows[code].usedAt.Some? == (Presented(s.log, code) > 0)
    else i.Some? ==> s.now > i.value.at + CODE_TTL
  }

  /** A new code and its entry. */
  ghost predicate IssuedTo(s: System, s': System, e: Entry) {
    && e.Issued? && e.at == s.now && e.code !in s.rows
    && s' == s.(rows := s.rows[e.code := CodeRow(e.q, e.user, s.now + CODE_TTL, None)], log := Appended(s.log, e))
  }

  /** The code may be taken by an authenticated client. */
  predicate Redeemable(s: System, code: Code) {
    code in s.rows && s.rows[code].usedAt.None? && s.now <= s.rows[code].expiresAt
  }

  /** A request for tokens: it uses up the code it takes. */
  ghost predicate TradedTo(s: System, s': System, e: Entry) {
    && e.Traded? && e.at == s.now && s'.now == s.now && s'.log == Appended(s.log, e)
    && s'.rows == if e.grant != InvalidClient && Redeemable(s, e.t.code)
                  then s.rows[e.t.code := s.rows[e.t.code].(usedAt := Some(s.now))] else s.rows
  }

  function Appended(log: seq<Entry>, e: Entry): (r: seq<Entry>)
    ensures |r| == |log| + 1 && r[..|log|] == log && r[|log|] == e
  {
    log + [e]
  }

  lemma IssuedRow(s: System, s': System, e: Entry, code: Code)
    requires RowMatches(s, code) && IssuedTo(s, s', e) && Issuance(s.log, e.code).None?
    ensures RowMatches(s', code)
  {
  }

  lemma TradedRow(s: System, s': System, e: Entry, code: Code)
    requires RowMatches(s, code) && TradedTo(s, s', e)
    ensures RowMatches(s', code)
  {
  }

  lemma SweepRow(s256: string -> string, s: System, code: Code)
    requires RowMatches(s, code)
    ensures RowMatches(Step(s256, s, Sweep), code)
  {
  }

  lemma VisitStep(s256: string -> string, s: System, r: Request) returns (e: Entry)
    requires r.Visit?
    ensures Step(s256, s, r) == s || (IssuedTo(s, Step(s256, s, r), e) && e.code == r.code)
  {
    var o := Authorize(r.clients, r.q, r.login, s.now);
    e := Traded(TokenRequest("", "", 0, "", ""), InvalidGrant, 0);
    if o.Issue? && r.q.client in r.clients {
      e := Issued(r.code, r.clients[r.q.client], r.q, o.row.user, s.now);
    }
  }

  lemma TradeStep(s256: string -> string, s: System, r: Request) returns (e: Entry)
    requires r.Trade?
    ensures TradedTo(s, Step(s256, s, r), e) && e.t == r.t
    ensures e.grant == Exchange(s256, r.clients, s.rows, r.t, s.now).1
  {
    e := Traded(r.t, Exchange(s256, r.clients, s.rows, r.t, s.now).1, s.now);
  }

  lemma {:induction false} RowsMatch(s256: string -> string, run: seq<Request>, code: Code)
    requires IsRun(s256, run)
    ensures RowMatches(After(s256, run), code)
  {
    if run != [] {
      var s, s', r := After(s256, run[..|run| - 1]), After(s256, run), run[|run| - 1];
      RowsMatch(s256, run[..|run| - 1], code);
      match r
      case Tick(_) =>
      case Visit(_, _, _, _) =>
        var e := VisitStep(s256, s, r);
        if s' != s {
          IssuedRow(s, s', e, code);
        }
      case Trade(_, _) =>
        var e := TradeStep(s256, s, r);
        TradedRow(s, s', e, code);
      case Sweep => SweepRow(s256, s, code);
    }
  }

  // ---- Issuing

  /** A login recent enough for what the request asks. */
  predicate FreshLogin(q: AuthRequest, login: Option<Login>, now: int) {
    && login.Some?
    && (q.promptLogin ==> now - login.value.at <= 5_000_000_000)
    && (q.maxAge.Some? && q.maxAge.value >= 0 ==> now - login.value.at <= Wrap64(q.maxAge.value * 1_000_000_000))
  }

  /** A request that may be answered at its redirect URI, and with a code. */
  predicate Answerable(clients: Clients, q: AuthRequest) {
    && q.redirectURI != "" && q.client in clients && q.redirectURI in clients[q.client].redirectURIs
    && q.responseType == "code"
    && (clients[q.client].public ==> q.challenge != "" && q.challengeMethod == "S256")
  }

  /** What the authorization endpoint answers, outcome by outcome: a code exactly for
      an answerable request with a fresh login; without one the login page, or an
      error if the request forbids it; an error page, never a redirect, when the
      redirect URI is not registered. */
  lemma AuthorizeExactly(clients: Clients, q: AuthRequest, login: Option<Login>, now: int)
    ensures var o := Authorize(clients, q, login, now);
            && (o == BadRequest <==>
                  !(q.redirectURI != "" && q.client in clients && q.redirectURI in clients[q.client].redirectURIs))
            && (o == LoginPage <==> Answerable(clients, q) && !FreshLogin(q, login, now) && !q.promptNone)
            && (o == ErrorRedirect("login_required") <==>
                  Answerable(clients, q) && !FreshLogin(q, login, now) && q.promptNone)
            && (o == ErrorRedirect("unsupported_response_type") <==> o != BadRequest && q.responseType != "code")
            && (o == ErrorRedirect("invalid_request") <==>
                  && o != BadRequest && q.responseType == "code"
                  && clients[q.client].public && (q.challenge == "" || q.challengeMethod != "S256"))
            && (o.Issue? <==> Answerable(clients, q) && FreshLogin(q, login, now))
  {
  }

  /** In every run a visit is recorded as an issued code, for the user who is logged
      in, exactly when it is answered with one. */
  lemma VisitDecided(s256: string -> string, run: seq<Request>, clients: Clients, q: AuthRequest,
                     login: Option<Login>, code: Code)
    requires IsRun(s256, run) && Issuance(After(s256, run).log, code).None?
    ensures var s := After(s256, run);
            Step(s256, s, Visit(clients, q, login, code)).log == s.log +
            if Answerable(clients, q) && FreshLogin(q, login, s.now)
            then [Issued(code, clients[q.client], q, login.value.user, s.now)] else []
  {
    RowsMatch(s256, run, code);
  }

  /** What was true of an issuance when it happened. */
  predicate ProperlyIssued(e: Entry)
    requires e.Issued?
  {
    && e.q.redirectURI != "" && e.q.redirectURI in e.client.redirectURIs && e.q.responseType == "code"
    && (e.client.public ==> e.q.challenge != "" && e.q.challengeMethod == "S256")
  }

  lemma {:induction false} IssuancesProper(s256: string -> string, run: seq<Request>, e: Entry)
    requires e in After(s256, run).log && e.Issued?
    ensures ProperlyIssued(e)
  {
    if run != [] {
      var s := After(s256, run[..|run| - 1]);
      if e in s.log {
        IssuancesProper(s256, run[..|run| - 1], e);
      } else {
        assert run[|run| - 1].Visit?;
      }
    }
  }

  /** The visit from which a code was issued. */
  predicate IssuedFrom(e: Entry, v: Request, at: int)
    requires e.Issued?
  {
    && v.Visit? && v.code == e.code && v.q == e.q && v.q.client in v.clients && v.clients[v.q.client] == e.client
    && v.login.Some? && v.login.value.user == e.user && e.at == at
    && (v.q.promptLogin ==> at - v.login.value.at <= REAUTH_GRACE)
    && (v.q.maxAge.Some? && v.q.maxAge.value >= 0 ==> at - v.login.value.at <= v.q.maxAge.value * SECOND)
  }

  /** Every issued code goes back to one visit by a browser logged in as that user,
      with a login as recent as the request asked for, to the client as its replica
      held it then. */
  lemma {:induction false} IssuedByVisit(s256: string -> string, run: seq<Request>, e: Entry) returns (n: nat)
    requires e in After(s256, run).log && e.Issued?
    ensures n < |run| && IssuedFrom(e, run[n], After(s256, run[..n]).now)
  {
    var before := run[..|run| - 1];
    if e in After(s256, before).log {
      n := IssuedByVisit(s256, before, e);
      assert before[..n] == run[..n];
    } else {
      n := |run| - 1;
      if run[n].Visit? && run[n].q.maxAge.Some? && run[n].q.maxAge.value >= 0 {
        WrappedLimit(run[n].q.maxAge.value);
      }
    }
  }

  /** A wrapped age limit is never above the true one. */
  lemma WrappedLimit(seconds: nat)
    ensures Wrap64(seconds * SECOND) <= seconds * SECOND
  {
  }

  // ---- Redeeming

  /** A code yields tokens exactly when an authenticated client presents a code
      issued to it, never presented before, within two minutes, repeating the
      redirect URI and proving possession of the key; the tokens carry the user,
      scope and nonce of that one issuance. */
  lemma TradeDecidedByRecord(s256: string -> string, run: seq<Request>, clients: Clients, t: TokenRequest)
    requires IsRun(s256, run)
    ensures var s := After(s256, run);
            var i := Issuance(s.log, t.code);
            var grant := Exchange(s256, clients, s.rows, t, s.now).1;
            && (grant.InvalidClient? <==>
                  !(t.client in clients && (clients[t.client].public || t.clientSecret == clients[t.client].secret)))
            && (grant.Tokens? <==>
                  && !grant.InvalidClient? && i.Some? && Presented(s.log, t.code) == 0
                  && s.now <= i.value.at + 120_000_000_000 && i.value.q.client == t.client
                  && i.value.q.redirectURI == t.redirectURI
                  && (if i.value.q.challenge == "" then t.verifier == "" else s256(t.verifier) == i.value.q.challenge))
            && (grant.Tokens? ==> grant == Tokens(i.value.user, t.client, i.value.q.scope, i.value.q.nonce))
  {
    RowsMatch(s256, run, t.code);
  }

  /** The code was issued less than two minutes ago. */
  predicate LiveCode(s: System, code: Code) {
    Issuance(s.log, code).Some? && s.now <= Issuance(s.log, code).value.at + 120_000_000_000
  }

  /** Every request for tokens is recorded with its answer, and an authenticated
      one, granted or refused, counts against the code that it presents. */
  lemma TradeRecorded(s256: string -> string, run: seq<Request>, clients: Clients, t: TokenRequest)
    requires IsRun(s256, run)
    ensures var s := After(s256, run);
            var s', grant := Step(s256, s, Trade(clients, t)), Exchange(s256, clients, s.rows, t, s.now).1;
            && s'.log == s.log + [Traded(t, grant, s.now)]
            && (grant != InvalidClient && LiveCode(s, t.code) ==> Presented(s'.log, t.code) > 0)
            && (grant == InvalidClient ==> forall code :: Presented(s'.log, code) == Presented(s.log, code))
  {
    var e := TradeStep(s256, After(s256, run), Trade(clients, t));
  }

  /** A code lives for two minutes, however the clock moves. */
  lemma TimeEndsCode(s256: string -> string, run: seq<Request>, code: Code, to: int)
    requires to >= After(s256, run).now
    ensures var s := After(s256, run);
            LiveCode(Step(s256, s, Tick(to)), code) <==>
            Issuance(s.log, code).Some? && to <= Issuance(s.log, code).value.at + 120_000_000_000
  {
  }

  /** Right after a sweep the table holds exactly the codes of the last two minutes. */
  lemma SweepLeavesLive(s256: string -> string, run: seq<Request>, code: Code)
    requires IsRun(s256, run)
    ensures code in Step(s256, After(s256, run), Sweep).rows <==> LiveCode(After(s256, run), code)
  {
    RowsMatch(s256, run, code);
  }

  /** A code that gave tokens gives none again, whoever presents it, with whatever
      and whenever; nor does one that was presented and refused. */
  lemma NoReplay(s256: string -> string, clients: Clients, rows: Rows, t: TokenRequest, now: int,
                 clients': Clients, t': TokenRequest, now': int)
    requires t'.code == t.code && now' >= now
    requires Exchange(s256, clients, rows, t, now).1 != InvalidClient
    ensures var after := Exchange(s256, clients, rows, t, now).0;
            && !Exchange(s256, clients', after, t', now').1.Tokens?
            && (forall code :: code in rows && code != t.code ==> code in after && after[code] == rows[code])
  {
  }

  /** The token pairs that a code yielded. */
  function Yields(log: seq<Entry>, code: Code): nat {
    if log == [] then 0 else
      var e := log[|log| - 1];
      Yields(log[..|log| - 1], code) + if e.Traded? && e.t.code == code && e.grant.Tokens? then 1 else 0
  }

  /** Whatever yielded tokens was presented. */
  ghost predicate YieldInv(log: seq<Entry>, code: Code) {
    && Yields(log, code) <= 1 && (Yields(log, code) == 1 ==> Presented(log, code) > 0)
    && (Issuance(log, code).None? ==> Yields(log, code) == 0)
  }

  lemma TradeYields(log: seq<Entry>, e: Entry, code: Code)
    requires YieldInv(log, code) && e.Traded?
    requires e.t.code == code && e.grant.Tokens? ==> Presented(log, code) == 0 && Presents(log, e, code)
    ensures YieldInv(Appended(log, e), code)
  {
  }

  lemma IssueYields(log: seq<Entry>, e: Entry, code: Code)
    requires YieldInv(log, code) && e.Issued? && Issuance(log, e.code).None?
    ensures YieldInv(Appended(log, e), code)
  {
  }

  lemma {:induction false} YieldsOnce(s256: string -> string, run: seq<Request>, code: Code)
    requires IsRun(s256, run)
    ensures YieldInv(After(s256, run).log, code)
  {
    if run != [] {
      var before, r := run[..|run| - 1], run[|run| - 1];
      var s, s' := After(s256, before), After(s256, run);
      YieldsOnce(s256, before, code);
      if r.Visit? {
        var e := VisitStep(s256, s, r);
        if s' != s {
          IssueYields(s.log, e, code);
        }
      } else if r.Trade? {
        var e := TradeStep(s256, s, r);
        TradeDecidedByRecord(s256, before, r.clients, r.t);
        TradeYields(s.log, e, code);
      }
    }
  }

  /** A recorded token pair: it repeats an issuance recorded for its code. */
  ghost predicate Justified(s256: string -> string, log: seq<Entry>, e: Entry)
    requires e.Traded?
  {
    e.grant.Tokens? ==>
      exists i :: i in log && i.Issued? && i.code == e.t.code && ProperlyIssued(i) &&
        e.grant == Tokens(i.user, i.q.client, i.q.scope, i.q.nonce) && e.t.redirectURI == i.q.redirectURI &&
        (i.client.public ==> s256(e.t.verifier) == i.q.challenge)
  }

  lemma JustifiedLater(s256: string -> string, log: seq<Entry>, longer: seq<Entry>, e: Entry)
    requires e.Traded? && Justified(s256, log, e) && forall i :: i in log ==> i in longer
    ensures Justified(s256, longer, e)
  {
  }

  lemma {:induction false} TokensJustified(s256: string -> string, run: seq<Request>, e: Entry)
    requires IsRun(s256, run) && e in After(s256, run).log && e.Traded?
    ensures Justified(s256, After(s256, run).log, e)
  {
    if run != [] {
      var before, r := run[..|run| - 1], run[|run| - 1];
      var s := After(s256, before);
      if e in s.log {
        TokensJustified(s256, before, e);
      } else {
        assert r.Trade? && e.t == r.t;
        TradeDecidedByRecord(s256, before, r.clients, r.t);
        if e.grant.Tokens? {
          IssuancesProper(s256, before, Issuance(s.log, r.t.code).value);
        }
      }
      JustifiedLater(s256, s.log, After(s256, run).log, e);
    }
  }

  /** In every interleaving each code yields at most one token pair, and every
      pair repeats the user, client, scope and nonce of one earlier authorization
      with a redirect URI registered then and repeated at redemption; if the
      client was public at issue, the verifier hashes to the stored challenge. */
  lemma {:induction false} CodesAreSingleUse(s256: string -> string, run: seq<Request>, code: Code)
    requires IsRun(s256, run)
    ensures Yields(After(s256, run).log, code) <= 1
    ensures forall e :: e in After(s256, run).log && e.Traded? ==> Justified(s256, After(s256, run).log, e)
  {
    YieldsOnce(s256, run, code);
    forall e | e in After(s256, run).log && e.Traded? ensures Justified(s256, After(s256, run).log, e) {
      TokensJustified(s256, run, e);
    }
  }
}
