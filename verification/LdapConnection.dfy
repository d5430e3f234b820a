/** One LDAP connection: binds, StartTLS and access to searches
    (internal/ldapserver/server.go, bind.go, extended.go, search.go). */
module LdapConnection {
  import Identity
  import opened Directory
  import opened DistinguishedNames
  import opened Flattening
  import opened Integers
  import opened Options
  import opened Paging

  datatype Server = Server(
    directory: Config,
    requireTLS: bool,
    allowAnonymous: bool,
    readersGroup: string,
    offersTLS: bool)

  /** What a search reads: the snapshot's names in iteration order, the
      memberships, and the users and groups with stored Samba data. */
  datatype View = View(names: Listing, memberOf: map<string, seq<string>>, creds: set<string>, rids: set<string>)

  /** Decoded requests. `verdict` is what the authenticator answers for the name
      and password; `sent` and `handshake` say whether the StartTLS response could
      be written and the handshake succeeded. */
  datatype Request =
    | Bind(wellFormed: bool, simple: bool, name: string, password: string, verdict: Option<string>)
    | Search(
        wellFormed: bool,
        baseObject: string,
        scope: int,
        filter: Option<Entry -> bool>,
        page: Option<PageRequest>,
        view: View)
    | Extended(wellFormed: bool, startTLS: bool, sent: bool, handshake: bool)
    | Unbind
    | Abandon
    | Write
    | Unknown
    | Unreadable

  datatype Code =
    | Success
    | ProtocolError
    | OperationsError
    | Unavailable
    | ConfidentialityRequired
    | AuthMethodNotSupported
    | UnwillingToPerform
    | InvalidCredentials
    | InsufficientAccessRights
    | UnavailableCriticalExtension

  /** What the server did with a request. */
  datatype Response =
    | BindResult(code: Code, user: Option<string>)
    | SearchResult(code: Code, entries: seq<Entry>)
    | ExtendedResult(code: Code, upgraded: bool)
    | Refused(code: Code)
    | Ignored
    | Closed
    | Panicked

  function HandleBind(s: Server, isTLS: bool, q: Request): (r: Response)
    requires q.Bind?
    ensures r.BindResult?
  {
    if !q.wellFormed then BindResult(ProtocolError, None)
    else if s.requireTLS && !isTLS then BindResult(ConfidentialityRequired, None)
    else if !q.simple then BindResult(AuthMethodNotSupported, None)
    else if q.name == "" && q.password == "" then
      BindResult(if s.allowAnonymous then Success else UnwillingToPerform, None)
    else if UsernameFromBindDN(s.directory.base, q.name).None? then BindResult(InvalidCredentials, None)
    else if q.verdict.None? then BindResult(InvalidCredentials, None)
    else BindResult(Success, q.verdict)
  }

  function HandleExtended(s: Server, isTLS: bool, q: Request): (r: Response)
    requires q.Extended?
    ensures r.ExtendedResult? || r == Closed
  {
    if !q.wellFormed || !q.startTLS then ExtendedResult(ProtocolError, false)
    else if isTLS then ExtendedResult(OperationsError, false)
    else if !s.offersTLS then ExtendedResult(Unavailable, false)
    else if !q.sent || !q.handshake then Closed
    else ExtendedResult(Success, true)
  }

  predicate IsProbe(q: Request)
    requires q.Search?
  {
    q.baseObject == "" && q.scope == BASE_OBJECT
  }

  predicate Privileged(s: Server, bound: string, v: View) {
    s.readersGroup != "" && bound != "" && s.readersGroup in Row(v.memberOf, bound)
  }

  function Context(s: Server, bound: string, v: View): SambaContext {
    SambaContext(Privileged(s, bound, v), v.creds, v.rids)
  }

  /** Everything the search matches, before it is cut into pages. */
  function Answer(s: Server, bound: string, q: Request): seq<Entry> {
    if q.Search? && q.filter.Some?
    then Matched(s.directory, q.view.names, Context(s, bound, q.view), q.baseObject, q.scope, q.filter.value)
    else []
  }

  /** A page whose slice bounds are out of order ends the whole program: nothing
      recovers from the panic. */
  function HandleSearch(s: Server, isTLS: bool, bound: string, q: Request, answer: seq<Entry>): (r: Response)
    requires q.Search?
    ensures r.SearchResult? || r == Panicked
  {
    if !q.wellFormed then SearchResult(ProtocolError, [])
    else if s.requireTLS && !isTLS && !IsProbe(q) then SearchResult(ConfidentialityRequired, [])
    else if bound == "" && !s.allowAnonymous && !IsProbe(q) then SearchResult(InsufficientAccessRights, [])
    else if q.filter.None? then SearchResult(UnavailableCriticalExtension, [])
    else if q.page.None? then SearchResult(Success, answer)
    else
      var page := Sliced(answer, q.page.value);
      if page.None? then Panicked else SearchResult(Success, page.value.entries)
  }

  // ---- Reading the connection's record

  /** The name of the latest successful authenticating bind since the last TLS
      upgrade, or the empty name. */
  function BoundName(log: seq<Response>): string {
    if log == [] then "" else
      match log[|log| - 1]
      case BindResult(_, Some(user)) => user
      case ExtendedResult(_, true) => ""
      case _ => BoundName(log[..|log| - 1])
  }

  predicate OnTLS(fromStart: bool, log: seq<Response>) {
    if log == [] then fromStart
    else log[|log| - 1] == ExtendedResult(Success, true) || OnTLS(fromStart, log[..|log| - 1])
  }

  /** The response to a request in a given state of the connection, when a search
      would match `answer`. */
  function RespondIn(s: Server, isTLS: bool, bound: string, q: Request, answer: seq<Entry>): Response {
    match q
    case Bind(_, _, _, _, _) => HandleBind(s, isTLS, q)
    case Search(_, _, _, _, _, _) => HandleSearch(s, isTLS, bound, q, answer)
    case Extended(_, _, _, _) => HandleExtended(s, isTLS, q)
    case Unbind => Closed
    case Abandon => Ignored
    case Write => Refused(UnwillingToPerform)
    case Unknown => Closed
    case Unreadable => Closed
  }

  /** The response to a request after a given record. */
  function Respond(s: Server, fromStart: bool, log: seq<Response>, q: Request): Response {
    RespondIn(s, OnTLS(fromStart, log), BoundName(log), q, Answer(s, BoundName(log), q))
  }

  predicate Answers(s: Server, fromStart: bool, requests: seq<Request>, log: seq<Response>, i: nat)
    requires i < |log| <= |requests|
  {
    log[i] == Respond(s, fromStart, log[..i], requests[i])
  }

  predicate Ends(r: Response) {
    r == Closed || r == Panicked
  }

  /** Every response is the one its request calls for, given what went before;
      nothing follows the end of the connection, and nothing is left unanswered
      before it. */
  ghost predicate IsSession(s: Server, fromStart: bool, requests: seq<Request>, log: seq<Response>) {
    && |log| <= |requests|
    && (forall i :: 0 <= i < |log| ==> Answers(s, fromStart, requests, log, i))
    && (forall i :: 0 <= i < |log| - 1 ==> !Ends(log[i]))
    && (|log| < |requests| ==> log != [] && Ends(log[|log| - 1]))
  }

  /** One turn of the connection loop. */
  method Serve(s: Server, isTLS: bool, bindUsername: string, q: Request)
    returns (response: Response, isTLS': bool, bindUsername': string)
    ensures response == RespondIn(s, isTLS, bindUsername, q, Answer(s, bindUsername, q))
    ensures isTLS' <==> isTLS || response == ExtendedResult(Success, true)
    ensures bindUsername' == if response.BindResult? && response.user.Some? then response.user.value
                             else if response.ExtendedResult? && response.upgraded then "" else bindUsername
  {
    response, isTLS', bindUsername' := Closed, isTLS, bindUsername;
    match q {
      case Bind(_, _, _, _, _) =>
        response := HandleBind(s, isTLS, q);
        if response.user.Some? {
          bindUsername' := response.user.value;
        }
      case Search(_, _, _, _, _, _) =>
        response := HandleSearch(s, isTLS, bindUsername, q, Answer(s, bindUsername, q));
      case Extended(_, _, _, _) =>
        response := HandleExtended(s, isTLS, q);
        if response.ExtendedResult? && response.upgraded {
          isTLS', bindUsername' := true, "";
        }
      case Abandon => response := Ignored;
      case Write => response := Refused(UnwillingToPerform);
      case Unbind =>
      case Unknown =>
      case Unreadable =>
    }
  }

  /** The connection loop: two variables carry all that the record says. */
  method HandleConn(s: Server, fromStart: bool, requests: seq<Request>) returns (log: seq<Response>)
    ensures IsSession(s, fromStart, requests, log)
  {
    log := [];
    var isTLS, bindUsername := fromStart, "";
    for i := 0 to |requests|
      invariant |log| == i
      invariant isTLS == OnTLS(fromStart, log) && bindUsername == BoundName(log)
      invariant forall k :: 0 <= k < i ==> Answers(s, fromStart, requests, log, k)
      invariant forall k :: 0 <= k < i ==> !Ends(log[k])
    {
      var response;
      ghost var before := log;
      response, isTLS, bindUsername := Serve(s, isTLS, bindUsername, requests[i]);
      RecordGrows(fromStart, log, response);
      log := log + [response];
      AnswersStay(s, fromStart, requests, before, response);
      if Ends(response) {
        return;
      }
    }
  }

  /** Later responses leave the earlier ones as the record called for them. */
  lemma AnswersStay(s: Server, fromStart: bool, requests: seq<Request>, log: seq<Response>, r: Response)
    requires |log| < |requests| && forall k :: 0 <= k < |log| ==> Answers(s, fromStart, requests, log, k)
    ensures forall k :: 0 <= k < |log| ==> Answers(s, fromStart, requests, log + [r], k)
    ensures (log + [r])[..|log|] == log
  {
    forall k | 0 <= k < |log| ensures Answers(s, fromStart, requests, log + [r], k) {
      assert (log + [r])[..k] == log[..k] && Answers(s, fromStart, requests, log, k);
    }
  }

  lemma RecordGrows(fromStart: bool, log: seq<Response>, r: Response)
    ensures BoundName(log + [r]) ==
            if r.BindResult? && r.user.Some? then r.user.value
            else if r.ExtendedResult? && r.upgraded then "" else BoundName(log)
    ensures OnTLS(fromStart, log + [r]) <==> OnTLS(fromStart, log) || r == ExtendedResult(Success, true)
  {
    assert (log + [r])[..|log|] == log && (log + [r])[|log|] == r;
  }

  /** A bind that authenticates as `user`. */
  predicate Authenticates(s: Server, isTLS: bool, q: Request, user: string) {
    && q.Bind? && q.wellFormed && q.simple && (q.name != "" || q.password != "")
    && (s.requireTLS ==> isTLS) && UsernameFromBindDN(s.directory.base, q.name).Some? && q.verdict == Some(user)
  }

  lemma RespondBinds(s: Server, isTLS: bool, bound: string, q: Request, answer: seq<Entry>, user: string)
    ensures var r := RespondIn(s, isTLS, bound, q, answer);
            r.BindResult? && r.user == Some(user) <==> Authenticates(s, isTLS, q, user)
  {
  }

  /** A response reports a bound user exactly for a bind that authenticates. */
  lemma BindReportsAuthentication(s: Server, fromStart: bool, requests: seq<Request>, log: seq<Response>, k: nat,
                                  user: string)
    requires IsSession(s, fromStart, requests, log) && k < |log|
    ensures log[k].BindResult? && log[k].user == Some(user) <==>
            Authenticates(s, OnTLS(fromStart, log[..k]), requests[k], user)
  {
    var before, q := log[..k], requests[k];
    assert Answers(s, fromStart, requests, log, k);
    RespondBinds(s, OnTLS(fromStart, before), BoundName(before), q, Answer(s, BoundName(before), q), user);
  }

  /** Under RequireTLS nobody is ever bound on a plaintext connection. */
  lemma {:induction false} BoundOnlyOnTLS(s: Server, fromStart: bool, requests: seq<Request>, log: seq<Response>,
                                          n: nat)
    requires IsSession(s, fromStart, requests, log) && n <= |log| && s.requireTLS
    ensures BoundName(log[..n]) != "" ==> OnTLS(fromStart, log[..n])
  {
    if n > 0 {
      BoundOnlyOnTLS(s, fromStart, requests, log, n - 1);
      assert log[..n] == log[..n - 1] + [log[n - 1]];
      RecordGrows(fromStart, log[..n - 1], log[n - 1]);
      if log[n - 1].BindResult? && log[n - 1].user.Some? {
        BindReportsAuthentication(s, fromStart, requests, log, n - 1, log[n - 1].user.value);
      }
    }
  }

  /** The response decides anew who is bound. */
  predicate Decides(r: Response) {
    (r.BindResult? && r.user.Some?) || (r.ExtendedResult? && r.upgraded)
  }

  /** Response `j` is the latest that decides, and it reports `user`. */
  predicate LatestBind(log: seq<Response>, j: nat, user: string) {
    && j < |log| && log[j].BindResult? && log[j].user == Some(user)
    && forall k :: j < k < |log| ==> !Decides(log[k])
  }

  lemma LatestBindGrows(log: seq<Response>, r: Response, j: nat, user: string)
    ensures LatestBind(log + [r], j, user) <==>
            if j == |log| then r.BindResult? && r.user == Some(user) else LatestBind(log, j, user) && !Decides(r)
  {
    var longer := log + [r];
    assert forall k :: 0 <= k < |log| ==> longer[k] == log[k];
    assert longer[|log|] == r;
  }

  /** The bound name is that of the latest successful authenticating bind since the
      last TLS upgrade; it is empty if there is none. */
  lemma {:induction false} BoundByLatestBind(log: seq<Response>, user: string)
    requires user != ""
    ensures BoundName(log) == user <==> exists j: nat :: LatestBind(log, j, user)
  {
    if log != [] {
      var before, r := log[..|log| - 1], log[|log| - 1];
      assert log == before + [r];
      BoundByLatestBind(before, user);
      forall j: nat { LatestBindGrows(before, r, j, user); }
      if !Decides(r) && BoundName(before) == user {
        var j: nat :| LatestBind(before, j, user);
        assert LatestBind(log, j, user);
      }
      if r.BindResult? && r.user == Some(user) {
        assert LatestBind(log, |before|, user);
      }
    }
  }

  lemma {:induction false} FilterKeepsMembers(keep: Entry -> bool, es: seq<Entry>, e: Entry)
    ensures e in Filter(keep, es) <==> e in es && keep(e)
  {
    if es != [] {
      FilterKeepsMembers(keep, es[..|es| - 1], e);
      assert es == es[..|es| - 1] + [es[|es| - 1]];
    }
  }

  /** A search shows an entry exactly when it selects it and the filter keeps it. */
  lemma MatchedMembers(c: Config, d: Listing, sc: SambaContext, baseObject: string, scope: int, keep: Entry -> bool,
                       e: Entry)
    ensures e in Matched(c, d, sc, baseObject, scope, keep) <==>
            e in EntriesFor(c, d, sc, baseObject, scope) && keep(e)
  {
    var es := EntriesFor(c, d, sc, baseObject, scope);
    var key := (x: Entry) => x.dn;
    FilterKeepsMembers(keep, StringOrder.Sort(key, es), e);
    StringOrder.SameElements(StringOrder.Sort(key, es), es);
    assert e in es <==> e in StringOrder.Elements(es);
    assert e in StringOrder.Sort(key, es) <==> e in StringOrder.Elements(StringOrder.Sort(key, es));
  }

  /** The search passes the TLS and bind checks. */
  predicate Admitted(s: Server, isTLS: bool, bound: string, q: Request)
    requires q.Search?
  {
    (q.baseObject == "" && q.scope == 0) || ((s.requireTLS ==> isTLS) && (bound != "" || s.allowAnonymous))
  }

  /** A search that shows an entry was admitted, and matched it. */
  lemma ShownIsMatched(s: Server, isTLS: bool, bound: string, q: Request, answer: seq<Entry>, e: Entry)
    requires RespondIn(s, isTLS, bound, q, answer).SearchResult? && e in RespondIn(s, isTLS, bound, q, answer).entries
    ensures q.Search? && q.filter.Some? && Admitted(s, isTLS, bound, q) && e in answer
  {
  }

  /** The same in a session. */
  lemma ShownInSession(s: Server, fromStart: bool, requests: seq<Request>, log: seq<Response>, i: nat, e: Entry)
    requires IsSession(s, fromStart, requests, log) && i < |log|
    requires log[i].SearchResult? && e in log[i].entries
    ensures var q, bound := requests[i], BoundName(log[..i]);
            && q.Search? && Admitted(s, OnTLS(fromStart, log[..i]), bound, q)
            && e in EntriesFor(s.directory, q.view.names, Context(s, bound, q.view), q.baseObject, q.scope)
  {
    var q, bound, isTLS := requests[i], BoundName(log[..i]), OnTLS(fromStart, log[..i]);
    var answer := Answer(s, bound, q);
    assert Answers(s, fromStart, requests, log, i);
    ShownIsMatched(s, isTLS, bound, q, answer, e);
    MatchedMembers(s.directory, q.view.names, Context(s, bound, q.view), q.baseObject, q.scope, q.filter.value, e);
  }

  /** In every session an entry other than the root DSE is sent only when the TLS
      requirement is met and the client is bound or anonymous access is allowed. */
  lemma EntriesNeedAccess(s: Server, fromStart: bool, requests: seq<Request>, log: seq<Response>, i: nat, e: Entry)
    requires IsSession(s, fromStart, requests, log) && i < |log|
    requires log[i].SearchResult? && e in log[i].entries && e.what != RootDSE
    ensures s.requireTLS ==> OnTLS(fromStart, log[..i])
    ensures BoundName(log[..i]) != "" || s.allowAnonymous
  {
    ShownInSession(s, fromStart, requests, log, i, e);
  }

  // ---- Every answer, code by code

  predicate TlsMet(s: Server, isTLS: bool) {
    s.requireTLS ==> isTLS
  }

  /** A bind that asks for anonymous access and may have it. */
  predicate Anonymous(s: Server, isTLS: bool, q: Request) {
    q.Bind? && q.wellFormed && TlsMet(s, isTLS) && q.simple && q.name == "" && q.password == "" && s.allowAnonymous
  }

  predicate AuthenticatesSomeone(s: Server, isTLS: bool, q: Request) {
    q.Bind? && q.verdict.Some? && Authenticates(s, isTLS, q, q.verdict.value)
  }

  lemma BindAnswer(s: Server, isTLS: bool, bound: string, q: Request, answer: seq<Entry>)
    requires q.Bind?
    ensures var r := RespondIn(s, isTLS, bound, q, answer);
            && r.BindResult?
            && (r.code == Success <==> AuthenticatesSomeone(s, isTLS, q) || Anonymous(s, isTLS, q))
            && (r.code == ProtocolError <==> !q.wellFormed)
            && (r.code == ConfidentialityRequired <==> q.wellFormed && !TlsMet(s, isTLS))
            && (r.code == AuthMethodNotSupported <==> q.wellFormed && TlsMet(s, isTLS) && !q.simple)
            && (r.code == UnwillingToPerform <==>
                  && q.wellFormed && TlsMet(s, isTLS) && q.simple && q.name == "" && q.password == ""
                  && !s.allowAnonymous)
            && (r.code == InvalidCredentials <==>
                  && q.wellFormed && TlsMet(s, isTLS) && q.simple && !(q.name == "" && q.password == "")
                  && !AuthenticatesSomeone(s, isTLS, q))
  {
  }

  lemma SearchAnswer(s: Server, isTLS: bool, bound: string, q: Request, answer: seq<Entry>)
    requires q.Search?
    ensures var r := RespondIn(s, isTLS, bound, q, answer);
            && (r == SearchResult(ProtocolError, []) <==> !q.wellFormed)
            && (r == SearchResult(ConfidentialityRequired, []) <==>
                  q.wellFormed && !(q.baseObject == "" && q.scope == 0) && !TlsMet(s, isTLS))
            && (r == SearchResult(InsufficientAccessRights, []) <==>
                  q.wellFormed && TlsMet(s, isTLS) && !Admitted(s, isTLS, bound, q))
            && (r == SearchResult(UnavailableCriticalExtension, []) <==>
                  q.wellFormed && Admitted(s, isTLS, bound, q) && q.filter.None?)
            && (q.wellFormed && Admitted(s, isTLS, bound, q) && q.filter.Some? && q.page.None? ==>
                  r == SearchResult(Success, answer))
            && (q.wellFormed && Admitted(s, isTLS, bound, q) && q.filter.Some? && q.page.Some? &&
                InRange(|answer|, q.page.value) ==>
                  r == SearchResult(Success, PageOf(answer, q.page.value.size, q.page.value.offset).entries))
  {
  }

  lemma ExtendedAnswer(s: Server, isTLS: bool, bound: string, q: Request, answer: seq<Entry>)
    requires q.Extended?
    ensures var r, asked := RespondIn(s, isTLS, bound, q, answer), q.wellFormed && q.startTLS;
            && (r == ExtendedResult(ProtocolError, false) <==> !asked)
            && (r == ExtendedResult(OperationsError, false) <==> asked && isTLS)
            && (r == ExtendedResult(Unavailable, false) <==> asked && !isTLS && !s.offersTLS)
            && (r == ExtendedResult(Success, true) <==> asked && !isTLS && s.offersTLS && q.sent && q.handshake)
            && (r == Closed <==> asked && !isTLS && s.offersTLS && !(q.sent && q.handshake))
  {
  }

  /** In every session a bind is answered with success exactly when it authenticates
      someone or is anonymous where that is allowed; each refusal has its own code. */
  lemma BindCodesExactly(s: Server, fromStart: bool, requests: seq<Request>, log: seq<Response>, k: nat)
    requires IsSession(s, fromStart, requests, log) && k < |log| && requests[k].Bind?
    ensures var q, isTLS := requests[k], OnTLS(fromStart, log[..k]);
            && log[k].BindResult?
            && (log[k].code == Success <==> AuthenticatesSomeone(s, isTLS, q) || Anonymous(s, isTLS, q))
            && (log[k].code == InvalidCredentials <==>
                  && q.wellFormed && TlsMet(s, isTLS) && q.simple && !(q.name == "" && q.password == "")
                  && !AuthenticatesSomeone(s, isTLS, q))
  {
    var before, q := log[..k], requests[k];
    assert Answers(s, fromStart, requests, log, k);
    BindAnswer(s, OnTLS(fromStart, before), BoundName(before), q, Answer(s, BoundName(before), q));
  }

  /** In every session the connection is closed exactly at an unbind, at a message that
      is unreadable or of an unknown kind, or at an upgrade that fails half way; every
      request to write is refused, and only an abandon goes without response. */
  lemma ClosesExactly(s: Server, fromStart: bool, requests: seq<Request>, log: seq<Response>, k: nat)
    requires IsSession(s, fromStart, requests, log) && k < |log|
    ensures var q := requests[k];
            && (log[k] == Closed <==>
                  || q.Unbind? || q.Unknown? || q.Unreadable?
                  || (&& q.Extended? && q.wellFormed && q.startTLS && !OnTLS(fromStart, log[..k]) && s.offersTLS
                      && !(q.sent && q.handshake)))
            && (log[k] == Refused(UnwillingToPerform) <==> q.Write?)
            && (log[k] == Ignored <==> q.Abandon?)
  {
    var before, q := log[..k], requests[k];
    assert Answers(s, fromStart, requests, log, k);
    if q.Extended? {
      ExtendedAnswer(s, OnTLS(fromStart, before), BoundName(before), q, Answer(s, BoundName(before), q));
    }
  }

  /** In every session an admitted unpaged search with a readable filter sends exactly
      what it matches. */
  lemma SearchSendsAnswer(s: Server, fromStart: bool, requests: seq<Request>, log: seq<Response>, k: nat)
    requires IsSession(s, fromStart, requests, log) && k < |log| && requests[k].Search?
    requires requests[k].wellFormed && requests[k].filter.Some? && requests[k].page.None?
    requires Admitted(s, OnTLS(fromStart, log[..k]), BoundName(log[..k]), requests[k])
    ensures log[k] == SearchResult(Success, Answer(s, BoundName(log[..k]), requests[k]))
  {
    var before, q := log[..k], requests[k];
    assert Answers(s, fromStart, requests, log, k);
    SearchAnswer(s, OnTLS(fromStart, before), BoundName(before), q, Answer(s, BoundName(before), q));
  }

  /** The answer holds exactly the selected entries that the filter keeps, each once,
      in the order of their names. */
  lemma AnswerExactly(s: Server, bound: string, q: Request, e: Entry)
    requires q.Search? && q.filter.Some? && NoDuplicates(q.view.names.users) && NoDuplicates(q.view.names.groups)
    ensures e in Answer(s, bound, q) <==>
            && q.filter.value(e)
            && e in EntriesFor(s.directory, q.view.names, Context(s, bound, q.view), q.baseObject, q.scope)
    ensures StringOrder.StrictlySortedBy((x: Entry) => x.dn, Answer(s, bound, q))
  {
    var c, d, sc := s.directory, q.view.names, Context(s, bound, q.view);
    MatchedMembers(c, d, sc, q.baseObject, q.scope, q.filter.value, e);
    SearchNamesDistinct(c, d, sc, q.baseObject, q.scope);
    var key := (x: Entry) => x.dn;
    var es := EntriesFor(c, d, sc, q.baseObject, q.scope);
    StringOrder.SortedDistinct(key, StringOrder.Sort(key, es), es);
    FilterStaysSorted(q.filter.value, StringOrder.Sort(key, es));
  }

  lemma {:induction false} FilterStaysSorted(keep: Entry -> bool, es: seq<Entry>)
    requires StringOrder.StrictlySortedBy((x: Entry) => x.dn, es)
    ensures StringOrder.StrictlySortedBy((x: Entry) => x.dn, Filter(keep, es))
  {
    if es != [] {
      var init, last := es[..|es| - 1], es[|es| - 1];
      FilterStaysSorted(keep, init);
      forall i | 0 <= i < |Filter(keep, init)| ensures StringOrder.Less(Filter(keep, init)[i].dn, last.dn) {
        FilterKeepsMembers(keep, init, Filter(keep, init)[i]);
      }
    }
  }

  /** On a loaded snapshot a search is privileged exactly for a bound user who is, at
      any depth, a member of the configured readers group. */
  lemma ReadersArePrivileged(s: Server, bound: string, v: View, users: Identity.Users, groups: Identity.Groups)
    requires IsFlattening(users, groups, v.memberOf)
    ensures Privileged(s, bound, v) <==>
            s.readersGroup != "" && bound != "" && Identity.InGroup(users, groups, bound, s.readersGroup)
  {
  }

  // ---- Searches that end the program

  lemma PanicsWhen(s: Server, isTLS: bool, bound: string, q: Request, answer: seq<Entry>)
    ensures RespondIn(s, isTLS, bound, q, answer) == Panicked <==>
            && q.Search? && q.wellFormed && Admitted(s, isTLS, bound, q) && q.filter.Some? && q.page.Some?
            && q.page.value.size > 0
            && Min(q.page.value.offset, |answer|) + q.page.value.size >= TWO_63
  {
  }

  /** In every session the program panics exactly at an admitted paged search whose
      size, added to the clamped offset of its cookie, leaves the int64 range. */
  lemma PanicsExactly(s: Server, fromStart: bool, requests: seq<Request>, log: seq<Response>, i: nat)
    requires IsSession(s, fromStart, requests, log) && i < |log|
    ensures var q, isTLS, bound := requests[i], OnTLS(fromStart, log[..i]), BoundName(log[..i]);
            log[i] == Panicked <==>
            && q.Search? && q.wellFormed && Admitted(s, isTLS, bound, q) && q.filter.Some? && q.page.Some?
            && q.page.value.size > 0
            && Min(q.page.value.offset, |Answer(s, bound, q)|) + q.page.value.size >= TWO_63
  {
    var q, bound := requests[i], BoundName(log[..i]);
    assert Answers(s, fromStart, requests, log, i);
    PanicsWhen(s, OnTLS(fromStart, log[..i]), bound, q, Answer(s, bound, q));
  }

  /** The largest size, with the cookie "1". */
  const LARGEST := Control(OID_PAGED, Some((TWO_63 - 1, "1")))

  lemma LargestDecodes()
    ensures Decode(LARGEST) == PageRequest(TWO_63 - 1, 1)
  {
    assert DigitsValue("1") == 1 by {
      assert "1"[..0] == "";
    }
    assert Atoi("1") == Some(1);
  }

  /** The discovery search for the root DSE, with a filter that it passes and that
      control: on any server, bound or not, with or without TLS, it has no answer. */
  lemma ProbePanics(s: Server, isTLS: bool, bound: string, filter: Entry -> bool, view: View, q: Request)
    requires filter(Entry("", RootDSE, false))
    requires q == Search(true, "", BASE_OBJECT, Some(filter), Some(Decode(LARGEST)), view)
    ensures RespondIn(s, isTLS, bound, q, Answer(s, bound, q)) == Panicked
  {
    LargestDecodes();
    var sc, root := Context(s, bound, view), Entry("", RootDSE, false);
    assert EntriesFor(s.directory, view.names, sc, "", BASE_OBJECT)[0] == root;
    MatchedMembers(s.directory, view.names, sc, "", BASE_OBJECT, filter, root);
    assert root in Answer(s, bound, q);
    PanicsWhen(s, isTLS, bound, q, Answer(s, bound, q));
  }

  // ---- Samba data

  /** Entries with Samba attributes, on users, groups and the two synthetic entries
      alike, are shown only to bound members of the readers group. */
  lemma SambaNeedsReader(s: Server, fromStart: bool, requests: seq<Request>, log: seq<Response>, i: nat, e: Entry)
    requires IsSession(s, fromStart, requests, log) && i < |log|
    requires log[i].SearchResult? && e in log[i].entries && (e.samba || IsSamba(e.what))
    ensures requests[i].Search? && Privileged(s, BoundName(log[..i]), requests[i].view)
  {
    var q, bound := requests[i], BoundName(log[..i]);
    ShownInSession(s, fromStart, requests, log, i, e);
    if !Privileged(s, bound, q.view) {
      UnprivilegedSearch(s.directory, q.view.names, Context(s, bound, q.view), q.baseObject, q.scope, e);
    }
  }

  lemma UnprivilegedSearch(c: Config, d: Listing, sc: SambaContext, baseObject: string, scope: int, e: Entry)
    requires !sc.privileged && e in EntriesFor(c, d, sc, baseObject, scope)
    ensures !e.samba && !IsSamba(e.what)
  {
    var place := Resolve(c, false, baseObject);
    ResolveNotSamba(c, baseObject);
    SearchMember(c, d, sc, baseObject, scope, place, e);
    UnprivilegedSelect(d, place, scope, e.what);
  }

  lemma ResolveNotSamba(c: Config, baseObject: string)
    ensures Resolve(c, false, baseObject) != At(SambaDomain)
  {
  }

  predicate IsSamba(w: What) {
    w == SambaDomain || w == DomainUsersGroup
  }

  lemma UsersNotSamba(d: Listing, scope: int, w: What)
    requires w in UsersSubtree(d, scope)
    ensures !IsSamba(w)
  {
  }

  lemma GroupsNotSamba(d: Listing, scope: int, w: What)
    requires w in GroupsSubtree(d, false, scope)
    ensures !IsSamba(w)
  {
  }

  lemma UnprivilegedSelect(d: Listing, place: Place, scope: int, w: What)
    requires place != At(SambaDomain) && w in Select(d, false, place, scope)
    ensures !IsSamba(w)
  {
    if place == At(BaseEntry) && scope == WHOLE_SUBTREE {
      TreeMembers(d, false, w);
    } else if place == At(UsersOU) {
      UsersNotSamba(d, scope, w);
    } else if place == At(GroupsOU) {
      GroupsNotSamba(d, scope, w);
    }
  }

  lemma DecidesIsSuccess(s: Server, isTLS: bool, bound: string, q: Request, answer: seq<Entry>)
    ensures var r := RespondIn(s, isTLS, bound, q, answer);
            Decides(r) ==> (q.Bind? && r == BindResult(Success, q.verdict)) ||
                           (q.Extended? && r == ExtendedResult(Success, true))
  {
  }

  /** Only a successful authenticating bind or a TLS upgrade changes who is bound:
      an anonymous or failed bind leaves the earlier identity in place. */
  lemma OthersKeepIdentity(s: Server, fromStart: bool, requests: seq<Request>, log: seq<Response>, i: nat)
    requires IsSession(s, fromStart, requests, log) && i < |log|
    ensures BoundName(log[..i + 1]) == BoundName(log[..i]) ||
            (requests[i].Bind? && log[i].BindResult? && log[i].code == Success && log[i].user == requests[i].verdict) ||
            (requests[i].Extended? && log[i] == ExtendedResult(Success, true))
  {
    assert log[..i + 1] == log[..i] + [log[i]];
    RecordGrows(fromStart, log[..i], log[i]);
    if Decides(log[i]) {
      var q, bound := requests[i], BoundName(log[..i]);
      assert Answers(s, fromStart, requests, log, i);
      DecidesIsSuccess(s, OnTLS(fromStart, log[..i]), bound, q, Answer(s, bound, q));
    }
  }
}
