/** Refresh-token rotation with reuse detection (internal/store/sessions.go and
    the refresh, introspection and revocation endpoints of
    internal/oidcserver/provider.go). */
module Sessions {
  import opened Hashing
  import opened Options

  type Id = nat
  type Secret = nat

  datatype Session = Session(
    user: string,
    client: string,
    scope: string,
    issuedAt: int,
    hash: Digest<Secret>,
    expiresAt: int,
    revokedAt: Option<int>)

  type Rows = map<Id, Session>

  datatype Outcome = NotFound | Reused | Accepted(session: Session)

  /** One rotation transaction. */
  function Rotate(rows: Rows, id: Id, presented: Digest<Secret>, next: Digest<Secret>, now: int, expiresAt: int)
    : (Rows, Outcome)
  {
    if id !in rows || rows[id].revokedAt.Some? || now > rows[id].expiresAt then (rows, NotFound)
    else if rows[id].hash != presented then (rows[id := rows[id].(revokedAt := Some(now))], Reused)
    else
      var renewed := rows[id].(hash := next, expiresAt := expiresAt);
      (rows[id := renewed], Accepted(renewed))
  }

  function Revoked(rows: Rows, id: Id, now: int): Rows {
    if id in rows then rows[id := rows[id].(revokedAt := Some(now))] else rows
  }

  function RevokedAll(rows: Rows, user: string, now: int): Rows {
    map id | id in rows ::
      if rows[id].user == user && rows[id].revokedAt.None? then rows[id].(revokedAt := Some(now)) else rows[id]
  }

  class SessionStore {
    var rows: Rows

    constructor ()
      ensures rows == map[]
    {
      rows := map[];
    }

    /** The primary key refuses a second row with the same id. */
    method Create(id: Id, session: Session) returns (ok: bool)
      modifies this
      ensures ok <==> id !in old(rows)
      ensures rows == if ok then old(rows)[id := session] else old(rows)
    {
      if id in rows {
        return false;
      }
      rows := rows[id := session];
      ok := true;
    }

    method GetByID(id: Id) returns (r: Option<Session>)
      ensures r.Some? <==> id in rows
      ensures r.Some? ==> r.value == rows[id]
    {
      r := if id in rows then Some(rows[id]) else None;
    }

    method RotateRefreshToken(id: Id, presented: Digest<Secret>, next: Digest<Secret>, now: int, expiresAt: int)
      returns (r: Outcome)
      modifies this
      ensures (rows, r) == Rotate(old(rows), id, presented, next, now, expiresAt)
      ensures r.NotFound? <==> id !in old(rows) || old(rows)[id].revokedAt.Some? || now > old(rows)[id].expiresAt
      ensures r.NotFound? ==> rows == old(rows)
      ensures !r.NotFound? ==> (r.Accepted? <==> old(rows)[id].hash == presented)
      ensures r.Reused? ==> rows == old(rows)[id := old(rows)[id].(revokedAt := Some(now))]
      ensures r.Accepted? ==> r.session == old(rows)[id].(hash := next, expiresAt := expiresAt)
      ensures r.Accepted? ==> rows == old(rows)[id := r.session]
    {
      if id !in rows {
        return NotFound;
      }
      var session := rows[id];
      if session.revokedAt.Some? || now > session.expiresAt {
        return NotFound;
      }
      if session.hash != presented {
        rows := rows[id := session.(revokedAt := Some(now))];
        return Reused;
      }
      session := session.(hash := next, expiresAt := expiresAt);
      rows := rows[id := session];
      r := Accepted(session);
    }

    method Revoke(id: Id, now: int)
      modifies this
      ensures rows == Revoked(old(rows), id, now)
      ensures id in old(rows) ==> rows == old(rows)[id := old(rows)[id].(revokedAt := Some(now))]
      ensures id !in old(rows) ==> rows == old(rows)
    {
      if id in rows {
        rows := rows[id := rows[id].(revokedAt := Some(now))];
      }
    }

    method RevokeAllForUser(user: string, now: int)
      modifies this
      ensures rows == RevokedAll(old(rows), user, now) && rows.Keys == old(rows).Keys
      ensures forall id :: id in rows && old(rows)[id].user == user && old(rows)[id].revokedAt.None? ==>
                rows[id] == old(rows)[id].(revokedAt := Some(now))
      ensures forall id :: id in rows && !(old(rows)[id].user == user && old(rows)[id].revokedAt.None?) ==>
                rows[id] == old(rows)[id]
    {
      var left := rows.Keys;
      while left != {}
        invariant left <= rows.Keys == old(rows).Keys
        invariant forall id :: id in rows ==>
          rows[id] == if id in left then old(rows)[id] else RevokedAll(old(rows), user, now)[id]
      {
        var id :| id in left;
        if rows[id].user == user && rows[id].revokedAt.None? {
          rows := rows[id := rows[id].(revokedAt := Some(now))];
        }
        left := left - {id};
      }
    }
  }

  // ---- Runs

  datatype Request =
    | Tick(to: int)
    | Login(id: Id, user: string, client: string, scope: string, secret: Secret, lifetime: int)
    | Refresh(client: string, id: Id, secret: Secret, next: Secret)
    | RevokeToken(client: string, id: Id, secret: Secret)
    | Logout(id: Id)
    | LogoutEverywhere(user: string)

  /** What happened, as an observer of the service would record it. */
  datatype Entry =
    | Issued(id: Id, secret: Secret, user: string, client: string, scope: string, at: int, until: int)
    | Used(id: Id, secret: Secret, next: Secret, until: int)
    | Ended(id: Id)
    | EndedAll(user: string)

  datatype System = System(now: int, rows: Rows, log: seq<Entry>)

  datatype Grant = InvalidGrant | Tokens(user: string, client: string, scope: string)

  /** The refresh grant: rotation comes first, the client is checked after it. */
  function RefreshGrant(s: System, ttl: int, client: string, id: Id, secret: Secret, next: Secret): Grant {
    var r := Rotate(s.rows, id, Digest(secret), Digest(next), s.now, s.now + ttl).1;
    if r.Accepted? && r.session.client == client then Tokens(r.session.user, client, r.session.scope) else InvalidGrant
  }

  /** The refresh-token half of introspection. */
  predicate Introspects(s: System, id: Id, secret: Secret) {
    id in s.rows && s.rows[id].revokedAt.None? && s.now < s.rows[id].expiresAt && s.rows[id].hash == Digest(secret)
  }

  function Step(s: System, ttl: int, q: Request): System {
    match q
    case Tick(to) => if to >= s.now then s.(now := to) else s
    case Login(id, user, client, scope, secret, lifetime) =>
      if id in s.rows then s
      else s.(rows := s.rows[id := Session(user, client, scope, s.now, Digest(secret), s.now + lifetime, None)],
              log := s.log + [Issued(id, secret, user, client, scope, s.now, s.now + lifetime)])
    case Refresh(client, id, secret, next) =>
      var (rows, r) := Rotate(s.rows, id, Digest(secret), Digest(next), s.now, s.now + ttl);
      s.(rows := rows,
         log := s.log + match r
           case NotFound => []
           case Reused => [Ended(id)]
           case Accepted(_) => [Used(id, secret, next, s.now + ttl)])
    case RevokeToken(client, id, secret) =>
      if id in s.rows && s.rows[id].client == client && s.rows[id].hash == Digest(secret)
      then s.(rows := Revoked(s.rows, id, s.now), log := s.log + [Ended(id)])
      else s
    case Logout(id) => s.(rows := Revoked(s.rows, id, s.now), log := s.log + [Ended(id)])
    case LogoutEverywhere(user) =>
      s.(rows := RevokedAll(s.rows, user, s.now), log := s.log + [EndedAll(user)])
  }

  function IssuedSecrets(log: seq<Entry>): set<Secret> {
    if log == [] then {} else
      var e, before := log[|log| - 1], IssuedSecrets(log[..|log| - 1]);
      if e.Issued? then before + {e.secret} else if e.Used? then before + {e.next} else before
  }

  /** Generated secrets are new. */
  predicate FreshSecrets(s: System, q: Request) {
    && (q.Login? ==> q.secret !in IssuedSecrets(s.log))
    && (q.Refresh? ==> q.next !in IssuedSecrets(s.log))
  }

  const START := System(0, map[], [])

  function After(ttl: int, run: seq<Request>): System {
    if run == [] then START else Step(After(ttl, run[..|run| - 1]), ttl, run[|run| - 1])
  }

  predicate IsRun(ttl: int, run: seq<Request>) {
    run == [] || (IsRun(ttl, run[..|run| - 1]) && FreshSecrets(After(ttl, run[..|run| - 1]), run[|run| - 1]))
  }

  // ---- Reading the record

  /** The secrets handed out for a session, in order. */
  function Chain(log: seq<Entry>, id: Id): seq<Secret> {
    if log == [] then [] else
      var e, before := log[|log| - 1], Chain(log[..|log| - 1], id);
      if e.Issued? && e.id == id then before + [e.secret]
      else if e.Used? && e.id == id then before + [e.next]
      else before
  }

  /** The secrets accepted for a session, in order. */
  function Uses(log: seq<Entry>, id: Id): seq<Secret> {
    if log == [] then [] else
      var e, before := log[|log| - 1], Uses(log[..|log| - 1], id);
      if e.Used? && e.id == id then before + [e.secret] else before
  }

  /** How the session was created. */
  function Creation(log: seq<Entry>, id: Id): (r: Option<Entry>)
    ensures r.Some? ==> r.value.Issued? && r.value.id == id
  {
    if log == [] then None else
      var e := log[|log| - 1];
      if e.Issued? && e.id == id then Some(e) else Creation(log[..|log| - 1], id)
  }

  /** Until when the session's newest secret can be used. */
  function Until(log: seq<Entry>, id: Id): int {
    if log == [] then 0 else
      var e := log[|log| - 1];
      if (e.Issued? || e.Used?) && e.id == id then e.until else Until(log[..|log| - 1], id)
  }

  /** The session was ended after it was created. */
  predicate HasEnded(log: seq<Entry>, id: Id) {
    if log == [] then false else
      var e, before := log[|log| - 1], log[..|log| - 1];
      if e.Issued? && e.id == id then false
      else HasEnded(before, id) || e == Ended(id) ||
           (e.EndedAll? && Creation(before, id).Some? && Creation(before, id).value.user == e.user)
  }

  predicate Alive(log: seq<Entry>, id: Id, now: int) {
    Chain(log, id) != [] && !HasEnded(log, id) && now <= Until(log, id)
  }

  function Newest(log: seq<Entry>, id: Id): Secret
    requires Chain(log, id) != []
  {
    Chain(log, id)[|Chain(log, id)| - 1]
  }

  // ---- The row is what the record says

  ghost predicate RowMatches(s: System, id: Id) {
    var chain := Chain(s.log, id);
    if id in s.rows then
      var row, created := s.rows[id], Creation(s.log, id);
      && created.Some? && chain != []
      && row.user == created.value.user && row.client == created.value.client
      && row.scope == created.value.scope && row.issuedAt == created.value.at
      && row.hash == Digest(Newest(s.log, id)) && row.expiresAt == Until(s.log, id)
      && row.revokedAt.Some? == HasEnded(s.log, id)
      && Uses(s.log, id) == chain[..|chain| - 1]
    else Creation(s.log, id).None? && chain == [] && Uses(s.log, id) == []
  }

  lemma OneMoreEntry(log: seq<Entry>, e: Entry)
    ensures (log + [e])[..|log|] == log && (log + [e])[|log|] == e && log + [] == log
  {
  }

  /** The newest secret of a live row is replaced. */
  lemma UsedRow(s: System, i: Id, secret: Secret, next: Secret, until: int, id: Id)
    requires RowMatches(s, id) && i in s.rows && s.rows[i].hash == Digest(secret) && s.rows[i].revokedAt.None?
    ensures RowMatches(s.(rows := s.rows[i := s.rows[i].(hash := Digest(next), expiresAt := until)],
                          log := s.log + [Used(i, secret, next, until)]), id)
  {
    OneMoreEntry(s.log, Used(i, secret, next, until));
  }

  /** What a refresh may leave behind: nothing new, a revoked row, or a renewed one. */
  ghost predicate RefreshedTo(s: System, s': System, i: Id, secret: Secret, next: Secret, until: int) {
    || s' == s
    || s' == s.(rows := Revoked(s.rows, i, s.now), log := s.log + [Ended(i)])
    || (&& i in s.rows && s.rows[i].hash == Digest(secret) && s.rows[i].revokedAt.None?
        && s' == s.(rows := s.rows[i := s.rows[i].(hash := Digest(next), expiresAt := until)],
                    log := s.log + [Used(i, secret, next, until)]))
  }

  lemma RefreshStep(s: System, ttl: int, client: string, i: Id, secret: Secret, next: Secret)
    ensures RefreshedTo(s, Step(s, ttl, Refresh(client, i, secret, next)), i, secret, next, s.now + ttl)
  {
    assert s.log + [] == s.log;
  }

  lemma RefreshedRow(s: System, s': System, i: Id, secret: Secret, next: Secret, until: int, id: Id)
    requires RowMatches(s, id) && RefreshedTo(s, s', i, secret, next, until)
    ensures RowMatches(s', id)
  {
    if s' == s.(rows := Revoked(s.rows, i, s.now), log := s.log + [Ended(i)]) {
      EndedRow(s, i, id);
    } else if s' != s {
      UsedRow(s, i, secret, next, until, id);
    }
  }

  lemma EndedRow(s: System, i: Id, id: Id)
    requires RowMatches(s, id)
    ensures RowMatches(s.(rows := Revoked(s.rows, i, s.now), log := s.log + [Ended(i)]), id)
  {
  }

  lemma EndedAllRow(s: System, user: string, id: Id)
    requires RowMatches(s, id)
    ensures RowMatches(s.(rows := RevokedAll(s.rows, user, s.now), log := s.log + [EndedAll(user)]), id)
  {
  }

  /** The row that a login inserts. */
  function LoginSession(e: Entry): Session
    requires e.Issued?
  {
    Session(e.user, e.client, e.scope, e.at, Digest(e.secret), e.until, None)
  }

  function Appended(log: seq<Entry>, e: Entry): (r: seq<Entry>)
    ensures |r| == |log| + 1 && r[..|log|] == log && r[|log|] == e
  {
    log + [e]
  }

  /** What a login may leave behind: nothing new, or its row and its entry. */
  ghost predicate IssuedTo(s: System, s': System, e: Entry)
    requires e.Issued?
  {
    s' == if e.id in s.rows then s else s.(rows := s.rows[e.id := LoginSession(e)], log := Appended(s.log, e))
  }

  lemma LoginStep(s: System, ttl: int, q: Request)
    requires q.Login?
    ensures IssuedTo(s, Step(s, ttl, q), Issued(q.id, q.secret, q.user, q.client, q.scope, s.now, s.now + q.lifetime))
  {
  }

  /** What an entry for a new session changes in the reading of the record. */
  lemma {:induction false} IssuedReads(log: seq<Entry>, e: Entry, id: Id)
    requires e.Issued?
    ensures var log' := Appended(log, e);
            if e.id == id
            then Chain(log', id) == Chain(log, id) + [e.secret] && Creation(log', id) == Some(e) &&
                 Until(log', id) == e.until && !HasEnded(log', id) && Uses(log', id) == Uses(log, id)
            else Chain(log', id) == Chain(log, id) && Creation(log', id) == Creation(log, id) &&
                 Until(log', id) == Until(log, id) && HasEnded(log', id) == HasEnded(log, id) &&
                 Uses(log', id) == Uses(log, id)
  {
    assert Appended(log, e) != [];
  }

  lemma {:induction false} IssuedRow(s: System, s': System, e: Entry, id: Id)
    requires e.Issued? && RowMatches(s, id) && IssuedTo(s, s', e)
    ensures RowMatches(s', id)
  {
    IssuedReads(s.log, e, id);
    if e.id == id && e.id !in s.rows {
      assert Chain(s'.log, id) == [e.secret] && [e.secret][..0] == [];
    }
  }

  lemma {:induction false} RowsMatch(ttl: int, run: seq<Request>, id: Id)
    ensures RowMatches(After(ttl, run), id)
  {
    if run != [] {
      var s, s', q := After(ttl, run[..|run| - 1]), After(ttl, run), run[|run| - 1];
      RowsMatch(ttl, run[..|run| - 1], id);
      match q
      case Tick(_) =>
      case Login(i, user, client, scope, secret, lifetime) =>
        LoginStep(s, ttl, q);
        IssuedRow(s, s', Issued(i, secret, user, client, scope, s.now, s.now + lifetime), id);
      case Refresh(client, i, secret, next) =>
        RefreshStep(s, ttl, client, i, secret, next);
        RefreshedRow(s, s', i, secret, next, s.now + ttl, id);
      case RevokeToken(_, i, _) => EndedRow(s, i, id);
      case Logout(i) => EndedRow(s, i, id);
      case LogoutEverywhere(user) => EndedAllRow(s, user, id);
    }
  }

  ghost predicate Distinct(log: seq<Entry>, id: Id) {
    && (forall x :: x in Chain(log, id) ==> x in IssuedSecrets(log))
    && (forall i, j :: 0 <= i < j < |Chain(log, id)| ==> Chain(log, id)[i] != Chain(log, id)[j])
  }

  lemma DistinctMore(log: seq<Entry>, e: Entry, id: Id)
    requires Distinct(log, id)
    requires (e.Issued? ==> e.secret !in IssuedSecrets(log)) && (e.Used? ==> e.next !in IssuedSecrets(log))
    ensures Distinct(log + [e], id)
  {
    OneMoreEntry(log, e);
  }

  /** A request adds at most one entry to the record, and the secrets in it are its own. */
  lemma NewEntry(s: System, ttl: int, q: Request) returns (es: seq<Entry>)
    ensures Step(s, ttl, q).log == s.log + es && |es| <= 1
    ensures es != [] && es[0].Issued? ==> q.Login? && es[0].secret == q.secret
    ensures es != [] && es[0].Used? ==> q.Refresh? && es[0].next == q.next
  {
    var log := Step(s, ttl, q).log;
    es := if log == s.log then [] else [log[|log| - 1]];
  }

  lemma DistinctStep(s: System, ttl: int, q: Request, id: Id)
    requires Distinct(s.log, id) && FreshSecrets(s, q)
    ensures Distinct(Step(s, ttl, q).log, id)
  {
    var es := NewEntry(s, ttl, q);
    if es == [] {
      assert s.log + es == s.log;
    } else {
      assert es == [es[0]];
      DistinctMore(s.log, es[0], id);
    }
  }

  lemma {:induction false} ChainsDistinct(ttl: int, run: seq<Request>, id: Id)
    requires IsRun(ttl, run)
    ensures Distinct(After(ttl, run).log, id)
  {
    if run != [] {
      ChainsDistinct(ttl, run[..|run| - 1], id);
      DistinctStep(After(ttl, run[..|run| - 1]), ttl, run[|run| - 1], id);
    }
  }

  /** In every run the secrets accepted for a session are its issue chain in
      order, all but the newest, and no secret is accepted twice. */
  lemma AcceptedIsIssueChain(ttl: int, run: seq<Request>, id: Id)
    requires IsRun(ttl, run)
    ensures var log := After(ttl, run).log;
            && (Chain(log, id) != [] ==> Uses(log, id) == Chain(log, id)[..|Chain(log, id)| - 1])
            && (Chain(log, id) == [] ==> Uses(log, id) == [])
            && forall i, j :: 0 <= i < j < |Uses(log, id)| ==> Uses(log, id)[i] != Uses(log, id)[j]
  {
    RowsMatch(ttl, run, id);
    ChainsDistinct(ttl, run, id);
  }

  /** What a refresh does is decided by the record alone: on a live session the
      newest secret is accepted and replaced, any other secret ends the session;
      on any other session nothing happens. */
  lemma RefreshDecidedByRecord(ttl: int, run: seq<Request>, client: string, id: Id, secret: Secret, next: Secret)
    ensures var s := After(ttl, run);
            var s' := Step(s, ttl, Refresh(client, id, secret, next));
            if !Alive(s.log, id, s.now) then s' == s
            else if secret == Newest(s.log, id) then s'.log == s.log + [Used(id, secret, next, s.now + ttl)]
            else s'.log == s.log + [Ended(id)] && !Alive(s'.log, id, s'.now)
  {
    var s := After(ttl, run);
    RowsMatch(ttl, run, id);
    OneMoreEntry(s.log, Ended(id));
  }

  /** Tokens come out exactly for the newest secret of a live session presented
      by its own client, and they carry the user and scope of the login. */
  lemma TokensMatchLogin(ttl: int, run: seq<Request>, client: string, id: Id, secret: Secret, next: Secret)
    ensures var s := After(ttl, run);
            var created := Creation(s.log, id);
            var g := RefreshGrant(s, ttl, client, id, secret, next);
            && (g.Tokens? <==> Alive(s.log, id, s.now) && secret == Newest(s.log, id) &&
                               created.Some? && created.value.client == client)
            && (g.Tokens? ==> g == Tokens(created.value.user, client, created.value.scope))
  {
    RowsMatch(ttl, run, id);
  }

  /** Introspection reports exactly the newest secret of a session that is live
      and not at its last instant. */
  lemma IntrospectionMatchesRecord(ttl: int, run: seq<Request>, id: Id, secret: Secret)
    ensures var s := After(ttl, run);
            Introspects(s, id, secret) <==>
            Alive(s.log, id, s.now) && secret == Newest(s.log, id) && s.now < Until(s.log, id)
  {
    RowsMatch(ttl, run, id);
  }

  predicate SameIdentity(was: Session, now: Session) {
    now.user == was.user && now.client == was.client && now.scope == was.scope && now.issuedAt == was.issuedAt
  }

  lemma IdentityKept(s: System, ttl: int, q: Request, id: Id)
    requires id in s.rows
    ensures id in Step(s, ttl, q).rows && SameIdentity(s.rows[id], Step(s, ttl, q).rows[id])
  {
  }

  /** User, client, scope and login time of a session never change along its chain. */
  lemma {:induction false} IdentityNeverChanges(ttl: int, run: seq<Request>, n: nat, id: Id)
    requires n <= |run| && id in After(ttl, run[..n]).rows
    ensures id in After(ttl, run).rows
    ensures SameIdentity(After(ttl, run[..n]).rows[id], After(ttl, run).rows[id])
    decreases |run|
  {
    if n == |run| {
      assert run[..n] == run;
    } else {
      assert run[..|run| - 1][..n] == run[..n];
      IdentityNeverChanges(ttl, run[..|run| - 1], n, id);
      IdentityKept(After(ttl, run[..|run| - 1]), ttl, run[|run| - 1], id);
    }
  }

  /** A session that exists and is no longer live. */
  ghost predicate Dead(s: System, id: Id) {
    Chain(s.log, id) != [] && !Alive(s.log, id, s.now)
  }

  /** What one more entry does to a dead session; it is never another use of it. */
  lemma DeadEntry(log: seq<Entry>, e: Entry, now: int, id: Id)
    requires Chain(log, id) != [] && !Alive(log, id, now) && !((e.Issued? || e.Used?) && e.id == id)
    ensures Chain(log + [e], id) != [] && !Alive(log + [e], id, now) && Uses(log + [e], id) == Uses(log, id)
  {
    OneMoreEntry(log, e);
  }

  lemma DeadStep(s: System, ttl: int, q: Request, id: Id)
    requires RowMatches(s, id) && Dead(s, id)
    ensures Dead(Step(s, ttl, q), id) && Uses(Step(s, ttl, q).log, id) == Uses(s.log, id)
    ensures forall secret :: !Introspects(s, id, secret)
  {
    match q
    case Tick(_) =>
    case Login(i, user, client, scope, secret, lifetime) =>
      if i != id {
        DeadEntry(s.log, Issued(i, secret, user, client, scope, s.now, s.now + lifetime), s.now, id);
      }
    case Refresh(client, i, secret, next) =>
      RefreshStep(s, ttl, client, i, secret, next);
      DeadEntry(s.log, Ended(i), s.now, id);
      if i != id {
        DeadEntry(s.log, Used(i, secret, next, s.now + ttl), s.now, id);
      }
    case RevokeToken(_, i, _) => DeadEntry(s.log, Ended(i), s.now, id);
    case Logout(i) => DeadEntry(s.log, Ended(i), s.now, id);
    case LogoutEverywhere(user) => DeadEntry(s.log, EndedAll(user), s.now, id);
  }

  /** Ended or expired, a session is never accepted again by rotation or
      introspection, whatever follows. */
  lemma {:induction false} DeadForever(ttl: int, run: seq<Request>, n: nat, id: Id)
    requires n <= |run| && Dead(After(ttl, run[..n]), id)
    ensures Dead(After(ttl, run), id)
    ensures Uses(After(ttl, run).log, id) == Uses(After(ttl, run[..n]).log, id)
    ensures forall secret :: !Introspects(After(ttl, run), id, secret)
    decreases |run|
  {
    RowsMatch(ttl, run, id);
    if n == |run| {
      assert run[..n] == run;
    } else {
      var before := run[..|run| - 1];
      assert before[..n] == run[..n];
      DeadForever(ttl, before, n, id);
      RowsMatch(ttl, before, id);
      DeadStep(After(ttl, before), ttl, run[|run| - 1], id);
    }
    DeadStep(After(ttl, run), ttl, Tick(0), id);
  }

  /** The order of checks in the refresh grant has a price: when another client
      presents the newest secret it gets no tokens, yet the secret is spent, and
      its rightful holder then ends the session by presenting it. */
  lemma {:induction false} WrongClientSpendsSecret(ttl: int, run: seq<Request>, client: string, id: Id, secret: Secret,
                                                  next: Secret, again: Secret)
    requires var s := After(ttl, run);
             && Alive(s.log, id, s.now) && secret == Newest(s.log, id) && next != secret && ttl >= 0
             && Creation(s.log, id).Some? && Creation(s.log, id).value.client != client
    ensures var s := After(ttl, run);
            var spent := Step(s, ttl, Refresh(client, id, secret, next));
            && RefreshGrant(s, ttl, client, id, secret, next).InvalidGrant?
            && Dead(Step(spent, ttl, Refresh(Creation(s.log, id).value.client, id, secret, again)), id)
  {
    var s := After(ttl, run);
    RowsMatch(ttl, run, id);
    OneMoreEntry(s.log, Used(id, secret, next, s.now + ttl));
    var spent := Step(s, ttl, Refresh(client, id, secret, next));
    RefreshStep(s, ttl, client, id, secret, next);
    RefreshedRow(s, spent, id, secret, next, s.now + ttl, id);
    OneMoreEntry(spent.log, Ended(id));
  }

  // ---- Ending a session

  /** Nothing but one session's liveness changed. */
  ghost predicate OthersUntouched(s: System, s': System, id: Id) {
    forall i :: i != id ==> (i in s'.rows <==> i in s.rows) && (i in s.rows ==> s'.rows[i] == s.rows[i])
  }

  /** A login opens a session that is alive for its lifetime, with the secret it
      hands out, unless the id is taken. */
  lemma LoginTakesEffect(ttl: int, run: seq<Request>, id: Id, user: string, client: string, scope: string,
                         secret: Secret, lifetime: int)
    ensures var s := After(ttl, run);
            var s' := Step(s, ttl, Login(id, user, client, scope, secret, lifetime));
            if Creation(s.log, id).Some? then s' == s
            else
              && s'.log == s.log + [Issued(id, secret, user, client, scope, s.now, s.now + lifetime)]
              && OthersUntouched(s, s', id)
              && (lifetime >= 0 ==> Alive(s'.log, id, s'.now) && Newest(s'.log, id) == secret)
  {
    var s := After(ttl, run);
    var e := Issued(id, secret, user, client, scope, s.now, s.now + lifetime);
    RowsMatch(ttl, run, id);
    LoginStep(s, ttl, Login(id, user, client, scope, secret, lifetime));
    IssuedReads(s.log, e, id);
  }

  /** Revoking a refresh token ends its session exactly when the client it was
      issued to presents the newest secret; otherwise nothing happens. */
  lemma RevokeTokenTakesEffect(ttl: int, run: seq<Request>, client: string, id: Id, secret: Secret)
    ensures var s := After(ttl, run);
            var s', created := Step(s, ttl, RevokeToken(client, id, secret)), Creation(s.log, id);
            if created.Some? && created.value.client == client && Chain(s.log, id) != [] && secret == Newest(s.log, id)
            then s'.log == s.log + [Ended(id)] && Dead(s', id) && OthersUntouched(s, s', id)
            else s' == s
  {
    var s := After(ttl, run);
    RowsMatch(ttl, run, id);
    OneMoreEntry(s.log, Ended(id));
  }

  /** A session that is not refreshed ends when its time is up, and not before. */
  lemma TimeTakesEffect(ttl: int, run: seq<Request>, id: Id, to: int)
    requires to >= After(ttl, run).now
    ensures var s := After(ttl, run);
            Alive(Step(s, ttl, Tick(to)).log, id, Step(s, ttl, Tick(to)).now) <==>
            Alive(s.log, id, s.now) && to <= Until(s.log, id)
  {
  }

  /** Logging out ends the session, if there is one, and no other. */
  lemma LogoutTakesEffect(ttl: int, run: seq<Request>, id: Id)
    ensures var s := After(ttl, run);
            var s' := Step(s, ttl, Logout(id));
            && (Creation(s.log, id).Some? ==> Dead(s', id) && s'.log == s.log + [Ended(id)])
            && OthersUntouched(s, s', id)
  {
    var s := After(ttl, run);
    RowsMatch(ttl, run, id);
    OneMoreEntry(s.log, Ended(id));
  }

  /** Logging out everywhere ends every session of the user and no other. */
  lemma LogoutEverywhereTakesEffect(ttl: int, run: seq<Request>, user: string, id: Id)
    ensures var s := After(ttl, run);
            var s', created := Step(s, ttl, LogoutEverywhere(user)), Creation(s.log, id);
            && s'.log == s.log + [EndedAll(user)]
            && (created.Some? && created.value.user == user ==> Dead(s', id))
            && (created.Some? && created.value.user != user ==>
                  id in s.rows && id in s'.rows && s'.rows[id] == s.rows[id])
            && (created.None? ==> id !in s'.rows)
  {
    var s := After(ttl, run);
    RowsMatch(ttl, run, id);
    OneMoreEntry(s.log, EndedAll(user));
  }
}
