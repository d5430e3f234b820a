/** Email one-time codes between password login and session
    (internal/store/mfa.go, internal/web/mfa.go, internal/web/handlers.go). */
module MfaChallenges {
  import opened Hashing
  import opened Options

  type Id = nat
  type Otp = nat

  datatype Challenge = Challenge(
    user: string,
    hash: Digest<Otp>,
    returnTo: string,
    expiresAt: int,
    consumed: bool,
    attempts: nat)

  const MAX_ATTEMPTS := 5

  type Rows = map<Id, Challenge>

  datatype Outcome = Missing | Invalid | Verified(user: string, returnTo: string)

  function Pruned(rows: Rows, now: int): Rows {
    map i | i in rows && rows[i].expiresAt >= now :: rows[i]
  }

  /** Housekeeping first, then the insert, which the primary key may refuse. */
  function Created(rows: Rows, id: Id, c: Challenge, now: int): Rows {
    var kept := Pruned(rows, now);
    if id in kept then kept else kept[id := c]
  }

  predicate Open(rows: Rows, id: Id, now: int) {
    id in rows && !rows[id].consumed && rows[id].expiresAt > now
  }

  /** One verification transaction. */
  function Checked(rows: Rows, id: Id, presented: Digest<Otp>, now: int): (Rows, Outcome) {
    if !Open(rows, id, now) || rows[id].attempts >= MAX_ATTEMPTS then (rows, Missing)
    else if rows[id].hash != presented then (rows[id := rows[id].(attempts := rows[id].attempts + 1)], Invalid)
    else (rows[id := rows[id].(consumed := true)], Verified(rows[id].user, rows[id].returnTo))
  }

  class EmailChallengeStore {
    var rows: Rows

    constructor ()
      ensures rows == map[]
    {
      rows := map[];
    }

    method Create(id: Id, user: string, hash: Digest<Otp>, returnTo: string, ttl: int, now: int) returns (ok: bool)
      modifies this
      ensures rows == Created(old(rows), id, Challenge(user, hash, returnTo, now + ttl, false, 0), now)
      ensures ok <==> !(id in old(rows) && old(rows)[id].expiresAt >= now)
      ensures forall i :: i in rows <==> (i in old(rows) && old(rows)[i].expiresAt >= now) || (ok && i == id)
      ensures ok ==> rows[id] == Challenge(user, hash, returnTo, now + ttl, false, 0)
      ensures forall i :: i in rows && !(ok && i == id) ==> rows[i] == old(rows)[i]
    {
      rows := map i | i in rows && !(rows[i].expiresAt < now) :: rows[i];
      if id in rows {
        return false;
      }
      rows := rows[id := Challenge(user, hash, returnTo, now + ttl, false, 0)];
      ok := true;
    }

    method Verify(id: Id, presented: Digest<Otp>, now: int) returns (r: Outcome)
      modifies this
      ensures (rows, r) == Checked(old(rows), id, presented, now)
      ensures r.Missing? <==> !(id in old(rows) && !old(rows)[id].consumed && now < old(rows)[id].expiresAt &&
                                old(rows)[id].attempts < 5)
      ensures r.Missing? ==> rows == old(rows)
      ensures !r.Missing? ==> (r.Verified? <==> old(rows)[id].hash == presented)
      ensures r.Invalid? ==> rows == old(rows)[id := old(rows)[id].(attempts := old(rows)[id].attempts + 1)]
      ensures r.Verified? ==> rows == old(rows)[id := old(rows)[id].(consumed := true)]
      ensures r.Verified? ==> r == Verified(old(rows)[id].user, old(rows)[id].returnTo)
    {
      if id !in rows || rows[id].consumed || rows[id].expiresAt <= now {
        return Missing;
      }
      var c := rows[id];
      if c.attempts >= MAX_ATTEMPTS {
        return Missing;
      }
      if c.hash != presented {
        rows := rows[id := c.(attempts := c.attempts + 1)];
        return Invalid;
      }
      rows := rows[id := c.(consumed := true)];
      r := Verified(c.user, c.returnTo);
    }

    method Peek(id: Id, now: int) returns (r: Option<(string, string)>)
      ensures r.Some? <==> id in rows && !rows[id].consumed && now < rows[id].expiresAt
      ensures r.Some? ==> r.value == (rows[id].user, rows[id].returnTo)
    {
      if id in rows && !rows[id].consumed && now < rows[id].expiresAt {
        return Some((rows[id].user, rows[id].returnTo));
      }
      r := None;
    }

    method Delete(id: Id)
      modifies this
      ensures rows == old(rows) - {id}
    {
      rows := rows - {id};
    }
  }

  // ---- Runs. A resend is three separate statements, so other requests may fall between them.

  /** A resend request between its read and its insert. */
  datatype Resend = Resend(parent: Id, user: string, returnTo: string)

  datatype Request =
    | Tick(to: int)
    | PasswordLogin(user: string, mfaRequired: bool, id: Id, code: Otp, returnTo: string, ttl: int)
    | Submit(id: Id, code: Otp)
    | ResendPeek(req: nat, id: Id)
    | ResendDelete(req: nat)
    | ResendCreate(req: nat, id: Id, code: Otp, ttl: int)

  datatype Entry =
    | PasswordOk(user: string)
    | Session(user: string)
    | Opened(id: Id, user: string, code: Otp, returnTo: string, parent: Option<Id>, expiresAt: int)
    | Wrong(id: Id)
    | Right(id: Id, user: string, returnTo: string)
    | Superseded(id: Id)

  datatype System = System(now: int, rows: Rows, resends: map<nat, Resend>, log: seq<Entry>)

  function OpenChallenge(s: System, id: Id, user: string, code: Otp, returnTo: string, ttl: int, parent: Option<Id>)
    : System
  {
    s.(rows := Created(s.rows, id, Challenge(user, Digest(code), returnTo, s.now + ttl, false, 0), s.now),
       log := s.log + [Opened(id, user, code, returnTo, parent, s.now + ttl)])
  }

  function Step(s: System, q: Request): System {
    match q
    case Tick(to) => if to >= s.now then s.(now := to) else s
    case PasswordLogin(user, mfaRequired, id, code, returnTo, ttl) =>
      var known := s.(log := s.log + [PasswordOk(user)]);
      if mfaRequired then OpenChallenge(known, id, user, code, returnTo, ttl, None)
      else known.(log := known.log + [Session(user)])
    case Submit(id, code) =>
      var (rows, r) := Checked(s.rows, id, Digest(code), s.now);
      (match r
       case Missing => s
       case Invalid => s.(rows := rows, log := s.log + [Wrong(id)])
       case Verified(user, returnTo) => s.(rows := rows, log := s.log + [Right(id, user, returnTo)]))
    case ResendPeek(req, id) =>
      if Open(s.rows, id, s.now)
      then s.(resends := s.resends[req := Resend(id, s.rows[id].user, s.rows[id].returnTo)]) else s
    case ResendDelete(req) =>
      if req in s.resends
      then s.(rows := s.rows - {s.resends[req].parent}, log := s.log + [Superseded(s.resends[req].parent)]) else s
    case ResendCreate(req, id, code, ttl) =>
      if req in s.resends
      then OpenChallenge(s.(resends := s.resends - {req}), id, s.resends[req].user, code, s.resends[req].returnTo, ttl,
                         Some(s.resends[req].parent))
      else s
  }

  const START := System(0, map[], map[], [])

  function After(run: seq<Request>): System {
    if run == [] then START else Step(After(run[..|run| - 1]), run[|run| - 1])
  }

  // ---- Reading the record

  function Opening(log: seq<Entry>, id: Id): (r: Option<Entry>)
    ensures r.Some? ==> r.value.Opened? && r.value.id == id
  {
    if log == [] then None
    else if log[|log| - 1].Opened? && log[|log| - 1].id == id then Some(log[|log| - 1])
    else Opening(log[..|log| - 1], id)
  }

  function WrongCount(log: seq<Entry>, id: Id): nat {
    if log == [] then 0
    else WrongCount(log[..|log| - 1], id) + if log[|log| - 1] == Wrong(id) then 1 else 0
  }

  function RightCount(log: seq<Entry>, id: Id): nat {
    if log == [] then 0
    else RightCount(log[..|log| - 1], id) + if log[|log| - 1].Right? && log[|log| - 1].id == id then 1 else 0
  }

  predicate IsSuperseded(log: seq<Entry>, id: Id) {
    log != [] && (log[|log| - 1] == Superseded(id) || IsSuperseded(log[..|log| - 1], id))
  }

  /** Generated challenge ids are new. */
  predicate FreshId(s: System, q: Request) {
    q.PasswordLogin? || q.ResendCreate? ==> Opening(s.log, q.id).None?
  }

  predicate IsRun(run: seq<Request>) {
    run == [] || (IsRun(run[..|run| - 1]) && FreshId(After(run[..|run| - 1]), run[|run| - 1]))
  }

  /** The challenge can still take a guess. */
  predicate TakesGuess(log: seq<Entry>, id: Id, now: int) {
    && Opening(log, id).Some? && now < Opening(log, id).value.expiresAt
    && RightCount(log, id) == 0 && !IsSuperseded(log, id) && WrongCount(log, id) < 5
  }

  /** The table agrees with the record about one challenge. */
  ghost predicate RowMatches(s: System, id: Id) {
    var o := Opening(s.log, id);
    && WrongCount(s.log, id) <= MAX_ATTEMPTS && RightCount(s.log, id) <= 1
    && (o.None? ==> id !in s.rows && WrongCount(s.log, id) == 0 && RightCount(s.log, id) == 0 &&
                    !IsSuperseded(s.log, id) && forall req :: req in s.resends ==> s.resends[req].parent != id)
    && (if id in s.rows then
          var c := s.rows[id];
          && o.Some? && !IsSuperseded(s.log, id)
          && c.user == o.value.user && c.returnTo == o.value.returnTo
          && c.hash == Digest(o.value.code) && c.expiresAt == o.value.expiresAt
          && c.attempts == WrongCount(s.log, id) && c.consumed == (RightCount(s.log, id) == 1)
        else o.Some? ==> IsSuperseded(s.log, id) || s.now > o.value.expiresAt)
  }

  lemma OneMoreEntry(log: seq<Entry>, e: Entry)
    ensures (log + [e])[..|log|] == log && (log + [e])[|log|] == e
  {
  }

  lemma OpenRow(s: System, i: Id, user: string, code: Otp, returnTo: string, ttl: int, parent: Option<Id>, id: Id)
    requires RowMatches(s, id) && Opening(s.log, i).None?
    requires i == id ==> forall req :: req in s.resends ==> s.resends[req].parent != id
    ensures RowMatches(OpenChallenge(s, i, user, code, returnTo, ttl, parent), id)
  {
    OneMoreEntry(s.log, Opened(i, user, code, returnTo, parent, s.now + ttl));
  }

  lemma WrongRow(s: System, i: Id, id: Id)
    requires RowMatches(s, id) && i in s.rows && s.rows[i].attempts < MAX_ATTEMPTS
    ensures RowMatches(s.(rows := s.rows[i := s.rows[i].(attempts := s.rows[i].attempts + 1)],
                          log := s.log + [Wrong(i)]), id)
  {
    OneMoreEntry(s.log, Wrong(i));
  }

  lemma RightRow(s: System, i: Id, id: Id)
    requires RowMatches(s, id) && i in s.rows && !s.rows[i].consumed
    ensures RowMatches(s.(rows := s.rows[i := s.rows[i].(consumed := true)],
                          log := s.log + [Right(i, s.rows[i].user, s.rows[i].returnTo)]), id)
  {
    OneMoreEntry(s.log, Right(i, s.rows[i].user, s.rows[i].returnTo));
  }

  lemma SubmitRow(s: System, i: Id, code: Otp, id: Id)
    requires RowMatches(s, id)
    ensures RowMatches(Step(s, Submit(i, code)), id)
  {
    if Open(s.rows, i, s.now) && s.rows[i].attempts < MAX_ATTEMPTS {
      if s.rows[i].hash == Digest(code) {
        RightRow(s, i, id);
      } else {
        WrongRow(s, i, id);
      }
    }
  }

  lemma PasswordRow(s: System, user: string, id: Id)
    requires RowMatches(s, id)
    ensures RowMatches(s.(log := s.log + [PasswordOk(user)]), id)
    ensures RowMatches(s.(log := s.log + [Session(user)]), id)
    ensures Opening(s.log + [PasswordOk(user)], id) == Opening(s.log, id)
  {
    OneMoreEntry(s.log, PasswordOk(user));
    OneMoreEntry(s.log, Session(user));
  }

  lemma SupersededRow(s: System, req: nat, id: Id)
    requires RowMatches(s, id)
    ensures RowMatches(Step(s, ResendDelete(req)), id)
  {
    if req in s.resends {
      OneMoreEntry(s.log, Superseded(s.resends[req].parent));
    }
  }

  lemma LoginRow(s: System, q: Request, id: Id)
    requires q.PasswordLogin? && RowMatches(s, id) && FreshId(s, q)
    ensures RowMatches(Step(s, q), id)
  {
    var known := s.(log := s.log + [PasswordOk(q.user)]);
    PasswordRow(s, q.user, id);
    PasswordRow(known, q.user, id);
    OneMoreEntry(s.log, PasswordOk(q.user));
    OpenRow(known, q.id, q.user, q.code, q.returnTo, q.ttl, None, id);
  }

  lemma {:induction false} RowStep(s: System, q: Request, id: Id)
    requires RowMatches(s, id) && FreshId(s, q)
    ensures RowMatches(Step(s, q), id)
  {
    match q
    case Tick(_) =>
    case PasswordLogin(_, _, _, _, _, _) => LoginRow(s, q, id);
    case Submit(i, code) => SubmitRow(s, i, code, id);
    case ResendPeek(_, _) =>
    case ResendDelete(req) => SupersededRow(s, req, id);
    case ResendCreate(req, i, code, ttl) =>
      if req in s.resends {
        var r := s.resends[req];
        OpenRow(s.(resends := s.resends - {req}), i, r.user, code, r.returnTo, ttl, Some(r.parent), id);
      }
  }

  lemma {:induction false} RowsMatch(run: seq<Request>, id: Id)
    requires IsRun(run)
    ensures RowMatches(After(run), id)
  {
    if run != [] {
      RowsMatch(run[..|run| - 1], id);
      RowStep(After(run[..|run| - 1]), run[|run| - 1], id);
    }
  }

  /** Every challenge takes at most five wrong codes and one right one. */
  lemma GuessBudget(run: seq<Request>, id: Id)
    requires IsRun(run)
    ensures WrongCount(After(run).log, id) <= 5 && RightCount(After(run).log, id) <= 1
  {
    RowsMatch(run, id);
  }

  /** What a submitted code does is decided by the record alone. */
  lemma SubmitDecidedByRecord(run: seq<Request>, id: Id, code: Otp)
    requires IsRun(run)
    ensures var s := After(run);
            var o := Opening(s.log, id);
            Step(s, Submit(id, code)).log == s.log +
            if !TakesGuess(s.log, id, s.now) then []
            else if code == o.value.code then [Right(id, o.value.user, o.value.returnTo)]
            else [Wrong(id)]
  {
    RowsMatch(run, id);
  }

  /** Time takes a challenge away at its expiry, and not before. */
  lemma TimeEndsChallenge(run: seq<Request>, id: Id, to: int)
    requires to >= After(run).now
    ensures var s := After(run);
            TakesGuess(Step(s, Tick(to)).log, id, Step(s, Tick(to)).now) <==>
            TakesGuess(s.log, id, s.now) && to < Opening(s.log, id).value.expiresAt
  {
  }

  /** The challenge was opened and is neither expired, answered nor replaced. */
  predicate Resendable(log: seq<Entry>, id: Id, now: int) {
    && Opening(log, id).Some? && now < Opening(log, id).value.expiresAt
    && RightCount(log, id) == 0 && !IsSuperseded(log, id)
  }

  /** A resend goes on exactly for a resendable challenge, with the user and return
      path that the record has for it. */
  lemma ResendDecidedByRecord(run: seq<Request>, req: nat, id: Id)
    requires IsRun(run)
    ensures var s := After(run);
            var o := Opening(s.log, id);
            Step(s, ResendPeek(req, id)) ==
            if Resendable(s.log, id, s.now)
            then s.(resends := s.resends[req := Resend(id, o.value.user, o.value.returnTo)]) else s
  {
    RowsMatch(run, id);
  }

  /** The rest of a resend replaces the challenge it read and opens a new one, once,
      for the same user and return path. */
  lemma ResendGoesOn(s: System, req: nat, id: Id, code: Otp, ttl: int)
    ensures Step(s, ResendDelete(req)).log ==
            s.log + if req in s.resends then [Superseded(s.resends[req].parent)] else []
    ensures var s' := Step(s, ResendCreate(req, id, code, ttl));
            && req !in s'.resends
            && s'.log == if req !in s.resends then s.log else
                 var from := s.resends[req];
                 s.log + [Opened(id, from.user, code, from.returnTo, Some(from.parent), s.now + ttl)]
  {
  }

  // ---- Provenance

  /** The challenge goes back, through any number of resends for the same user and
      the same return path, to a challenge opened after that user's password was
      accepted. */
  ghost predicate Traced(log: seq<Entry>, id: Id, user: string, returnTo: string)
    decreases |log|, 0
  {
    exists i :: 0 <= i < |log| && TracedAt(log, i, id, user, returnTo)
  }

  ghost predicate TracedAt(log: seq<Entry>, i: nat, id: Id, user: string, returnTo: string)
    requires i < |log|
    decreases i, 1
  {
    && log[i].Opened? && log[i].id == id && log[i].user == user && log[i].returnTo == returnTo
    && (if log[i].parent.None? then PasswordOk(user) in log[..i]
        else Traced(log[..i], log[i].parent.value, user, returnTo))
  }

  lemma TracedLater(log: seq<Entry>, more: seq<Entry>, id: Id, user: string, returnTo: string)
    requires Traced(log, id, user, returnTo)
    ensures Traced(log + more, id, user, returnTo)
  {
    var i :| 0 <= i < |log| && TracedAt(log, i, id, user, returnTo);
    assert (log + more)[..i] == log[..i] && (log + more)[i] == log[i];
    assert TracedAt(log + more, i, id, user, returnTo);
  }

  lemma {:induction false} TracedMeansPassword(log: seq<Entry>, id: Id, user: string, returnTo: string)
    requires Traced(log, id, user, returnTo)
    ensures PasswordOk(user) in log
    decreases |log|
  {
    var i :| 0 <= i < |log| && TracedAt(log, i, id, user, returnTo);
    if log[i].parent.Some? {
      TracedMeansPassword(log[..i], log[i].parent.value, user, returnTo);
    }
  }

  ghost predicate ProvenanceInv(s: System) {
    && (forall id :: id in s.rows ==> Traced(s.log, id, s.rows[id].user, s.rows[id].returnTo))
    && (forall req :: req in s.resends ==>
          Traced(s.log, s.resends[req].parent, s.resends[req].user, s.resends[req].returnTo))
  }

  lemma ProvenanceLater(s: System, more: seq<Entry>)
    requires ProvenanceInv(s)
    ensures ProvenanceInv(s.(log := s.log + more))
  {
    forall id | id in s.rows ensures Traced(s.log + more, id, s.rows[id].user, s.rows[id].returnTo) {
      TracedLater(s.log, more, id, s.rows[id].user, s.rows[id].returnTo);
    }
    forall req | req in s.resends
      ensures Traced(s.log + more, s.resends[req].parent, s.resends[req].user, s.resends[req].returnTo) {
      TracedLater(s.log, more, s.resends[req].parent, s.resends[req].user, s.resends[req].returnTo);
    }
  }

  lemma OpenedTraced(s: System, id: Id, user: string, code: Otp, returnTo: string, ttl: int, parent: Option<Id>)
    requires ProvenanceInv(s)
    requires if parent.None? then PasswordOk(user) in s.log else Traced(s.log, parent.value, user, returnTo)
    ensures ProvenanceInv(OpenChallenge(s, id, user, code, returnTo, ttl, parent))
  {
    var e := Opened(id, user, code, returnTo, parent, s.now + ttl);
    ProvenanceLater(s, [e]);
    OneMoreEntry(s.log, e);
    assert TracedAt(s.log + [e], |s.log|, id, user, returnTo);
  }

  lemma ProvenanceStep(s: System, q: Request)
    requires ProvenanceInv(s)
    ensures ProvenanceInv(Step(s, q))
  {
    match q
    case Tick(_) =>
    case PasswordLogin(user, mfaRequired, id, code, returnTo, ttl) =>
      ProvenanceLater(s, [PasswordOk(user)]);
      var known := s.(log := s.log + [PasswordOk(user)]);
      assert known.log[|s.log|] == PasswordOk(user);
      if mfaRequired {
        OpenedTraced(known, id, user, code, returnTo, ttl, None);
      } else {
        ProvenanceLater(known, [Session(user)]);
      }
    case Submit(id, code) =>
      var (rows, r) := Checked(s.rows, id, Digest(code), s.now);
      ProvenanceLater(s.(rows := rows),
        if r.Invalid? then [Wrong(id)] else if r.Verified? then [Right(id, r.user, r.returnTo)] else []);
      assert s.log + [] == s.log;
    case ResendPeek(req, id) =>
    case ResendDelete(req) =>
      if req in s.resends {
        ProvenanceLater(s.(rows := s.rows - {s.resends[req].parent}), [Superseded(s.resends[req].parent)]);
      }
    case ResendCreate(req, id, code, ttl) =>
      if req in s.resends {
        var r := s.resends[req];
        OpenedTraced(s.(resends := s.resends - {req}), id, r.user, code, r.returnTo, ttl, Some(r.parent));
      }
  }

  lemma {:induction false} ProvenanceHolds(run: seq<Request>)
    ensures ProvenanceInv(After(run))
  {
    if run != [] {
      ProvenanceHolds(run[..|run| - 1]);
      ProvenanceStep(After(run[..|run| - 1]), run[|run| - 1]);
    }
  }

  /** What an accepted password leads to: with a second factor required a new
      challenge and no session, without one a session and no challenge. */
  lemma LoginDecided(s: System, user: string, id: Id, code: Otp, returnTo: string, ttl: int)
    ensures Step(s, PasswordLogin(user, true, id, code, returnTo, ttl)).log ==
            s.log + [PasswordOk(user), Opened(id, user, code, returnTo, None, s.now + ttl)]
    ensures Step(s, PasswordLogin(user, false, id, code, returnTo, ttl)).log ==
            s.log + [PasswordOk(user), Session(user)]
    ensures Step(s, PasswordLogin(user, false, id, code, returnTo, ttl)).rows == s.rows
  {
  }

  /** Every session without a code comes from a login that required none: a user of
      whom a second factor is required gets in only by a right code. */
  lemma {:induction false} DirectSessionsNotRequired(run: seq<Request>, user: string) returns (n: nat)
    requires Session(user) in After(run).log
    ensures n < |run| && run[n].PasswordLogin? && run[n].user == user && !run[n].mfaRequired
  {
    var before, q := run[..|run| - 1], run[|run| - 1];
    if Session(user) in After(before).log {
      n := DirectSessionsNotRequired(before, user);
    } else {
      n := |run| - 1;
      var es := NewEntries(After(before), q);
      assert Session(user) in es;
    }
  }

  /** A session issued by either route. */
  ghost predicate Earned(log: seq<Entry>, i: nat)
    requires i < |log|
  {
    match log[i]
    case Right(id, user, returnTo) => Traced(log[..i], id, user, returnTo) && PasswordOk(user) in log[..i]
    case Session(user) => PasswordOk(user) in log[..i]
    case _ => true
  }

  lemma StepEarns(s: System, q: Request, i: nat)
    requires ProvenanceInv(s) && |s.log| <= i < |Step(s, q).log|
    ensures Earned(Step(s, q).log, i)
  {
    var log := Step(s, q).log;
    if log[i].Right? {
      assert log[..i] == s.log;
      TracedMeansPassword(s.log, log[i].id, log[i].user, log[i].returnTo);
    } else if log[i].Session? {
      assert log[..i][i - 1] == log[i - 1] == PasswordOk(log[i].user);
    }
  }

  lemma RecordGrows(s: System, q: Request)
    ensures s.log <= Step(s, q).log
  {
  }

  /** Every session, by code or without one, is for a user whose password was
      accepted earlier in the run; a code's challenge traces back to that login. */
  lemma {:induction false} SessionsAreEarned(run: seq<Request>, i: nat)
    requires i < |After(run).log|
    ensures Earned(After(run).log, i)
  {
    var before, q := run[..|run| - 1], run[|run| - 1];
    var s, log := After(before), After(run).log;
    RecordGrows(s, q);
    if i < |s.log| {
      SessionsAreEarned(before, i);
      assert log[..i] == s.log[..i] && log[i] == s.log[i];
    } else {
      ProvenanceHolds(before);
      StepEarns(s, q, i);
    }
  }

  /** The three statements of a resend, nothing in between. */
  function Resent(s: System, req: nat, parent: Id, id: Id, code: Otp, ttl: int): System {
    Step(Step(Step(s, ResendPeek(req, parent)), ResendDelete(req)), ResendCreate(req, id, code, ttl))
  }

  /** The state before the insert. */
  function Deleted(s: System, req: nat, parent: Id): System {
    s.(rows := s.rows - {parent}, resends := s.resends - {req}, log := s.log + [Superseded(parent)])
  }

  lemma {:induction false} ResendOpens(s: System, req: nat, parent: Id, id: Id, code: Otp, ttl: int)
    requires Open(s.rows, parent, s.now)
    ensures var c := s.rows[parent];
            Resent(s, req, parent, id, code, ttl) ==
            OpenChallenge(Deleted(s, req, parent), id, c.user, code, c.returnTo, ttl, Some(parent))
  {
    var c := s.rows[parent];
    assert s.resends[req := Resend(parent, c.user, c.returnTo)] - {req} == s.resends - {req};
  }

  lemma {:induction false} ReopenedTakesGuess(s: System, req: nat, parent: Id, id: Id, code: Otp, ttl: int)
    requires RowMatches(s, id) && Opening(s.log, id).None? && ttl > 0 && parent in s.rows
    ensures var c, deleted := s.rows[parent], Deleted(s, req, parent);
            TakesGuess(OpenChallenge(deleted, id, c.user, code, c.returnTo, ttl, Some(parent)).log, id, s.now)
  {
    var c, log := s.rows[parent], s.log + [Superseded(parent)];
    OneMoreEntry(s.log, Superseded(parent));
    OneMoreEntry(log, Opened(id, c.user, code, c.returnTo, Some(parent), s.now + ttl));
  }

  /** The budget belongs to a challenge, not to a login: a challenge whose five
      attempts are spent can still be resent, and the new one takes guesses again. */
  lemma {:induction false} ResendRestoresBudget(run: seq<Request>, oldId: Id, req: nat, id: Id, code: Otp, ttl: int)
    requires IsRun(run) && ttl > 0
    requires var s := After(run);
             && Opening(s.log, oldId).Some? && s.now < Opening(s.log, oldId).value.expiresAt
             && RightCount(s.log, oldId) == 0 && !IsSuperseded(s.log, oldId)
             && WrongCount(s.log, oldId) == MAX_ATTEMPTS
             && Opening(s.log, id).None?
    ensures var s := After(run);
            var s' := Resent(s, req, oldId, id, code, ttl);
            !TakesGuess(s.log, oldId, s.now) && TakesGuess(s'.log, id, s'.now)
  {
    RowsMatch(run, oldId);
    RowsMatch(run, id);
    var s := After(run);
    ResendOpens(s, req, oldId, id, code, ttl);
    ReopenedTakesGuess(s, req, oldId, id, code, ttl);
  }

  // ---- The budget of a login

  /** The challenges that descend from one login, in the order they were opened. */
  function Family(log: seq<Entry>, root: Id): seq<Id> {
    if log == [] then []
    else
      var e, before := log[|log| - 1], Family(log[..|log| - 1], root);
      if e.Opened? && (if e.parent.None? then e.id == root else e.parent.value in before) then before + [e.id]
      else before
  }

  /** The wrong codes that were compared with a challenge of the family. */
  function FamilyWrong(log: seq<Entry>, root: Id): nat {
    if log == [] then 0
    else
      var e, before := log[|log| - 1], log[..|log| - 1];
      FamilyWrong(before, root) + if e.Wrong? && e.id in Family(before, root) then 1 else 0
  }

  function SumWrong(log: seq<Entry>, ids: seq<Id>): nat {
    if ids == [] then 0 else SumWrong(log, ids[..|ids| - 1]) + WrongCount(log, ids[|ids| - 1])
  }

  predicate Distinct(ids: seq<Id>) {
    forall i, j :: 0 <= i < j < |ids| ==> ids[i] != ids[j]
  }

  ghost predicate Tallied(log: seq<Entry>, root: Id) {
    && FamilyWrong(log, root) == SumWrong(log, Family(log, root))
    && Distinct(Family(log, root)) && forall id :: id in Family(log, root) ==> Opening(log, id).Some?
  }

  lemma {:induction false} SumMore(log: seq<Entry>, e: Entry, ids: seq<Id>)
    requires Distinct(ids)
    ensures SumWrong(log + [e], ids) == SumWrong(log, ids) + if e.Wrong? && e.id in ids then 1 else 0
  {
    if ids != [] {
      var init, id := ids[..|ids| - 1], ids[|ids| - 1];
      SumMore(log, e, init);
      OneMoreEntry(log, e);
      assert ids == init + [id] && id !in init;
    }
  }

  lemma {:induction false} SumOneMore(log: seq<Entry>, ids: seq<Id>, id: Id)
    ensures SumWrong(log, ids + [id]) == SumWrong(log, ids) + WrongCount(log, id)
  {
    assert (ids + [id])[..|ids|] == ids;
  }

  lemma {:induction false} TalliedMore(log: seq<Entry>, e: Entry, root: Id)
    requires Tallied(log, root)
    requires e.Opened? ==> Opening(log, e.id).None? && WrongCount(log, e.id) == 0
    ensures Tallied(log + [e], root)
  {
    var ids, ids' := Family(log, root), Family(log + [e], root);
    OneMoreEntry(log, e);
    SumMore(log, e, ids);
    if ids' != ids {
      SumOneMore(log + [e], ids, e.id);
      assert e.id !in ids;
    }
    forall id | id in ids' ensures Opening(log + [e], id).Some? {
      assert id in ids || id == e.id;
    }
  }

  /** A challenge that was never opened took no guess. */
  ghost predicate NoEarlyGuess(log: seq<Entry>) {
    forall id :: Opening(log, id).None? ==> WrongCount(log, id) == 0
  }

  /** What one request adds to the record: nothing, one entry, or an accepted
      password and one entry. Only a fresh challenge is opened. */
  lemma {:induction false} NewEntries(s: System, q: Request) returns (es: seq<Entry>)
    ensures Step(s, q).log == s.log + es
    ensures es == [] || |es| == 1 || (|es| == 2 && es[0].PasswordOk?)
    ensures es != [] && es[|es| - 1].Opened? ==> (q.PasswordLogin? || q.ResendCreate?) && es[|es| - 1].id == q.id
  {
    match q
    case Tick(_) => es := [];
    case PasswordLogin(user, mfaRequired, id, code, returnTo, ttl) =>
      var e := if mfaRequired then Opened(id, user, code, returnTo, None, s.now + ttl) else Session(user);
      es := [PasswordOk(user), e];
      assert s.log + es == s.log + [PasswordOk(user)] + [e];
    case Submit(id, code) =>
      var r := Checked(s.rows, id, Digest(code), s.now).1;
      es := if r.Missing? then [] else if r.Invalid? then [Wrong(id)] else [Right(id, r.user, r.returnTo)];
    case ResendPeek(_, _) => es := [];
    case ResendDelete(req) => es := if req in s.resends then [Superseded(s.resends[req].parent)] else [];
    case ResendCreate(req, id, code, ttl) =>
      es := [];
      if req in s.resends {
        var r := s.resends[req];
        es := [Opened(id, r.user, code, r.returnTo, Some(r.parent), s.now + ttl)];
      }
  }

  lemma {:induction false} TalliedAll(log: seq<Entry>, es: seq<Entry>, root: Id)
    requires Tallied(log, root) && NoEarlyGuess(log)
    requires es == [] || |es| == 1 || (|es| == 2 && es[0].PasswordOk?)
    requires es != [] && es[|es| - 1].Opened? ==> Opening(log, es[|es| - 1].id).None?
    ensures Tallied(log + es, root)
  {
    if es == [] {
      assert log + es == log;
    } else if |es| == 1 {
      assert es == [es[0]];
      TalliedMore(log, es[0], root);
    } else {
      TalliedTwo(log, es[0], es[1], root);
      assert log + es == log + [es[0]] + [es[1]];
    }
  }

  lemma {:induction false} TalliedTwo(log: seq<Entry>, d: Entry, e: Entry, root: Id)
    requires Tallied(log, root) && d.PasswordOk?
    requires e.Opened? ==> Opening(log, e.id).None? && WrongCount(log, e.id) == 0
    ensures Tallied(log + [d] + [e], root)
  {
    OneMoreEntry(log, d);
    TalliedMore(log, d, root);
    TalliedMore(log + [d], e, root);
  }

  lemma {:induction false} TalliedStep(s: System, q: Request, root: Id)
    requires Tallied(s.log, root) && NoEarlyGuess(s.log) && FreshId(s, q)
    ensures Tallied(Step(s, q).log, root)
  {
    var es := NewEntries(s, q);
    TalliedAll(s.log, es, root);
  }

  lemma {:induction false} FamilyTallied(run: seq<Request>, root: Id)
    requires IsRun(run)
    ensures Tallied(After(run).log, root)
  {
    if run != [] {
      var before := run[..|run| - 1];
      FamilyTallied(before, root);
      forall id ensures Opening(After(before).log, id).None? ==> WrongCount(After(before).log, id) == 0 {
        RowsMatch(before, id);
      }
      TalliedStep(After(before), run[|run| - 1], root);
    }
  }

  lemma {:induction false} SumBounded(log: seq<Entry>, ids: seq<Id>)
    requires forall id :: WrongCount(log, id) <= MAX_ATTEMPTS
    ensures SumWrong(log, ids) <= MAX_ATTEMPTS * |ids|
  {
    if ids != [] {
      SumBounded(log, ids[..|ids| - 1]);
    }
  }

  /** In every run the wrong codes compared over all challenges that descend from
      one login are at most five for each of those challenges; so they are at most
      five if the login's challenge was never resent. */
  lemma {:induction false} LoginBudget(run: seq<Request>, root: Id)
    requires IsRun(run)
    ensures FamilyWrong(After(run).log, root) <= MAX_ATTEMPTS * |Family(After(run).log, root)|
  {
    FamilyTallied(run, root);
    forall id ensures WrongCount(After(run).log, id) <= MAX_ATTEMPTS {
      GuessBudget(run, id);
    }
    SumBounded(After(run).log, Family(After(run).log, root));
  }

  // ---- The bound is attained

  lemma {:induction false} Then(run: seq<Request>, q: Request) returns (longer: seq<Request>)
    requires IsRun(run) && FreshId(After(run), q)
    ensures IsRun(longer) && After(longer) == Step(After(run), q)
  {
    longer := run + [q];
    assert longer[..|run|] == run;
  }

  lemma {:induction false} FamilyMore(log: seq<Entry>, e: Entry, root: Id)
    ensures var ids := Family(log, root);
            && Family(log + [e], root) ==
               (if e.Opened? && (if e.parent.None? then e.id == root else e.parent.value in ids) then ids + [e.id]
                else ids)
            && FamilyWrong(log + [e], root) == FamilyWrong(log, root) + if e.Wrong? && e.id in ids then 1 else 0
    ensures forall id :: Opening(log + [e], id) == if e.Opened? && e.id == id then Some(e) else Opening(log, id)
  {
    OneMoreEntry(log, e);
  }

  /** Resends of one login, whose challenges are numbered from `root`: `n` of them
      are spent, and the newest is open with `k` wrong codes. */
  ghost predicate Pressed(s: System, root: Id, n: nat, k: nat) {
    && s.now == 0 && root + n in s.rows && s.rows[root + n] == Challenge("u", Digest(0), "/", 1, false, k)
    && LogPressed(s.log, root, n, k)
  }

  ghost predicate LogPressed(log: seq<Entry>, root: Id, n: nat, k: nat) {
    && (forall id :: id > root + n ==> Opening(log, id).None?)
    && root + n in Family(log, root) && |Family(log, root)| == n + 1 && FamilyWrong(log, root) == MAX_ATTEMPTS * n + k
  }

  lemma {:induction false} FirstPressed(root: Id) returns (run: seq<Request>)
    ensures IsRun(run) && Pressed(After(run), root, 0, 0)
  {
    run := Then([], PasswordLogin("u", true, root, 0, "/", 1));
    FamilyMore([], PasswordOk("u"), root);
    FamilyMore([] + [PasswordOk("u")], Opened(root, "u", 0, "/", None, 1), root);
  }

  lemma {:induction false} WrongPressed(run: seq<Request>, root: Id, n: nat, k: nat) returns (longer: seq<Request>)
    requires IsRun(run) && Pressed(After(run), root, n, k) && k < MAX_ATTEMPTS
    ensures IsRun(longer) && Pressed(After(longer), root, n, k + 1)
  {
    WrongStep(After(run), root + n);
    longer := Then(run, Submit(root + n, 1));
    FamilyMore(After(run).log, Wrong(root + n), root);
  }

  lemma {:induction false} WrongStep(s: System, id: Id)
    requires Open(s.rows, id, s.now) && s.rows[id].attempts < MAX_ATTEMPTS && s.rows[id].hash == Digest(0)
    ensures Step(s, Submit(id, 1)) ==
            s.(rows := s.rows[id := s.rows[id].(attempts := s.rows[id].attempts + 1)], log := s.log + [Wrong(id)])
  {
  }

  lemma {:induction false} Spent(run: seq<Request>, root: Id, n: nat, k: nat) returns (longer: seq<Request>)
    requires IsRun(run) && Pressed(After(run), root, n, k) && k <= MAX_ATTEMPTS
    ensures IsRun(longer) && Pressed(After(longer), root, n, MAX_ATTEMPTS)
    decreases MAX_ATTEMPTS - k
  {
    longer := run;
    if k < MAX_ATTEMPTS {
      longer := WrongPressed(run, root, n, k);
      longer := Spent(longer, root, n, k + 1);
    }
  }

  /** The record of a resend. */
  lemma {:induction false} ResendPressed(log: seq<Entry>, root: Id, n: nat)
    requires LogPressed(log, root, n, MAX_ATTEMPTS)
    ensures LogPressed(log + [Superseded(root + n)] + [Opened(root + n + 1, "u", 0, "/", Some(root + n), 1)],
                       root, n + 1, 0)
    ensures Opening(log + [Superseded(root + n)], root + n + 1).None?
  {
    FamilyMore(log, Superseded(root + n), root);
    FamilyMore(log + [Superseded(root + n)], Opened(root + n + 1, "u", 0, "/", Some(root + n), 1), root);
  }

  lemma {:induction false} ReopenedPressed(s: System, root: Id, n: nat)
    requires Pressed(s, root, n, MAX_ATTEMPTS)
    ensures var deleted := Deleted(s, 0, root + n);
            && Opening(deleted.log, root + n + 1).None?
            && (root + n + 1 !in s.rows ==>
                  Pressed(OpenChallenge(deleted, root + n + 1, "u", 0, "/", 1, Some(root + n)), root, n + 1, 0))
  {
    ResendPressed(s.log, root, n);
  }

  lemma {:induction false} ResentPressed(run: seq<Request>, root: Id, n: nat) returns (longer: seq<Request>)
    requires IsRun(run) && Pressed(After(run), root, n, MAX_ATTEMPTS)
    ensures IsRun(longer) && Pressed(After(longer), root, n + 1, 0)
  {
    var s := After(run);
    ReopenedPressed(s, root, n);
    RowsMatch(run, root + n + 1);
    longer := ResentRun(run, root + n, root + n + 1);
  }

  /** The three requests of a resend as part of a run. */
  lemma {:induction false} ResentRun(run: seq<Request>, parent: Id, id: Id) returns (longer: seq<Request>)
    requires IsRun(run) && Open(After(run).rows, parent, After(run).now)
    requires Opening(After(run).log + [Superseded(parent)], id).None?
    ensures IsRun(longer)
    ensures var s := After(run);
            var c, deleted := s.rows[parent], Deleted(s, 0, parent);
            After(longer) == OpenChallenge(deleted, id, c.user, 0, c.returnTo, 1, Some(parent))
  {
    ResendOpens(After(run), 0, parent, id, 0, 1);
    longer := Then(run, ResendPeek(0, parent));
    longer := Then(longer, ResendDelete(0));
    longer := Then(longer, ResendCreate(0, id, 0, 1));
  }

  lemma {:induction false} Pressing(root: Id, n: nat) returns (run: seq<Request>)
    ensures IsRun(run) && Pressed(After(run), root, n, MAX_ATTEMPTS)
    decreases n
  {
    if n == 0 {
      run := FirstPressed(root);
    } else {
      run := Pressing(root, n - 1);
      run := ResentPressed(run, root, n - 1);
    }
    run := Spent(run, root, n, 0);
  }

  /** However often the challenge of one login is resent, some run compares five
      wrong codes with each of its challenges. */
  lemma {:induction false} LoginBudgetAttained(root: Id, resends: nat) returns (run: seq<Request>)
    ensures IsRun(run) && |Family(After(run).log, root)| == resends + 1
    ensures FamilyWrong(After(run).log, root) == MAX_ATTEMPTS * |Family(After(run).log, root)|
  {
    run := Pressing(root, resends);
  }
}
