/** Signed tokens and their denylist on top of rotating keys
    (internal/oidcserver/provider.go, internal/store/oidcrevocations.go). */
module TokenService {
  import opened Integers
  import opened Options
  import opened SigningKeys
  import opened Tables

  type Jti = nat

  /** A signed token; only the service can produce one. */
  datatype Token = Token(kid: Kid, jti: Jti, exp: int, sub: string, aud: string, scope: string)

  /** The exp claim: fifteen minutes on, in whole seconds. */
  function Expiry(now: int): (exp: int)
    ensures now + TOKEN_TTL - SECOND < exp <= now + TOKEN_TTL
  {
    (now + TOKEN_TTL) / SECOND * SECOND
  }

  type Denylist = map<Jti, int>

  function Recorded(rows: Denylist, jti: Jti, exp: int): Denylist {
    if jti in rows then rows else rows[jti := exp]
  }

  predicate Denied(rows: Denylist, jti: Jti, now: int) {
    jti in rows && now < rows[jti]
  }

  function Swept(rows: Denylist, now: int): Denylist {
    map j | j in rows && rows[j] >= now :: rows[j]
  }

  class RevokedTokenStore {
    var rows: Denylist

    constructor ()
      ensures rows == map[]
    {
      rows := map[];
    }

    method Revoke(jti: Jti, exp: int)
      modifies this
      ensures rows == Recorded(old(rows), jti, exp)
      ensures rows == if jti in old(rows) then old(rows) else old(rows)[jti := exp]
    {
      if jti !in rows {
        rows := rows[jti := exp];
      }
    }

    method IsRevoked(jti: Jti, now: int) returns (r: bool)
      ensures r == Denied(rows, jti, now)
      ensures r <==> jti in rows && now < rows[jti]
    {
      if jti !in rows {
        return false;
      }
      r := now < rows[jti];
    }

    method DeleteExpired(now: int) returns (n: nat)
      modifies this
      ensures rows == Swept(old(rows), now) && n == |old(rows)| - |rows|
      ensures forall j :: j in rows <==> j in old(rows) && !(old(rows)[j] < now)
      ensures forall j :: j in rows ==> rows[j] == old(rows)[j]
    {
      var gone := set j | j in rows && rows[j] < now;
      n := |gone|;
      DeletedRows(rows, gone);
      rows := rows - gone;
    }
  }

  /** The replicas' keys, every token ever signed, the shared denylist table, and
      the jtis ever recorded in it, which no sweep forgets. */
  datatype Service = Service(w: World, issued: seq<Token>, deny: Denylist, revoked: set<Jti>)

  datatype Action =
    | Keys(e: Event)
    | Sign(r: int, jti: Jti, sub: string, aud: string, scope: string)
    | Revoke(r: int, client: string, t: Token)
    | Sweep

  /** What every replica does with a presented token. */
  ghost predicate Parses(s: Service, r: int, t: Token)
    requires r in s.w.replicas
  {
    && t in s.issued && Accepts(s.w, r, t.kid)
    && s.w.now < t.exp && !Denied(s.deny, t.jti, s.w.now)
  }

  ghost predicate CanSign(w: World, r: int) {
    r in w.replicas && w.replicas[r].cache.Some? && w.replicas[r].cache.value.current.Some?
  }

  ghost predicate Enabled(c: Config, s: Service, a: Action) {
    match a
    case Keys(e) => Allowed(c, s.w, e)
    case Sign(r, jti, _, _, _) => CanSign(s.w, r) && forall t :: t in s.issued ==> t.jti != jti
    case Revoke(r, _, _) => r in s.w.replicas
    case Sweep => true
  }

  ghost function Next(c: Config, s: Service, a: Action): Service
    requires Enabled(c, s, a)
  {
    match a
    case Keys(e) => s.(w := Step(c, s.w, e))
    case Sign(r, jti, sub, aud, scope) =>
      s.(issued := s.issued +
        [Token(s.w.replicas[r].cache.value.current.value, jti, Expiry(s.w.now), sub, aud, scope)])
    case Revoke(r, client, t) =>
      if Parses(s, r, t) && t.aud == client
      then s.(deny := Recorded(s.deny, t.jti, t.exp), revoked := s.revoked + {t.jti})
      else s
    case Sweep => s.(deny := Swept(s.deny, s.w.now))
  }

  const EMPTY := Service(START, [], map[], {})

  ghost predicate IsHistory(c: Config, h: seq<Action>)
    decreases |h|, 0
  {
    h == [] || (IsHistory(c, h[..|h| - 1]) && Enabled(c, Result(c, h[..|h| - 1]), h[|h| - 1]))
  }

  ghost function Result(c: Config, h: seq<Action>): Service
    requires IsHistory(c, h)
    decreases |h|, 1
  {
    if h == [] then EMPTY else Next(c, Result(c, h[..|h| - 1]), h[|h| - 1])
  }

  ghost predicate KeyInv(c: Config, w: World) {
    TableInv(c, w) && TxInv(c, w) && CacheInv(c, w)
  }

  /** The key behind a token is good until the token's last instant. */
  ghost predicate Backed(keys: SigningKeys.Keys, now: int, t: Token) {
    && t.exp <= now + TOKEN_TTL
    && t.kid in keys && (keys[t.kid].retireAt.Some? ==> keys[t.kid].retireAt.value >= t.exp - 1)
  }

  /** Until it expires, a revoked token is on the denylist under its own expiry;
      nothing else is on it. */
  ghost predicate Listed(s: Service, t: Token) {
    && (t.jti in s.revoked && s.w.now < t.exp ==> t.jti in s.deny)
    && (t.jti in s.deny ==> t.jti in s.revoked && s.deny[t.jti] == t.exp)
  }

  ghost predicate DenyInv(s: Service) {
    && (forall t :: t in s.issued ==> Listed(s, t))
    && (forall t, u :: t in s.issued && u in s.issued && t.jti == u.jti ==> t == u)
    && (forall j :: j in s.revoked ==> exists t :: t in s.issued && t.jti == j)
    && s.deny.Keys <= s.revoked
  }

  ghost predicate KeyedInv(c: Config, s: Service) {
    KeyInv(c, s.w) && forall t :: t in s.issued ==> Backed(s.w.keys, s.w.now, t)
  }

  // ---- The denylist, whatever the durations are

  lemma ClockAdvances(c: Config, w: World, e: Event)
    requires Allowed(c, w, e)
    ensures w.now <= Step(c, w, e).now
  {
  }

  lemma SignKeepsDenylist(c: Config, s: Service, a: Action)
    requires DenyInv(s) && a.Sign? && Enabled(c, s, a)
    ensures DenyInv(Next(c, s, a))
  {
    var s' := Next(c, s, a);
    assert s'.issued[|s.issued|].jti !in s.revoked;
    forall j | j in s'.revoked ensures exists u :: u in s'.issued && u.jti == j {
      var u :| u in s.issued && u.jti == j;
      assert u in s'.issued;
    }
  }

  lemma RevokeKeepsDenylist(c: Config, s: Service, a: Action)
    requires DenyInv(s) && a.Revoke? && Enabled(c, s, a)
    ensures DenyInv(Next(c, s, a))
  {
  }

  lemma SweepKeepsDenylist(c: Config, s: Service)
    requires DenyInv(s)
    ensures DenyInv(Next(c, s, Sweep))
  {
  }

  lemma {:induction false} DenylistSound(c: Config, h: seq<Action>)
    requires IsHistory(c, h)
    ensures DenyInv(Result(c, h))
  {
    if h != [] {
      var s, a := Result(c, h[..|h| - 1]), h[|h| - 1];
      DenylistSound(c, h[..|h| - 1]);
      match a
      case Keys(e) => ClockAdvances(c, s.w, e);
      case Sign(_, _, _, _, _) => SignKeepsDenylist(c, s, a);
      case Revoke(_, _, _) => RevokeKeepsDenylist(c, s, a);
      case Sweep => SweepKeepsDenylist(c, s);
    }
  }

  /** A recorded revocation that still matters denies the token. */
  lemma RevokedIsDenied(s: Service, t: Token)
    requires DenyInv(s) && t in s.issued && s.w.now < t.exp
    ensures t.jti in s.revoked <==> Denied(s.deny, t.jti, s.w.now)
  {
    assert Listed(s, t);
  }

  /** Once revoked, a token is never accepted again, at any replica, however the
      sweeps are scheduled and whatever the rotation's durations are. */
  lemma {:induction false} RevokedStaysRevoked(c: Config, h: seq<Action>, n: nat, r: int, t: Token)
    requires IsHistory(c, h) && n <= |h| && IsHistory(c, h[..n])
    requires t.jti in Result(c, h[..n]).revoked
    ensures t.jti in Result(c, h).revoked
    ensures r in Result(c, h).w.replicas ==> !Parses(Result(c, h), r, t)
    decreases |h|
  {
    if n == |h| {
      assert h[..n] == h;
    } else {
      assert h[..|h| - 1][..n] == h[..n];
      RevokedStaysRevoked(c, h[..|h| - 1], n, r, t);
    }
    DenylistSound(c, h);
    var s := Result(c, h);
    if t in s.issued && s.w.now < t.exp {
      RevokedIsDenied(s, t);
    }
  }

  // ---- Keys outlive the tokens they signed

  lemma KeysStep(c: Config, s: Service, e: Event)
    requires WellTimed(c) && KeyedInv(c, s) && Allowed(c, s.w, e)
    ensures KeyedInv(c, s.(w := Step(c, s.w, e)))
  {
    TableStep(c, s.w, e);
    TxStep(c, s.w, e);
    CacheStep(c, s.w, e);
    StepAdvancesRows(c, s.w, e);
    BackedAdvances(c, s, Step(c, s.w, e));
  }

  lemma BackedAdvances(c: Config, s: Service, w': World)
    requires WellTimed(c) && KeyedInv(c, s)
    requires RowsAdvance(c, s.w.keys, w'.keys, s.w.now) && s.w.now <= w'.now
    ensures forall t :: t in s.issued ==> Backed(w'.keys, w'.now, t)
  {
    forall t | t in s.issued ensures Backed(w'.keys, w'.now, t) {
      assert Backed(s.w.keys, s.w.now, t);
    }
  }

  /** A token signed with a cached current key is backed: the cache is at most
      `delta` old, so the key cannot have been scheduled to retire any sooner. */
  lemma SignedIsBacked(c: Config, w: World, r: int, t: Token)
    requires WellTimed(c) && KeyInv(c, w) && CanSign(w, r)
    requires t.kid == w.replicas[r].cache.value.current.value && t.exp == Expiry(w.now)
    ensures Backed(w.keys, w.now, t)
  {
    assert SoundIfSome(c, w.keys, w.replicas[r].cache, w.now);
    assert InTime(c, w.replicas[r], w.now);
  }

  lemma {:induction false} TokensBacked(c: Config, h: seq<Action>)
    requires WellTimed(c) && IsHistory(c, h)
    ensures KeyedInv(c, Result(c, h))
  {
    if h != [] {
      var s, a := Result(c, h[..|h| - 1]), h[|h| - 1];
      TokensBacked(c, h[..|h| - 1]);
      match a
      case Keys(e) => KeysStep(c, s, e);
      case Sign(r, _, _, _, _) => SignedIsBacked(c, s.w, r, Next(c, s, a).issued[|s.issued|]);
      case Revoke(_, _, _) =>
      case Sweep =>
    }
  }

  /** Across any number of replicas, rotations, refreshes, revocations and sweeps:
      a replica accepts a token exactly when the service signed it, it has not
      expired, and it was never revoked. Rotation never strands a live token and
      pruning never forgets a revocation that still matters. */
  lemma AcceptedExactly(c: Config, h: seq<Action>, r: int, t: Token)
    requires WellTimed(c) && IsHistory(c, h) && r in Result(c, h).w.replicas
    ensures var s := Result(c, h);
            Parses(s, r, t) <==> t in s.issued && s.w.now < t.exp && t.jti !in s.revoked
  {
    var s := Result(c, h);
    DenylistSound(c, h);
    if t in s.issued && s.w.now < t.exp {
      LiveTokenFindsKey(c, h, r, t);
      RevokedIsDenied(s, t);
    }
  }

  /** Every unexpired token still finds a key that has not retired, at every replica. */
  lemma LiveTokenFindsKey(c: Config, h: seq<Action>, r: int, t: Token)
    requires WellTimed(c) && IsHistory(c, h) && r in Result(c, h).w.replicas
    requires t in Result(c, h).issued && Result(c, h).w.now < t.exp
    ensures var w := Result(c, h).w;
            Accepts(w, r, t.kid) && t.kid in w.keys && NotRetired(w.keys[t.kid], w.now)
  {
    TokensBacked(c, h);
    assert Backed(Result(c, h).w.keys, Result(c, h).w.now, t);
  }

  /** The revocation endpoint acts on exactly the accepted tokens of the calling client. */
  lemma RevokeTakesEffect(c: Config, h: seq<Action>, r: int, client: string, t: Token)
    requires WellTimed(c) && IsHistory(c, h) && r in Result(c, h).w.replicas
    ensures var s := Result(c, h);
            Next(c, s, Revoke(r, client, t)).revoked ==
            if t in s.issued && s.w.now < t.exp && t.aud == client then s.revoked + {t.jti} else s.revoked
  {
    AcceptedExactly(c, h, r, t);
  }

  /** Right after a sweep the denylist holds exactly the revoked tokens that have not
      expired, each under its own expiry. */
  lemma SweepLeavesUnexpired(c: Config, h: seq<Action>, t: Token)
    requires IsHistory(c, h) && t in Result(c, h).issued
    ensures var s := Result(c, h);
            var deny := Next(c, s, Sweep).deny;
            && (t.jti in s.revoked && s.w.now < t.exp ==> t.jti in deny)
            && (t.jti in deny ==> t.jti in s.revoked && s.w.now <= t.exp && deny[t.jti] == t.exp)
  {
    DenylistSound(c, h);
    assert Listed(Result(c, h), t);
  }

  /** A signed token says what was asked for, lives for at most fifteen minutes, and
      names the key that its replica holds for current; nothing else changes. */
  lemma SignIssues(c: Config, s: Service, r: int, jti: Jti, sub: string, aud: string, scope: string)
    requires Enabled(c, s, Sign(r, jti, sub, aud, scope))
    ensures var s' := Next(c, s, Sign(r, jti, sub, aud, scope));
            && |s'.issued| == |s.issued| + 1 && s' == s.(issued := s'.issued) && s'.issued[..|s.issued|] == s.issued
            && var t := s'.issued[|s.issued|];
               && t.sub == sub && t.aud == aud && t.scope == scope && t.jti == jti
               && s.w.now + 899_000_000_000 < t.exp <= s.w.now + 900_000_000_000 && t.exp % 1_000_000_000 == 0
               && s.w.replicas[r].cache.value.current == Some(t.kid)
  {
  }

  // ---- The bound on the overlap is exact

  /** Every issued, unexpired, unrevoked token is accepted at every replica. */
  ghost predicate NeverStranded(c: Config) {
    forall h, r, t :: IsHistory(c, h) && IsLive(Result(c, h), t) && r in Result(c, h).w.replicas ==>
      Parses(Result(c, h), r, t)
  }

  ghost predicate IsLive(s: Service, t: Token) {
    t in s.issued && s.w.now < t.exp && t.jti !in s.revoked
  }

  /** One more action. */
  lemma Then(c: Config, h: seq<Action>, a: Action) returns (longer: seq<Action>)
    requires IsHistory(c, h) && Enabled(c, Result(c, h), a)
    ensures IsHistory(c, longer) && Result(c, longer) == Next(c, Result(c, h), a)
  {
    longer := h + [a];
    assert longer[..|h|] == h;
  }

  /** A run of key events is a history. */
  lemma {:induction false} Lifted(c: Config, es: seq<Event>) returns (h: seq<Action>)
    requires IsRun(c, es)
    ensures IsHistory(c, h) && Result(c, h) == EMPTY.(w := After(c, es))
  {
    if es == [] {
      h := [];
    } else {
      h := Lifted(c, es[..|es| - 1]);
      h := Then(c, h, Keys(es[|es| - 1]));
    }
  }

  lemma WholeSecond(now: int)
    requires now % SECOND == 0
    ensures Expiry(now) == now + TOKEN_TTL
  {
  }

  /** The rollover of the keys, and then as long as the cache of replica 2 may last. */
  lemma CacheAged(c: Config, b: int) returns (h: seq<Action>, created: int)
    requires c.delta >= 0 && c.lag >= 0 && b >= 0 && b >= c.interval
    ensures IsHistory(c, h)
    ensures var s := Result(c, h);
            && s == EMPTY.(w := s.w) && s.w.now == b + c.lag + c.delta && s.w.keys == TwoKeys(created, b, c.overlap)
            && s.w.replicas == map[2 := OldReader(b + c.lag), 3 := CHECKED]
  {
    var es;
    es, created := RolledOver(c, b);
    es := SigningKeys.Then(c, es, Tick(b + c.lag + c.delta));
    h := Lifted(c, es);
  }

  /** Replica 2 signs with the old key at that last moment, and stops. */
  lemma SignedLate(c: Config, b: int) returns (h: seq<Action>, t: Token, created: int)
    requires c.delta >= 0 && c.lag >= 0 && b >= 0 && b >= c.interval && (b + c.lag + c.delta) % SECOND == 0
    ensures IsHistory(c, h)
    ensures var s := Result(c, h);
            && s.issued == [t] && s.revoked == {} && t.kid == 0 && t.exp == b + c.lag + c.delta + TOKEN_TTL
            && s.w.now == b + c.lag + c.delta && s.w.keys == TwoKeys(created, b, c.overlap)
            && s.w.replicas == map[3 := CHECKED]
  {
    h, created := CacheAged(c, b);
    h, t := SignedOld(c, h, b + c.lag, b + c.lag + c.delta);
    h := Then(c, h, Keys(Leave(2)));
  }

  lemma SignedOld(c: Config, h: seq<Action>, asOf: int, now: int) returns (longer: seq<Action>, t: Token)
    requires IsHistory(c, h) && 2 in Result(c, h).w.replicas && Result(c, h).w.replicas[2] == OldReader(asOf)
    requires Result(c, h).w.now == now && now % SECOND == 0 && Result(c, h).issued == []
    ensures IsHistory(c, longer) && Result(c, longer) == Result(c, h).(issued := [t])
    ensures t.kid == 0 && t.exp == now + TOKEN_TTL
  {
    var a := Sign(2, 0, "u", "c", "openid");
    WholeSecond(now);
    t := Token(0, 0, Expiry(now), "u", "c", "openid");
    assert CanSign(Result(c, h).w, 2);
    longer := Then(c, h, a);
  }

  /** A fourth replica starts up and fills its cache; if the key is due by then, it
      rotates first. The keys that are not current stay as they are. */
  lemma StartedUp(c: Config, h: seq<Action>, created: int, b: int) returns (longer: seq<Action>)
    requires IsHistory(c, h) && c.delta >= 0 && c.lag >= 0 && Result(c, h).w.replicas == map[3 := CHECKED]
    requires Result(c, h).w.keys == TwoKeys(created, b, c.overlap)
    ensures IsHistory(c, longer)
    ensures var s, s' := Result(c, h), Result(c, longer);
            && s' == s.(w := s'.w) && s'.w.now == s.w.now && 4 in s'.w.replicas && 0 in s'.w.keys
            && s'.w.keys[0] == s.w.keys[0]
            && s'.w.replicas[4].cache == Some(ReadCache(s'.w.keys, s.w.now))
  {
    longer := RotationCalled(c, h, created, b);
    longer := Then(c, longer, Keys(Query(4)));
    longer := Then(c, longer, Keys(Install(4)));
  }

  lemma RotationCalled(c: Config, h: seq<Action>, created: int, b: int) returns (longer: seq<Action>)
    requires IsHistory(c, h) && Result(c, h).w.replicas == map[3 := CHECKED]
    requires Result(c, h).w.keys == TwoKeys(created, b, c.overlap)
    ensures IsHistory(c, longer)
    ensures var s, s' := Result(c, h), Result(c, longer);
            && s' == s.(w := s'.w) && s'.w.now == s.w.now && 4 in s'.w.replicas && s'.w.replicas[4] == CHECKED
            && 0 in s'.w.keys && s'.w.keys[0] == s.w.keys[0]
  {
    longer := RowRead(c, h, created, b);
    if Result(c, h).w.now >= b + c.interval {
      RotatedAgain(created, b, c.overlap, Result(c, h).w.now);
      longer := Then(c, longer, Keys(Commit(4, 2)));
    }
  }

  lemma RowRead(c: Config, h: seq<Action>, created: int, b: int) returns (longer: seq<Action>)
    requires IsHistory(c, h) && Result(c, h).w.replicas == map[3 := CHECKED]
    requires Result(c, h).w.keys == TwoKeys(created, b, c.overlap)
    ensures IsHistory(c, longer)
    ensures var s, s' := Result(c, h), Result(c, longer);
            && s' == s.(w := s'.w) && s'.w.now == s.w.now && s'.w.keys == s.w.keys
            && s'.w.replicas == map[3 := CHECKED, 4 :=
                 if s.w.now >= b + c.interval then Replica(None, None, Ready(s.w.now, Some(1)), false) else CHECKED]
  {
    longer := CallBegun(c, h, 4);
    longer := Then(c, longer, Keys(Select(4, Some(1))));
  }

  /** A replica starts up and begins its rotation call. */
  lemma CallBegun(c: Config, h: seq<Action>, r: int) returns (longer: seq<Action>)
    requires IsHistory(c, h) && r !in Result(c, h).w.replicas
    ensures IsHistory(c, longer)
    ensures var s := Result(c, h);
            Result(c, longer) ==
            s.(w := s.w.(replicas := s.w.replicas[r := Replica(None, None, Begun(s.w.now), false)]))
  {
    longer := Then(c, h, Keys(Join(r)));
    longer := Then(c, longer, Keys(Begin(r)));
  }

  lemma RotatedAgain(created: int, b: int, overlap: int, now: int)
    ensures var keys := TwoKeys(created, b, overlap);
            var after := Rotated(keys, Some(1), 2, now, overlap);
            2 in after && after != keys && 0 in after && after[0] == keys[0]
  {
    var retired := Retired(TwoKeys(created, b, overlap), Some(1), now, overlap);
    assert !HasCurrent(retired);
  }

  /** With a shorter overlap some live token finds no key: it was signed with the
      old key at the last moment, and the old key retires, counted from the start
      of the transaction that replaced it, before the token expires. */
  lemma ShortOverlapStrands(c: Config)
    requires c.delta >= 0 && c.lag >= 0 && c.overlap < TOKEN_TTL + c.delta + c.lag - 1
    ensures !NeverStranded(c)
  {
    var start := (if c.interval > 0 then c.interval else 0) + c.lag + c.delta;
    var b := start + (-start) % SECOND - c.lag - c.delta;
    var h, t, created := SignedLate(c, b);
    h := Then(c, h, Keys(Tick(t.exp - 1)));
    h := StartedUp(c, h, created, b);
    assert IsLive(Result(c, h), t) && 4 in Result(c, h).w.replicas;
    assert !Accepts(Result(c, h).w, 4, 0);
  }

  /** No live token is ever refused, if and only if the overlap covers a token's
      life, the age of a cache and the length of a transaction, less an instant. */
  lemma NeverStrandedIffWellTimed(c: Config)
    requires c.delta >= 0 && c.lag >= 0
    ensures NeverStranded(c) <==> c.overlap >= TOKEN_TTL + c.delta + c.lag - 1
  {
    if WellTimed(c) {
      forall h, r, t | IsHistory(c, h) && IsLive(Result(c, h), t) && r in Result(c, h).w.replicas
        ensures Parses(Result(c, h), r, t) {
        AcceptedExactly(c, h, r, t);
      }
    } else {
      ShortOverlapStrands(c);
    }
  }
}
