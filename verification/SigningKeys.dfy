/** Signing-key rotation shared by replicas (internal/store/oidckeys.go,
    internal/oidcserver/keys.go). Times are nanoseconds on one clock. */
module SigningKeys {
  import opened Options

  /** Randomly generated key identifiers. */
  type Kid = nat

  datatype KeyRow = KeyRow(isCurrent: bool, createdAt: int, retireAt: Option<int>)

  type Keys = map<Kid, KeyRow>

  /** Still valid for verification when the active set is read. */
  predicate Live(row: KeyRow, now: int) {
    row.retireAt.None? || row.retireAt.value > now
  }

  /** Not refused by the direct database lookup. */
  predicate NotRetired(row: KeyRow, now: int) {
    row.retireAt.None? || now <= row.retireAt.value
  }

  predicate HasCurrent(keys: Keys) {
    exists k :: k in keys && keys[k].isCurrent
  }

  ghost predicate OneCurrent(keys: Keys) {
    forall j, k :: j in keys && k in keys && keys[j].isCurrent && keys[k].isCurrent ==> j == k
  }

  ghost function CurrentKid(keys: Keys): Option<Kid> {
    if HasCurrent(keys) then var k :| k in keys && keys[k].isCurrent; Some(k) else None
  }

  /** The check on the row that the transaction locked, if it found one. */
  predicate Due(keys: Keys, seen: Option<Kid>, now: int, interval: int) {
    seen.Some? && seen.value in keys ==> now >= keys[seen.value].createdAt + interval
  }

  function Retired(keys: Keys, seen: Option<Kid>, begun: int, overlap: int): Keys {
    if seen.Some? && seen.value in keys
    then keys[seen.value := KeyRow(false, keys[seen.value].createdAt, Some(begun + overlap))]
    else keys
  }

  /** The transaction's effect: retire the seen key, insert the new one as
      current. The primary key and the unique index on the current row refuse the
      insert, and then nothing changes. Database time is the transaction's start. */
  function Rotated(keys: Keys, seen: Option<Kid>, kid: Kid, begun: int, overlap: int): Keys {
    var retired := Retired(keys, seen, begun, overlap);
    if kid in keys || HasCurrent(retired) then keys
    else retired[kid := KeyRow(true, begun, None)]
  }

  class OIDCKeyStore {
    var rows: Keys

    constructor ()
      ensures rows == map[]
    {
      rows := map[];
    }

    method Active(now: int) returns (keys: Keys)
      ensures keys == map k | k in rows && Live(rows[k], now) :: rows[k]
      ensures forall k :: k in keys <==> k in rows && (rows[k].retireAt.None? || now < rows[k].retireAt.value)
    {
      keys := map k | k in rows && (rows[k].retireAt.None? || rows[k].retireAt.value > now) :: rows[k];
    }

    method Lookup(kid: Kid) returns (row: Option<KeyRow>)
      ensures row.None? <==> kid !in rows
      ensures row.Some? ==> row.value == rows[kid]
    {
      row := if kid in rows then Some(rows[kid]) else None;
    }

    /** One uncontended call; `newKid` is what the generator returns. */
    method RotateIfDue(now: int, interval: int, overlap: int, newKid: Kid) returns (rotated: bool)
      requires OneCurrent(rows)
      modifies this
      ensures rows == if Due(old(rows), CurrentKid(old(rows)), now, interval)
                      then Rotated(old(rows), CurrentKid(old(rows)), newKid, now, overlap) else old(rows)
      ensures rotated <==> rows != old(rows)
      ensures forall k :: k in old(rows) && old(rows)[k].isCurrent && now < old(rows)[k].createdAt + interval ==>
                !rotated
      ensures newKid !in old(rows) &&
              (forall k :: k in old(rows) && old(rows)[k].isCurrent ==> now >= old(rows)[k].createdAt + interval) ==>
                rotated
      ensures rotated ==> rows.Keys == old(rows).Keys + {newKid} && rows[newKid] == KeyRow(true, now, None)
      ensures rotated ==> forall k :: k in old(rows) ==>
                rows[k] == if old(rows)[k].isCurrent then KeyRow(false, old(rows)[k].createdAt, Some(now + overlap))
                           else old(rows)[k]
    {
      var found := HasCurrent(rows);
      var updated := rows;
      if found {
        var kid :| kid in rows && rows[kid].isCurrent;
        assert CurrentKid(rows) == Some(kid);
        if now < rows[kid].createdAt + interval {
          return false;
        }
        updated := rows[kid := KeyRow(false, rows[kid].createdAt, Some(now + overlap))];
      }
      if newKid in rows {
        return false;
      }
      assert newKid !in old(rows);
      rows := updated[newKid := KeyRow(true, now, None)];
      rotated := true;
    }
  }

  /** A replica's in-memory view, read from the table at `asOf`. */
  datatype Cache = Cache(asOf: int, current: Option<Kid>, active: set<Kid>)

  ghost function ReadCache(keys: Keys, now: int): Cache {
    Cache(now, CurrentKid(keys), set k | k in keys && Live(keys[k], now))
  }

  /** Cached keys are accepted as they are; the rest are looked up. */
  predicate Found(active: set<Kid>, keys: Keys, kid: Kid, now: int) {
    kid in active || (kid in keys && NotRetired(keys[kid], now))
  }

  class KeyStore {
    const db: OIDCKeyStore
    var current: Option<Kid>
    var active: set<Kid>

    constructor (db: OIDCKeyStore)
      ensures this.db == db && current.None? && active == {}
    {
      this.db := db;
      current, active := None, {};
    }

    method Refresh(now: int)
      requires OneCurrent(db.rows) && forall k :: k in db.rows && db.rows[k].isCurrent ==> Live(db.rows[k], now)
      modifies this
      ensures Cache(now, current, active) == ReadCache(db.rows, now)
      ensures forall k :: current == Some(k) <==> k in db.rows && db.rows[k].isCurrent
      ensures forall k :: k in active <==>
                k in db.rows && (db.rows[k].retireAt.None? || now < db.rows[k].retireAt.value)
    {
      var keys := db.Active(now);
      var left, newest: Option<Kid> := keys.Keys, None;
      while left != {}
        invariant left <= keys.Keys
        invariant newest.Some? ==> newest.value in keys && keys[newest.value].isCurrent
        invariant newest.None? ==> forall k :: k in keys && k !in left ==> !keys[k].isCurrent
      {
        var k :| k in left;
        if keys[k].isCurrent {
          newest := Some(k);
        }
        left := left - {k};
      }
      forall k | k in db.rows && db.rows[k].isCurrent ensures newest == Some(k) {
        assert k in keys;
      }
      assert newest == CurrentKid(db.rows);
      active, current := keys.Keys, newest;
    }

    method Lookup(kid: Kid, now: int) returns (ok: bool)
      ensures ok == Found(active, db.rows, kid, now)
      ensures ok <==> kid in active ||
                      (kid in db.rows && (db.rows[kid].retireAt.None? || now <= db.rows[kid].retireAt.value))
    {
      if kid in active {
        return true;
      }
      var row := db.Lookup(kid);
      if row.None? {
        return false;
      }
      ok := !(row.value.retireAt.Some? && now > row.value.retireAt.value);
    }
  }

  // ---- Any number of replicas, transactions interleaved step by step

  /** `delta` bounds the age of a cache, `lag` the length of a transaction. */
  datatype Config = Config(interval: int, overlap: int, delta: int, lag: int)

  const TOKEN_TTL: int := 15 * 60 * 1_000_000_000

  /** An overlap that covers the life of a token signed with the oldest allowed
      cache, counted from the start of the longest allowed transaction. */
  predicate WellTimed(c: Config) {
    c.delta >= 0 && c.lag >= 0 && c.overlap >= TOKEN_TTL + c.delta + c.lag - 1
  }

  /** No transaction outlasts the overlap that it grants. */
  predicate Orderly(c: Config) {
    c.delta >= 0 && c.lag >= 0 && c.overlap >= c.lag
  }

  /** A rotation in progress: begun, then holding what its locking read found. */
  datatype Tx = Idle | Begun(begun: int) | Ready(begun: int, seen: Option<Kid>)

  /** `checked` says that the replica's own rotation call has just returned without
      an error; only then does it refresh its cache. */
  datatype Replica = Replica(cache: Option<Cache>, pending: Option<Cache>, tx: Tx, checked: bool)

  datatype Rotation = Rotation(kid: Kid, begun: int, at: int)

  /** `log` lists the rotations that committed, in order. */
  datatype World = World(now: int, keys: Keys, replicas: map<int, Replica>, log: seq<Rotation>)

  datatype Event =
    | Join(r: int)
    | Leave(r: int)
    | Tick(to: int)
    | Begin(r: int)
    | Select(r: int, seen: Option<Kid>)
    | Commit(r: int, kid: Kid)
    | Abort(r: int)
    | Query(r: int)
    | Install(r: int)

  ghost predicate InTime(c: Config, rep: Replica, now: int) {
    && (rep.cache.Some? ==> now <= rep.cache.value.asOf + c.delta)
    && (!rep.tx.Idle? ==> now <= rep.tx.begun + c.lag)
  }

  /** What the environment may do. A replica calls rotation and, if that succeeds,
      refreshes, one after the other. A locking read returns the current row, and
      only if no other transaction holds it; it returns nothing if there is none, or
      if the row it waited for was rotated away since the transaction began. */
  ghost predicate Allowed(c: Config, w: World, e: Event) {
    match e
    case Join(r) => r !in w.replicas
    case Leave(r) => r in w.replicas
    case Tick(to) => w.now <= to && forall r :: r in w.replicas ==> InTime(c, w.replicas[r], to)
    case Begin(r) =>
      r in w.replicas && w.replicas[r].tx.Idle? && !w.replicas[r].checked && w.replicas[r].pending.None?
    case Select(r, seen) =>
      && r in w.replicas && w.replicas[r].tx.Begun?
      && (seen.Some? ==>
            && seen.value in w.keys && w.keys[seen.value].isCurrent
            && forall q :: Holds(w, q) ==> w.replicas[q].tx.seen != seen)
      && (seen.None? && HasCurrent(w.keys) ==> w.log != [] && w.log[|w.log| - 1].at >= w.replicas[r].tx.begun)
    case Commit(r, _) => r in w.replicas && w.replicas[r].tx.Ready?
    case Abort(r) => r in w.replicas
    case Query(r) => r in w.replicas && w.replicas[r].checked
    case Install(r) =>
      r in w.replicas && w.replicas[r].pending.Some? && w.now <= w.replicas[r].pending.value.asOf + c.delta
  }

  ghost function Step(c: Config, w: World, e: Event): World
    requires Allowed(c, w, e)
  {
    match e
    case Join(r) => w.(replicas := w.replicas[r := Replica(None, None, Idle, false)])
    case Leave(r) => w.(replicas := w.replicas - {r})
    case Tick(to) => w.(now := to)
    case Begin(r) => w.(replicas := w.replicas[r := w.replicas[r].(tx := Begun(w.now))])
    case Select(r, seen) =>
      var due := Due(w.keys, seen, w.now, c.interval);
      var tx := if due then Ready(w.replicas[r].tx.begun, seen) else Idle;
      w.(replicas := w.replicas[r := w.replicas[r].(tx := tx, checked := !due)])
    case Commit(r, kid) =>
      var tx := w.replicas[r].tx;
      var keys := Rotated(w.keys, tx.seen, kid, tx.begun, c.overlap);
      w.(keys := keys, replicas := w.replicas[r := w.replicas[r].(tx := Idle, checked := keys != w.keys)],
         log := if keys == w.keys then w.log else w.log + [Rotation(kid, tx.begun, w.now)])
    case Abort(r) =>
      w.(replicas := w.replicas[r := w.replicas[r].(tx := Idle, checked := false, pending := None)])
    case Query(r) =>
      w.(replicas := w.replicas[r := w.replicas[r].(pending := Some(ReadCache(w.keys, w.now)), checked := false)])
    case Install(r) =>
      w.(replicas := w.replicas[r := w.replicas[r].(cache := w.replicas[r].pending, pending := None)])
  }

  const START := World(0, map[], map[], [])

  ghost predicate IsRun(c: Config, es: seq<Event>)
    decreases |es|, 0
  {
    es == [] || (IsRun(c, es[..|es| - 1]) && Allowed(c, After(c, es[..|es| - 1]), es[|es| - 1]))
  }

  ghost function After(c: Config, es: seq<Event>): World
    requires IsRun(c, es)
    decreases |es|, 1
  {
    if es == [] then START else Step(c, After(c, es[..|es| - 1]), es[|es| - 1])
  }

  // ---- The table is exactly the chain of committed rotations

  function Kids(log: seq<Rotation>): set<Kid> {
    set x | x in log :: x.kid
  }

  /** One row per committed rotation: the last is current, each earlier one
      retires an overlap after the next began. */
  ghost predicate IsChain(c: Config, keys: Keys, log: seq<Rotation>) {
    keys.Keys == Kids(log) && DistinctKids(log) && Linked(keys, log) && Retiring(c, keys, log)
  }

  ghost predicate DistinctKids(log: seq<Rotation>) {
    forall i, j :: 0 <= i < j < |log| ==> log[i].kid != log[j].kid
  }

  ghost predicate Linked(keys: Keys, log: seq<Rotation>) {
    forall i :: 0 <= i < |log| ==> log[i].kid in keys && IsLink(keys[log[i].kid], log[i], i == |log| - 1)
  }

  ghost predicate Retiring(c: Config, keys: Keys, log: seq<Rotation>) {
    forall i, j :: 0 <= i < |log| - 1 && j == i + 1 ==>
      log[i].kid in keys && keys[log[i].kid].retireAt == Some(log[j].begun + c.overlap)
  }

  predicate IsLink(row: KeyRow, x: Rotation, last: bool) {
    row.createdAt == x.begun && row.isCurrent == last && row.retireAt.None? == last
  }

  /** Rotations commit in order, within the lag, and never before they are due. */
  ghost predicate LogTimes(c: Config, log: seq<Rotation>, now: int) {
    && (forall i :: 0 <= i < |log| ==> log[i].begun <= log[i].at <= now && log[i].at <= log[i].begun + c.lag)
    && (forall i, j :: 0 <= i < |log| - 1 && j == i + 1 ==>
          log[i].at <= log[j].at && log[j].at >= log[i].begun + c.interval)
  }

  /** The replica's transaction holds the lock on a row. */
  predicate Holds(w: World, r: int) {
    r in w.replicas && w.replicas[r].tx.Ready? && w.replicas[r].tx.seen.Some?
  }

  ghost predicate Timely(c: Config, rep: Replica, now: int) {
    InTime(c, rep, now) && (rep.tx.Idle? || rep.tx.begun <= now)
  }

  /** The row a transaction locked is still current, and due. */
  ghost predicate LocksCurrent(c: Config, w: World) {
    forall r :: Holds(w, r) ==>
      var k := w.replicas[r].tx.seen.value;
      k in w.keys && w.keys[k].isCurrent && w.now >= w.keys[k].createdAt + c.interval
  }

  ghost predicate LocksExclusive(w: World) {
    forall q, r :: Holds(w, q) && Holds(w, r) && w.replicas[q].tx.seen == w.replicas[r].tx.seen ==> q == r
  }

  ghost predicate TxInv(c: Config, w: World) {
    && (forall r :: r in w.replicas ==> Timely(c, w.replicas[r], w.now))
    && LocksCurrent(c, w)
    && LocksExclusive(w)
  }

  ghost predicate TableInv(c: Config, w: World) {
    IsChain(c, w.keys, w.log) && LogTimes(c, w.log, w.now)
  }

  lemma ChainCurrent(c: Config, keys: Keys, log: seq<Rotation>)
    requires IsChain(c, keys, log)
    ensures OneCurrent(keys) && (HasCurrent(keys) <==> log != [])
    ensures forall k :: k in keys ==> (keys[k].isCurrent <==> log != [] && k == log[|log| - 1].kid)
    ensures forall k :: k in keys ==> (keys[k].isCurrent <==> keys[k].retireAt.None?)
  {
    forall k | k in keys ensures (keys[k].isCurrent <==> log != [] && k == log[|log| - 1].kid) &&
                                 (keys[k].isCurrent <==> keys[k].retireAt.None?) {
      var x :| x in log && x.kid == k;
      var i :| 0 <= i < |log| && log[i] == x;
    }
    if log != [] {
      assert keys[log[|log| - 1].kid].isCurrent;
    }
  }

  /** The next link: the chain's end is retired and the new row put after it. */
  ghost predicate Extends(c: Config, keys: Keys, log: seq<Rotation>, after: Keys, x: Rotation) {
    && IsChain(c, keys, log) && x.kid !in keys
    && after == Retired(keys, if log == [] then None else Some(log[|log| - 1].kid), x.begun, c.overlap)
                  [x.kid := KeyRow(true, x.begun, None)]
  }

  lemma RowsLinked(c: Config, keys: Keys, log: seq<Rotation>, after: Keys, x: Rotation, longer: seq<Rotation>)
    requires Extends(c, keys, log, after, x) && longer == log + [x]
    ensures Linked(after, longer)
  {
  }

  lemma KeysGrow(c: Config, keys: Keys, log: seq<Rotation>, after: Keys, x: Rotation)
    requires Extends(c, keys, log, after, x)
    ensures after.Keys == Kids(log + [x])
  {
  }

  lemma ChainGrows(c: Config, keys: Keys, log: seq<Rotation>, after: Keys, x: Rotation)
    requires Extends(c, keys, log, after, x)
    ensures IsChain(c, after, log + [x])
  {
    var longer := log + [x];
    KeysGrow(c, keys, log, after, x);
    RowsLinked(c, keys, log, after, x, longer);
    ChainLinked(c, keys, log, after, x, longer);
  }

  lemma ChainLinked(c: Config, keys: Keys, log: seq<Rotation>, after: Keys, x: Rotation, longer: seq<Rotation>)
    requires Extends(c, keys, log, after, x) && longer == log + [x]
    ensures DistinctKids(longer) && Retiring(c, after, longer)
  {
  }

  /** A committed rotation extends the chain by one; a losing or failing one
      leaves the table as it was. */
  lemma CommitExtendsChain(c: Config, keys: Keys, log: seq<Rotation>, seen: Option<Kid>, kid: Kid, begun: int, at: int)
    requires IsChain(c, keys, log)
    requires seen.Some? ==> seen.value in keys && keys[seen.value].isCurrent
    ensures var after := Rotated(keys, seen, kid, begun, c.overlap);
            if kid !in keys && (seen.Some? || log == [])
            then after != keys && IsChain(c, after, log + [Rotation(kid, begun, at)])
            else after == keys
  {
    ChainCurrent(c, keys, log);
    var retired := Retired(keys, seen, begun, c.overlap);
    if kid !in keys && (seen.Some? || log == []) {
      assert !HasCurrent(retired);
      ChainGrows(c, keys, log, Rotated(keys, seen, kid, begun, c.overlap), Rotation(kid, begun, at));
      assert kid in Rotated(keys, seen, kid, begun, c.overlap);
    }
  }

  lemma TableStep(c: Config, w: World, e: Event)
    requires TableInv(c, w) && TxInv(c, w) && Allowed(c, w, e)
    ensures TableInv(c, Step(c, w, e))
  {
    if e.Commit? {
      CommitKeepsTable(c, w, e.r, e.kid);
    } else {
      OtherKeepsKeys(c, w, e);
    }
  }

  lemma CommitKeepsTable(c: Config, w: World, r: int, kid: Kid)
    requires TableInv(c, w) && TxInv(c, w) && Allowed(c, w, Commit(r, kid))
    ensures TableInv(c, Step(c, w, Commit(r, kid)))
  {
    var tx := w.replicas[r].tx;
    assert tx.seen.Some? ==> Holds(w, r);
    CommitExtendsChain(c, w.keys, w.log, tx.seen, kid, tx.begun, w.now);
    ChainCurrent(c, w.keys, w.log);
    if kid !in w.keys && (tx.seen.Some? || w.log == []) {
      LogTimesGrow(c, w.keys, w.log, w.now, Rotation(kid, tx.begun, w.now));
    }
  }

  lemma LogTimesGrow(c: Config, keys: Keys, log: seq<Rotation>, now: int, x: Rotation)
    requires IsChain(c, keys, log) && LogTimes(c, log, now)
    requires x.begun <= x.at == now <= x.begun + c.lag
    requires log != [] ==> now >= keys[log[|log| - 1].kid].createdAt + c.interval
    ensures LogTimes(c, log + [x], now)
  {
  }

  lemma TxStep(c: Config, w: World, e: Event)
    requires c.lag >= 0 && c.delta >= 0 && TableInv(c, w) && TxInv(c, w) && Allowed(c, w, e)
    ensures TxInv(c, Step(c, w, e))
  {
    match e
    case Commit(r, kid) =>
      CommitFreesOthers(c, w, r, kid);
      CommitKeepsTx(c, w, r, kid);
    case Select(r, seen) => SelectKeepsTx(c, w, r, seen);
    case _ => OtherKeepsTx(c, w, e);
  }

  lemma SelectKeepsTx(c: Config, w: World, r: int, seen: Option<Kid>)
    requires TxInv(c, w) && Allowed(c, w, Select(r, seen))
    ensures TxInv(c, Step(c, w, Select(r, seen)))
  {
  }

  lemma OtherKeepsTx(c: Config, w: World, e: Event)
    requires c.lag >= 0 && c.delta >= 0 && TxInv(c, w) && Allowed(c, w, e) && !e.Commit? && !e.Select?
    ensures TxInv(c, Step(c, w, e))
  {
  }

  lemma CommitKeepsTx(c: Config, w: World, r: int, kid: Kid)
    requires TxInv(c, w) && Allowed(c, w, Commit(r, kid))
    requires forall q :: q != r && Holds(w, q) ==> Step(c, w, Commit(r, kid)).keys == w.keys
    ensures TxInv(c, Step(c, w, Commit(r, kid)))
  {
  }

  /** While another transaction holds the current row, a commit changes nothing. */
  lemma CommitFreesOthers(c: Config, w: World, r: int, kid: Kid)
    requires TableInv(c, w) && TxInv(c, w) && Allowed(c, w, Commit(r, kid))
    ensures forall q :: q != r && Holds(w, q) ==> Step(c, w, Commit(r, kid)).keys == w.keys
  {
  }

  /** In every interleaving: the table is the chain of committed rotations, so
      after the first commit exactly one key is current, a key has no retirement
      exactly when it is current, and a retired key retires one overlap after the
      start of the transaction that replaced it. */
  lemma {:induction false} TableIsChain(c: Config, es: seq<Event>)
    requires c.lag >= 0 && c.delta >= 0 && IsRun(c, es)
    ensures TableInv(c, After(c, es)) && TxInv(c, After(c, es))
  {
    if es != [] {
      TableIsChain(c, es[..|es| - 1]);
      TableStep(c, After(c, es[..|es| - 1]), es[|es| - 1]);
      TxStep(c, After(c, es[..|es| - 1]), es[|es| - 1]);
    }
  }

  lemma ExactlyOneCurrentKey(c: Config, es: seq<Event>)
    requires c.lag >= 0 && c.delta >= 0 && IsRun(c, es)
    ensures var keys := After(c, es).keys;
            && OneCurrent(keys) && (HasCurrent(keys) <==> keys != map[])
            && forall k :: k in keys ==> (keys[k].isCurrent <==> keys[k].retireAt.None?)
  {
    TableIsChain(c, es);
    var w := After(c, es);
    ChainCurrent(c, w.keys, w.log);
    if w.keys != map[] {
      var k :| k in w.keys;
    }
  }

  /** In every run a commit takes effect exactly when its key is new and its locking
      read found the current row, or there is none yet; only then may the replica go
      on to refresh. */
  lemma CommitDecided(c: Config, es: seq<Event>, r: int, kid: Kid)
    requires c.lag >= 0 && c.delta >= 0 && IsRun(c, es) && Allowed(c, After(c, es), Commit(r, kid))
    ensures var w := After(c, es);
            var w', tx := Step(c, w, Commit(r, kid)), w.replicas[r].tx;
            var wins := kid !in w.keys && (tx.seen.Some? || w.log == []);
            && w'.log == (if wins then w.log + [Rotation(kid, tx.begun, w.now)] else w.log)
            && w'.replicas[r].checked == wins && w'.replicas[r].tx == Idle
            && (!wins ==> w'.keys == w.keys)
  {
    var w := After(c, es);
    TableIsChain(c, es);
    assert w.replicas[r].tx.seen.Some? ==> Holds(w, r);
    CommitExtendsChain(c, w.keys, w.log, w.replicas[r].tx.seen, kid, w.replicas[r].tx.begun, w.now);
  }

  /** A locking read leads to a rotation exactly when no row was found or the row is
      due; a row that is not due ends the call, and the replica may refresh. */
  lemma SelectDecided(c: Config, w: World, r: int, seen: Option<Kid>)
    requires Allowed(c, w, Select(r, seen))
    ensures var rep := Step(c, w, Select(r, seen)).replicas[r];
            var due := seen.Some? ==> w.now >= w.keys[seen.value].createdAt + c.interval;
            && rep.checked == !due
            && rep.tx == (if due then Ready(w.replicas[r].tx.begun, seen) else Idle)
  {
  }

  /** A rotation call that fails leaves the table, the record and every cache as they
      were, gives up its lock, and is followed by another call, not by a refresh. */
  lemma AbortUndoes(c: Config, w: World, r: int)
    requires Allowed(c, w, Abort(r))
    ensures var w' := Step(c, w, Abort(r));
            && w'.keys == w.keys && w'.log == w.log && w'.now == w.now && w'.replicas.Keys == w.replicas.Keys
            && (forall q :: q in w.replicas ==> w'.replicas[q].cache == w.replicas[q].cache)
            && (forall q :: Holds(w', q) <==> q != r && Holds(w, q))
            && Allowed(c, w', Begin(r)) && !Allowed(c, w', Query(r)) && !Allowed(c, w', Install(r))
  {
  }

  /** A caller whose locking read came back empty while a key is current changes nothing. */
  lemma LoserChangesNothing(c: Config, es: seq<Event>, r: int, kid: Kid)
    requires c.lag >= 0 && c.delta >= 0 && IsRun(c, es) && Allowed(c, After(c, es), Commit(r, kid))
    requires After(c, es).replicas[r].tx.seen.None? && After(c, es).keys != map[]
    ensures Step(c, After(c, es), Commit(r, kid)).keys == After(c, es).keys
    ensures Step(c, After(c, es), Commit(r, kid)).log == After(c, es).log
  {
    var w := After(c, es);
    TableIsChain(c, es);
    ExactlyOneCurrentKey(c, es);
    ChainCurrent(c, w.keys, w.log);
    CommitExtendsChain(c, w.keys, w.log, None, kid, w.replicas[r].tx.begun, w.now);
  }

  // ---- What a cache may rely on

  /** Whatever a cache was told is current retires late enough, and nothing it
      holds as active retired before it was read. */
  ghost predicate Sound(c: Config, keys: Keys, cache: Cache, now: int) {
    && cache.asOf <= now
    && (cache.current.Some? ==>
          var k := cache.current.value;
          k in keys && (keys[k].retireAt.Some? ==> keys[k].retireAt.value >= cache.asOf - c.lag + c.overlap))
    && (forall k :: k in cache.active ==>
          k in keys && (keys[k].retireAt.Some? ==> keys[k].retireAt.value >= cache.asOf))
  }

  ghost predicate CacheInv(c: Config, w: World) {
    forall r :: r in w.replicas ==>
      && SoundIfSome(c, w.keys, w.replicas[r].cache, w.now)
      && SoundIfSome(c, w.keys, w.replicas[r].pending, w.now)
  }

  /** How one step may change a row: only a current row, and only into one that
      retires an overlap after a transaction no older than the lag. */
  ghost predicate RowsAdvance(c: Config, before: Keys, after: Keys, now: int) {
    forall k :: k in before ==>
      && k in after
      && (after[k].retireAt == before[k].retireAt ||
          (before[k].retireAt.None? && after[k].retireAt.Some? && after[k].retireAt.value >= now - c.lag + c.overlap))
  }

  lemma StepAdvancesRows(c: Config, w: World, e: Event)
    requires TableInv(c, w) && TxInv(c, w) && Allowed(c, w, e)
    ensures RowsAdvance(c, w.keys, Step(c, w, e).keys, w.now)
    ensures w.now <= Step(c, w, e).now
  {
  }

  lemma OtherKeepsKeys(c: Config, w: World, e: Event)
    requires Allowed(c, w, e) && !e.Commit?
    ensures Step(c, w, e).keys == w.keys && Step(c, w, e).log == w.log && w.now <= Step(c, w, e).now
  {
  }

  lemma FreshCacheSound(c: Config, keys: Keys, log: seq<Rotation>, now: int)
    requires IsChain(c, keys, log)
    ensures Sound(c, keys, ReadCache(keys, now), now)
  {
  }

  ghost predicate SoundIfSome(c: Config, keys: Keys, cache: Option<Cache>, now: int) {
    cache.Some? ==> Sound(c, keys, cache.value, now)
  }

  lemma CacheStep(c: Config, w: World, e: Event)
    requires Orderly(c) && TableInv(c, w) && TxInv(c, w) && CacheInv(c, w) && Allowed(c, w, e)
    ensures CacheInv(c, Step(c, w, e))
  {
    StepAdvancesRows(c, w, e);
    FreshCacheSound(c, w.keys, w.log, w.now);
    forall r | r in Step(c, w, e).replicas
      ensures SoundIfSome(c, Step(c, w, e).keys, Step(c, w, e).replicas[r].cache, Step(c, w, e).now)
      ensures SoundIfSome(c, Step(c, w, e).keys, Step(c, w, e).replicas[r].pending, Step(c, w, e).now)
    {
      CacheStepAt(c, w, e, r);
    }
  }

  lemma CacheStepAt(c: Config, w: World, e: Event, r: int)
    requires Orderly(c) && CacheInv(c, w) && Allowed(c, w, e) && r in Step(c, w, e).replicas
    requires RowsAdvance(c, w.keys, Step(c, w, e).keys, w.now) && w.now <= Step(c, w, e).now
    requires Sound(c, w.keys, ReadCache(w.keys, w.now), w.now)
    ensures SoundIfSome(c, Step(c, w, e).keys, Step(c, w, e).replicas[r].cache, Step(c, w, e).now)
    ensures SoundIfSome(c, Step(c, w, e).keys, Step(c, w, e).replicas[r].pending, Step(c, w, e).now)
  {
  }

  lemma {:induction false} CachesSound(c: Config, es: seq<Event>)
    requires Orderly(c) && IsRun(c, es)
    ensures CacheInv(c, After(c, es))
  {
    if es != [] {
      CachesSound(c, es[..|es| - 1]);
      TableIsChain(c, es[..|es| - 1]);
      CacheStep(c, After(c, es[..|es| - 1]), es[|es| - 1]);
    }
  }

  function CachedActive(rep: Replica): set<Kid> {
    if rep.cache.Some? then rep.cache.value.active else {}
  }

  ghost predicate Accepts(w: World, r: int, kid: Kid)
    requires r in w.replicas
  {
    Found(CachedActive(w.replicas[r]), w.keys, kid, w.now)
  }

  /** No replica accepts a key later than `delta` after its retirement. */
  lemma NoLateAcceptance(c: Config, es: seq<Event>, r: int, kid: Kid)
    requires Orderly(c) && IsRun(c, es) && r in After(c, es).replicas && Accepts(After(c, es), r, kid)
    ensures var w := After(c, es);
            kid in w.keys && (w.keys[kid].retireAt.Some? ==> w.now <= w.keys[kid].retireAt.value + c.delta)
  {
    CachesSound(c, es);
    TableIsChain(c, es);
  }
  // ---- What a cache holds

  /** A key that was committed before the cache was read, and had not retired then,
      is in the cache. */
  ghost predicate Holding(keys: Keys, log: seq<Rotation>, cache: Option<Cache>) {
    cache.Some? ==>
      forall i :: 0 <= i < |log| && log[i].at < cache.value.asOf && log[i].kid in keys &&
                  (keys[log[i].kid].retireAt.None? || keys[log[i].kid].retireAt.value > cache.value.asOf) ==>
        log[i].kid in cache.value.active
  }

  ghost predicate HeldBy(w: World, cache: Option<Cache>) {
    Holding(w.keys, w.log, cache) && (cache.Some? ==> cache.value.asOf <= w.now)
  }

  ghost predicate HoldingInv(w: World) {
    forall r :: r in w.replicas ==> HeldBy(w, w.replicas[r].cache) && HeldBy(w, w.replicas[r].pending)
  }

  lemma ReadHolds(keys: Keys, log: seq<Rotation>, now: int)
    ensures Holding(keys, log, Some(ReadCache(keys, now)))
  {
  }

  /** A commit adds a later key, and schedules retirements that were open. */
  lemma CommitHolds(c: Config, w: World, r: int, kid: Kid, cache: Option<Cache>)
    requires TableInv(c, w) && TxInv(c, w) && Allowed(c, w, Commit(r, kid))
    requires Holding(w.keys, w.log, cache) && (cache.Some? ==> cache.value.asOf <= w.now)
    ensures Holding(Step(c, w, Commit(r, kid)).keys, Step(c, w, Commit(r, kid)).log, cache)
  {
    var w' := Step(c, w, Commit(r, kid));
    StepAdvancesRows(c, w, Commit(r, kid));
    if cache.Some? {
      forall i | 0 <= i < |w'.log| && w'.log[i].at < cache.value.asOf && w'.log[i].kid in w'.keys &&
                 (w'.keys[w'.log[i].kid].retireAt.None? || w'.keys[w'.log[i].kid].retireAt.value > cache.value.asOf)
        ensures w'.log[i].kid in cache.value.active {
        assert i < |w.log| && w'.log[i] == w.log[i];
        assert w.log[i].kid in w.keys;
      }
    }
  }

  lemma StepHolds(c: Config, w: World, e: Event, cache: Option<Cache>)
    requires TableInv(c, w) && TxInv(c, w) && Allowed(c, w, e) && HeldBy(w, cache)
    ensures HeldBy(Step(c, w, e), cache)
  {
    if e.Commit? {
      CommitHolds(c, w, e.r, e.kid, cache);
    } else {
      OtherKeepsKeys(c, w, e);
    }
  }

  /** A step hands a replica only caches it had, or the one it reads now. */
  lemma CacheSources(c: Config, w: World, e: Event, r: int)
    requires Allowed(c, w, e) && r in Step(c, w, e).replicas
    ensures var rep' := Step(c, w, e).replicas[r];
            && (rep'.cache.None? ||
                (r in w.replicas && (rep'.cache == w.replicas[r].cache || rep'.cache == w.replicas[r].pending)))
            && (rep'.pending.None? || (r in w.replicas && rep'.pending == w.replicas[r].pending) ||
                (e.Query? && rep'.pending == Some(ReadCache(w.keys, w.now))))
  {
  }

  lemma HoldingStep(c: Config, w: World, e: Event)
    requires TableInv(c, w) && TxInv(c, w) && HoldingInv(w) && Allowed(c, w, e)
    ensures HoldingInv(Step(c, w, e))
  {
    var w' := Step(c, w, e);
    forall r | r in w'.replicas ensures HeldBy(w', w'.replicas[r].cache) && HeldBy(w', w'.replicas[r].pending) {
      CacheSources(c, w, e, r);
      ReadHolds(w.keys, w.log, w.now);
      StepHolds(c, w, e, Some(ReadCache(w.keys, w.now)));
      if r in w.replicas {
        StepHolds(c, w, e, w.replicas[r].cache);
        StepHolds(c, w, e, w.replicas[r].pending);
      }
    }
  }

  /** In every run each cache holds every key that was committed before it was read
      and had not retired by then, so a key on its way out stays known. */
  lemma {:induction false} CachesHoldLiveKeys(c: Config, es: seq<Event>)
    requires c.lag >= 0 && c.delta >= 0 && IsRun(c, es)
    ensures HoldingInv(After(c, es))
  {
    if es != [] {
      CachesHoldLiveKeys(c, es[..|es| - 1]);
      TableIsChain(c, es[..|es| - 1]);
      HoldingStep(c, After(c, es[..|es| - 1]), es[|es| - 1]);
    }
  }

  // ---- The bounds are exact

  ghost predicate NeverLate(c: Config) {
    forall es, r, kid :: IsRun(c, es) && r in After(c, es).replicas && Accepts(After(c, es), r, kid) ==>
      var w := After(c, es);
      kid in w.keys && (w.keys[kid].retireAt.Some? ==> w.now <= w.keys[kid].retireAt.value + c.delta)
  }

  /** One more event. */
  lemma Then(c: Config, es: seq<Event>, e: Event) returns (longer: seq<Event>)
    requires IsRun(c, es) && Allowed(c, After(c, es), e)
    ensures IsRun(c, longer) && After(c, longer) == Step(c, After(c, es), e)
  {
    longer := es + [e];
    assert longer[..|es|] == es;
  }

  const NEWCOMER := Replica(None, None, Idle, false)
  const CHECKED := Replica(None, None, Idle, true)

  function FirstKey(created: int): Keys {
    map[0 := KeyRow(true, created, None)]
  }

  /** A replica that starts up on an empty table installs the first key at `at`. */
  lemma Bootstrapped(c: Config, r: int, at: int) returns (es: seq<Event>)
    requires at >= 0
    ensures IsRun(c, es) && After(c, es).now == at
    ensures After(c, es).keys == FirstKey(at) && After(c, es).replicas == map[r := CHECKED]
  {
    es := Then(c, [], Tick(at));
    es := Then(c, es, Join(r));
    es := Then(c, es, Begin(r));
    es := Then(c, es, Select(r, None));
    es := Then(c, es, Commit(r, 0));
    assert After(c, es).keys == FirstKey(at);
  }

  /** Replica 2 has made its rotation call, found nothing left to do, and has not
      refreshed yet, when the first key falls due at `b`. If keys fall due at once,
      it installed that key itself; otherwise it started an instant before. */
  lemma AboutToRefresh(c: Config, b: int) returns (es: seq<Event>, created: int)
    requires b >= 0 && b >= c.interval
    ensures IsRun(c, es) && After(c, es).now == b && b >= created + c.interval
    ensures After(c, es).keys == FirstKey(created) && After(c, es).replicas == map[2 := CHECKED]
  {
    if c.interval <= 0 {
      created := b;
      es := Bootstrapped(c, 2, b);
    } else {
      created := b - c.interval;
      es := Bootstrapped(c, 1, created);
      es := Then(c, es, Leave(1));
      es := Then(c, es, Tick(b - 1));
      es := Then(c, es, Join(2));
      es := CheckedInTime(c, es, created, b - 1);
      es := Then(c, es, Tick(b));
    }
  }

  /** Replica 2 finds the first key not due yet. */
  lemma CheckedInTime(c: Config, es: seq<Event>, created: int, now: int) returns (longer: seq<Event>)
    requires IsRun(c, es) && After(c, es).now == now < created + c.interval
    requires After(c, es).keys == FirstKey(created) && After(c, es).replicas == map[2 := NEWCOMER]
    ensures IsRun(c, longer) && After(c, longer).now == now
    ensures After(c, longer).keys == FirstKey(created) && After(c, longer).replicas == map[2 := CHECKED]
  {
    longer := Then(c, es, Begin(2));
    longer := Then(c, longer, Select(2, Some(0)));
  }

  /** Replica 3 starts up at `b`, and is still replacing the key one lag later. */
  lemma Replacing(c: Config, b: int) returns (es: seq<Event>, created: int)
    requires c.lag >= 0 && b >= 0 && b >= c.interval
    ensures IsRun(c, es) && After(c, es).now == b + c.lag && After(c, es).keys == FirstKey(created)
    ensures After(c, es).replicas == map[2 := CHECKED, 3 := Replica(None, None, Ready(b, Some(0)), false)]
  {
    es, created := AboutToRefresh(c, b);
    es := Then(c, es, Join(3));
    es := Then(c, es, Begin(3));
    es := Then(c, es, Select(3, Some(0)));
    es := Then(c, es, Tick(b + c.lag));
  }

  lemma ReadFirst(created: int, now: int)
    ensures ReadCache(FirstKey(created), now) == Cache(now, Some(0), {0})
  {
    assert 0 in FirstKey(created) && FirstKey(created)[0].isCurrent;
  }

  lemma ReplaceFirst(created: int, b: int, overlap: int)
    ensures Rotated(FirstKey(created), Some(0), 1, b, overlap) == TwoKeys(created, b, overlap)
  {
  }

  function TwoKeys(created: int, b: int, overlap: int): Keys {
    map[0 := KeyRow(false, created, Some(b + overlap)), 1 := KeyRow(true, b, None)]
  }

  /** What a replica holds that reads the old key at `now`. */
  function OldReader(now: int): Replica {
    Replica(Some(Cache(now, Some(0), {0})), None, Idle, false)
  }

  /** Now replica 2 refreshes, and reads the old key. */
  lemma OldKeyRead(c: Config, b: int) returns (es: seq<Event>, created: int)
    requires c.lag >= 0 && c.delta >= 0 && b >= 0 && b >= c.interval
    ensures IsRun(c, es) && After(c, es).now == b + c.lag && After(c, es).keys == FirstKey(created)
    ensures After(c, es).replicas ==
            map[2 := OldReader(b + c.lag), 3 := Replica(None, None, Ready(b, Some(0)), false)]
  {
    es, created := Replacing(c, b);
    ReadFirst(created, b + c.lag);
    es := Then(c, es, Query(2));
    es := Then(c, es, Install(2));
  }

  /** Only then does replica 3 commit. */
  lemma RolledOver(c: Config, b: int) returns (es: seq<Event>, created: int)
    requires c.lag >= 0 && c.delta >= 0 && b >= 0 && b >= c.interval
    ensures IsRun(c, es) && After(c, es).now == b + c.lag
    ensures After(c, es).keys == TwoKeys(created, b, c.overlap)
    ensures After(c, es).replicas == map[2 := OldReader(b + c.lag), 3 := CHECKED]
  {
    es, created := OldKeyRead(c, b);
    ReplaceFirst(created, b, c.overlap);
    es := Then(c, es, Commit(3, 1));
  }

  lemma LateWithShortOverlap(c: Config)
    requires c.lag >= 0 && c.delta >= 0 && c.overlap < c.lag
    ensures !NeverLate(c)
  {
    var b := if c.interval > 0 then c.interval else 0;
    var es, _ := RolledOver(c, b);
    es := Then(c, es, Tick(b + c.lag + c.delta));
    assert Accepts(After(c, es), 2, 0);
  }

  /** No replica accepts a key later than `delta` after its retirement, if and only
      if the overlap is at least the longest transaction. */
  lemma NeverLateIffOrderly(c: Config)
    requires c.lag >= 0 && c.delta >= 0
    ensures NeverLate(c) <==> c.overlap >= c.lag
  {
    if c.overlap >= c.lag {
      forall es, r, kid | IsRun(c, es) && r in After(c, es).replicas && Accepts(After(c, es), r, kid)
        ensures var w := After(c, es);
                kid in w.keys && (w.keys[kid].retireAt.Some? ==> w.now <= w.keys[kid].retireAt.value + c.delta) {
        NoLateAcceptance(c, es, r, kid);
      }
    } else {
      LateWithShortOverlap(c);
    }
  }
}
