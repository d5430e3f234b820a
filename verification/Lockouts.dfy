/** The shared failure counters and the two-dimension rate limiter
    (internal/store/lockouts.go, internal/auth/ratelimit.go). */
module Lockouts {
  import opened Backoff
  import opened Integers
  import opened Options

  datatype Row = Row(count: int, lastFailure: int, lockedUntil: Option<int>)

  /** The row after one more failure. */
  function Failed(row: Option<Row>, p: Params, now: int): Row {
    var count := 1 + if row.None? || now - row.value.lastFailure > p.window then 0 else row.value.count;
    var backoff := ComputeBackoff(count, p);
    Row(count, now, if backoff.Some? then Some(now + backoff.value) else None)
  }

  predicate Locked(row: Option<Row>, now: int) {
    row.Some? && row.value.lockedUntil.Some? && now < row.value.lockedUntil.value
  }

  function Find(rows: map<string, Row>, key: string): Option<Row> {
    if key in rows then Some(rows[key]) else None
  }

  class LockoutStore {
    var rows: map<string, Row>

    constructor ()
      ensures rows == map[]
    {
      rows := map[];
    }

    method IsLocked(key: string, now: int) returns (r: bool)
      ensures r == Locked(Find(rows, key), now)
      ensures r <==> key in rows && rows[key].lockedUntil.Some? && now < rows[key].lockedUntil.value
    {
      if key !in rows {
        return false;
      }
      var until := rows[key].lockedUntil;
      r := until.Some? && until.value > now;
    }

    method RecordFailure(key: string, p: Params, now: int)
      modifies this
      ensures rows == old(rows)[key := Failed(Find(old(rows), key), p, now)]
      ensures rows[key].lastFailure == now
      ensures rows[key].count ==
              1 + if key in old(rows) && now - old(rows)[key].lastFailure <= p.window then old(rows)[key].count else 0
      ensures rows[key].lockedUntil.Some? <==> p.threshold > 0 && rows[key].count > p.threshold
      ensures rows[key].lockedUntil.Some? ==>
                rows[key].lockedUntil.value == now + ComputeBackoff(rows[key].count, p).value
    {
      var count := 0;
      if key in rows && now - rows[key].lastFailure <= p.window {
        count := rows[key].count;
      }
      count := count + 1;
      var until: Option<int> := None;
      var backoff := ComputeBackoff(count, p);
      if backoff.Some? {
        until := Some(now + backoff.value);
      }
      rows := rows[key := Row(count, now, until)];
    }

    method Reset(key: string)
      modifies this
      ensures rows == old(rows) - {key}
    {
      rows := rows - {key};
    }
  }

  /** What happens to one key. */
  datatype Event = Fail(at: int) | Clear(at: int)

  function After(p: Params, events: seq<Event>): Option<Row> {
    if events == [] then None
    else if events[|events| - 1].Clear? then None
    else Some(Failed(After(p, events[..|events| - 1]), p, events[|events| - 1].at))
  }

  predicate Ordered(events: seq<Event>) {
    forall i, j :: 0 <= i < j < |events| ==> events[i].at <= events[j].at
  }

  /** The last `n` events are failures, each within the window of the one before. */
  predicate FailureRun(events: seq<Event>, n: nat, window: int) {
    && n <= |events|
    && (forall i :: |events| - n <= i < |events| ==> events[i].Fail?)
    && (forall i, j :: |events| - n <= i < |events| - 1 && j == i + 1 ==> events[j].at - events[i].at <= window)
  }

  lemma RunGrows(before: seq<Event>, e: Event, n: nat, window: int)
    requires 0 < n <= |before| && e.Fail?
    ensures FailureRun(before + [e], n + 1, window) <==>
            FailureRun(before, n, window) && e.at - before[|before| - 1].at <= window
  {
    var all := before + [e];
    assert forall i :: 0 <= i < |before| ==> all[i] == before[i];
    if FailureRun(all, n + 1, window) {
      forall i, j | |before| - n <= i < |before| - 1 && j == i + 1 ensures before[j].at - before[i].at <= window {
        assert all[j].at - all[i].at <= window;
      }
      forall i | |before| - n <= i < |before| ensures before[i].Fail? {
        assert all[i].Fail?;
      }
      assert all[|before|].at - all[|before| - 1].at <= window;
    }
  }

  /** The counter is the length of the longest unbroken run of failures that
      ends the history. */
  lemma {:induction false} CounterIsRunLength(p: Params, events: seq<Event>, n: nat)
    requires n <= |events|
    ensures var row := After(p, events);
            && (row.None? <==> events == [] || events[|events| - 1].Clear?)
            && (row.Some? ==> row.value.count >= 1 && row.value.lastFailure == events[|events| - 1].at)
            && (FailureRun(events, n, p.window) <==> n <= if row.Some? then row.value.count else 0)
    decreases |events|, n
  {
    if events != [] && events[|events| - 1].Fail? {
      var before := events[..|events| - 1];
      CounterIsRunLength(p, before, if n > 0 then n - 1 else 0);
      if n > 1 {
        RunGrows(before, events[|events| - 1], n - 1, p.window);
        assert events == before + [events[|events| - 1]];
      }
    } else if n > 0 {
      assert !FailureRun(events, n, p.window);
    }
  }

  /** The longest unbroken run of failures that ends the history. */
  predicate LongestRun(events: seq<Event>, n: nat, window: int) {
    n > 0 && FailureRun(events, n, window) && !FailureRun(events, n + 1, window)
  }

  lemma CounterIsLongestRun(p: Params, events: seq<Event>, n: nat)
    ensures LongestRun(events, n, p.window) <==> After(p, events).Some? && After(p, events).value.count == n
  {
    CounterWithinHistory(p, events);
    if n < |events| {
      CounterIsRunLength(p, events, n + 1);
    }
    if n <= |events| {
      CounterIsRunLength(p, events, n);
    }
  }

  /** With any parameters: a key is locked at `now` exactly when the backoff of the
      longest run of failures that ends the history has not elapsed. */
  lemma LockedExactly(p: Params, events: seq<Event>, now: int)
    ensures Locked(After(p, events), now) <==>
            exists n: nat :: LongestRun(events, n, p.window) && ComputeBackoff(n, p).Some? &&
                             now < events[|events| - 1].at + ComputeBackoff(n, p).value
  {
    var row := After(p, events);
    LockCarriesBackoff(p, events);
    CounterIsRunLength(p, events, 0);
    if row.Some? {
      CounterWithinHistory(p, events);
      CounterIsLongestRun(p, events, row.value.count);
    }
    if n: nat :| LongestRun(events, n, p.window) && ComputeBackoff(n, p).Some? &&
                 now < events[|events| - 1].at + ComputeBackoff(n, p).value {
      CounterIsLongestRun(p, events, n);
    }
  }

  /** With wrap-safe parameters the capped doubling of any run that ends the history
      decides. */
  lemma LockedByDoubling(p: Params, events: seq<Event>, now: int)
    requires Enabled(p) && WrapSafe(p)
    ensures Locked(After(p, events), now) <==>
            exists n: nat :: n > p.threshold && FailureRun(events, n, p.window) &&
                             now < events[|events| - 1].at + Saturating(n, p)
  {
    ExactIffWrapSafe(p);
    CounterIsRunLength(p, events, 0);
    var row := After(p, events);
    if row.Some? && row.value.count > p.threshold {
      assert ComputeBackoff(row.value.count, p) == Some(Saturating(row.value.count, p));
    }
    if Locked(row, now) {
      CounterWithinHistory(p, events);
      CounterIsRunLength(p, events, row.value.count);
      LockCarriesBackoff(p, events);
      assert FailureRun(events, row.value.count, p.window);
    }
    if n: nat :| n > p.threshold && FailureRun(events, n, p.window) &&
                 now < events[|events| - 1].at + Saturating(n, p) {
      CounterIsRunLength(p, events, n);
      LockCarriesBackoff(p, events);
      BackoffMonotone(p, n, row.value.count);
      assert ComputeBackoff(n, p) == Some(Saturating(n, p));
    }
  }

  /** With any parameters at all, a lock needs an unbroken run of more than
      `threshold` failures. */
  lemma LockedNeedsRun(p: Params, events: seq<Event>, now: int)
    requires Locked(After(p, events), now)
    ensures p.threshold > 0
    ensures exists n: nat :: n > p.threshold && FailureRun(events, n, p.window)
  {
    CounterWithinHistory(p, events);
    LockCarriesBackoff(p, events);
    CounterIsRunLength(p, events, After(p, events).value.count);
  }

  lemma {:induction false} CounterWithinHistory(p: Params, events: seq<Event>)
    ensures After(p, events).Some? ==> 1 <= After(p, events).value.count <= |events|
  {
    if events != [] {
      CounterWithinHistory(p, events[..|events| - 1]);
    }
  }

  predicate CarriesBackoff(p: Params, row: Row) {
    var b := ComputeBackoff(row.count, p);
    row.lockedUntil == if b.Some? then Some(row.lastFailure + b.value) else None
  }

  /** The stored deadline is the last failure plus the backoff of the counter. */
  lemma LockCarriesBackoff(p: Params, events: seq<Event>)
    ensures After(p, events).Some? ==> CarriesBackoff(p, After(p, events).value)
  {
  }

  function Deadline(p: Params, events: seq<Event>): Option<int> {
    if After(p, events).Some? then After(p, events).value.lockedUntil else None
  }

  predicate OnlyFailuresUntil(more: seq<Event>, now: int) {
    forall i :: 0 <= i < |more| ==> more[i].Fail? && more[i].at <= now
  }

  /** One failure before the deadline: the run goes on, so the deadline moves out. */
  lemma FailureExtendsLock(p: Params, events: seq<Event>, at: int)
    requires Enabled(p) && WrapSafe(p) && p.max <= p.window + 1
    requires Deadline(p, events).Some? && events != [] && events[|events| - 1].at <= at < Deadline(p, events).value
    ensures Deadline(p, events + [Fail(at)]).Some?
    ensures Deadline(p, events + [Fail(at)]).value >= Deadline(p, events).value
  {
    CounterIsRunLength(p, events, 0);
    LockCarriesBackoff(p, events);
    AfterOneMore(p, events, Fail(at));
    var c := After(p, events).value.count;
    BackoffMonotone(p, c, c + 1);
  }

  /** Failures before the deadline never move it earlier. */
  lemma {:induction false} FailuresExtendLock(p: Params, events: seq<Event>, more: seq<Event>, now: int)
    requires Enabled(p) && WrapSafe(p) && p.max <= p.window + 1
    requires LockedBefore(p, events, more, now)
    ensures Deadline(p, events + more).Some? && Deadline(p, events + more).value >= Deadline(p, events).value
    decreases |more|
  {
    if more == [] {
      assert events + more == events;
    } else {
      var all, fewer, last := events + more, more[..|more| - 1], more[|more| - 1];
      var before := events + fewer;
      assert all == before + [last];
      assert Ordered(before) by {
        forall i, j | 0 <= i < j < |before| ensures before[i].at <= before[j].at {
          assert before[i] == all[i] && before[j] == all[j];
        }
      }
      FailuresExtendLock(p, events, fewer, now);
      assert before[|before| - 1] == all[|all| - 2] && all[|all| - 1] == last;
      FailureExtendsLock(p, before, last.at);
    }
  }

  /** A lock was set by `events`, its deadline is ahead, and only failures followed. */
  predicate LockedBefore(p: Params, events: seq<Event>, more: seq<Event>, now: int) {
    && Ordered(events + more) && OnlyFailuresUntil(more, now)
    && Deadline(p, events).Some? && now < Deadline(p, events).value
  }

  /** Every lock, once set, is in force until its deadline unless cleared. */
  ghost predicate LocksHold(p: Params) {
    forall events, more, now :: LockedBefore(p, events, more, now) ==> Locked(After(p, events + more), now)
  }

  function Burst(n: nat): (r: seq<Event>)
    ensures |r| == n && forall i :: 0 <= i < n ==> r[i] == Fail(0)
  {
    seq(n, i => Fail(0))
  }

  lemma {:induction false} BurstCounts(p: Params, n: nat)
    requires n > 0 && p.window >= 0
    ensures After(p, Burst(n)).Some? && After(p, Burst(n)).value.count == n
  {
    assert Burst(n)[..n - 1] == Burst(n - 1);
    if n > 1 {
      BurstCounts(p, n - 1);
      CounterIsRunLength(p, Burst(n - 1), 0);
    }
  }

  /** Failures at one moment lock for the backoff of their number. */
  lemma BurstLocks(p: Params, n: nat)
    requires n > 0 && p.window >= 0
    ensures After(p, Burst(n)).Some? && After(p, Burst(n)).value.lastFailure == 0 && After(p, Burst(n)).value.count == n
    ensures Deadline(p, Burst(n)) == ComputeBackoff(n, p)
  {
    BurstCounts(p, n);
    CounterIsRunLength(p, Burst(n), 0);
    LockCarriesBackoff(p, Burst(n));
  }

  lemma AfterOneMore(p: Params, events: seq<Event>, e: Event)
    ensures After(p, events + [e]) == if e.Clear? then None else Some(Failed(After(p, events), p, e.at))
  {
  }

  /** A window shorter than the cap lets a failure that arrives after the window
      but before the deadline restart the counter and drop the lock. */
  lemma ShortWindowDropsLock(p: Params)
    requires Enabled(p) && p.window >= 0 && p.max > p.window + 1
    ensures !LocksHold(p)
  {
    var n := p.threshold + 65;
    var late := Fail(p.window + 1);
    BurstLocks(p, n);
    BackoffAt(p, n);
    CapReached(p, 64);
    AfterOneMore(p, Burst(n), late);
    assert LockedBefore(p, Burst(n), [late], p.window + 1);
    assert !Locked(After(p, Burst(n) + [late]), p.window + 1);
  }

  lemma CapReached(p: Params, k: nat)
    requires Enabled(p) && (k >= 64 || p.base * Pow2(k) >= TWO_63)
    ensures Saturating(p.threshold + 1 + k, p) == p.max
  {
    if k >= 64 {
      Pow2At63();
      Pow2Monotone(64, k);
      MulMonotone(Pow2(k), 1, p.base);
    }
  }

  /** A product leaves the 63-bit range and wraps to a positive value below the cap. */
  predicate WrapsAt(p: Params, k: nat) {
    k < 64 && p.base * Pow2(k) >= TWO_63 && 0 < Wrap64(p.base * Pow2(k)) < p.max
  }

  lemma FirstWrap(p: Params) returns (k: nat)
    requires !WrapSafe(p)
    ensures WrapsAt(p, k) && forall j: nat :: j < k ==> !WrapsAt(p, j)
  {
    k := 0;
    var some: nat :| some < 64 && p.base * Pow2(some) >= TWO_63 && 0 < Wrap64(p.base * Pow2(some)) < p.max;
    assert WrapsAt(p, some);
    while !WrapsAt(p, k)
      invariant k <= 64 && (forall j: nat :: j < k ==> !WrapsAt(p, j))
      invariant exists j: nat :: k <= j && WrapsAt(p, j)
      decreases 64 - k
    {
      k := k + 1;
    }
  }

  /** Before the first wrapped product, the one before it left the range as well: a
      value between 2^63 and 2^64 wraps to a negative one. */
  lemma BeforeFirstWrap(p: Params, k: nat)
    requires Enabled(p) && WrapsAt(p, k)
    ensures k > 0 && p.base * Pow2(k - 1) >= TWO_63
  {
    assert Pow2(0) == 1;
    if k > 0 {
      assert p.base * Pow2(k) == 2 * (p.base * Pow2(k - 1));
    }
  }

  /** One failure more, at the same moment, cuts the lock from the cap to the
      wrapped value. */
  lemma WrapDropsLock(p: Params)
    requires Enabled(p) && p.window >= 0 && !WrapSafe(p)
    ensures !LocksHold(p)
  {
    var k := FirstWrap(p);
    BeforeFirstWrap(p, k);
    assert !WrapsAt(p, k - 1);
    var n := p.threshold + k;
    BackoffAt(p, n);
    CapReached(p, k - 1);
    BackoffAt(p, n + 1);
    BurstLocks(p, n);
    BurstLocks(p, n + 1);
    var w := Wrap64(p.base * Pow2(k));
    assert Burst(n) + [Fail(0)] == Burst(n + 1);
    assert LockedBefore(p, Burst(n), [Fail(0)], w);
    assert !Locked(After(p, Burst(n) + [Fail(0)]), w);
  }

  /** A negative window forgets every failure at once, so nothing ever locks. */
  lemma NegativeWindowNeverLocks(p: Params, events: seq<Event>)
    requires p.window < 0 && p.threshold > 0 && Ordered(events)
    ensures Deadline(p, events).None?
  {
    CounterIsRunLength(p, events, 0);
    LockCarriesBackoff(p, events);
    if |events| >= 2 {
      CounterIsRunLength(p, events, 2);
      assert events[|events| - 2].at <= events[|events| - 1].at;
    } else {
      CounterWithinHistory(p, events);
    }
  }

  /** Locks hold on every run exactly when no product wraps below the cap and the
      window covers the cap (or is negative, when there are none). */
  lemma LocksHoldExactly(p: Params)
    requires Enabled(p)
    ensures LocksHold(p) <==> p.window < 0 || (WrapSafe(p) && p.max <= p.window + 1)
  {
    if p.window < 0 {
      forall events, more, now ensures !LockedBefore(p, events, more, now) {
        if Ordered(events + more) {
          OrderedPrefix(events, more);
          NegativeWindowNeverLocks(p, events);
        }
      }
    } else if !WrapSafe(p) {
      WrapDropsLock(p);
    } else if p.max <= p.window + 1 {
      forall events, more, now | LockedBefore(p, events, more, now) ensures Locked(After(p, events + more), now) {
        FailuresExtendLock(p, events, more, now);
      }
    } else {
      ShortWindowDropsLock(p);
    }
  }

  lemma OrderedPrefix(events: seq<Event>, more: seq<Event>)
    requires Ordered(events + more)
    ensures Ordered(events)
  {
    var all := events + more;
    forall i, j | 0 <= i < j < |events| ensures events[i].at <= events[j].at {
      assert all[i] == events[i] && all[j] == events[j];
    }
  }

  // ---- What a lock is for: how many guesses fit into a time

  /** Every failure was a password that was looked at: the key was not locked then. */
  predicate Attempted(p: Params, events: seq<Event>) {
    forall i :: 0 <= i < |events| && events[i].Fail? ==> !Locked(After(p, events[..i]), events[i].at)
  }

  predicate OnlyFailures(events: seq<Event>) {
    forall i :: 0 <= i < |events| ==> events[i].Fail?
  }

  /** Nothing is remembered of what came before. */
  predicate Forgotten(before: seq<Event>) {
    before == [] || before[|before| - 1].Clear?
  }

  /** `gaps` pauses longer than the window and `waits` locks waited out fit into the
      time, and pay for all guesses but those that are free. */
  ghost predicate Accounted(p: Params, guesses: nat, gaps: nat, waits: nat, count: int, time: int) {
    && guesses <= (p.threshold + 1) * gaps + waits + Min(count, p.threshold + 1)
    && gaps * (p.window + 1) + waits * Min(p.base, p.max) <= time
  }

  lemma LeastBackoff(p: Params, count: int)
    requires Enabled(p) && WrapSafe(p) && count > p.threshold
    ensures ComputeBackoff(count, p).Some? && ComputeBackoff(count, p).value >= Min(p.base, p.max)
  {
    BackoffMonotone(p, p.threshold + 1, count);
    ExactIffWrapSafe(p);
    assert ComputeBackoff(p.threshold + 1, p) == Some(Saturating(p.threshold + 1, p));
    assert Pow2(0) == 1;
  }

  /** The next guess starts over after a pause, is free below the threshold, or had
      to wait. */
  lemma GuessAccounted(p: Params, row: Row, at: int, guesses: nat, gaps: nat, waits: nat, time: int)
    returns (gaps': nat, waits': nat)
    requires Enabled(p) && WrapSafe(p) && p.window >= 0 && CarriesBackoff(p, row) && row.count >= 1
    requires Accounted(p, guesses, gaps, waits, row.count, time)
    requires at >= row.lastFailure && !Locked(Some(row), at)
    ensures Accounted(p, guesses + 1, gaps', waits', Failed(Some(row), p, at).count, time + at - row.lastFailure)
  {
    gaps', waits' := gaps, waits;
    if at - row.lastFailure > p.window {
      gaps' := gaps + 1;
      assert gaps' * (p.window + 1) == gaps * (p.window + 1) + (p.window + 1);
      assert (p.threshold + 1) * gaps' == (p.threshold + 1) * gaps + (p.threshold + 1);
    } else if row.count > p.threshold {
      LeastBackoff(p, row.count);
      waits' := waits + 1;
      assert waits' * Min(p.base, p.max) == waits * Min(p.base, p.max) + Min(p.base, p.max);
    }
  }

  /** Guesses of one key since its last success. */
  ghost predicate Guesses(p: Params, before: seq<Event>, since: seq<Event>) {
    Forgotten(before) && OnlyFailures(since) && Ordered(before + since) && Attempted(p, before + since)
  }

  lemma EarlierGuesses(p: Params, before: seq<Event>, init: seq<Event>, last: Event)
    requires Guesses(p, before, init + [last])
    ensures Guesses(p, before, init)
  {
    var all, prior := before + (init + [last]), before + init;
    assert all == prior + [last];
    OrderedPrefix(prior, [last]);
    forall i | 0 <= i < |init| ensures init[i].Fail? {
      assert (init + [last])[i].Fail?;
    }
    forall i | 0 <= i < |prior| && prior[i].Fail? ensures !Locked(After(p, prior[..i]), prior[i].at) {
      assert all[i] == prior[i] && all[..i] == prior[..i];
    }
  }

  /** The row that the last guess met, and the one it left. */
  lemma LastGuess(p: Params, before: seq<Event>, init: seq<Event>, last: Event)
    requires Guesses(p, before, init + [last])
    ensures var row := After(p, before + init);
            && After(p, before + (init + [last])) == Some(Failed(row, p, last.at)) && !Locked(row, last.at)
            && (init == [] ==> row.None?)
            && (init != [] ==> row.Some? && row.value.count >= 1 && CarriesBackoff(p, row.value) &&
                               row.value.lastFailure == init[|init| - 1].at <= last.at)
  {
    var all, prior := before + (init + [last]), before + init;
    assert all == prior + [last] && all[|prior|] == last && all[..|prior|] == prior;
    assert (init + [last])[|init|].Fail?;
    AfterOneMore(p, prior, last);
    CounterIsRunLength(p, prior, 0);
    LockCarriesBackoff(p, prior);
    if init == [] {
      assert prior == before;
    } else {
      assert (init + [last])[|init| - 1].Fail?;
      assert prior[|prior| - 1] == init[|init| - 1] == all[|prior| - 1];
    }
  }

  /** The failures of a key since its last success are accounted for. */
  lemma {:induction false} GuessesAccounted(p: Params, before: seq<Event>, since: seq<Event>)
    returns (gaps: nat, waits: nat)
    requires Enabled(p) && WrapSafe(p) && p.window >= 0 && since != [] && Guesses(p, before, since)
    ensures After(p, before + since).Some?
    ensures Accounted(p, |since|, gaps, waits, After(p, before + since).value.count,
                      since[|since| - 1].at - since[0].at)
    decreases |since|
  {
    var init, last := since[..|since| - 1], since[|since| - 1];
    assert since == init + [last];
    LastGuess(p, before, init, last);
    gaps, waits := 0, 0;
    if init != [] {
      EarlierGuesses(p, before, init, last);
      gaps, waits := GuessesAccounted(p, before, init);
      gaps, waits := GuessAccounted(p, After(p, before + init).value, last.at, |init|, gaps, waits,
                                    init[|init| - 1].at - init[0].at);
    }
  }

  lemma QuotientBound(n: nat, d: int, time: int)
    requires d > 0 && n * d <= time
    ensures n <= time / d
  {
    if n > time / d {
      MulMonotone(d, time / d + 1, n);
    }
  }

  /** How many guesses of one key fit into a time without a success: one batch of
      free ones for each window, and one for each shortest backoff. */
  lemma GuessesBounded(p: Params, before: seq<Event>, since: seq<Event>)
    requires Enabled(p) && WrapSafe(p) && p.window >= 0 && since != [] && Guesses(p, before, since)
    ensures var time := since[|since| - 1].at - since[0].at;
            |since| <= (p.threshold + 1) * (time / (p.window + 1) + 1) + time / Min(p.base, p.max)
  {
    var time := since[|since| - 1].at - since[0].at;
    var gaps, waits := GuessesAccounted(p, before, since);
    MulMonotone(p.window + 1, 0, gaps);
    MulMonotone(Min(p.base, p.max), 0, waits);
    QuotientBound(gaps, p.window + 1, time);
    QuotientBound(waits, Min(p.base, p.max), time);
    MulMonotone(p.threshold + 1, gaps + 1, time / (p.window + 1) + 1);
    assert (p.threshold + 1) * (gaps + 1) == (p.threshold + 1) * gaps + (p.threshold + 1);
  }

  // ---- The limiter's two dimensions

  function UserKey(prefix: string, username: string): string {
    prefix + "user:" + username
  }

  function IpKey(prefix: string, ip: string): string {
    prefix + "ip:" + ip
  }

  lemma KeysDistinct(prefix: string, username: string, ip: string, other: string)
    ensures UserKey(prefix, username) != IpKey(prefix, ip)
    ensures UserKey(prefix, username) == UserKey(prefix, other) <==> username == other
    ensures IpKey(prefix, ip) == IpKey(prefix, other) <==> ip == other
  {
    var u, i := UserKey(prefix, username), IpKey(prefix, ip);
    assert u[|prefix|] == 'u' && i[|prefix|] == 'i';
    assert u[|prefix| + 5..] == username && UserKey(prefix, other)[|prefix| + 5..] == other;
    assert i[|prefix| + 3..] == ip && IpKey(prefix, other)[|prefix| + 3..] == other;
  }

  datatype Limits = Limits(prefix: string, account: Params, address: Params)

  /** One outcome of an attempt by a user from an address. */
  datatype Attempt = Failure(user: string, ip: string, at: int) | Success(user: string, ip: string, at: int)

  predicate CountsUser(l: Limits, user: string) { user != "" && l.account.threshold > 0 }
  predicate CountsIp(l: Limits, ip: string) { ip != "" && l.address.threshold > 0 }

  function Recorded(l: Limits, rows: map<string, Row>, a: Attempt): map<string, Row> {
    var uk, ik := UserKey(l.prefix, a.user), IpKey(l.prefix, a.ip);
    var first := if !CountsUser(l, a.user) then rows
                 else if a.Success? then rows - {uk}
                 else rows[uk := Failed(Find(rows, uk), l.account, a.at)];
    if !CountsIp(l, a.ip) then first
    else if a.Success? then first - {ik}
    else first[ik := Failed(Find(first, ik), l.address, a.at)]
  }

  class RateLimiter {
    const limits: Limits
    const store: LockoutStore

    constructor (limits: Limits, store: LockoutStore)
      ensures this.limits == limits && this.store == store
    {
      this.limits, this.store := limits, store;
    }

    /** Locked exactly when an enabled dimension's key is. */
    method IsLocked(user: string, ip: string, now: int) returns (r: bool)
      ensures r <==> (CountsUser(limits, user) && Locked(Find(store.rows, UserKey(limits.prefix, user)), now)) ||
                     (CountsIp(limits, ip) && Locked(Find(store.rows, IpKey(limits.prefix, ip)), now))
    {
      if user != "" && limits.account.threshold > 0 {
        r := store.IsLocked(UserKey(limits.prefix, user), now);
        if r {
          return;
        }
      }
      if ip != "" && limits.address.threshold > 0 {
        r := store.IsLocked(IpKey(limits.prefix, ip), now);
        return;
      }
      r := false;
    }

    method RecordFailure(user: string, ip: string, now: int)
      modifies store
      ensures store.rows == Recorded(limits, old(store.rows), Failure(user, ip, now))
    {
      if user != "" && limits.account.threshold > 0 {
        store.RecordFailure(UserKey(limits.prefix, user), limits.account, now);
      }
      if ip != "" && limits.address.threshold > 0 {
        store.RecordFailure(IpKey(limits.prefix, ip), limits.address, now);
      }
    }

    method RecordSuccess(user: string, ip: string, now: int)
      modifies store
      ensures store.rows == Recorded(limits, old(store.rows), Success(user, ip, now))
    {
      if user != "" && limits.account.threshold > 0 {
        store.Reset(UserKey(limits.prefix, user));
      }
      if ip != "" && limits.address.threshold > 0 {
        store.Reset(IpKey(limits.prefix, ip));
      }
    }
  }

  function RowsAfter(l: Limits, attempts: seq<Attempt>): map<string, Row> {
    if attempts == [] then map[]
    else Recorded(l, RowsAfter(l, attempts[..|attempts| - 1]), attempts[|attempts| - 1])
  }

  function AsEvent(a: Attempt): Event {
    if a.Failure? then Fail(a.at) else Clear(a.at)
  }

  /** The part of the history that concerns one user. */
  function OfUser(attempts: seq<Attempt>, user: string): seq<Event> {
    if attempts == [] then [] else
      var before, a := OfUser(attempts[..|attempts| - 1], user), attempts[|attempts| - 1];
      if a.user == user then before + [AsEvent(a)] else before
  }

  /** The part of the history that concerns one address. */
  function OfIp(attempts: seq<Attempt>, ip: string): seq<Event> {
    if attempts == [] then [] else
      var before, a := OfIp(attempts[..|attempts| - 1], ip), attempts[|attempts| - 1];
      if a.ip == ip then before + [AsEvent(a)] else before
  }

  /** Under any mix of attempts each dimension evolves as if it were alone: a
      user's row depends only on that user's attempts, an address's row only on
      that address's. */
  lemma {:induction false} DimensionsIndependent(l: Limits, attempts: seq<Attempt>, user: string, ip: string)
    ensures CountsUser(l, user) ==>
              Find(RowsAfter(l, attempts), UserKey(l.prefix, user)) == After(l.account, OfUser(attempts, user))
    ensures CountsIp(l, ip) ==>
              Find(RowsAfter(l, attempts), IpKey(l.prefix, ip)) == After(l.address, OfIp(attempts, ip))
  {
    if attempts != [] {
      var a, before := attempts[|attempts| - 1], attempts[..|attempts| - 1];
      DimensionsIndependent(l, before, user, ip);
      KeysDistinct(l.prefix, a.user, ip, user);
      KeysDistinct(l.prefix, user, a.ip, ip);
      KeysDistinct(l.prefix, a.user, a.ip, user);
      AfterOneMore(l.account, OfUser(before, user), AsEvent(a));
      AfterOneMore(l.address, OfIp(before, ip), AsEvent(a));
    }
  }

  // ---- Passwords behind the limiter

  /** Passwords are looked at only when neither dimension is locked, and attempts do
      not overlap. */
  predicate Guarded(l: Limits, attempts: seq<Attempt>) {
    forall i :: 0 <= i < |attempts| ==> !LimiterLocked(l, RowsAfter(l, attempts[..i]), attempts[i])
  }

  predicate LimiterLocked(l: Limits, rows: map<string, Row>, a: Attempt) {
    || (CountsUser(l, a.user) && Locked(Find(rows, UserKey(l.prefix, a.user)), a.at))
    || (CountsIp(l, a.ip) && Locked(Find(rows, IpKey(l.prefix, a.ip)), a.at))
  }

  /** What the limiter lets through is, for each user by itself, what that user's
      lock lets through. */
  lemma {:induction false} GuardedPerUser(l: Limits, attempts: seq<Attempt>, user: string)
    requires Guarded(l, attempts) && CountsUser(l, user)
    ensures Attempted(l.account, OfUser(attempts, user))
  {
    if attempts != [] {
      var before, a := attempts[..|attempts| - 1], attempts[|attempts| - 1];
      forall i | 0 <= i < |before| ensures !LimiterLocked(l, RowsAfter(l, before[..i]), before[i]) {
        assert before[..i] == attempts[..i];
      }
      GuardedPerUser(l, before, user);
      if a.user == user {
        assert !LimiterLocked(l, RowsAfter(l, before), a);
        DimensionsIndependent(l, before, user, a.ip);
        AttemptedMore(l.account, OfUser(before, user), AsEvent(a));
      }
    }
  }

  lemma AttemptedMore(p: Params, events: seq<Event>, e: Event)
    requires Attempted(p, events) && (e.Fail? ==> !Locked(After(p, events), e.at))
    ensures Attempted(p, events + [e])
  {
    var all := events + [e];
    forall i | 0 <= i < |all| && all[i].Fail? ensures !Locked(After(p, all[..i]), all[i].at) {
      if i < |events| {
        assert all[..i] == events[..i];
      } else {
        assert all[..i] == events;
      }
    }
  }

  /** Under any mix of attempts on any users from any addresses: the wrong passwords
      looked at for one user since that user's last success are bounded by time. */
  lemma UserGuessesBounded(l: Limits, attempts: seq<Attempt>, user: string, before: seq<Event>, since: seq<Event>)
    requires Enabled(l.account) && WrapSafe(l.account) && l.account.window >= 0 && user != ""
    requires Guarded(l, attempts) && OfUser(attempts, user) == before + since && Ordered(before + since)
    requires Forgotten(before) && OnlyFailures(since) && since != []
    ensures var time := since[|since| - 1].at - since[0].at;
            |since| <= (l.account.threshold + 1) * (time / (l.account.window + 1) + 1) +
                       time / Min(l.account.base, l.account.max)
  {
    GuardedPerUser(l, attempts, user);
    GuessesBounded(l.account, before, since);
  }

  lemma {:induction false} GuardedPerIp(l: Limits, attempts: seq<Attempt>, ip: string)
    requires Guarded(l, attempts) && CountsIp(l, ip)
    ensures Attempted(l.address, OfIp(attempts, ip))
  {
    if attempts != [] {
      var before, a := attempts[..|attempts| - 1], attempts[|attempts| - 1];
      forall i | 0 <= i < |before| ensures !LimiterLocked(l, RowsAfter(l, before[..i]), before[i]) {
        assert before[..i] == attempts[..i];
      }
      GuardedPerIp(l, before, ip);
      if a.ip == ip {
        assert !LimiterLocked(l, RowsAfter(l, before), a);
        DimensionsIndependent(l, before, a.user, ip);
        AttemptedMore(l.address, OfIp(before, ip), AsEvent(a));
      }
    }
  }

  /** The same for one address, whatever users it tries. */
  lemma AddressGuessesBounded(l: Limits, attempts: seq<Attempt>, ip: string, before: seq<Event>, since: seq<Event>)
    requires Enabled(l.address) && WrapSafe(l.address) && l.address.window >= 0 && ip != ""
    requires Guarded(l, attempts) && OfIp(attempts, ip) == before + since && Ordered(before + since)
    requires Forgotten(before) && OnlyFailures(since) && since != []
    ensures var time := since[|since| - 1].at - since[0].at;
            |since| <= (l.address.threshold + 1) * (time / (l.address.window + 1) + 1) +
                       time / Min(l.address.base, l.address.max)
  {
    GuardedPerIp(l, attempts, ip);
    GuessesBounded(l.address, before, since);
  }
}
