/** Exponential backoff in wrapping 64-bit arithmetic (internal/store/lockouts.go). */
module Backoff {
  import opened Integers
  import opened Options

  datatype Params = Params(threshold: int, base: int, max: int, window: int)

  function Pow2(n: nat): (r: nat)
    ensures r >= 1
  {
    if n == 0 then 1 else 2 * Pow2(n - 1)
  }

  /** `1 << s` on int64. */
  function ShiftOne(s: nat): int {
    if s >= 64 then 0 else Wrap64(Pow2(s))
  }

  function ComputeBackoff(count: int, p: Params): Option<int> {
    if p.threshold <= 0 || count <= p.threshold then None
    else
      var backoff := Wrap64(p.base * ShiftOne(count - p.threshold - 1));
      Some(if backoff > p.max || backoff <= 0 then p.max else backoff)
  }

  /** Doubling per failure past the threshold, capped, over unbounded integers. */
  function Saturating(count: int, p: Params): int
    requires count > p.threshold
  {
    Min(p.base * Pow2(count - p.threshold - 1), p.max)
  }

  predicate Enabled(p: Params) {
    p.threshold > 0 && 0 < p.base < TWO_63 && 0 < p.max < TWO_63
  }

  /** No doubling that leaves the 63-bit range wraps to a positive value below
      the cap. Only 64 doublings need looking at. */
  predicate WrapSafe(p: Params) {
    forall k :: 0 <= k < 64 && p.base * Pow2(k) >= TWO_63 ==> !(0 < Wrap64(p.base * Pow2(k)) < p.max)
  }

  ghost predicate BacksOffExactly(p: Params) {
    forall count :: count > p.threshold ==> ComputeBackoff(count, p) == Some(Saturating(count, p))
  }

  lemma {:induction false} Pow2Add(a: nat, b: nat)
    ensures Pow2(a + b) == Pow2(a) * Pow2(b)
  {
    if a > 0 {
      Pow2Add(a - 1, b);
      assert Pow2(a + b) == 2 * (Pow2(a - 1) * Pow2(b));
    }
  }

  lemma Pow2At63()
    ensures Pow2(63) == TWO_63 && Pow2(64) == TWO_64
  {
    assert Pow2(16) == 0x1_0000;
    Pow2Add(16, 16);
    Pow2Add(32, 31);
    Pow2Add(16, 15);
    assert Pow2(15) == 0x8000;
    Pow2Add(63, 1);
  }

  lemma {:induction false} Pow2Monotone(a: nat, b: nat)
    requires a <= b
    ensures Pow2(a) <= Pow2(b)
  {
    if a < b {
      Pow2Monotone(a, b - 1);
    }
  }

  lemma WrapShift(x: int, k: int)
    ensures Wrap64(x + k * TWO_64) == Wrap64(x)
  {
  }

  lemma ShiftOneValue(s: nat)
    requires s < 64
    ensures ShiftOne(s) == if s < 63 then Pow2(s) else TWO_63 - TWO_64
  {
    Pow2At63();
    if s < 63 {
      Pow2Monotone(s, 62);
      assert Pow2(63) == 2 * Pow2(62);
    }
  }

  /** Multiplying by a wrapped power of two wraps the product. */
  lemma WrappedProduct(base: int, s: nat)
    requires s < 64
    ensures Wrap64(base * ShiftOne(s)) == Wrap64(base * Pow2(s))
  {
    ShiftOneValue(s);
    if s == 63 {
      Pow2At63();
      assert base * (TWO_63 - TWO_64) == base * TWO_63 + (-base) * TWO_64;
      WrapShift(base * TWO_63, -base);
    }
  }

  lemma MulMonotone(x: int, a: int, b: int)
    requires x >= 0 && a <= b
    ensures x * a <= x * b
  {
  }

  lemma BackoffAt(p: Params, count: int)
    requires Enabled(p) && count > p.threshold
    ensures var x := p.base * Pow2(count - p.threshold - 1);
            ComputeBackoff(count, p) ==
            if count - p.threshold - 1 < 64 && x >= TWO_63 && 0 < Wrap64(x) < p.max then Some(Wrap64(x))
            else Some(Saturating(count, p))
  {
    var k := count - p.threshold - 1;
    if k < 64 {
      WrappedProduct(p.base, k);
      MulMonotone(p.base, 1, Pow2(k));
      CapAt(p.base * Pow2(k), p.max);
    } else {
      Pow2At63();
      Pow2Monotone(64, k);
      MulMonotone(Pow2(k), 1, p.base);
    }
  }

  /** Capping a wrapped value and capping the value itself agree unless the
      wrapped value is positive and below the cap. */
  lemma CapAt(x: int, max: int)
    requires x > 0 && 0 < max < TWO_63
    ensures var w := Wrap64(x);
            (if w > max || w <= 0 then max else w) == if x >= TWO_63 && 0 < w < max then w else Min(x, max)
  {
  }

  /** The shift-and-multiply equals the saturating doubling at every count
      exactly when the parameters are wrap-safe. */
  lemma ExactIffWrapSafe(p: Params)
    requires Enabled(p)
    ensures BacksOffExactly(p) <==> WrapSafe(p)
  {
    if WrapSafe(p) {
      forall count | count > p.threshold ensures ComputeBackoff(count, p) == Some(Saturating(count, p)) {
        BackoffAt(p, count);
      }
    }
    if BacksOffExactly(p) {
      forall k | 0 <= k < 64 && p.base * Pow2(k) >= TWO_63 ensures !(0 < Wrap64(p.base * Pow2(k)) < p.max) {
        var count := k + p.threshold + 1;
        BackoffAt(p, count);
        assert ComputeBackoff(count, p) == Some(Saturating(count, p));
      }
    }
  }

  /** A multiple of `power` that is positive exceeds the cap. */
  lemma SmallFactor(m: int, max: int, power: int, t: int)
    requires m > 0 && m * max < TWO_63 <= m * power && power > 0
    ensures power * t <= 0 || power * t > max
  {
  }

  lemma WrapQuotient(x: int) returns (q: int)
    ensures x == Wrap64(x) + q * TWO_64
  {
    q := x / TWO_64 + if x % TWO_64 < TWO_63 then 0 else 1;
  }

  /** A multiple of a power of two below 2^64 wraps to a multiple of it. */
  lemma WrapKeepsPower(m: int, s: nat) returns (t: int)
    requires s < 64
    ensures Wrap64(m * Pow2(s)) == Pow2(s) * t
  {
    var q := WrapQuotient(m * Pow2(s));
    Pow2At63();
    Pow2Add(s, 64 - s);
    t := m - q * Pow2(64 - s);
    Regroup(m, q, Pow2(s), Pow2(64 - s), TWO_64);
  }

  lemma Regroup(m: int, q: int, a: int, b: int, c: int)
    requires a * b == c
    ensures m * a - q * c == a * (m - q * b)
  {
  }

  lemma WrapToZero(m: int, s: nat)
    requires s >= 64
    ensures Wrap64(m * Pow2(s)) == 0
  {
    Pow2At63();
    Pow2Add(s - 64, 64);
    assert m * (Pow2(s - 64) * TWO_64) == 0 + (m * Pow2(s - 64)) * TWO_64;
    WrapShift(0, m * Pow2(s - 64));
  }

  lemma BoundAt(max: int, m: int, s: nat)
    requires m > 0 && m * max < TWO_63 <= m * Pow2(s)
    ensures !(0 < Wrap64(m * Pow2(s)) < max)
  {
    if s >= 64 {
      WrapToZero(m, s);
    } else {
      var t := WrapKeepsPower(m, s);
      SmallFactor(m, max, Pow2(s), t);
    }
  }

  lemma Associate(m: int, a: nat, k: nat)
    ensures m * Pow2(a) * Pow2(k) == m * Pow2(a + k)
  {
    Pow2Add(a, k);
  }

  /** A sufficient bound: the part of the base left after taking out a power of
      two, times the cap, stays below 2^63. */
  lemma BoundIsWrapSafe(p: Params, m: int, a: nat)
    requires Enabled(p) && m > 0 && p.base == m * Pow2(a) && m * p.max < TWO_63
    ensures WrapSafe(p)
  {
    forall k | 0 <= k < 64 && p.base * Pow2(k) >= TWO_63 ensures !(0 < Wrap64(p.base * Pow2(k)) < p.max) {
      Associate(m, a, k);
      BoundAt(p.max, m, a + k);
    }
  }

  /** One second doubling up to fifteen minutes, the configured defaults. */
  lemma DefaultsAreWrapSafe(threshold: int, window: int)
    requires threshold > 0
    ensures WrapSafe(Params(threshold, SECOND, 900 * SECOND, window))
  {
    assert Pow2(9) == 512;
    BoundIsWrapSafe(Params(threshold, SECOND, 900 * SECOND, window), 1953125, 9);
  }

  lemma BackoffMonotone(p: Params, c: int, d: int)
    requires Enabled(p) && WrapSafe(p) && p.threshold < c <= d
    ensures ComputeBackoff(c, p).Some? && ComputeBackoff(d, p).Some?
    ensures 0 < ComputeBackoff(c, p).value <= ComputeBackoff(d, p).value <= p.max
  {
    ExactIffWrapSafe(p);
    Pow2Monotone(c - p.threshold - 1, d - p.threshold - 1);
    MulMonotone(p.base, Pow2(c - p.threshold - 1), Pow2(d - p.threshold - 1));
    MulMonotone(p.base, 1, Pow2(c - p.threshold - 1));
    assert ComputeBackoff(c, p) == Some(Saturating(c, p));
    assert ComputeBackoff(d, p) == Some(Saturating(d, p));
  }

  lemma Pow2At44()
    ensures Pow2(43) == 8796093022208 && Pow2(44) == 17592186044416
  {
    assert Pow2(11) == 2048;
    Pow2Add(11, 11);
    Pow2Add(22, 22);
    assert Pow2(44) == 2 * Pow2(43);
  }

  /** Without the bound the wrapped product can fall below an earlier backoff:
      a base of 2^20 + 1 ns under a 24 h cap drops to 2^44 ns at the 45th
      failure past the threshold. */
  lemma UnboundedBackoffDrops()
    ensures var p := Params(1, 1048577, 86400 * SECOND, 0);
            ComputeBackoff(45, p) == Some(86400 * SECOND) && ComputeBackoff(46, p) == Some(17592186044416)
  {
    var p := Params(1, 1048577, 86400 * SECOND, 0);
    Pow2At44();
    BackoffAt(p, 45);
    BackoffAt(p, 46);
  }
}
