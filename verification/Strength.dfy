/** Password strength as an exact guess count (internal/auth/strength.go).
    Runes are code points; a bit count b of the program stands for 2^b guesses. */
module Strength {
  import opened Words

  // ---- Character classes

  predicate IsLower(r: int) { 'a' as int <= r <= 'z' as int }
  predicate IsUpper(r: int) { 'A' as int <= r <= 'Z' as int }
  predicate IsDigit(r: int) { '0' as int <= r <= '9' as int }
  predicate IsSymbol(r: int) { !IsLower(r) && !IsUpper(r) && !IsDigit(r) }

  /** Sum of the alphabet sizes of the classes that occur. */
  function Pool(rs: Word): nat {
    (if exists r :: r in rs && IsLower(r) then 26 else 0) +
    (if exists r :: r in rs && IsUpper(r) then 26 else 0) +
    (if exists r :: r in rs && IsDigit(r) then 10 else 0) +
    (if exists r :: r in rs && IsSymbol(r) then 33 else 0)
  }

  method CharPool(rs: Word) returns (pool: nat)
    ensures pool == Pool(rs)
    ensures pool == (if exists r :: r in rs && 97 <= r <= 122 then 26 else 0) +
                    (if exists r :: r in rs && 65 <= r <= 90 then 26 else 0) +
                    (if exists r :: r in rs && 48 <= r <= 57 then 10 else 0) +
                    (if exists r :: r in rs && (r < 48 || 57 < r < 65 || 90 < r < 97 || 122 < r) then 33 else 0)
  {
    var lower, upper, digit, symbol := false, false, false, false;
    for i := 0 to |rs|
      invariant lower <==> exists r :: r in rs[..i] && IsLower(r)
      invariant upper <==> exists r :: r in rs[..i] && IsUpper(r)
      invariant digit <==> exists r :: r in rs[..i] && IsDigit(r)
      invariant symbol <==> exists r :: r in rs[..i] && IsSymbol(r)
    {
      var r := rs[i];
      assert rs[..i + 1] == rs[..i] + [r];
      if IsLower(r) {
        lower := true;
      } else if IsUpper(r) {
        upper := true;
      } else if IsDigit(r) {
        digit := true;
      } else {
        assert IsSymbol(r);
        symbol := true;
      }
    }
    assert rs[..|rs|] == rs;
    pool := 0;
    if lower { pool := pool + 26; }
    if upper { pool := pool + 26; }
    if digit { pool := pool + 10; }
    if symbol { pool := pool + 33; }
  }

  lemma PoolOfRepeat(u: Word, k: nat)
    requires k > 0
    ensures Pool(Repeat(u, k)) == Pool(u)
  {
  }

  lemma PoolAtLeastTen(rs: Word)
    requires rs != []
    ensures Pool(rs) >= 10
  {
    var r := rs[0];
    assert r in rs && (IsLower(r) || IsUpper(r) || IsDigit(r) || IsSymbol(r));
  }

  // ---- Repetition

  /** The primitive root of a repetition and how often it occurs; count 0 means
      the password is empty or primitive itself. */
  ghost predicate IsRepeatAnswer(rs: Word, unit: Word, count: nat) {
    if count == 0 then unit == [] && (rs == [] || Primitive(rs))
    else count >= 2 && Primitive(unit) && rs == Repeat(unit, count)
  }

  method DetectRepeat(rs: Word) returns (unit: Word, count: nat)
    ensures IsRepeatAnswer(rs, unit, count)
  {
    var n := |rs|;
    var p := 1;
    while p <= n / 2
      invariant 1 <= p && forall q :: 0 < q < p && q <= n / 2 ==> !Tiles(rs, q)
    {
      if n % p == 0 {
        var tiles := true;
        var i := p;
        while i < n && tiles
          invariant p <= i <= n
          invariant tiles ==> forall a, b :: p <= a < i && b == a - p ==> rs[a] == rs[b]
          invariant !tiles ==> !Tiles(rs, p)
        {
          if rs[i] != rs[i - p] {
            tiles := false;
          }
          i := i + 1;
        }
        if tiles {
          LeastTilePrimitive(rs, p);
          TilesRepeat(rs, p);
          TwiceFits(n, p);
          return rs[..p], n / p;
        }
      }
      p := p + 1;
    }
    if rs != [] {
      NoTilePrimitive(rs);
    }
    unit, count := [], 0;
  }

  lemma TwiceFits(n: nat, p: nat)
    requires 0 < p <= n / 2
    ensures n / p >= 2
  {
  }

  lemma NoEmptyUnit(rs: Word, unit: Word, count: nat)
    requires rs != [] && rs == Repeat(unit, count)
    ensures unit != [] && count > 0
  {
  }

  lemma NoTilePrimitive(rs: Word)
    requires rs != [] && forall q :: 0 < q <= |rs| / 2 ==> !Tiles(rs, q)
    ensures Primitive(rs)
  {
    forall v: Word, k: nat | Repeat(v, k) == rs ensures k == 1 {
      RepeatLength(v, k);
      if k >= 2 {
        MulMonotone(|v|, 2, k);
        NoEmptyUnit(rs, v, k);
        RepeatTiles(v, k);
      }
    }
  }

  /** On `w` repeated `k` times the search answers with the primitive root of
      `w`, found from `w` alone, and the matching count; it answers "no repeat"
      exactly when that count is one. */
  lemma RepeatFindsRoot(w: Word, k: nat, u: Word, j: nat, unit: Word, count: nat)
    requires k > 0 && Primitive(u) && j > 0 && w == Repeat(u, j) && IsRepeatAnswer(Repeat(w, k), unit, count)
    ensures if k * j == 1 then count == 0 else unit == u && count == k * j
  {
    RepeatRepeat(u, j, k);
    MulMonotone(k, 1, j);
    if count == 0 {
      assert k * j == 1 by { assert Repeat(u, k * j) == Repeat(w, k); }
    } else {
      RootUnique(u, k * j, unit, count);
    }
  }

  // ---- Sequences

  function Normalize(r: int): int {
    if IsUpper(r) then r - 'A' as int + 'a' as int else r
  }

  /** Letters `a` to `b` (exclusive) step by `d` each. */
  predicate Steps(rs: Word, a: nat, b: nat, d: int) {
    a < b <= |rs| && forall t, t' :: a <= t < b - 1 && t' == t + 1 ==> Normalize(rs[t']) - Normalize(rs[t]) == d
  }

  predicate IsRun(rs: Word, a: nat, b: nat) {
    Steps(rs, a, b, 1) || Steps(rs, a, b, -1)
  }

  lemma RunExtends(rs: Word, a: nat, i: nat, d: int)
    requires a < i < |rs|
    ensures Steps(rs, a, i + 1, d) <==> Steps(rs, a, i, d) && Normalize(rs[i]) - Normalize(rs[i - 1]) == d
  {
  }

  /** The same letters up to case. */
  predicate SameButCase(w: Word, v: Word) {
    |w| == |v| && forall i :: 0 <= i < |w| ==>
      w[i] == v[i] || (97 <= w[i] <= 122 && v[i] == w[i] - 32) || (97 <= v[i] <= 122 && w[i] == v[i] - 32)
  }

  lemma RunsIgnoreCase(w: Word, v: Word, a: nat, b: nat)
    requires SameButCase(w, v)
    ensures IsRun(w, a, b) <==> IsRun(v, a, b)
  {
    forall i | 0 <= i < |w| ensures Normalize(w[i]) == Normalize(v[i]) {
    }
  }

  lemma {:induction false} StepsFrom(rs: Word, a: nat, b: nat, d: int)
    requires a < b <= |rs|
    ensures Steps(rs, a, b, d) <==> forall t :: a <= t < b ==> Normalize(rs[t]) == Normalize(rs[a]) + d * (t - a)
  {
    if b - a > 1 {
      StepsFrom(rs, a, b - 1, d);
      RunExtends(rs, a, b - 1, d);
      var k := b - 2;
      assert d * (k + 1 - a) == d * (k - a) + d;
    }
  }

  /** Without capitals a run is a stretch of consecutive code points, up or down. */
  lemma RunsExactly(rs: Word, a: nat, b: nat)
    requires forall i :: 0 <= i < |rs| ==> !(65 <= rs[i] <= 90)
    ensures IsRun(rs, a, b) <==>
            && a < b <= |rs|
            && ((forall t :: a <= t < b ==> rs[t] == rs[a] + (t - a)) ||
                (forall t :: a <= t < b ==> rs[t] == rs[a] - (t - a)))
  {
    if a < b <= |rs| {
      StepsFrom(rs, a, b, 1);
      StepsFrom(rs, a, b, -1);
    }
  }

  /** The length of the longest ascending or descending run. */
  method LongestSequenceRun(rs: Word) returns (best: nat)
    ensures rs == [] ==> best == 0
    ensures rs != [] ==> exists a: nat, b: nat :: IsRun(rs, a, b) && b - a == best
    ensures forall a: nat, b: nat :: IsRun(rs, a, b) ==> b - a <= best
  {
    if rs == [] {
      return 0;
    }
    var cur, dir := 1, 0;
    best := 1;
    ghost var from: nat, to: nat := 0, 1;
    for i := 1 to |rs|
      invariant LongestHere(rs, i, cur, dir)
      invariant LongestSoFar(rs, i, best, from, to)
    {
      var d := Normalize(rs[i]) - Normalize(rs[i - 1]);
      ghost var before, was := cur, dir;
      if d == 1 || d == -1 {
        if cur > 1 && d != dir {
          cur := 2;
        } else {
          cur := cur + 1;
        }
        dir := d;
      } else {
        cur, dir := 1, 0;
      }
      LongestEndingAt(rs, i, i + 1, before, was, cur, dir);
      LongestKept(rs, i, best, from, to, cur, dir);
      if cur > best {
        best := cur;
        from, to := i + 1 - cur, i + 1;
      }
    }
  }

  /** `cur` and `dir` describe the longest run that ends at position `end`. */
  ghost predicate LongestHere(rs: Word, end: nat, cur: int, dir: int) {
    && 1 <= cur <= end <= |rs| && IsRun(rs, end - cur, end)
    && (if cur == 1 then dir == 0 else (dir == 1 || dir == -1) && Steps(rs, end - cur, end, dir))
    && (forall a: nat :: a < end - cur ==> !IsRun(rs, a, end))
  }

  /** No run within the first `end` letters is longer than `best`. */
  ghost predicate NoLonger(rs: Word, end: nat, best: int) {
    forall a: nat, b: nat :: b <= end && IsRun(rs, a, b) ==> b - a <= best
  }

  ghost predicate LongestSoFar(rs: Word, end: nat, best: int, from: nat, to: nat) {
    NoLonger(rs, end, best) && IsRun(rs, from, to) && to - from == best
  }

  /** A longer run that ends here takes the lead. */
  lemma LongestKept(rs: Word, i: nat, best: int, from: nat, to: nat, cur: int, dir: int)
    requires i < |rs| && LongestSoFar(rs, i, best, from, to) && LongestHere(rs, i + 1, cur, dir)
    ensures if cur > best then LongestSoFar(rs, i + 1, cur, i + 1 - cur, i + 1)
            else LongestSoFar(rs, i + 1, best, from, to)
  {
    LongestExtends(rs, i, i + 1, cur, best);
  }

  lemma LongestExtends(rs: Word, i: nat, end: nat, cur: int, best: int)
    requires end == i + 1 && NoLonger(rs, i, best) && 1 <= cur <= end
    requires forall a: nat :: a < end - cur ==> !IsRun(rs, a, end)
    ensures NoLonger(rs, end, if cur > best then cur else best)
  {
  }

  /** The update of `cur` and `dir` keeps them describing the longest run that
      ends at the current letter. */
  lemma LongestEndingAt(rs: Word, i: nat, end: nat, cur: int, dir: int, cur': int, dir': int)
    requires 0 < i < |rs| && end == i + 1 && LongestHere(rs, i, cur, dir)
    requires var d := Normalize(rs[i]) - Normalize(rs[i - 1]);
             if d == 1 || d == -1 then cur' == (if cur > 1 && d != dir then 2 else cur + 1) && dir' == d
             else cur' == 1 && dir' == 0
    ensures LongestHere(rs, end, cur', dir')
  {
    var d := Normalize(rs[i]) - Normalize(rs[i - 1]);
    if cur' > 1 {
      if cur > 1 && d == dir {
        RunExtends(rs, i - cur, i, d);
      } else {
        assert Steps(rs, i - 1, i, d);
        RunExtends(rs, i - 1, i, d);
      }
    }
    forall a: nat | a < end - cur' ensures !IsRun(rs, a, end) {
      RunExtends(rs, a, i, 1);
      RunExtends(rs, a, i, -1);
      if cur > 1 && i - cur <= a < i - 1 {
        RunExtends(rs, a, i - 1, 1);
        RunExtends(rs, a, i - 1, -1);
        RunExtends(rs, i - cur, i - 1, dir);
      } else if a < i - cur {
        assert !IsRun(rs, a, i);
      }
    }
  }

  // ---- The cheapest attack

  function Power(b: nat, e: nat): nat {
    if e == 0 then 1 else b * Power(b, e - 1)
  }

  const SEQUENCE_GUESSES := 64
  const MIN_SEQUENCE_RUN := 4

  function BruteForce(rs: Word): nat { Power(Pool(rs), |rs|) }
  function RepeatCost(unit: Word, count: nat): nat { Power(Pool(unit), |unit|) * count }
  function SequenceCost(rs: Word, run: nat): nat
    requires run <= |rs|
  {
    Power(Pool(rs), |rs| - run) * SEQUENCE_GUESSES
  }

  /** Every way to attack the password that the estimate considers, for any
      repeated unit and any long enough run, not only the ones it picks. */
  ghost predicate Attack(rs: Word, cost: nat) {
    || cost == Power(Pool(rs), |rs|)
    || (exists unit: Word, count: nat :: count >= 2 && rs == Repeat(unit, count) &&
          cost == Power(Pool(unit), |unit|) * count)
    || (exists a: nat, b: nat :: IsRun(rs, a, b) && b - a >= 4 && cost == Power(Pool(rs), |rs| - (b - a)) * 64)
  }

  /** The guess count of the cheapest attack; one for the empty password. */
  ghost predicate IsEstimate(rs: Word, g: nat) {
    if rs == [] then g == 1
    else Attack(rs, g) && forall cost :: Attack(rs, cost) ==> g <= cost
  }

  lemma Associate(a: nat, b: nat, c: nat)
    ensures a * (b * c) == a * b * c
  {
  }

  lemma {:induction false} PowerAdd(b: nat, e: nat, f: nat)
    ensures Power(b, e + f) == Power(b, e) * Power(b, f)
  {
    if e > 0 {
      PowerAdd(b, e - 1, f);
      Associate(b, Power(b, e - 1), Power(b, f));
    }
  }

  lemma {:induction false} PowerPositive(b: nat, e: nat)
    requires b > 0
    ensures Power(b, e) > 0 && (b > 1 ==> Power(b, e) > e)
  {
    if e > 0 {
      PowerPositive(b, e - 1);
      MulMonotone(Power(b, e - 1), 1, b);
      if b > 1 {
        MulMonotone(Power(b, e - 1), 2, b);
      }
    }
  }

  lemma {:induction false} PowerOfPower(b: nat, e: nat, k: nat)
    ensures Power(b, k * e) == Power(Power(b, e), k)
  {
    if k > 0 {
      PowerOfPower(b, e, k - 1);
      MulSum(k, e);
      PowerAdd(b, e, (k - 1) * e);
    }
  }

  lemma PowerMonotone(b: nat, e: nat, f: nat)
    requires b > 0 && e <= f
    ensures Power(b, e) <= Power(b, f)
  {
  }

  /** Guessing `j` copies of a unit costs no more than guessing them as one unit. */
  lemma SmallerUnitCheaper(u: Word, j: nat, c: nat)
    requires u != [] && j > 0
    ensures RepeatCost(u, c * j) <= RepeatCost(Repeat(u, j), c)
  {
    RepeatLength(u, j);
    PoolOfRepeat(u, j);
    PoolAtLeastTen(u);
    var x := Power(Pool(u), |u|);
    PowerOfPower(Pool(u), |u|, j);
    PowerPositive(Pool(u), |u|);
    PowerPositive(x, j - 1);
    PowerMonotone(Pool(u), 1, |u|);
    assert Power(Pool(u), 1) == Pool(u) * 1;
    CheaperFactor(x, Power(x, j - 1), j, c);
  }

  lemma CheaperFactor(x: nat, y: nat, j: nat, c: nat)
    requires j <= y
    ensures x * (c * j) <= x * y * c
  {
  }

  /** The primitive root is the cheapest unit of a repetition. */
  lemma RootCheapest(rs: Word, u: Word, k: nat, unit: Word, count: nat)
    requires Primitive(u) && k > 0 && rs == Repeat(u, k)
    requires unit != [] && count > 0 && rs == Repeat(unit, count)
    ensures RepeatCost(u, k) <= RepeatCost(unit, count)
  {
    var v, j := RootExists(unit);
    RepeatRepeat(v, j, count);
    MulMonotone(count, 1, j);
    RootUnique(u, k, v, count * j);
    SmallerUnitCheaper(v, j, count);
  }

  lemma LongerRunCheaper(rs: Word, run: nat, longer: nat)
    requires run <= longer <= |rs| && rs != []
    ensures SequenceCost(rs, longer) <= SequenceCost(rs, run)
  {
    PoolAtLeastTen(rs);
    PowerMonotone(Pool(rs), |rs| - longer, |rs| - run);
  }

  /** The estimate is the exact minimum over all considered attacks. */
  method PasswordGuesses(rs: Word) returns (g: nat)
    ensures IsEstimate(rs, g)
  {
    if |rs| == 0 {
      return 1;
    }
    var pool := CharPool(rs);
    g := Power(pool, |rs|);
    var unit, count := DetectRepeat(rs);
    if count >= 2 {
      var unitPool := CharPool(unit);
      var candidate := Power(unitPool, |unit|) * count;
      if candidate < g {
        g := candidate;
      }
    }
    var run := LongestSequenceRun(rs);
    ghost var a: nat, b: nat :| IsRun(rs, a, b) && b - a == run;
    if run >= MIN_SEQUENCE_RUN {
      var candidate := Power(pool, |rs| - run) * SEQUENCE_GUESSES;
      if candidate < g {
        g := candidate;
      }
    }
    EstimateIsMinimum(rs, g, unit, count, run);
  }

  lemma EstimateIsMinimum(rs: Word, g: nat, unit: Word, count: nat, run: nat)
    requires rs != [] && run <= |rs|
    requires IsRepeatAnswer(rs, unit, count)
    requires forall a: nat, b: nat :: IsRun(rs, a, b) ==> b - a <= run
    requires g <= BruteForce(rs) && (count >= 2 ==> g <= RepeatCost(unit, count))
    requires run >= MIN_SEQUENCE_RUN ==> g <= SequenceCost(rs, run)
    ensures forall cost :: Attack(rs, cost) ==> g <= cost
  {
    forall cost | Attack(rs, cost) ensures g <= cost {
      if v: Word, c: nat :| c >= 2 && rs == Repeat(v, c) && cost == RepeatCost(v, c) {
        NoEmptyUnit(rs, v, c);
        RootCheapest(rs, unit, count, v, c);
      }
      if a: nat, b: nat :| IsRun(rs, a, b) && b - a >= MIN_SEQUENCE_RUN && cost == SequenceCost(rs, b - a) {
        LongerRunCheaper(rs, b - a, run);
      }
    }
  }

  /** Repeating a password is worth at most a factor: guessing `w` and the number
      of copies suffices. */
  lemma RepetitionAddsLittle(w: Word, k: nat, g: nat)
    requires w != [] && k > 0 && IsEstimate(Repeat(w, k), g)
    ensures g <= Power(Pool(w), |w|) * k
  {
    RepeatTiles(w, k);
    if k >= 2 {
      assert Attack(Repeat(w, k), RepeatCost(w, k));
    } else {
      assert Repeat(w, 1) == w + [] == w;
      assert Attack(w, BruteForce(w));
    }
  }

  /** Scores 0 to 4 at 28, 36, 60 and 80 bits. */
  function Score(g: nat): nat {
    if g < Power(2, 28) then 0
    else if g < Power(2, 36) then 1
    else if g < Power(2, 60) then 2
    else if g < Power(2, 80) then 3
    else 4
  }

  method PasswordScore(rs: Word) returns (score: nat)
    ensures exists g :: IsEstimate(rs, g) && score == Score(g) && InBracket(g, score)
  {
    var g := PasswordGuesses(rs);
    score := Score(g);
    ScoreBrackets(g);
  }

  /** The brackets in numbers: 2^28, 2^36, 2^60 and 2^80 guesses. */
  predicate InBracket(g: nat, score: nat) {
    && (score == 0 <==> g < 268_435_456)
    && (score == 1 <==> 268_435_456 <= g < 68_719_476_736)
    && (score == 2 <==> 68_719_476_736 <= g < 1_152_921_504_606_846_976)
    && (score == 3 <==> 1_152_921_504_606_846_976 <= g < 1_208_925_819_614_629_174_706_176)
    && (score == 4 <==> g >= 1_208_925_819_614_629_174_706_176)
  }

  lemma PowersOfTwo()
    ensures Power(2, 28) == 268_435_456 && Power(2, 36) == 68_719_476_736
    ensures Power(2, 60) == 1_152_921_504_606_846_976 && Power(2, 80) == 1_208_925_819_614_629_174_706_176
  {
    assert Power(2, 8) == 256;
    assert Power(2, 10) == 1024;
    PowerAdd(2, 10, 10);
    PowerAdd(2, 20, 8);
    PowerAdd(2, 28, 8);
    PowerAdd(2, 20, 20);
    PowerAdd(2, 40, 20);
    PowerAdd(2, 40, 40);
  }

  lemma ScoreBrackets(g: nat)
    ensures InBracket(g, Score(g))
  {
    PowersOfTwo();
  }

  /** However often it is repeated, a password scores no higher than guessing one
      copy and the count would. */
  lemma RepetitionScore(w: Word, k: nat, g: nat)
    requires w != [] && k > 0 && IsEstimate(Repeat(w, k), g)
    ensures Score(g) <= Score(Power(Pool(w), |w|) * k)
  {
    RepetitionAddsLittle(w, k, g);
    PowerMonotone(2, 28, 36);
    PowerMonotone(2, 36, 60);
    PowerMonotone(2, 60, 80);
  }
}
