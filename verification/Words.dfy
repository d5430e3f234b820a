/** Repetition and primitive roots of words, the combinatorics behind the
    repeated-unit check of the password estimate (internal/auth/strength.go). */
module Words {

  type Word = seq<int>

  function Repeat(u: Word, k: nat): Word {
    if k == 0 then [] else u + Repeat(u, k - 1)
  }

  /** Not a repetition of any other word. */
  ghost predicate Primitive(u: Word) {
    u != [] && forall v: Word, k: nat :: Repeat(v, k) == u ==> k == 1
  }

  /** `s` is a whole number of copies of its first `p` letters. */
  predicate Tiles(s: Word, p: nat) {
    0 < p <= |s| && |s| % p == 0 && forall i, j :: p <= i < |s| && j == i - p ==> s[i] == s[j]
  }

  lemma MulSum(k: nat, n: nat)
    requires k > 0
    ensures k * n == n + (k - 1) * n
  {
  }

  lemma {:induction false} RepeatLength(u: Word, k: nat)
    ensures |Repeat(u, k)| == k * |u|
  {
    if k > 0 {
      RepeatLength(u, k - 1);
      MulSum(k, |u|);
    }
  }

  lemma {:induction false} RepeatTiles(u: Word, k: nat)
    requires u != [] && k > 0
    ensures Tiles(Repeat(u, k), |u|) && Repeat(u, k)[..|u|] == u
  {
    var s := Repeat(u, k);
    RepeatLength(u, k);
    MultipleMod(k, |u|);
    if k > 1 {
      var rest := Repeat(u, k - 1);
      RepeatTiles(u, k - 1);
      assert s == u + rest;
      forall i, j | |u| <= i < |s| && j == i - |u| ensures s[i] == s[j] {
        if j < |u| {
          assert s[i] == rest[j] == rest[..|u|][j];
        } else {
          assert s[i] == rest[j] && s[j] == rest[j - |u|];
        }
      }
    } else {
      assert s == u + [];
    }
  }

  lemma MulMonotone(n: nat, a: int, b: int)
    requires a <= b
    ensures a * n <= b * n
  {
  }

  /** Quotient and remainder are unique. */
  lemma DivMod(x: nat, q: nat, r: nat, n: nat)
    requires 0 <= r < n && x == q * n + r
    ensures x / n == q && x % n == r
  {
    var a := x / n - q;
    assert a * n == (x / n) * n - q * n;
    if a >= 1 {
      MulMonotone(n, 1, a);
    } else if a <= -1 {
      MulMonotone(n, a, -1);
    }
  }

  lemma MultipleMod(k: nat, n: nat)
    requires n > 0
    ensures (k * n) % n == 0 && (k * n) / n == k
  {
    DivMod(k * n, k, 0, n);
  }

  /** Without its first tile a word is tiled one time fewer. */
  lemma TilesTail(s: Word, p: nat)
    requires Tiles(s, p) && |s| != p
    ensures Tiles(s[p..], p) && s[p..][..p] == s[..p]
    ensures |s| / p >= 2 && |s[p..]| / p == |s| / p - 1
  {
    TilesCount(|s|, p);
    var rest := s[p..];
    forall i, j | p <= i < |rest| && j == i - p ensures rest[i] == rest[j] {
      assert rest[i] == s[p + i] && rest[j] == s[i];
    }
    forall i | 0 <= i < p ensures rest[i] == s[i] {
      assert rest[i] == s[p + i];
    }
  }

  lemma TilesCount(n: nat, p: nat)
    requires 0 < p < n && n % p == 0
    ensures n / p >= 2 && n - p >= p && (n - p) % p == 0 && (n - p) / p == n / p - 1
  {
    var k := n / p;
    assert n == k * p;
    if k < 2 {
      MulMonotone(p, k, 1);
    }
    MulMonotone(p, 2, k);
    MulSum(k, p);
    MultipleMod(k - 1, p);
  }

  lemma {:induction false} TilesRepeat(s: Word, p: nat)
    requires Tiles(s, p)
    ensures s == Repeat(s[..p], |s| / p) && |s| / p >= 1
    decreases |s|
  {
    if |s| == p {
      DivMod(|s|, 1, 0, p);
      assert s[..p] == s && Repeat(s, 1) == s + [];
    } else {
      TilesTail(s, p);
      TilesRepeat(s[p..], p);
      assert s == s[..p] + s[p..];
    }
  }

  lemma {:induction false} RepeatJoin(u: Word, j: nat, k: nat)
    ensures Repeat(u, j) + Repeat(u, k) == Repeat(u, j + k)
  {
    if j > 0 {
      RepeatJoin(u, j - 1, k);
      assert Repeat(u, j) + Repeat(u, k) == u + (Repeat(u, j - 1) + Repeat(u, k));
    }
  }

  lemma {:induction false} RepeatRepeat(u: Word, j: nat, k: nat)
    ensures Repeat(Repeat(u, j), k) == Repeat(u, k * j)
  {
    if k > 0 {
      RepeatRepeat(u, j, k - 1);
      MulSum(k, j);
      RepeatJoin(u, j, (k - 1) * j);
    }
  }

  // ---- Cyclic periods

  /** Rotating by `d` leaves the word unchanged. */
  predicate Rotates(s: Word, d: nat) {
    s != [] && forall i, j :: 0 <= i < |s| && j == (i + d) % |s| ==> s[i] == s[j]
  }

  lemma ModShift(i: nat, a: nat, b: nat, n: nat)
    requires n > 0
    ensures ((i + a) % n + b) % n == (i + a + b) % n
  {
    var q := (i + a) / n;
    var r := (i + a) % n;
    assert i + a + b == q * n + (r + b);
    ModOffset(q, r + b, n);
  }

  lemma ModOffset(q: nat, x: nat, n: nat)
    requires n > 0
    ensures (q * n + x) % n == x % n
  {
    assert q * n + x == (q + x / n) * n + x % n;
    DivMod(q * n + x, q + x / n, x % n, n);
  }

  lemma RotatesAt(s: Word, d: nat, i: nat, k: nat)
    requires Rotates(s, d) && i < |s| && k == (i + d) % |s|
    ensures k < |s| && s[i] == s[k]
  {
  }

  lemma RotationsSubtract(s: Word, a: nat, b: nat)
    requires Rotates(s, a) && Rotates(s, b) && a <= b
    ensures Rotates(s, b - a)
  {
    forall i, j | 0 <= i < |s| && j == (i + (b - a)) % |s| ensures s[i] == s[j] {
      ModShift(i, b - a, a, |s|);
      assert i + (b - a) + a == i + b;
      var k := (i + b) % |s|;
      RotatesAt(s, b, i, k);
      RotatesAt(s, a, j, k);
    }
  }

  /** One rotation step, without division. */
  lemma RotateStep(i: nat, p: nat, n: nat)
    requires i < n && p <= n
    ensures (i + p) % n == if i + p < n then i + p else i + p - n
  {
  }

  lemma TilesRotates(s: Word, p: nat)
    requires Tiles(s, p)
    ensures Rotates(s, p)
  {
    var n, c := |s|, |s| / p;
    assert n == c * p;
    MulSum(c, p);
    forall i, j | 0 <= i < n && j == (i + p) % n ensures s[i] == s[j] {
      RotateStep(i, p, n);
      if i + p >= n {
        TileColumn(s, p, j, c - 1);
      }
    }
  }

  lemma {:induction false} TileColumn(s: Word, p: nat, j: nat, c: nat)
    requires Tiles(s, p) && j + c * p < |s|
    ensures s[j] == s[j + c * p]
  {
    if c > 0 {
      MulSum(c, p);
      TileColumn(s, p, j, c - 1);
      assert s[j + c * p] == s[j + (c - 1) * p];
    }
  }

  /** The least positive rotation. */
  ghost predicate LeastRotation(s: Word, d: nat) {
    0 < d && Rotates(s, d) && forall e: nat :: 0 < e < d ==> !Rotates(s, e)
  }

  lemma WholeRotation(s: Word)
    requires s != []
    ensures Rotates(s, |s|)
  {
    forall i, j | 0 <= i < |s| && j == (i + |s|) % |s| ensures s[i] == s[j] {
      RotateStep(i, |s|, |s|);
    }
  }

  lemma LeastRotationExists(s: Word) returns (d: nat)
    requires s != []
    ensures LeastRotation(s, d)
  {
    WholeRotation(s);
    d := 1;
    while !Rotates(s, d)
      invariant 0 < d <= |s| && forall e: nat :: 0 < e < d ==> !Rotates(s, e)
      decreases |s| - d
    {
      d := d + 1;
    }
  }

  /** The Euclidean step of the periodicity argument: the least rotation divides
      every rotation. */
  lemma {:induction false} LeastRotationDivides(s: Word, d: nat, q: nat)
    requires LeastRotation(s, d) && Rotates(s, q)
    ensures q % d == 0
    decreases q
  {
    if q >= d {
      RotationsSubtract(s, d, q);
      LeastRotationDivides(s, d, q - d);
      ModOffset(1, q - d, d);
    }
  }

  lemma LeastRotationTiles(s: Word, d: nat)
    requires LeastRotation(s, d)
    ensures Tiles(s, d)
  {
    WholeRotation(s);
    LeastRotationDivides(s, d, |s|);
    assert d <= |s| by { assert !(0 < |s| < d); }
    forall i, j | d <= i < |s| && j == i - d ensures s[i] == s[j] {
      RotateStep(j, d, |s|);
    }
  }

  lemma DividesTile(s: Word, d: nat, p: nat)
    requires Tiles(s, d) && Tiles(s, p) && p % d == 0
    ensures s[..p] == Repeat(s[..d], p / d)
  {
    TilesPrefix(s, d, p);
    TilesRepeat(s[..p], d);
  }

  lemma TilesPrefix(s: Word, d: nat, p: nat)
    requires Tiles(s, d) && 0 < p <= |s| && p % d == 0
    ensures Tiles(s[..p], d) && s[..p][..d] == s[..d]
  {
  }

  /** A primitive word that tiles `s` is as long as the least rotation of `s`. */
  lemma PrimitiveTileIsLeast(s: Word, u: Word, k: nat, d: nat)
    requires LeastRotation(s, d) && Primitive(u) && k > 0 && s == Repeat(u, k)
    ensures |u| == d && u == s[..d]
  {
    RepeatTiles(u, k);
    TilesRotates(s, |u|);
    LeastRotationDivides(s, d, |u|);
    LeastRotationTiles(s, d);
    DividesTile(s, d, |u|);
    assert |u| / d == 1;
    assert Repeat(s[..d], 1) == s[..d] + [];
  }

  /** The primitive root of a word is unique, and so is its exponent. */
  lemma RootUnique(u: Word, i: nat, v: Word, j: nat)
    requires Primitive(u) && Primitive(v) && i > 0 && j > 0 && Repeat(u, i) == Repeat(v, j)
    ensures u == v && i == j
  {
    var s := Repeat(u, i);
    RepeatTiles(u, i);
    var d := LeastRotationExists(s);
    PrimitiveTileIsLeast(s, u, i, d);
    PrimitiveTileIsLeast(s, v, j, d);
    RepeatLength(u, i);
    RepeatLength(v, j);
    MultipleMod(i, d);
    MultipleMod(j, d);
  }

  /** If nothing shorter tiles `s`, then `s[..p]` for the least tile is primitive. */
  lemma LeastTilePrimitive(s: Word, p: nat)
    requires Tiles(s, p) && forall q :: 0 < q < p ==> !Tiles(s, q)
    ensures Primitive(s[..p])
  {
    var u, c := s[..p], |s| / p;
    TilesRepeat(s, p);
    forall v: Word, k: nat | Repeat(v, k) == u ensures k == 1 {
      RepeatLength(v, k);
      if k != 1 {
        assert k > 0 && v != [];
        assert |v| < p by { MulSum(k, |v|); assert (k - 1) * |v| >= 1; }
        RepeatRepeat(v, k, c);
        assert c * k > 0;
        RepeatTiles(v, c * k);
      }
    }
  }

  /** Every word has a primitive root. */
  lemma RootExists(s: Word) returns (u: Word, k: nat)
    requires s != []
    ensures Primitive(u) && k > 0 && s == Repeat(u, k)
  {
    var p := 1;
    while !Tiles(s, p)
      invariant 0 < p <= |s| && forall q :: 0 < q < p ==> !Tiles(s, q)
      decreases |s| - p
    {
      p := p + 1;
    }
    LeastTilePrimitive(s, p);
    TilesRepeat(s, p);
    u, k := s[..p], |s| / p;
  }
}
