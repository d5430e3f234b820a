/** Byte-wise string order and the sorting that the program uses to make map
    iteration deterministic. */
module StringOrder {

  /** Strict lexicographic order, the order of Go's `<` on strings. */
  predicate Less(a: string, b: string) {
    b != [] && (a == [] || a[0] < b[0] || (a[0] == b[0] && Less(a[1..], b[1..])))
  }

  lemma {:induction false} LessTotal(a: string, b: string)
    ensures Less(a, b) || a == b || Less(b, a)
    ensures !(Less(a, b) && Less(b, a)) && (a == b ==> !Less(a, b))
  {
    if a != [] && b != [] {
      LessTotal(a[1..], b[1..]);
      if a[0] == b[0] && a[1..] == b[1..] {
        assert a == [a[0]] + a[1..] == b;
      }
    }
  }

  predicate SortedBy<T>(key: T -> string, s: seq<T>) {
    forall i, j :: 0 <= i < j < |s| ==> !Less(key(s[j]), key(s[i]))
  }

  predicate StrictlySortedBy<T>(key: T -> string, s: seq<T>) {
    forall i, j :: 0 <= i < j < |s| ==> Less(key(s[i]), key(s[j]))
  }

  predicate StrictlySorted(s: seq<string>) {
    forall i, j :: 0 <= i < j < |s| ==> Less(s[i], s[j])
  }

  predicate DistinctKeys<T>(key: T -> string, s: seq<T>) {
    forall i, j :: 0 <= i < j < |s| ==> key(s[i]) != key(s[j])
  }

  function Elements<T>(s: seq<T>): set<T> {
    set x | x in s
  }

  function Insert<T>(key: T -> string, x: T, s: seq<T>): (r: seq<T>) {
    if s == [] || !Less(key(s[0]), key(x)) then [x] + s
    else [s[0]] + Insert(key, x, s[1..])
  }

  lemma {:induction false} InsertKeeps<T>(key: T -> string, x: T, s: seq<T>)
    ensures multiset(Insert(key, x, s)) == multiset(s) + multiset{x}
  {
    if s != [] && Less(key(s[0]), key(x)) {
      InsertKeeps(key, x, s[1..]);
      assert s == [s[0]] + s[1..];
    }
  }

  lemma NotLessTransitive(a: string, b: string, c: string)
    requires !Less(b, a) && !Less(c, b)
    ensures !Less(c, a)
  {
  }

  lemma {:induction false} InsertSorted<T>(key: T -> string, x: T, s: seq<T>)
    requires SortedBy(key, s)
    ensures SortedBy(key, Insert(key, x, s))
  {
    var r := Insert(key, x, s);
    if s == [] {
    } else if !Less(key(s[0]), key(x)) {
      forall i | 0 <= i < |s| ensures !Less(key(s[i]), key(x)) {
        if i > 0 {
          NotLessTransitive(key(x), key(s[0]), key(s[i]));
        }
      }
    } else {
      var rest := Insert(key, x, s[1..]);
      InsertSorted(key, x, s[1..]);
      InsertKeeps(key, x, s[1..]);
      LessTotal(key(x), key(s[0]));
      forall i | 0 <= i < |rest| ensures !Less(key(rest[i]), key(s[0])) {
        assert rest[i] in multiset(rest);
        assert rest[i] == x || rest[i] in s[1..];
      }
    }
  }

  /** The sorting of `sort.Strings` and `sort.Slice`. */
  function Sort<T>(key: T -> string, s: seq<T>): (r: seq<T>)
    ensures SortedBy(key, r) && multiset(r) == multiset(s)
  {
    if s == [] then []
    else
      var rest := Sort(key, s[1..]);
      InsertKeeps(key, s[0], rest);
      InsertSorted(key, s[0], rest);
      assert s == [s[0]] + s[1..];
      Insert(key, s[0], rest)
  }

  lemma SameElements<T>(r: seq<T>, s: seq<T>)
    requires multiset(r) == multiset(s)
    ensures Elements(r) == Elements(s) && |r| == |s|
  {
    assert forall x :: x in r <==> x in multiset(r);
    assert forall x :: x in s <==> x in multiset(s);
    assert |multiset(r)| == |r| && |multiset(s)| == |s|;
  }

  lemma {:induction false} OccursOnce<T>(key: T -> string, s: seq<T>, x: T)
    requires DistinctKeys(key, s)
    ensures multiset(s)[x] <= 1
  {
    if s != [] {
      OccursOnce(key, s[1..], x);
      assert s == [s[0]] + s[1..];
      if x == s[0] {
        assert x !in s[1..];
      }
    }
  }

  lemma OccursTwice<T>(r: seq<T>, i: int, j: int)
    requires 0 <= i < j < |r| && r[i] == r[j]
    ensures multiset(r)[r[i]] >= 2
  {
    assert r == r[..j] + r[j..];
    assert r[i] in r[..j] && r[i] in r[j..];
  }

  /** A sorted rearrangement of values with distinct keys is strictly sorted. */
  lemma SortedDistinct<T>(key: T -> string, r: seq<T>, s: seq<T>)
    requires multiset(r) == multiset(s) && SortedBy(key, r) && DistinctKeys(key, s)
    ensures StrictlySortedBy(key, r)
  {
    forall i, j | 0 <= i < j < |r| ensures Less(key(r[i]), key(r[j])) {
      LessTotal(key(r[i]), key(r[j]));
      assert r[i] in multiset(s) && r[j] in multiset(s);
      if r[i] == r[j] {
        OccursTwice(r, i, j);
        OccursOnce(key, s, r[i]);
      }
    }
  }

  lemma HeadIsElement<T>(s: seq<T>)
    requires s != []
    ensures s[0] in Elements(s)
  {
  }

  /** Strictly sorted lists with the same elements are the same list, so a
      sorted result never depends on the iteration order it was built from. */
  lemma {:induction false} SortedUnique<T>(key: T -> string, r: seq<T>, s: seq<T>)
    requires StrictlySortedBy(key, r) && StrictlySortedBy(key, s)
    requires Elements(r) == Elements(s)
    ensures r == s
  {
    assert forall x :: x in Elements(s) <==> x in s;
    assert forall x :: x in Elements(r) <==> x in r;
    if r == [] {
      if s != [] { HeadIsElement(s); }
    } else {
      assert r[0] in Elements(r) && r[0] in s;
      assert s[0] in Elements(s) && s[0] in r;
      assert r[0] == s[0] by {
        var a :| 0 <= a < |s| && s[a] == r[0];
        var b :| 0 <= b < |r| && r[b] == s[0];
        LessTotal(key(r[0]), key(s[0]));
      }
      forall x ensures x in Elements(r[1..]) <==> x in Elements(s[1..]) {
        LessTotal(key(r[0]), key(r[0]));
        if x in r[1..] { assert x in Elements(s) && x != s[0]; }
        if x in s[1..] { assert x in Elements(r) && x != r[0]; }
      }
      assert Elements(r[1..]) == Elements(s[1..]);
      SortedUnique(key, r[1..], s[1..]);
      assert r == [r[0]] + r[1..] == s;
    }
  }

  lemma StrictlySortedNames(s: seq<string>)
    ensures StrictlySortedBy((x: string) => x, s) <==> StrictlySorted(s)
  {
  }

  /** Walking a strictly sorted list meets a new element at each position. */
  lemma WalkStep(s: seq<string>, i: nat)
    requires StrictlySorted(s) && i < |s|
    ensures Elements(s[..i + 1]) == Elements(s[..i]) + {s[i]}
    ensures s[i] !in Elements(s[..i]) && s[i] in Elements(s)
    ensures Elements(s[..|s|]) == Elements(s)
  {
    LessTotal(s[i], s[i]);
    assert s[..i + 1] == s[..i] + [s[i]];
    assert s[..|s|] == s;
  }

  /** Collects the keys of a map in whatever order iteration yields them, then
      sorts: the recurring `for n := range m { append } sort.Strings` idiom. */
  method SortedKeys(keys: set<string>) returns (r: seq<string>)
    ensures StrictlySorted(r) && Elements(r) == keys
  {
    var names: seq<string> := [];
    var left := keys;
    while left != {}
      invariant Elements(names) + left == keys && Elements(names) !! left
      invariant DistinctKeys((x: string) => x, names)
    {
      var n :| n in left;
      assert n !in Elements(names);
      names := names + [n];
      left := left - {n};
    }
    r := Sort((x: string) => x, names);
    SameElements(r, names);
    SortedDistinct((x: string) => x, r, names);
    StrictlySortedNames(r);
  }
}
