/** Merging of custom LDAP attributes (internal/identity/resolver.go). */
module CustomAttributes {
  import opened Flattening
  import opened Identity
  import opened StringOrder

  /** Which declared field contributed a value. */
  datatype Source = Own | Nested(group: string) | Direct(group: string)

  datatype Contributor = Contributor(source: Source, attrs: Attributes)

  datatype Contribution = Contribution(source: Source, values: seq<string>)

  /** One conflict message: the user, the key and every contribution, in the
      order the message names their sources. */
  datatype Conflict = Conflict(user: string, key: string, contributions: seq<Contribution>)

  type Table = map<string, seq<Contribution>>

  function NestedContributors(groups: Groups, names: seq<string>): seq<Contributor> {
    if names == [] then []
    else
      var n := names[|names| - 1];
      NestedContributors(groups, names[..|names| - 1]) +
      if n in groups then [Contributor(Nested(n), groups[n].userAttributes)] else []
  }

  function DirectContributors(groups: Groups, names: seq<string>): seq<Contributor> {
    if names == [] then []
    else
      var n := names[|names| - 1];
      DirectContributors(groups, names[..|names| - 1]) +
      if n in groups then [Contributor(Direct(n), groups[n].directUserAttributes)] else []
  }

  /** The user's own field, then every group the user is in, then every listed group. */
  function Contributors(user: User, groups: Groups, flat: seq<string>): seq<Contributor> {
    [Contributor(Own, user.attributes)] + NestedContributors(groups, flat) +
    DirectContributors(groups, Sort((x: string) => x, user.memberOf))
  }

  /** The contributor's share of one key. */
  function Share(c: Contributor, k: string): seq<Contribution> {
    if k in c.attrs then [Contribution(c.source, c.attrs[k])] else []
  }

  /** The contributions to one key, in contributor order. */
  function Contributions(cs: seq<Contributor>, k: string): seq<Contribution> {
    if cs == [] then [] else Contributions(cs[..|cs| - 1], k) + Share(cs[|cs| - 1], k)
  }

  /** The source exists and offers these values for the key. */
  predicate Offers(user: User, groups: Groups, k: string, x: Contribution) {
    match x.source
    case Own => k in user.attributes && x.values == user.attributes[k]
    case Nested(n) => n in groups && k in groups[n].userAttributes && x.values == groups[n].userAttributes[k]
    case Direct(n) =>
      n in groups && k in groups[n].directUserAttributes && x.values == groups[n].directUserAttributes[k]
  }

  /** How often `x` occurs. */
  function Count<T(==)>(s: seq<T>, x: T): nat {
    if s == [] then 0 else Count(s[..|s| - 1], x) + if s[|s| - 1] == x then 1 else 0
  }

  /** How often the source is asked: once for the user's own field, once for each
      time a list names the group. */
  function Asked(user: User, flat: seq<string>, source: Source): nat {
    match source
    case Own => 1
    case Nested(n) => Count(flat, n)
    case Direct(n) => Count(user.memberOf, n)
  }

  /** Who contributes what to a key, said without the lists it is gathered from. */
  predicate Contributes(user: User, groups: Groups, flat: seq<string>, k: string, x: Contribution) {
    Offers(user, groups, k, x) && Asked(user, flat, x.source) > 0
  }

  lemma CountMore<T>(s: seq<T>, y: T, x: T)
    ensures Count(s + [y], x) == Count(s, x) + if y == x then 1 else 0
  {
    assert (s + [y])[..|s|] == s;
  }

  lemma {:induction false} CountIsMultiset<T>(s: seq<T>, x: T)
    ensures Count(s, x) == multiset(s)[x]
  {
    if s != [] {
      CountIsMultiset(s[..|s| - 1], x);
      assert s == s[..|s| - 1] + [s[|s| - 1]];
    }
  }

  lemma CountMember<T>(s: seq<T>, x: T)
    ensures Count(s, x) > 0 <==> x in s
  {
    CountIsMultiset(s, x);
    assert x in s <==> x in multiset(s);
  }

  /** How often the contribution comes in for the key. */
  function Times(cs: seq<Contributor>, k: string, x: Contribution): nat {
    Count(Contributions(cs, k), x)
  }

  predicate Gives(c: Contributor, k: string, x: Contribution) {
    c.source == x.source && k in c.attrs && c.attrs[k] == x.values
  }

  /** One more contributor adds its share. */
  lemma TimesMore(cs: seq<Contributor>, c: Contributor, k: string, x: Contribution)
    ensures Times(cs + [c], k, x) == Times(cs, k, x) + if Gives(c, k, x) then 1 else 0
  {
    assert (cs + [c])[..|cs|] == cs;
    if k in c.attrs {
      CountMore(Contributions(cs, k), Contribution(c.source, c.attrs[k]), x);
    } else {
      assert Contributions(cs, k) + [] == Contributions(cs, k);
    }
  }

  lemma {:induction false} TimesJoin(a: seq<Contributor>, b: seq<Contributor>, k: string, x: Contribution)
    ensures Times(a + b, k, x) == Times(a, k, x) + Times(b, k, x)
  {
    if b == [] {
      assert a + b == a;
    } else {
      var init, c := b[..|b| - 1], b[|b| - 1];
      var longer := a + init;
      assert a + b == longer + [c] && b == init + [c];
      TimesJoin(a, init, k, x);
      TimesMore(longer, c, k, x);
      TimesMore(init, c, k, x);
    }
  }

  lemma NestedMore(user: User, groups: Groups, init: seq<string>, n: string, k: string, x: Contribution)
    ensures Times(NestedContributors(groups, init + [n]), k, x) == Times(NestedContributors(groups, init), k, x) +
            if x.source == Nested(n) && Offers(user, groups, k, x) then 1 else 0
  {
    assert (init + [n])[..|init|] == init;
    var before := NestedContributors(groups, init);
    if n in groups {
      TimesMore(before, Contributor(Nested(n), groups[n].userAttributes), k, x);
    } else {
      assert before + [] == before;
    }
  }

  lemma {:induction false} NestedTimes(user: User, groups: Groups, names: seq<string>, k: string, x: Contribution)
    ensures Times(NestedContributors(groups, names), k, x) ==
            if x.source.Nested? && Offers(user, groups, k, x) then Count(names, x.source.group) else 0
  {
    if names != [] {
      var init, n := names[..|names| - 1], names[|names| - 1];
      NestedTimes(user, groups, init, k, x);
      NestedMore(user, groups, init, n, k, x);
      assert names == init + [n];
    }
  }

  lemma DirectMore(user: User, groups: Groups, init: seq<string>, n: string, k: string, x: Contribution)
    ensures Times(DirectContributors(groups, init + [n]), k, x) == Times(DirectContributors(groups, init), k, x) +
            if x.source == Direct(n) && Offers(user, groups, k, x) then 1 else 0
  {
    assert (init + [n])[..|init|] == init;
    var before := DirectContributors(groups, init);
    if n in groups {
      TimesMore(before, Contributor(Direct(n), groups[n].directUserAttributes), k, x);
    } else {
      assert before + [] == before;
    }
  }

  lemma {:induction false} DirectTimes(user: User, groups: Groups, names: seq<string>, k: string, x: Contribution)
    ensures Times(DirectContributors(groups, names), k, x) ==
            if x.source.Direct? && Offers(user, groups, k, x) then Count(names, x.source.group) else 0
  {
    if names != [] {
      var init, n := names[..|names| - 1], names[|names| - 1];
      DirectTimes(user, groups, init, k, x);
      DirectMore(user, groups, init, n, k, x);
      assert names == init + [n];
    }
  }

  /** A key is contributed by exactly the user's own field, the groups the user is
      in at any depth, and the groups the user lists, each as often as it is listed. */
  lemma ContributedExactly(user: User, groups: Groups, flat: seq<string>, k: string, x: Contribution)
    ensures Times(Contributors(user, groups, flat), k, x) ==
            if Offers(user, groups, k, x) then Asked(user, flat, x.source) else 0
  {
    var own, nested := Contributor(Own, user.attributes), NestedContributors(groups, flat);
    var sorted := Sort((n: string) => n, user.memberOf);
    TimesJoin([own] + nested, DirectContributors(groups, sorted), k, x);
    TimesJoin([own], nested, k, x);
    TimesMore([], own, k, x);
    assert [] + [own] == [own];
    NestedTimes(user, groups, flat, k, x);
    DirectTimes(user, groups, sorted, k, x);
    if x.source.Direct? {
      CountIsMultiset(sorted, x.source.group);
      CountIsMultiset(user.memberOf, x.source.group);
    }
  }

  /** The key has one source, and that source is asked once. */
  ghost predicate Sole(user: User, groups: Groups, flat: seq<string>, k: string, x: Contribution) {
    && Contributes(user, groups, flat, k, x)
    && (forall y :: Contributes(user, groups, flat, k, y) ==> y.source == x.source)
    && (x.source.Direct? ==> Count(user.memberOf, x.source.group) == 1)
  }

  lemma {:induction false} AllSame<T>(s: seq<T>, x: T)
    requires forall i :: 0 <= i < |s| ==> s[i] == x
    ensures Count(s, x) == |s|
  {
    if s != [] {
      AllSame(s[..|s| - 1], x);
    }
  }

  lemma ContributedMember(user: User, groups: Groups, flat: seq<string>, k: string, x: Contribution)
    ensures x in Contributions(Contributors(user, groups, flat), k) <==> Contributes(user, groups, flat, k, x)
  {
    ContributedExactly(user, groups, flat, k, x);
    CountMember(Contributions(Contributors(user, groups, flat), k), x);
  }

  lemma ListedOnce(flat: seq<string>, n: string)
    requires StrictlySorted(flat)
    ensures Count(flat, n) <= 1
  {
    forall i, j | 0 <= i < j < |flat| ensures flat[i] != flat[j] {
      LessTotal(flat[i], flat[j]);
    }
    OccursOnce((x: string) => x, flat, n);
    CountIsMultiset(flat, n);
  }

  /** One contribution comes in exactly when one source has the key and, if it is a
      listed group, the user lists it once. */
  lemma SoleExactly(user: User, groups: Groups, flat: seq<string>, k: string)
    requires StrictlySorted(flat)
    ensures var s := Contributions(Contributors(user, groups, flat), k);
            && (|s| == 1 ==> Sole(user, groups, flat, k, s[0]))
            && (forall x :: Sole(user, groups, flat, k, x) ==> s == [x])
  {
    var s := Contributions(Contributors(user, groups, flat), k);
    forall x ensures x in s <==> Contributes(user, groups, flat, k, x) {
      ContributedMember(user, groups, flat, k, x);
    }
    if |s| == 1 {
      ContributedExactly(user, groups, flat, k, s[0]);
      OnlyIsSole(user, groups, flat, k, s);
    }
    forall x | Sole(user, groups, flat, k, x) ensures s == [x] {
      SoleIsOnly(user, groups, flat, k, x, s);
    }
  }

  lemma OnlyIsSole(user: User, groups: Groups, flat: seq<string>, k: string, s: seq<Contribution>)
    requires |s| == 1 && Count(s, s[0]) == if Offers(user, groups, k, s[0]) then Asked(user, flat, s[0].source) else 0
    requires forall y :: y in s <==> Contributes(user, groups, flat, k, y)
    ensures Sole(user, groups, flat, k, s[0])
  {
    AllSame(s, s[0]);
    forall y | Contributes(user, groups, flat, k, y) ensures y == s[0] {
      assert y in s;
    }
  }

  lemma SoleIsOnly(user: User, groups: Groups, flat: seq<string>, k: string, x: Contribution, s: seq<Contribution>)
    requires StrictlySorted(flat) && Sole(user, groups, flat, k, x)
    requires s == Contributions(Contributors(user, groups, flat), k)
    requires forall y :: y in s <==> Contributes(user, groups, flat, k, y)
    ensures s == [x]
  {
    ContributedExactly(user, groups, flat, k, x);
    if x.source.Nested? {
      ListedOnce(flat, x.source.group);
    }
    forall i | 0 <= i < |s| ensures s[i] == x {
      assert s[i] in s;
    }
    AllSame(s, x);
    assert |s| == 1 && s[0] in s;
  }

  function RowOf(t: Table, k: string): seq<Contribution> {
    if k in t then t[k] else []
  }

  /** The table holds exactly the non-empty contribution lists of the contributors. */
  ghost predicate Tabulates(t: Table, cs: seq<Contributor>) {
    forall k :: RowOf(t, k) == Contributions(cs, k) && (k in t ==> t[k] != [])
  }

  method AddContribution(t: Table, c: Contributor) returns (r: Table)
    requires forall k :: k in t ==> t[k] != []
    ensures forall k :: RowOf(r, k) == RowOf(t, k) + Share(c, k)
    ensures forall k :: k in r ==> r[k] != []
  {
    r := t;
    var keys := SortedKeys(c.attrs.Keys);
    ghost var done: set<string> := {};
    for i := 0 to |keys|
      invariant done == Elements(keys[..i])
      invariant forall k :: RowOf(r, k) == if k in done then RowOf(t, k) + Share(c, k) else RowOf(t, k)
      invariant forall k :: k in r ==> r[k] != []
    {
      var k := keys[i];
      WalkStep(keys, i);
      r := r[k := RowOf(r, k) + [Contribution(c.source, c.attrs[k])]];
      done := done + {k};
    }
    assert keys[..|keys|] == keys;
  }

  lemma TabulatesMore(t: Table, cs: seq<Contributor>, c: Contributor, r: Table)
    requires Tabulates(t, cs) && forall k :: k in r ==> r[k] != []
    requires forall k :: RowOf(r, k) == RowOf(t, k) + Share(c, k)
    ensures Tabulates(r, cs + [c])
  {
  }

  /** Files every contributor's values under their keys. */
  method Collect(cs: seq<Contributor>) returns (t: Table)
    ensures Tabulates(t, cs)
  {
    t := map[];
    for i := 0 to |cs|
      invariant Tabulates(t, cs[..i])
    {
      var r := AddContribution(t, cs[i]);
      TabulatesMore(t, cs[..i], cs[i], r);
      assert cs[..i + 1] == cs[..i] + [cs[i]];
      t := r;
    }
    assert cs[..|cs|] == cs;
  }

  /** The outcome for one user: a key is resolved exactly when one source
      contributes it, with that source's values, and reported exactly once, with
      every source, exactly when several do. */
  ghost predicate Settled(u: string, cs: seq<Contributor>, value: Attributes, mine: seq<Conflict>) {
    && (forall k :: k in value <==> |Contributions(cs, k)| == 1)
    && (forall k :: k in value ==> value[k] == Contributions(cs, k)[0].values)
    && (forall k :: |Contributions(cs, k)| > 1 <==> Conflict(u, k, Contributions(cs, k)) in mine)
    && (forall c :: c in mine ==> c == Conflict(u, c.key, Contributions(cs, c.key)))
    && (forall i, j :: 0 <= i < j < |mine| ==> mine[i].key != mine[j].key)
  }

  /** Settles the keys of one user's table in key order. */
  method Settle(u: string, t: Table) returns (value: Attributes, mine: seq<Conflict>)
    requires forall k :: k in t ==> t[k] != []
    ensures SettledOn(u, t, t.Keys, value, mine)
  {
    value, mine := map[], [];
    var keys := SortedKeys(t.Keys);
    ghost var done: set<string> := {};
    for i := 0 to |keys|
      invariant done == Elements(keys[..i])
      invariant SettledOn(u, t, done, value, mine)
    {
      var k := keys[i];
      WalkStep(keys, i);
      if |t[k]| > 1 {
        ConflictSettles(u, t, done, value, mine, k);
        mine := mine + [Conflict(u, k, t[k])];
      } else {
        ValueSettles(u, t, done, value, mine, k);
        value := value[k := t[k][0].values];
      }
      done := done + {k};
    }
    assert keys[..|keys|] == keys;
  }

  lemma ConflictSettles(u: string, t: Table, done: set<string>, value: Attributes, mine: seq<Conflict>, k: string)
    requires SettledOn(u, t, done, value, mine) && k !in done && k in t && |t[k]| > 1
    ensures SettledOn(u, t, done + {k}, value, mine + [Conflict(u, k, t[k])])
  {
  }

  lemma ValueSettles(u: string, t: Table, done: set<string>, value: Attributes, mine: seq<Conflict>, k: string)
    requires SettledOn(u, t, done, value, mine) && k !in done && k in t && |t[k]| == 1
    ensures SettledOn(u, t, done + {k}, value[k := t[k][0].values], mine)
  {
  }

  lemma SettledByTable(u: string, t: Table, cs: seq<Contributor>, value: Attributes, mine: seq<Conflict>)
    requires Tabulates(t, cs) && SettledOn(u, t, t.Keys, value, mine)
    ensures Settled(u, cs, value, mine)
  {
  }

  /** The settlement of the keys handled so far. */
  predicate SettledOn(u: string, t: Table, done: set<string>, value: Attributes, mine: seq<Conflict>) {
    && value.Keys == (set k | k in done && |RowOf(t, k)| == 1)
    && (forall k :: k in value ==> value[k] == RowOf(t, k)[0].values)
    && (forall k :: k in done && |RowOf(t, k)| > 1 ==> Conflict(u, k, RowOf(t, k)) in mine)
    && (forall c :: c in mine ==> c.key in done && |RowOf(t, c.key)| > 1)
    && (forall c :: c in mine ==> c == Conflict(u, c.key, RowOf(t, c.key)))
    && (forall i, j :: 0 <= i < j < |mine| ==> mine[i].key != mine[j].key)
  }

  function AttributesOf(perUser: map<string, Attributes>, u: string): Attributes {
    if u in perUser then perUser[u] else map[]
  }

  /** The conflict messages about one user, in order. */
  function ConflictsOf(conflicts: seq<Conflict>, u: string): seq<Conflict> {
    if conflicts == [] then [] else
      var rest := ConflictsOf(conflicts[1..], u);
      if conflicts[0].user == u then [conflicts[0]] + rest else rest
  }

  lemma {:induction false} ConflictsOfJoin(a: seq<Conflict>, b: seq<Conflict>, u: string)
    ensures ConflictsOf(a + b, u) == ConflictsOf(a, u) + ConflictsOf(b, u)
  {
    if a == [] {
      assert a + b == b;
    } else {
      ConflictsOfJoin(a[1..], b, u);
      assert (a + b)[1..] == a[1..] + b && (a + b)[0] == a[0];
      var rest, more := ConflictsOf(a[1..], u), ConflictsOf(b, u);
      assert [a[0]] + (rest + more) == [a[0]] + rest + more;
    }
  }

  lemma {:induction false} ConflictsOfOwn(a: seq<Conflict>, u: string, v: string)
    requires forall c :: c in a ==> c.user == u
    ensures ConflictsOf(a, v) == if v == u then a else []
  {
    if a != [] {
      ConflictsOfOwn(a[1..], u, v);
    }
  }

  /** Every user is settled; nobody else has attributes or messages. */
  ghost predicate IsMerge(users: Users, groups: Groups, flat: map<string, seq<string>>,
                          perUser: map<string, Attributes>, conflicts: seq<Conflict>) {
    MergedOn(users, users.Keys, groups, flat, perUser, conflicts)
  }

  ghost predicate MergedOn(users: Users, done: set<string>, groups: Groups, flat: map<string, seq<string>>,
                           perUser: map<string, Attributes>, conflicts: seq<Conflict>) {
    && (forall u :: u in perUser ==> perUser[u] != map[])
    && (forall u :: MergedFor(u, users, done, groups, flat, AttributesOf(perUser, u), ConflictsOf(conflicts, u)))
  }

  ghost predicate MergedFor(u: string, users: Users, done: set<string>, groups: Groups, flat: map<string, seq<string>>,
                            value: Attributes, mine: seq<Conflict>) {
    if u in users && u in done then Settled(u, Contributors(users[u], groups, Row(flat, u)), value, mine)
    else value == map[] && mine == []
  }

  /** The groups' own attributes, present exactly when there are any. */
  ghost predicate IsGroupView(groups: Groups, perGroup: map<string, Attributes>) {
    perGroup == map n | n in groups && groups[n].attributes != map[] :: groups[n].attributes
  }

  method GroupView(groups: Groups) returns (perGroup: map<string, Attributes>)
    ensures IsGroupView(groups, perGroup)
  {
    perGroup := map[];
    var left := groups.Keys;
    while left != {}
      invariant left <= groups.Keys
      invariant perGroup == map n | n in groups && n !in left && groups[n].attributes != map[] :: groups[n].attributes
    {
      var n :| n in left;
      if groups[n].attributes != map[] {
        perGroup := perGroup[n := groups[n].attributes];
      }
      left := left - {n};
    }
  }

  method ResolveCustomAttributes(users: Users, groups: Groups, flat: map<string, seq<string>>)
    returns (perUser: map<string, Attributes>, perGroup: map<string, Attributes>, conflicts: seq<Conflict>)
    ensures IsMerge(users, groups, flat, perUser, conflicts)
    ensures IsGroupView(groups, perGroup)
  {
    perGroup := GroupView(groups);
    perUser, conflicts := map[], [];
    var names := SortedKeys(users.Keys);
    for i := 0 to |names|
      invariant MergedOn(users, Elements(names[..i]), groups, flat, perUser, conflicts)
    {
      WalkStep(names, i);
      perUser, conflicts := MergeUser(users, Elements(names[..i]), groups, flat, perUser, conflicts, names[i]);
    }
    assert names[..|names|] == names;
  }

  /** Adds one user's outcome to those of the users done before. */
  method MergeUser(users: Users, ghost done: set<string>, groups: Groups, flat: map<string, seq<string>>,
                   perUser: map<string, Attributes>, conflicts: seq<Conflict>, u: string)
    returns (perUser': map<string, Attributes>, conflicts': seq<Conflict>)
    requires u in users && u !in done && MergedOn(users, done, groups, flat, perUser, conflicts)
    ensures MergedOn(users, done + {u}, groups, flat, perUser', conflicts')
  {
    var cs := Contributors(users[u], groups, Row(flat, u));
    var t := Collect(cs);
    var value, mine := Settle(u, t);
    SettledByTable(u, t, cs, value, mine);
    perUser' := if value != map[] then perUser[u := value] else perUser;
    conflicts' := conflicts + mine;
    MergeStep(users, done, groups, flat, perUser, conflicts, u, value, mine, perUser');
  }

  lemma MergeStep(users: Users, done: set<string>, groups: Groups, flat: map<string, seq<string>>,
                  perUser: map<string, Attributes>, conflicts: seq<Conflict>,
                  u: string, value: Attributes, mine: seq<Conflict>, next: map<string, Attributes>)
    requires MergedOn(users, done, groups, flat, perUser, conflicts) && u in users && u !in done
    requires Settled(u, Contributors(users[u], groups, Row(flat, u)), value, mine)
    requires next == if value != map[] then perUser[u := value] else perUser
    ensures MergedOn(users, done + {u}, groups, flat, next, conflicts + mine)
  {
    assert MergedFor(u, users, done, groups, flat, AttributesOf(perUser, u), ConflictsOf(conflicts, u));
    forall v ensures MergedFor(v, users, done + {u}, groups, flat,
                               AttributesOf(next, v), ConflictsOf(conflicts + mine, v)) {
      if v == u {
        OwnAfter(perUser, conflicts, u, value, mine, next);
      } else {
        OtherAfter(users, done, groups, flat, perUser, conflicts, u, mine, next, v);
      }
    }
  }

  lemma OwnAfter(perUser: map<string, Attributes>, conflicts: seq<Conflict>, u: string, value: Attributes,
                 mine: seq<Conflict>, next: map<string, Attributes>)
    requires (forall c :: c in mine ==> c.user == u) && ConflictsOf(conflicts, u) == []
    requires AttributesOf(perUser, u) == map[] && next == if value != map[] then perUser[u := value] else perUser
    ensures AttributesOf(next, u) == value && ConflictsOf(conflicts + mine, u) == mine
  {
    ConflictsAfter(conflicts, mine, u, u);
  }

  lemma OtherAfter(users: Users, done: set<string>, groups: Groups, flat: map<string, seq<string>>,
                   perUser: map<string, Attributes>, conflicts: seq<Conflict>,
                   u: string, mine: seq<Conflict>, next: map<string, Attributes>, v: string)
    requires (forall c :: c in mine ==> c.user == u) && ConflictsOf(conflicts, u) == []
    requires v != u && AttributesOf(next, v) == AttributesOf(perUser, v)
    requires MergedFor(v, users, done, groups, flat, AttributesOf(perUser, v), ConflictsOf(conflicts, v))
    ensures MergedFor(v, users, done + {u}, groups, flat, AttributesOf(next, v), ConflictsOf(conflicts + mine, v))
  {
    ConflictsAfter(conflicts, mine, u, v);
    MergedForMore(v, users, done, u, groups, flat, AttributesOf(perUser, v), ConflictsOf(conflicts, v));
  }

  lemma {:induction false} ConflictsAfter(conflicts: seq<Conflict>, mine: seq<Conflict>, u: string, v: string)
    requires (forall c :: c in mine ==> c.user == u) && ConflictsOf(conflicts, u) == []
    ensures ConflictsOf(conflicts + mine, v) == if v == u then mine else ConflictsOf(conflicts, v)
  {
    var before := ConflictsOf(conflicts, v);
    ConflictsOfJoin(conflicts, mine, v);
    ConflictsOfOwn(mine, u, v);
    assert before + [] == before && [] + mine == mine;
  }

  lemma MergedForMore(v: string, users: Users, done: set<string>, u: string, groups: Groups,
                      flat: map<string, seq<string>>, value: Attributes, mine: seq<Conflict>)
    requires v != u && MergedFor(v, users, done, groups, flat, value, mine)
    ensures MergedFor(v, users, done + {u}, groups, flat, value, mine)
  {
  }

  // ---- Which keys survive

  /** After a load, for every user and key: the key is resolved exactly when one
      source has it and that source is asked once, with that source's values; it is
      dropped with a conflict exactly when it is contributed otherwise. */
  lemma ResolvedExactly(users: Users, groups: Groups, flat: map<string, seq<string>>, perUser: map<string, Attributes>,
                        conflicts: seq<Conflict>, u: string, k: string)
    requires IsMerge(users, groups, flat, perUser, conflicts) && IsFlattening(users, groups, flat) && u in users
    ensures var value, list := AttributesOf(perUser, u), flat[u];
            && (k in value <==> exists x :: Sole(users[u], groups, list, k, x))
            && (forall x :: Sole(users[u], groups, list, k, x) ==> k in value && value[k] == x.values)
            && ((exists c :: c in ConflictsOf(conflicts, u) && c.key == k) <==>
                (exists x :: Contributes(users[u], groups, list, k, x)) && k !in value)
  {
    var user, list, value, mine := users[u], flat[u], AttributesOf(perUser, u), ConflictsOf(conflicts, u);
    assert MergedFor(u, users, users.Keys, groups, flat, value, mine);
    SoleExactly(user, groups, list, k);
    ConflictExactly(u, user, groups, list, value, mine, k);
  }

  lemma ConflictExactly(u: string, user: User, groups: Groups, list: seq<string>, value: Attributes,
                        mine: seq<Conflict>, k: string)
    requires Settled(u, Contributors(user, groups, list), value, mine)
    ensures (exists c :: c in mine && c.key == k) <==>
            (exists x :: Contributes(user, groups, list, k, x)) && k !in value
  {
    var s := Contributions(Contributors(user, groups, list), k);
    forall x ensures x in s <==> Contributes(user, groups, list, k, x) {
      ContributedMember(user, groups, list, k, x);
    }
    if s != [] {
      assert s[0] in s;
    }
    if |s| > 1 {
      assert Conflict(u, k, s) in mine;
    }
    if c :| c in mine && c.key == k {
      assert c == Conflict(u, k, s);
    }
  }

  /** One source is enough for a conflict: a user who lists a group more than once
      loses the group's direct attributes. */
  lemma ListedTwiceDropped(users: Users, groups: Groups, flat: map<string, seq<string>>,
                           perUser: map<string, Attributes>, conflicts: seq<Conflict>, u: string, n: string, k: string)
    requires IsMerge(users, groups, flat, perUser, conflicts) && IsFlattening(users, groups, flat)
    requires u in users && Count(users[u].memberOf, n) > 1 && n in groups && k in groups[n].directUserAttributes
    ensures k !in AttributesOf(perUser, u) && exists c :: c in ConflictsOf(conflicts, u) && c.key == k
  {
    ResolvedExactly(users, groups, flat, perUser, conflicts, u, k);
    var direct := Contribution(Direct(n), groups[n].directUserAttributes[k]);
    assert Contributes(users[u], groups, flat[u], k, direct);
    assert forall x :: !Sole(users[u], groups, flat[u], k, x);
  }

  /** And nothing else need contribute them: with no other attributes around, the
      twice listed group is the only source. */
  lemma ListedTwiceAlone(user: User, group: Group, k: string)
    requires user.memberOf == ["g", "g"] && user.attributes == map[] && group.userAttributes == map[]
    requires k in group.directUserAttributes
    ensures Count(user.memberOf, "g") == 2
    ensures forall x :: Contributes(user, map["g" := group], ["g"], k, x) <==>
                        x == Contribution(Direct("g"), group.directUserAttributes[k])
  {
    assert ["g", "g"][..1] == ["g"] && Count(["g", "g"], "g") == Count(["g"], "g") + 1;
  }
}
