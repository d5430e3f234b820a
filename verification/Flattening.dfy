/** Transitive group membership of every user and its inverse
    (internal/identity/resolver.go). */
module Flattening {
  import opened Identity
  import opened Reachability
  import opened StringOrder

  datatype ReferenceCheck = Resolved | Dangling(from: string, missing: string)

  /** A dangling report names a declared user or group that really lists the
      missing group. */
  predicate IsDanglingReport(users: Users, groups: Groups, from: string, missing: string) {
    missing !in groups &&
    ((exists n | n in groups :: from == "group:" + n && missing in groups[n].memberOf) ||
     (exists u | u in users :: from == "user:" + u && missing in users[u].memberOf))
  }

  /** First listed name, if any, that no group has. */
  method FirstMissing(names: seq<string>, groups: Groups) returns (i: nat)
    ensures i <= |names| && forall k :: 0 <= k < i ==> names[k] in groups
    ensures i < |names| ==> names[i] !in groups
  {
    i := 0;
    while i < |names| && names[i] in groups
      invariant i <= |names| && forall k :: 0 <= k < i ==> names[k] in groups
    {
      i := i + 1;
    }
  }

  method CheckReferences(users: Users, groups: Groups) returns (r: ReferenceCheck)
    ensures r.Resolved? <==> ReferencesResolved(users, groups)
    ensures r.Dangling? ==> IsDanglingReport(users, groups, r.from, r.missing)
  {
    var left := groups.Keys;
    while left != {}
      invariant left <= groups.Keys
      invariant forall n, p :: n in groups && n !in left && p in groups[n].memberOf ==> p in groups
    {
      var n :| n in left;
      var parents := groups[n].memberOf;
      var i := FirstMissing(parents, groups);
      if i < |parents| {
        return Dangling("group:" + n, parents[i]);
      }
      left := left - {n};
    }
    left := users.Keys;
    while left != {}
      invariant left <= users.Keys
      invariant forall u, p :: u in users && u !in left && p in users[u].memberOf ==> p in groups
    {
      var u :| u in left;
      var parents := users[u].memberOf;
      var i := FirstMissing(parents, groups);
      if i < |parents| {
        return Dangling("user:" + u, parents[i]);
      }
      left := left - {u};
    }
    r := Resolved;
  }

  /** The memo table shared by the recursive closure `closureOf`. */
  class Closures {
    const g: Graph
    var table: map<string, set<string>>

    constructor (g: Graph)
      requires Acyclic(g)
      ensures this.g == g && Valid()
    {
      this.g := g;
      table := map[];
    }

    ghost predicate Valid()
      reads this
    {
      Acyclic(g) && forall n :: n in table ==> table[n] == ReachSet(g, n)
    }

    /** Whatever the table already holds, the answer is the reach set. */
    method ClosureOf(name: string) returns (r: set<string>)
      requires Valid()
      modifies this`table
      ensures Valid() && r == ReachSet(g, name)
      decreases ReachSet(g, name)
    {
      if name in table {
        return table[name];
      }
      r := {name};
      var parents := Succ(g, name);
      for i := 0 to |parents|
        invariant Valid()
        invariant r == {name} + JoinedReach(g, parents[..i])
      {
        ReachSetShrinks(g, name, parents[i]);
        var c := ClosureOf(parents[i]);
        JoinedReachExtends(g, parents, i);
        r := r + c;
      }
      assert parents[..|parents|] == parents;
      JoinedReachUnfold(g, name);
      table := table[name := r];
    }
  }

  /** Union of the reach sets of the listed names. */
  ghost function JoinedReach(g: Graph, names: seq<string>): set<string> {
    if names == [] then {}
    else JoinedReach(g, names[..|names| - 1]) + ReachSet(g, names[|names| - 1])
  }

  lemma JoinedReachExtends(g: Graph, names: seq<string>, i: nat)
    requires i < |names|
    ensures JoinedReach(g, names[..i + 1]) == JoinedReach(g, names[..i]) + ReachSet(g, names[i])
  {
    assert names[..i + 1][..i] == names[..i];
  }

  lemma {:induction false} JoinedReachExact(g: Graph, names: seq<string>, b: string)
    ensures b in JoinedReach(g, names) <==> exists d :: d in names && Reaches(g, d, b)
  {
    if names != [] {
      var last := names[|names| - 1];
      JoinedReachExact(g, names[..|names| - 1], b);
      ReachSetExact(g, last, b);
      assert names == names[..|names| - 1] + [last];
    }
  }

  lemma JoinedReachUnfold(g: Graph, a: string)
    ensures {a} + JoinedReach(g, Succ(g, a)) == ReachSet(g, a)
  {
    forall b ensures b in {a} + JoinedReach(g, Succ(g, a)) <==> b in ReachSet(g, a) {
      JoinedReachExact(g, Succ(g, a), b);
      ReachSetUnfold(g, a, b);
      ReachSetExact(g, a, b);
    }
  }

  /** Per user, the strictly sorted list of exactly the groups the user is in. */
  ghost predicate IsFlattening(users: Users, groups: Groups, flat: map<string, seq<string>>) {
    && flat.Keys == users.Keys
    && forall u :: u in flat ==>
         StrictlySorted(flat[u]) && forall g :: g in flat[u] <==> InGroup(users, groups, u, g)
  }

  method ResolveFlattenedMemberOf(users: Users, groups: Groups) returns (flat: map<string, seq<string>>)
    requires Acyclic(Membership(groups))
    ensures IsFlattening(users, groups, flat)
  {
    var g := Membership(groups);
    var closures := new Closures(g);
    var names := SortedKeys(groups.Keys);
    for i := 0 to |names|
      invariant closures.Valid() && closures.g == g
    {
      var _ := closures.ClosureOf(names[i]);
    }
    flat := map[];
    var left := users.Keys;
    while left != {}
      invariant closures.Valid() && closures.g == g
      invariant left <= users.Keys && flat.Keys == users.Keys - left
      invariant forall u :: u in flat ==>
        StrictlySorted(flat[u]) && Elements(flat[u]) == JoinedReach(g, users[u].memberOf)
    {
      var u :| u in left;
      var direct := users[u].memberOf;
      var reached: set<string> := {};
      for i := 0 to |direct|
        invariant closures.Valid() && closures.g == g
        invariant reached == JoinedReach(g, direct[..i])
      {
        var c := closures.ClosureOf(direct[i]);
        JoinedReachExtends(g, direct, i);
        reached := reached + c;
      }
      assert direct[..|direct|] == direct;
      var list := SortedKeys(reached);
      flat := flat[u := list];
      left := left - {u};
    }
    forall u, k | u in flat ensures k in flat[u] <==> InGroup(users, groups, u, k) {
      assert k in flat[u] <==> k in Elements(flat[u]);
      JoinedReachExact(g, users[u].memberOf, k);
    }
  }

  /** The exact inverse: a group has a list exactly when some user is in it, and
      the list is strictly sorted. */
  ghost predicate IsInverse(flat: map<string, seq<string>>, members: map<string, seq<string>>) {
    InverseOn(flat, flat.Keys, members)
  }

  /** The inverse restricted to the users handled so far. */
  ghost predicate InverseOn(flat: map<string, seq<string>>, done: set<string>, members: map<string, seq<string>>) {
    && (forall g :: g in members ==> StrictlySorted(members[g]) && members[g] != [])
    && (forall g, u :: u in Row(members, g) <==> u in done && g in Row(flat, u))
  }

  function Row(m: map<string, seq<string>>, k: string): seq<string> {
    if k in m then m[k] else []
  }

  predicate AppendedToAll(m: map<string, seq<string>>, u: string, groups: seq<string>, r: map<string, seq<string>>) {
    && r.Keys == m.Keys + Elements(groups)
    && forall g :: g in r ==> r[g] == if g in groups then Row(m, g) + [u] else Row(m, g)
  }

  lemma InverseStep(flat: map<string, seq<string>>, done: set<string>, u: string,
                    m: map<string, seq<string>>, r: map<string, seq<string>>)
    requires InverseOn(flat, done, m) && AppendedToAll(m, u, Row(flat, u), r)
    requires forall x :: x in done ==> Less(x, u)
    ensures InverseOn(flat, done + {u}, r)
  {
    forall g | g in r ensures StrictlySorted(r[g]) && r[g] != [] {
      assert g in m || g in Elements(Row(flat, u));
      assert forall x :: x in Row(m, g) ==> Less(x, u);
    }
    forall g, x ensures x in Row(r, g) <==> x in done + {u} && g in Row(flat, x) {
      assert x in Row(m, g) <==> x in done && g in Row(flat, x);
      assert g in Row(flat, u) <==> g in Elements(Row(flat, u));
    }
  }

  method ResolveFlattenedMembers(flat: map<string, seq<string>>) returns (members: map<string, seq<string>>)
    requires forall u :: u in flat ==> StrictlySorted(flat[u])
    ensures IsInverse(flat, members)
  {
    members := map[];
    var names := SortedKeys(flat.Keys);
    for i := 0 to |names|
      invariant InverseOn(flat, Elements(names[..i]), members)
    {
      var u := names[i];
      assert u in Elements(names);
      var longer := AppendToAll(members, u, flat[u]);
      InverseStep(flat, Elements(names[..i]), u, members, longer);
      members := longer;
      assert Elements(names[..i + 1]) == Elements(names[..i]) + {u};
    }
    assert names[..|names|] == names;
  }

  /** Appends one user to the list of each of the user's groups. */
  method AppendToAll(m: map<string, seq<string>>, u: string, groups: seq<string>)
    returns (r: map<string, seq<string>>)
    requires StrictlySorted(groups)
    ensures AppendedToAll(m, u, groups, r)
  {
    r := m;
    ghost var done: set<string> := {};
    for i := 0 to |groups|
      invariant done == Elements(groups[..i])
      invariant r.Keys == m.Keys + done
      invariant forall g :: g in r ==> r[g] == if g in done then Row(m, g) + [u] else Row(m, g)
    {
      var g := groups[i];
      WalkStep(groups, i);
      r := r[g := Row(r, g) + [u]];
      done := done + {g};
    }
    assert groups[..|groups|] == groups;
    assert forall g :: g in groups <==> g in done;
  }
}
