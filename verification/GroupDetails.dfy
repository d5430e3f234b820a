/** Breadth-first membership chains of the admin group graph
    (internal/admin/groupdetails.go). */
module GroupDetails {
  import opened Flattening
  import opened Identity
  import opened Options
  import opened Reachability
  import opened StringOrder

  datatype PathEntry = PathEntry(name: string, path: seq<string>)

  datatype GroupDetail = GroupDetail(
    requireMFA: bool,
    users: seq<PathEntry>,
    subgroups: seq<PathEntry>,
    memberOf: seq<PathEntry>)

  type Paths = map<string, seq<string>>

  predicate PathFromAny(g: Graph, sources: set<string>, p: seq<string>, b: string) {
    IsPath(g, p) && p[0] in sources && p[|p| - 1] == b
  }

  /** A path from one of the sources to `b`, no longer than any other such path. */
  ghost predicate Shortest(g: Graph, sources: set<string>, p: seq<string>, b: string) {
    PathFromAny(g, sources, p, b) && forall q :: PathFromAny(g, sources, q, b) ==> |p| <= |q|
  }

  /** Every recorded path is real, and every edge out of a processed name leads
      to a name recorded with at most one more step. */
  ghost predicate Searched(g: Graph, sources: set<string>, paths: Paths, processed: set<string>) {
    && (forall v :: v in paths ==> PathFromAny(g, sources, paths[v], v))
    && (forall s :: s in sources ==> s in paths && |paths[s]| == 1)
    && processed <= paths.Keys
    && (forall u, v :: u in processed && v in Succ(g, u) ==> v in paths && |paths[v]| <= |paths[u]| + 1)
  }

  /** The queue holds the recorded names that are not processed yet, nearest
      first, and nothing recorded is more than one step beyond `h`. */
  ghost predicate Frontier(paths: Paths, processed: set<string>, queue: seq<string>, h: nat) {
    && paths.Keys == processed + Elements(queue)
    && (forall v :: v in paths ==> |paths[v]| <= h + 1)
    && (forall i :: 0 <= i < |queue| ==> queue[i] in paths && h <= |paths[queue[i]]|)
    && (forall i, j :: 0 <= i < j < |queue| ==> |paths[queue[i]]| <= |paths[queue[j]]|)
  }

  /** If everything recorded nearer than the end of `p` is processed, then the
      end of `p` is recorded with a path no longer than `p`. */
  lemma {:induction false} NoShorterPath(g: Graph, sources: set<string>, paths: Paths, processed: set<string>,
                                         p: seq<string>)
    requires Searched(g, sources, paths, processed)
    requires IsPath(g, p) && p[0] in sources
    requires forall v :: v in paths && |paths[v]| < |p| ==> v in processed
    ensures p[|p| - 1] in paths && |paths[p[|p| - 1]]| <= |p|
    decreases |p|
  {
    if |p| > 1 {
      var shorter := p[..|p| - 1];
      NoShorterPath(g, sources, paths, processed, shorter);
      assert p[|p| - 1] in Succ(g, shorter[|shorter| - 1]);
    }
  }

  /** Visits the unrecorded successors of `cur` in list order, stopping early at `stop`. */
  method Expand(g: Graph, cur: string, paths: Paths, stop: Option<string>)
    returns (longer: Paths, news: seq<string>, found: bool)
    requires cur in paths
    ensures Expanded(g, cur, paths, longer, news)
    ensures !found ==> (forall v :: v in Succ(g, cur) ==> v in longer) && (stop.Some? ==> stop.value !in news)
    ensures found ==> stop.Some? && stop.value in news
  {
    longer, news := paths, [];
    var edges := Succ(g, cur);
    for i := 0 to |edges|
      invariant Expanded(g, cur, paths, longer, news)
      invariant forall k :: 0 <= k < i ==> edges[k] in longer
      invariant stop.Some? ==> stop.value !in news
    {
      var next := edges[i];
      if next !in longer {
        longer, news := longer[next := longer[cur] + [next]], news + [next];
        if stop == Some(next) {
          return longer, news, true;
        }
      }
    }
    found := false;
  }

  predicate Expanded(g: Graph, cur: string, paths: Paths, longer: Paths, news: seq<string>)
    requires cur in paths
  {
    && longer.Keys == paths.Keys + Elements(news)
    && (forall v :: v in paths ==> longer[v] == paths[v])
    && (forall v :: v in news ==> v !in paths && v in Succ(g, cur) && longer[v] == paths[cur] + [v])
    && (forall i, j :: 0 <= i < j < |news| ==> news[i] != news[j])
  }

  lemma ExpandedPaths(g: Graph, sources: set<string>, cur: string, paths: Paths, longer: Paths, news: seq<string>)
    requires cur in paths && Expanded(g, cur, paths, longer, news)
    requires forall v :: v in paths ==> PathFromAny(g, sources, paths[v], v)
    ensures forall v :: v in longer ==> PathFromAny(g, sources, longer[v], v)
  {
  }

  lemma ExpandedSearched(g: Graph, sources: set<string>, cur: string, paths: Paths, processed: set<string>,
                         longer: Paths, news: seq<string>, h: nat)
    requires cur in paths && Searched(g, sources, paths, processed)
    requires |paths[cur]| == h && forall v :: v in paths ==> |paths[v]| <= h + 1
    requires Expanded(g, cur, paths, longer, news) && forall v :: v in Succ(g, cur) ==> v in longer
    ensures Searched(g, sources, longer, processed + {cur})
  {
    ExpandedPaths(g, sources, cur, paths, longer, news);
    forall v | v in longer ensures |longer[v]| <= h + 1 {
      assert v in paths || v in Elements(news);
    }
  }

  lemma ExpandedFrontier(g: Graph, paths: Paths, processed: set<string>, queue: seq<string>,
                         longer: Paths, news: seq<string>, rest: seq<string>)
    requires queue != [] && queue[0] in paths && Frontier(paths, processed, queue, |paths[queue[0]]|)
    requires Expanded(g, queue[0], paths, longer, news) && rest == queue[1..] + news
    ensures forall v :: v in rest ==> v in longer
    ensures rest != [] ==> Frontier(longer, processed + {queue[0]}, rest, |longer[rest[0]]|)
    ensures rest == [] ==> longer.Keys == processed + {queue[0]}
  {
    var h := |paths[queue[0]]|;
    RestKeys(g, paths, processed, queue, longer, news, rest);
    forall i | 0 <= i < |rest| ensures rest[i] in longer && h <= |longer[rest[i]]| <= h + 1 {
      RestLengths(g, paths, processed, queue, longer, news, rest, i);
    }
    forall i, j | 0 <= i < j < |rest| ensures |longer[rest[i]]| <= |longer[rest[j]]| {
      RestLengths(g, paths, processed, queue, longer, news, rest, i);
      RestLengths(g, paths, processed, queue, longer, news, rest, j);
    }
    forall v | v in longer ensures |longer[v]| <= h + 1 {
      assert v in paths || v in Elements(news);
    }
  }

  lemma RestKeys(g: Graph, paths: Paths, processed: set<string>, queue: seq<string>,
                 longer: Paths, news: seq<string>, rest: seq<string>)
    requires queue != [] && queue[0] in paths && Frontier(paths, processed, queue, |paths[queue[0]]|)
    requires Expanded(g, queue[0], paths, longer, news) && rest == queue[1..] + news
    ensures longer.Keys == processed + {queue[0]} + Elements(rest)
  {
  }

  lemma RestLengths(g: Graph, paths: Paths, processed: set<string>, queue: seq<string>,
                    longer: Paths, news: seq<string>, rest: seq<string>, i: nat)
    requires queue != [] && queue[0] in paths && Frontier(paths, processed, queue, |paths[queue[0]]|)
    requires Expanded(g, queue[0], paths, longer, news) && rest == queue[1..] + news && i < |rest|
    ensures rest[i] in longer && |paths[queue[0]]| <= |longer[rest[i]]| <= |paths[queue[0]]| + 1
    ensures i < |queue| - 1 ==> rest[i] == queue[i + 1] && longer[rest[i]] == paths[queue[i + 1]]
    ensures i >= |queue| - 1 ==> |longer[rest[i]]| == |paths[queue[0]]| + 1
  {
  }

  /** The invariant of both search loops. */
  ghost predicate Searching(g: Graph, sources: set<string>, paths: Paths, processed: set<string>, queue: seq<string>) {
    && Searched(g, sources, paths, processed)
    && (forall v :: v in queue ==> v in paths)
    && (if queue == [] then paths.Keys == processed else Frontier(paths, processed, queue, |paths[queue[0]]|))
    && paths.Keys <= Nodes(g) + sources
  }

  /** Processing the head of the queue keeps the invariant and makes progress. */
  lemma SearchStep(g: Graph, sources: set<string>, paths: Paths, processed: set<string>, queue: seq<string>,
                   longer: Paths, news: seq<string>, rest: seq<string>)
    requires queue != [] && Searching(g, sources, paths, processed, queue)
    requires Expanded(g, queue[0], paths, longer, news) && forall v :: v in Succ(g, queue[0]) ==> v in longer
    requires rest == queue[1..] + news
    ensures Searching(g, sources, longer, processed + {queue[0]}, rest)
  {
    ExpandedSearched(g, sources, queue[0], paths, processed, longer, news, |paths[queue[0]]|);
    ExpandedFrontier(g, paths, processed, queue, longer, news, rest);
    ExpandProgress(g, sources, queue[0], paths, longer, news);
  }

  lemma ExpandProgress(g: Graph, sources: set<string>, cur: string, paths: Paths, longer: Paths, news: seq<string>)
    requires cur in paths && Expanded(g, cur, paths, longer, news)
    requires paths.Keys <= Nodes(g) + sources
    ensures longer.Keys <= Nodes(g) + sources
    ensures if news == [] then longer == paths
            else Nodes(g) + sources - longer.Keys < Nodes(g) + sources - paths.Keys
  {
    forall v | v in news ensures v in Nodes(g) {
      SuccessorIsNode(g, cur, v);
    }
    if news == [] {
      assert longer == paths;
    } else {
      assert news[0] in Elements(news);
    }
  }

  /** When the queue is empty, every recorded path is shortest and every reachable
      name is recorded. */
  lemma SearchComplete(g: Graph, sources: set<string>, paths: Paths, b: string)
    requires Searched(g, sources, paths, paths.Keys)
    ensures b in paths <==> exists s :: s in sources && Reaches(g, s, b)
    ensures b in paths ==> Shortest(g, sources, paths[b], b)
  {
    forall q | PathFromAny(g, sources, q, b) ensures b in paths && |paths[b]| <= |q| {
      NoShorterPath(g, sources, paths, paths.Keys, q);
    }
    if b in paths {
      assert PathFromTo(g, paths[b], paths[b][0], b);
    }
    if s :| s in sources && Reaches(g, s, b) {
      var q :| PathFromTo(g, q, s, b);
      assert PathFromAny(g, sources, q, b);
    }
  }

  /** While the target is unrecorded, the first path found to it is shortest. */
  lemma FirstHitShortest(g: Graph, sources: set<string>, paths: Paths, processed: set<string>, queue: seq<string>,
                         target: string, p: seq<string>)
    requires queue != [] && target !in paths && Searching(g, sources, paths, processed, queue)
    requires PathFromAny(g, sources, p, target) && |p| == |paths[queue[0]]| + 1
    ensures Shortest(g, sources, p, target)
  {
    forall q | PathFromAny(g, sources, q, target) ensures |p| <= |q| {
      if |q| < |p| {
        forall v | v in paths && |paths[v]| < |q| ensures v in processed {
          assert v !in queue;
        }
        NoShorterPath(g, sources, paths, processed, q);
      }
    }
  }

  /** Exactly the names other than the start that the start reaches, strictly
      sorted by name, each with a shortest path. */
  ghost predicate IsPathListing(g: Graph, start: string, out: seq<PathEntry>) {
    && StrictlySortedBy((e: PathEntry) => e.name, out)
    && (forall e :: e in out ==> e.name != start && Shortest(g, {start}, e.path, e.name))
    && (forall b :: b != start && Reaches(g, start, b) ==> exists e :: e in out && e.name == b)
  }

  /** What `out` holds while the search runs: one entry per recorded name. */
  predicate OutMatches(start: string, paths: Paths, out: seq<PathEntry>) {
    && start in paths
    && DistinctKeys((e: PathEntry) => e.name, out)
    && (forall e :: e in out ==> e.name != start && e.name in paths && e.path == paths[e.name])
    && (forall v :: v in paths && v != start ==> PathEntry(v, paths[v]) in out)
  }

  function EntriesOf(paths: Paths, names: seq<string>): (r: seq<PathEntry>)
    requires forall i :: 0 <= i < |names| ==> names[i] in paths
    ensures |r| == |names| && forall i :: 0 <= i < |r| ==> r[i] == PathEntry(names[i], paths[names[i]])
  {
    if names == [] then []
    else [PathEntry(names[0], paths[names[0]])] + EntriesOf(paths, names[1..])
  }

  lemma OutExtends(g: Graph, start: string, cur: string, paths: Paths, longer: Paths, news: seq<string>,
                   out: seq<PathEntry>)
    requires cur in paths && Expanded(g, cur, paths, longer, news) && OutMatches(start, paths, out)
    ensures forall i :: 0 <= i < |news| ==> news[i] in longer
    ensures OutMatches(start, longer, out + EntriesOf(longer, news))
  {
  }

  method BfsPaths(start: string, g: Graph) returns (out: seq<PathEntry>)
    ensures IsPathListing(g, start, out)
  {
    var paths: Paths := map[start := [start]];
    var queue := [start];
    out := [];
    ghost var processed: set<string> := {};
    while queue != []
      invariant Searching(g, {start}, paths, processed, queue)
      invariant OutMatches(start, paths, out)
      decreases Nodes(g) + {start} - paths.Keys, |queue|
    {
      var cur := queue[0];
      var longer, news, _ := Expand(g, cur, paths, None);
      ExpandProgress(g, {start}, cur, paths, longer, news);
      var rest := queue[1..] + news;
      SearchStep(g, {start}, paths, processed, queue, longer, news, rest);
      OutExtends(g, start, cur, paths, longer, news, out);
      processed := processed + {cur};
      paths, queue, out := longer, rest, out + EntriesOf(longer, news);
    }
    var sorted := Sort((e: PathEntry) => e.name, out);
    SortedListing(g, start, paths, out, sorted);
    out := sorted;
  }

  lemma SortedListing(g: Graph, start: string, paths: Paths, out: seq<PathEntry>, sorted: seq<PathEntry>)
    requires Searched(g, {start}, paths, paths.Keys) && OutMatches(start, paths, out)
    requires multiset(sorted) == multiset(out) && SortedBy((e: PathEntry) => e.name, sorted)
    ensures IsPathListing(g, start, sorted)
  {
    SortedDistinct((e: PathEntry) => e.name, sorted, out);
    SameElements(sorted, out);
    forall e | e in sorted ensures e.name != start && Shortest(g, {start}, e.path, e.name) {
      assert e in Elements(sorted);
      SearchComplete(g, {start}, paths, e.name);
    }
    forall b | b != start && Reaches(g, start, b) ensures exists e :: e in sorted && e.name == b {
      SearchComplete(g, {start}, paths, b);
      assert PathEntry(b, paths[b]) in Elements(out);
    }
  }

  /** Queues every source once; a source that is the target ends the search. */
  method Seed(sources: seq<string>, target: string, g: Graph) returns (paths: Paths, queue: seq<string>, hit: bool)
    ensures hit <==> target in sources
    ensures !hit ==> target !in paths && Searching(g, Elements(sources), paths, {}, queue)
  {
    paths, queue := map[], [];
    for i := 0 to |sources|
      invariant paths.Keys == Elements(queue) == Elements(sources[..i])
      invariant forall v :: v in paths ==> paths[v] == [v]
      invariant target !in paths
    {
      var s := sources[i];
      if s == target {
        return paths, queue, true;
      }
      if s !in paths {
        paths, queue := paths[s := [s]], queue + [s];
      }
      assert Elements(sources[..i + 1]) == Elements(sources[..i]) + {s};
    }
    assert sources[..|sources|] == sources;
    assert forall v :: v in queue ==> v in Elements(queue);
    hit := false;
  }

  method ShortestPath(sources: seq<string>, target: string, g: Graph) returns (r: Option<seq<string>>)
    ensures r.None? <==> !exists s :: s in sources && Reaches(g, s, target)
    ensures r.Some? ==> Shortest(g, Elements(sources), r.value, target)
  {
    ghost var from := Elements(sources);
    var paths, queue, hit := Seed(sources, target, g);
    if hit {
      ReachesSelf(g, target);
      assert PathFromAny(g, from, [target], target);
      return Some([target]);
    }
    ghost var processed: set<string> := {};
    while queue != []
      invariant Searching(g, from, paths, processed, queue)
      invariant target !in paths
      decreases Nodes(g) + from - paths.Keys, |queue|
    {
      var cur := queue[0];
      var longer, news, found := Expand(g, cur, paths, Some(target));
      ExpandProgress(g, from, cur, paths, longer, news);
      ExpandedPaths(g, from, cur, paths, longer, news);
      if found {
        FirstHitShortest(g, from, paths, processed, queue, target, longer[target]);
        assert PathFromTo(g, longer[target], longer[target][0], target);
        return Some(longer[target]);
      }
      var rest := queue[1..] + news;
      SearchStep(g, from, paths, processed, queue, longer, news, rest);
      processed := processed + {cur};
      paths, queue := longer, rest;
    }
    SearchComplete(g, from, paths, target);
    r := None;
  }

  /** The graph has exactly the edges from a parent to the groups handled so far. */
  ghost predicate ChildrenOn(groups: Groups, done: set<string>, children: Graph) {
    forall a, b :: a in Succ(children, b) <==> a in groups && a in done && b in groups[a].memberOf
  }

  /** Adds an edge from each parent to the group. */
  method AddChild(children: Graph, name: string, parents: seq<string>) returns (r: Graph)
    ensures forall a, b :: a in Succ(r, b) <==> a in Succ(children, b) || (a == name && b in parents)
  {
    r := children;
    for i := 0 to |parents|
      invariant forall a, b :: a in Succ(r, b) <==> a in Succ(children, b) || (a == name && b in parents[..i])
    {
      var parent := parents[i];
      ghost var before := r;
      r := r[parent := Succ(r, parent) + [name]];
      forall a, b ensures a in Succ(r, b) <==> a in Succ(before, b) || (a == name && b == parent) {
        assert b == parent ==> Succ(r, b) == Succ(before, b) + [name];
      }
    }
    assert parents[..|parents|] == parents;
  }

  /** Inverts the membership graph: group to direct child groups. */
  method ChildGraph(groups: Groups) returns (children: Graph)
    ensures Reverses(Membership(groups), children)
  {
    children := map[];
    assert ChildrenOn(groups, {}, children) by {
      forall b ensures Succ(children, b) == [] {
      }
    }
    var left := groups.Keys;
    ghost var done: set<string> := {};
    while left != {}
      invariant left <= groups.Keys && done == groups.Keys - left
      invariant ChildrenOn(groups, done, children)
    {
      var name :| name in left;
      children := AddChild(children, name, groups[name].memberOf);
      left := left - {name};
      done := done + {name};
    }
    forall a, b ensures b in Succ(Membership(groups), a) <==> a in Succ(children, b) {
    }
  }

  /** Exactly the users in the group, strictly sorted by name, each with a
      shortest membership chain ending at the group. */
  ghost predicate IsUsersPanel(users: Users, groups: Groups, n: string, panel: seq<PathEntry>) {
    && StrictlySortedBy((e: PathEntry) => e.name, panel)
    && (forall e :: e in panel ==> IsUserChain(users, groups, n, e))
    && (forall u :: InGroup(users, groups, u, n) ==> exists e :: e in panel && e.name == u)
  }

  ghost predicate IsUserChain(users: Users, groups: Groups, n: string, e: PathEntry) {
    && e.name in users && e.path != [] && e.path[0] == e.name
    && Shortest(Membership(groups), Elements(users[e.name].memberOf), e.path[1..], n)
  }

  method UsersPanel(users: Users, groups: Groups, n: string) returns (panel: seq<PathEntry>)
    ensures IsUsersPanel(users, groups, n, panel)
  {
    var g := Membership(groups);
    var left := users.Keys;
    var found: seq<PathEntry> := [];
    while left != {}
      invariant left <= users.Keys
      invariant DistinctKeys((e: PathEntry) => e.name, found)
      invariant forall e :: e in found ==> e.name !in left && IsUserChain(users, groups, n, e)
      invariant forall u :: u !in left && InGroup(users, groups, u, n) ==> exists e :: e in found && e.name == u
    {
      var u :| u in left;
      ghost var before := found;
      var path := ShortestPath(users[u].memberOf, n, g);
      if path.Some? {
        assert ([u] + path.value)[1..] == path.value;
        found := found + [PathEntry(u, [u] + path.value)];
        assert found[|before|] in found;
      }
      left := left - {u};
      forall v | v !in left && InGroup(users, groups, v, n) ensures exists e :: e in found && e.name == v {
        if v != u {
          var e :| e in before && e.name == v;
          assert e in found;
        }
      }
    }
    panel := Sort((e: PathEntry) => e.name, found);
    SortedDistinct((e: PathEntry) => e.name, panel, found);
    SameElements(panel, found);
    assert forall e :: e in panel <==> e in Elements(panel);
    assert forall e :: e in found <==> e in Elements(found);
  }

  /** Exactly the groups nested in this one, each with a shortest chain that ends here. */
  ghost predicate IsSubgroupListing(g: Graph, n: string, out: seq<PathEntry>) {
    && StrictlySortedBy((e: PathEntry) => e.name, out)
    && (forall e :: e in out ==> e.name != n && Shortest(g, {e.name}, e.path, n))
    && (forall b :: b != n && Reaches(g, b, n) ==> exists e :: e in out && e.name == b)
  }

  function ReversedPaths(entries: seq<PathEntry>): (r: seq<PathEntry>)
    ensures |r| == |entries|
    ensures forall i :: 0 <= i < |r| ==> r[i] == PathEntry(entries[i].name, Reversed(entries[i].path))
  {
    if entries == [] then []
    else [PathEntry(entries[0].name, Reversed(entries[0].path))] + ReversedPaths(entries[1..])
  }

  lemma ReversedShortest(g: Graph, h: Graph, n: string, e: PathEntry)
    requires Reverses(g, h) && Shortest(h, {n}, e.path, e.name)
    ensures Shortest(g, {e.name}, Reversed(e.path), n)
  {
    ReversedPath(h, g, e.path);
    forall q | PathFromAny(g, {e.name}, q, n) ensures |e.path| <= |q| {
      ReversedPath(g, h, q);
      assert PathFromAny(h, {n}, Reversed(q), e.name);
    }
  }

  /** Reversing the paths walked down the child graph gives the subgroup list. */
  lemma ReversedListing(g: Graph, h: Graph, n: string, out: seq<PathEntry>)
    requires Reverses(g, h) && IsPathListing(h, n, out)
    ensures IsSubgroupListing(g, n, ReversedPaths(out))
  {
    var r := ReversedPaths(out);
    forall e | e in r ensures e.name != n && Shortest(g, {e.name}, e.path, n) {
      var i :| 0 <= i < |r| && r[i] == e;
      ReversedShortest(g, h, n, out[i]);
    }
    forall b | b != n && Reaches(g, b, n) ensures exists e :: e in r && e.name == b {
      var q :| PathFromTo(g, q, b, n);
      ReversedPath(g, h, q);
      assert Reaches(h, n, b);
      var e :| e in out && e.name == b;
      var i :| 0 <= i < |out| && out[i] == e;
      assert r[i] in r;
    }
  }

  ghost predicate IsGroupDetail(users: Users, groups: Groups, n: string, d: GroupDetail)
    requires n in groups
  {
    && d.requireMFA == groups[n].requireMFA
    && IsUsersPanel(users, groups, n, d.users)
    && IsSubgroupListing(Membership(groups), n, d.subgroups)
    && IsPathListing(Membership(groups), n, d.memberOf)
  }

  method ComputeGroupDetails(users: Users, groups: Groups) returns (details: map<string, GroupDetail>)
    ensures details.Keys == groups.Keys
    ensures forall n :: n in details ==> IsGroupDetail(users, groups, n, details[n])
  {
    var parents := Membership(groups);
    var children := ChildGraph(groups);
    details := map[];
    var left := groups.Keys;
    while left != {}
      invariant left <= groups.Keys && details.Keys == groups.Keys - left
      invariant forall n :: n in details ==> IsGroupDetail(users, groups, n, details[n])
    {
      var n :| n in left;
      var panel := UsersPanel(users, groups, n);
      var below := BfsPaths(n, children);
      ReversedListing(parents, children, n, below);
      var above := BfsPaths(n, parents);
      details := details[n := GroupDetail(groups[n].requireMFA, panel, ReversedPaths(below), above)];
      left := left - {n};
    }
  }

  function Names(entries: seq<PathEntry>): (r: seq<string>)
    ensures |r| == |entries| && forall i :: 0 <= i < |r| ==> r[i] == entries[i].name
  {
    if entries == [] then [] else [entries[0].name] + Names(entries[1..])
  }

  /** The panel of the admin graph, built from shortest chains, and the member
      list of the LDAP entry, built from the memoised closure and its inverse,
      name the same users in the same order. */
  lemma PanelAgreesWithFlattenedMembers(users: Users, groups: Groups, n: string, panel: seq<PathEntry>,
                                        flat: map<string, seq<string>>, members: map<string, seq<string>>)
    requires IsUsersPanel(users, groups, n, panel)
    requires IsFlattening(users, groups, flat) && IsInverse(flat, members)
    ensures Names(panel) == Row(members, n)
  {
    var names, row := Names(panel), Row(members, n);
    forall u ensures u in names <==> u in row {
      assert u in row <==> u in flat && n in Row(flat, u);
      assert u in row <==> InGroup(users, groups, u, n);
      if u in names {
        var i :| 0 <= i < |names| && names[i] == u;
        assert IsUserChain(users, groups, n, panel[i]);
        assert PathFromTo(Membership(groups), panel[i].path[1..], panel[i].path[1], n);
      }
      if InGroup(users, groups, u, n) {
        var e :| e in panel && e.name == u;
        var i :| 0 <= i < |panel| && panel[i] == e;
        assert names[i] == u;
      }
    }
    assert Elements(names) == Elements(row);
    assert StrictlySorted(names);
    StrictlySortedNames(names);
    StrictlySortedNames(row);
    SortedUnique((x: string) => x, names, row);
  }
}
