/** Colour-marking depth-first search over the group graph
    (internal/identity/resolver.go). */
module CycleDetection {
  import opened Reachability
  import opened StringOrder

  datatype Color = White | Gray | Black

  datatype Outcome = NoCycle | Cycle(path: seq<string>)

  /** A reported path is a real membership chain whose last name occurs earlier in it. */
  predicate IsCycleReport(g: Graph, p: seq<string>) {
    IsPath(g, p) && |p| > 1 && p[|p| - 1] in p[..|p| - 1]
  }

  lemma ReportMeansCyclic(g: Graph, p: seq<string>)
    requires IsCycleReport(g, p)
    ensures !Acyclic(g)
  {
    var i :| 0 <= i < |p| - 1 && p[i] == p[|p| - 1];
    assert IsPath(g, p[i..]);
  }

  /** Gray names are exactly the current path, black names exactly the finished
      ones, and finishing order is topological. */
  ghost predicate Marked(g: Graph, color: map<string, Color>, path: seq<string>, finished: seq<string>) {
    && (path == [] || IsPath(g, path))
    && (forall n :: n in color ==> color[n] != White)
    && (forall n :: n in path <==> n in color && color[n] == Gray)
    && (forall n :: n in finished <==> n in color && color[n] == Black)
    && Topological(g, finished)
  }

  lemma MarkedBlack(g: Graph, color: map<string, Color>, below: seq<string>, finished: seq<string>, n: string)
    requires Marked(g, color, below + [n], finished) && n !in below
    requires forall b :: b in Succ(g, n) ==> b in finished
    ensures Marked(g, color[n := Black], below, finished + [n])
  {
    TopologicalExtends(g, finished, n);
    PathPrefix(g, below, n);
    var path := below + [n];
    assert forall m :: m in path <==> m in below || m == n;
  }

  /** The mutable variables that the recursive closure `visit` shares. */
  class Search {
    const g: Graph
    var color: map<string, Color>
    var path: seq<string>
    /** Names in the order they turned black. */
    ghost var finished: seq<string>

    constructor (g: Graph)
      ensures this.g == g && color == map[] && path == [] && finished == []
      ensures Valid()
    {
      this.g := g;
      color, path, finished := map[], [], [];
    }

    function ColorOf(n: string): Color
      reads this
    {
      if n in color then color[n] else White
    }

    ghost predicate Valid()
      reads this
    {
      Marked(g, color, path, finished)
    }

    ghost function Unseen(): set<string>
      reads this
    {
      Nodes(g) - color.Keys
    }

    method Visit(name: string) returns (r: Outcome)
      requires Valid() && name in Nodes(g)
      requires path == [] || name in Succ(g, path[|path| - 1])
      modifies this
      ensures r.Cycle? ==> IsCycleReport(g, r.path)
      ensures r.NoCycle? ==> Valid() && path == old(path) && ColorOf(name) == Black
      ensures r.NoCycle? ==> old(finished) <= finished && Unseen() <= old(Unseen())
      decreases Unseen(), 0
    {
      match ColorOf(name) {
        case Black => return NoCycle;
        case Gray =>
          r := Cycle(path + [name]);
          return;
        case White =>
      }
      Enter(name);
      r := VisitParents(name);
      if r.NoCycle? {
        Leave(name);
      }
    }

    /** Marks a white name gray and puts it on the path. */
    method Enter(name: string)
      requires Valid() && name in Nodes(g) && ColorOf(name) == White
      requires path == [] || name in Succ(g, path[|path| - 1])
      modifies this
      ensures Valid() && path == old(path) + [name] && finished == old(finished)
      ensures color == old(color)[name := Gray] && Unseen() < old(Unseen())
    {
      color, path := color[name := Gray], path + [name];
      assert name in old(Unseen()) && name !in Unseen();
    }

    /** Takes the top of the path off and marks it black. */
    method Leave(name: string)
      requires Valid() && path != [] && path[|path| - 1] == name && name !in path[..|path| - 1]
      requires forall b :: b in Succ(g, name) ==> b in finished
      modifies this
      ensures Valid() && path == old(path)[..|old(path)| - 1] && finished == old(finished) + [name]
      ensures color == old(color)[name := Black]
    {
      MarkedBlack(g, color, path[..|path| - 1], finished, name);
      assert path == path[..|path| - 1] + [name];
      color, path, finished := color[name := Black], path[..|path| - 1], finished + [name];
    }

    /** The loop over the parents of the name on top of the path. */
    method VisitParents(name: string) returns (r: Outcome)
      requires Valid() && path != [] && path[|path| - 1] == name
      modifies this
      ensures r.Cycle? ==> IsCycleReport(g, r.path)
      ensures r.NoCycle? ==> Valid() && path == old(path)
      ensures r.NoCycle? ==> forall b :: b in Succ(g, name) ==> b in finished
      ensures r.NoCycle? ==> old(finished) <= finished && Unseen() <= old(Unseen())
      decreases Unseen(), 1
    {
      var parents := Succ(g, name);
      for i := 0 to |parents|
        invariant Valid() && path == old(path)
        invariant forall k :: 0 <= k < i ==> parents[k] in finished
        invariant old(finished) <= finished && Unseen() <= old(Unseen())
      {
        SuccessorIsNode(g, name, parents[i]);
        ghost var before := finished;
        r := Visit(parents[i]);
        if r.Cycle? {
          return;
        }
        assert forall n :: n in before ==> n in finished;
      }
      r := NoCycle;
    }
  }

  lemma PathPrefix(g: Graph, p: seq<string>, n: string)
    requires IsPath(g, p + [n])
    ensures p == [] || IsPath(g, p)
  {
    forall i | 0 <= i < |p| ensures (p + [n])[i] == p[i] {
    }
  }

  lemma TopologicalExtends(g: Graph, order: seq<string>, n: string)
    requires Topological(g, order) && forall b :: b in Succ(g, n) ==> b in order
    ensures Topological(g, order + [n])
  {
    var longer := order + [n];
    forall i, b | 0 <= i < |longer| && b in Succ(g, longer[i]) ensures b in longer[..i] {
      assert longer[..i] == order[..i];
    }
  }

  lemma FinishedMeansAcyclic(g: Graph, order: seq<string>)
    requires Topological(g, order) && forall n :: n in g ==> n in order
    ensures Acyclic(g)
  {
    forall p | IsPath(g, p) && |p| > 1 ensures p[0] != p[|p| - 1] {
      assert p[1] in Succ(g, p[0]);
      var m := FirstIndex(order, p[0]);
      TopologicalDescends(g, order, p, m + 1);
    }
  }

  lemma FirstIndex(s: seq<string>, x: string) returns (m: nat)
    requires x in s
    ensures m < |s| && s[m] == x && x !in s[..m]
  {
    m := 0;
    while s[m] != x
      invariant m < |s| && x in s[m..] && x !in s[..m]
      decreases |s| - m
    {
      m := m + 1;
    }
  }

  /** Terminates on every finite graph, dangling names included, and answers
      NoCycle exactly on the acyclic ones. */
  method DetectCycle(g: Graph) returns (r: Outcome)
    ensures r.NoCycle? <==> Acyclic(g)
    ensures r.Cycle? ==> IsCycleReport(g, r.path)
  {
    var names := SortedKeys(g.Keys);
    var search := new Search(g);
    var i := 0;
    while i < |names|
      invariant 0 <= i <= |names|
      invariant search.Valid() && search.path == [] && search.g == g
      invariant forall k :: 0 <= k < i ==> names[k] in search.finished
    {
      var n := names[i];
      assert n in Elements(names);
      if search.ColorOf(n) == White {
        r := search.Visit(n);
        if r.Cycle? {
          ReportMeansCyclic(g, r.path);
          return;
        }
      }
      i := i + 1;
    }
    forall n | n in g ensures n in search.finished {
      assert n in Elements(names);
    }
    FinishedMeansAcyclic(g, search.finished);
    r := NoCycle;
  }
}
