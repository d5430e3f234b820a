/** One reachability relation for every algorithm over the group graph. */
module Reachability {

  /** Adjacency lists; a name without a list has no outgoing edge. */
  type Graph = map<string, seq<string>>

  function Succ(g: Graph, n: string): seq<string> {
    if n in g then g[n] else []
  }

  predicate IsPath(g: Graph, p: seq<string>) {
    |p| > 0 && forall i, j :: 0 <= i < |p| - 1 && j == i + 1 ==> p[j] in Succ(g, p[i])
  }

  predicate PathFromTo(g: Graph, p: seq<string>, a: string, b: string) {
    IsPath(g, p) && p[0] == a && p[|p| - 1] == b
  }

  ghost predicate Reaches(g: Graph, a: string, b: string) {
    exists p :: PathFromTo(g, p, a, b)
  }

  /** No membership chain of at least one step returns to its start. */
  ghost predicate Acyclic(g: Graph) {
    forall p :: IsPath(g, p) && |p| > 1 ==> p[0] != p[|p| - 1]
  }

  function Nodes(g: Graph): set<string> {
    g.Keys + set n, m | n in g && m in g[n] :: m
  }

  ghost function ReachSet(g: Graph, a: string): set<string> {
    set b | b in Nodes(g) + {a} && Reaches(g, a, b)
  }

  lemma SuccessorIsNode(g: Graph, a: string, b: string)
    requires b in Succ(g, a)
    ensures b in Nodes(g)
  {
  }

  lemma PathNodes(g: Graph, p: seq<string>)
    requires IsPath(g, p)
    ensures forall i :: 1 <= i < |p| ==> p[i] in Nodes(g)
  {
    forall i | 1 <= i < |p| ensures p[i] in Nodes(g) {
      assert p[i] in Succ(g, p[i - 1]);
    }
  }

  lemma ReachSetExact(g: Graph, a: string, b: string)
    ensures b in ReachSet(g, a) <==> Reaches(g, a, b)
  {
    if Reaches(g, a, b) {
      var p :| PathFromTo(g, p, a, b);
      PathNodes(g, p);
    }
  }

  lemma ReachesSelf(g: Graph, a: string)
    ensures Reaches(g, a, a)
  {
    assert PathFromTo(g, [a], a, a);
  }

  lemma ReachesEdge(g: Graph, a: string, b: string)
    requires b in Succ(g, a)
    ensures Reaches(g, a, b)
  {
    assert PathFromTo(g, [a, b], a, b);
  }

  lemma JoinPaths(g: Graph, p: seq<string>, q: seq<string>)
    requires IsPath(g, p) && IsPath(g, q) && p[|p| - 1] == q[0]
    ensures PathFromTo(g, p + q[1..], p[0], q[|q| - 1])
  {
  }

  lemma ReachesTransitive(g: Graph, a: string, b: string, c: string)
    requires Reaches(g, a, b) && Reaches(g, b, c)
    ensures Reaches(g, a, c)
  {
    var p :| PathFromTo(g, p, a, b);
    var q :| PathFromTo(g, q, b, c);
    JoinPaths(g, p, q);
  }

  /** A path of at least one step goes through some direct successor. */
  lemma ReachesFirstStep(g: Graph, a: string, b: string) returns (c: string)
    requires Reaches(g, a, b) && a != b
    ensures c in Succ(g, a) && Reaches(g, c, b)
  {
    var p :| PathFromTo(g, p, a, b);
    c := p[1];
    assert PathFromTo(g, p[1..], c, b);
  }

  /** The successors' reach sets, together with the node itself, are its reach set. */
  lemma ReachSetUnfold(g: Graph, a: string, b: string)
    ensures Reaches(g, a, b) <==> a == b || exists c :: c in Succ(g, a) && Reaches(g, c, b)
  {
    ReachesSelf(g, a);
    if Reaches(g, a, b) && a != b {
      var c := ReachesFirstStep(g, a, b);
    }
    if c :| c in Succ(g, a) && Reaches(g, c, b) {
      ReachesEdge(g, a, c);
      ReachesTransitive(g, a, c, b);
    }
  }

  /** On an acyclic graph reach sets shrink strictly along every edge: the
      measure that makes the memoised closure terminate. */
  lemma ReachSetShrinks(g: Graph, a: string, b: string)
    requires Acyclic(g) && b in Succ(g, a)
    ensures ReachSet(g, b) < ReachSet(g, a)
  {
    forall c | c in ReachSet(g, b) ensures c in ReachSet(g, a) {
      ReachesEdge(g, a, b);
      ReachesTransitive(g, a, b, c);
      ReachSetExact(g, a, c);
    }
    ReachesSelf(g, a);
    ReachSetExact(g, a, a);
    if a in ReachSet(g, b) {
      var q :| PathFromTo(g, q, b, a);
      JoinPaths(g, [a, b], q);
      assert false;
    }
  }

  /** Every edge goes to an earlier position of `order`. */
  ghost predicate Topological(g: Graph, order: seq<string>) {
    forall i, b :: 0 <= i < |order| && b in Succ(g, order[i]) ==> b in order[..i]
  }

  /** A path that starts inside a topological order only moves to earlier positions. */
  lemma {:induction false} TopologicalDescends(g: Graph, order: seq<string>, p: seq<string>, k: nat)
    requires Topological(g, order) && IsPath(g, p)
    requires k <= |order| && p[0] in order[..k]
    ensures p[|p| - 1] in order[..k]
    ensures |p| > 1 ==> exists m: nat :: m < k && order[m] == p[0] && p[|p| - 1] in order[..m]
    decreases |p|
  {
    if |p| > 1 {
      var m: nat :| m < k && order[m] == p[0];
      assert p[1] in Succ(g, order[m]);
      TopologicalDescends(g, order, p[1..], m);
      assert p[1..][|p| - 2] == p[|p| - 1];
    }
  }

  /** Reversing every edge reverses every path. */
  ghost predicate Reverses(g: Graph, h: Graph) {
    forall a, b :: b in Succ(g, a) <==> a in Succ(h, b)
  }

  function Reversed(p: seq<string>): (r: seq<string>)
    ensures |r| == |p| && forall i :: 0 <= i < |p| ==> r[i] == p[|p| - 1 - i]
  {
    seq(|p|, i requires 0 <= i < |p| => p[|p| - 1 - i])
  }

  lemma ReversedPath(g: Graph, h: Graph, p: seq<string>)
    requires Reverses(g, h) && IsPath(g, p)
    ensures PathFromTo(h, Reversed(p), p[|p| - 1], p[0])
  {
  }
}
