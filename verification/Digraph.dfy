/** Directed graphs over names: paths, reachability and acyclicity.
    The route dependencies of router-core and the role parents of
    router-access are both such graphs. */
module Digraph {

  type Node = string
  type Graph = map<Node, seq<Node>>

  function Succ(g: Graph, n: Node): seq<Node> {
    if n in g then g[n] else []
  }

  predicate Edge(g: Graph, a: Node, b: Node) {
    b in Succ(g, a)
  }

  ghost predicate IsPath(g: Graph, p: seq<Node>) {
    && |p| > 0
    && forall i :: 0 <= i < |p| - 1 ==> p[i + 1] in Succ(g, p[i])
  }

  ghost predicate PathBetween(g: Graph, p: seq<Node>, a: Node, b: Node) {
    IsPath(g, p) && p[0] == a && p[|p| - 1] == b
  }

  ghost predicate Reaches(g: Graph, a: Node, b: Node) {
    exists p :: PathBetween(g, p, a, b)
  }

  /** No path of one or more edges returns to where it started. */
  ghost predicate Acyclic(g: Graph) {
    forall p :: IsPath(g, p) && |p| > 1 ==> p[0] != p[|p| - 1]
  }

  /** Every path that starts at `a` has at most `edges` edges. */
  ghost predicate PathsWithin(g: Graph, a: Node, edges: int) {
    forall p :: IsPath(g, p) && p[0] == a ==> |p| - 1 <= edges
  }

  ghost predicate HasPathOf(g: Graph, a: Node, edges: int) {
    exists p :: IsPath(g, p) && p[0] == a && |p| - 1 == edges
  }

  /** A ranking strictly decreases along every edge. */
  ghost predicate IsRanking(g: Graph, rank: Node -> nat) {
    forall a, b :: b in Succ(g, a) ==> rank(b) < rank(a)
  }

  ghost predicate Ranked(g: Graph) {
    exists rank: Node -> nat :: IsRanking(g, rank)
  }

  lemma ReachesSelf(g: Graph, a: Node)
    ensures Reaches(g, a, a)
  {
    assert PathBetween(g, [a], a, a);
  }

  lemma PrependPath(g: Graph, a: Node, p: seq<Node>)
    requires IsPath(g, p) && p[0] in Succ(g, a)
    ensures IsPath(g, [a] + p)
  {
    var q := [a] + p;
    forall i | 0 <= i < |q| - 1
      ensures q[i + 1] in Succ(g, q[i])
    {
      if i > 0 {
        assert q[i] == p[i - 1] && q[i + 1] == p[i - 1 + 1];
      }
    }
  }

  lemma ReachesThrough(g: Graph, a: Node, b: Node, c: Node)
    requires b in Succ(g, a) && Reaches(g, b, c)
    ensures Reaches(g, a, c)
  {
    var p :| PathBetween(g, p, b, c);
    PrependPath(g, a, p);
    assert PathBetween(g, [a] + p, a, c);
  }

  /** A path splits at its first edge. */
  lemma PathTail(g: Graph, p: seq<Node>)
    requires IsPath(g, p) && |p| > 1
    ensures p[1] in Succ(g, p[0])
    ensures IsPath(g, p[1..]) && p[1..][|p| - 2] == p[|p| - 1]
  {
    var q := p[1..];
    assert p[0 + 1] in Succ(g, p[0]);
    forall i | 0 <= i < |q| - 1
      ensures q[i + 1] in Succ(g, q[i])
    {
      assert p[(i + 1) + 1] in Succ(g, p[i + 1]);
    }
  }

  lemma {:induction false} RankDrops(g: Graph, rank: Node -> nat, p: seq<Node>)
    requires IsRanking(g, rank) && IsPath(g, p)
    ensures rank(p[|p| - 1]) + |p| - 1 <= rank(p[0])
    decreases |p|
  {
    if |p| > 1 {
      PathTail(g, p);
      RankDrops(g, rank, p[1..]);
    }
  }

  lemma RankedIsAcyclic(g: Graph)
    requires Ranked(g)
    ensures Acyclic(g)
  {
    var rank: Node -> nat :| IsRanking(g, rank);
    forall p | IsPath(g, p) && |p| > 1
      ensures p[0] != p[|p| - 1]
    {
      RankDrops(g, rank, p);
    }
  }

  /** A subgraph of a ranked graph is ranked. */
  lemma SubgraphRanked(g: Graph, h: Graph)
    requires Ranked(g)
    requires forall a, b :: b in Succ(h, a) ==> b in Succ(g, a)
    ensures Ranked(h)
  {
    var rank: Node -> nat :| IsRanking(g, rank);
    assert IsRanking(h, rank);
  }

  /** Adding the edge from `u` to `v` keeps a graph ranked when `v` does not
      reach `u`: everything that reaches `u` is lifted above `v`. */
  lemma AddEdgeRanked(g: Graph, h: Graph, u: Node, v: Node)
    requires Ranked(g)
    requires !Reaches(g, v, u)
    requires forall a, b :: b in Succ(h, a) ==> b in Succ(g, a) || (a == u && b == v)
    ensures Ranked(h)
  {
    var rank: Node -> nat :| IsRanking(g, rank);
    var lifted: Node -> nat := x => rank(x) + if Reaches(g, x, u) then rank(v) + 1 else 0;
    forall a, b | b in Succ(h, a)
      ensures lifted(b) < lifted(a)
    {
      if b in Succ(g, a) {
        if Reaches(g, b, u) {
          ReachesThrough(g, a, b, u);
        }
      } else {
        ReachesSelf(g, u);
      }
    }
    assert IsRanking(h, lifted);
  }
}
