/**
 * Directed graphs that carry one integer value per edge, with the handful of
 * mutators the plugin uses (put an edge value, remove a node, remove an edge)
 * and reachability over them.
 *
 * Reachability has two definitions: `Reaches`, by the existence of a path, is
 * the reference; `Reachable`, a fixed-point closure over successor sets, is the
 * computable one. `ReachableIff` connects them, and `HasCycleIff` connects the
 * computable cycle test with the path-based notion of acyclicity.
 */
module Graphs {

  /** A directed graph: its node set and, for each edge (u, v), the edge's value.
      At most one edge joins an ordered pair of nodes. */
  datatype ValueGraph<N> = ValueGraph(nodes: set<N>, edges: map<(N, N), int>)

  function Empty<N(!new)>(): ValueGraph<N>
  {
    ValueGraph({}, map[])
  }

  /** Every edge joins two nodes of the graph. */
  ghost predicate WellFormed<N(!new)>(g: ValueGraph<N>)
  {
    forall u, v {:trigger (u, v) in g.edges} :: (u, v) in g.edges ==> u in g.nodes && v in g.nodes
  }

  /** Sets the value of edge u -> v, adding u, v and the edge when absent. */
  function PutEdgeValue<N(!new)>(g: ValueGraph<N>, u: N, v: N, value: int): (r: ValueGraph<N>)
    ensures WellFormed(g) ==> WellFormed(r)
  {
    ValueGraph(g.nodes + {u, v}, g.edges[(u, v) := value])
  }

  /** Removes node n and every edge incident to it, in either direction. */
  function RemoveNode<N(!new)>(g: ValueGraph<N>, n: N): (r: ValueGraph<N>)
    ensures WellFormed(g) ==> WellFormed(r)
  {
    ValueGraph(g.nodes - {n}, map e | e in g.edges && e.0 != n && e.1 != n :: g.edges[e])
  }

  /** Removes edge u -> v; both nodes stay. */
  function RemoveEdge<N(!new)>(g: ValueGraph<N>, u: N, v: N): (r: ValueGraph<N>)
    ensures WellFormed(g) ==> WellFormed(r)
  {
    ValueGraph(g.nodes, g.edges - {(u, v)})
  }

  // ---------------------------------------------------------------------
  // Paths: the reference definition of reachability
  // ---------------------------------------------------------------------

  ghost predicate EdgeAt<N(!new)>(g: ValueGraph<N>, p: seq<N>, i: int)
    requires 0 <= i < |p| - 1
  {
    (p[i], p[i + 1]) in g.edges
  }

  /** p is a walk along edges of g with at least one edge. */
  ghost predicate IsPath<N(!new)>(g: ValueGraph<N>, p: seq<N>)
  {
    |p| >= 2 && forall i :: 0 <= i < |p| - 1 ==> EdgeAt(g, p, i)
  }

  /** Each consecutive pair of a path is an edge. */
  lemma PathStep<N(!new)>(g: ValueGraph<N>, p: seq<N>, i: int)
    requires IsPath(g, p) && 0 <= i < |p| - 1
    ensures (p[i], p[i + 1]) in g.edges
  {
    assert EdgeAt(g, p, i);
  }

  /** v can be reached from u by following one or more edges. */
  ghost predicate Reaches<N(!new)>(g: ValueGraph<N>, u: N, v: N)
  {
    exists p :: IsPath(g, p) && p[0] == u && p[|p| - 1] == v
  }

  /** No node reaches itself. */
  ghost predicate Acyclic<N(!new)>(g: ValueGraph<N>)
  {
    forall n :: !Reaches(g, n, n)
  }

  /** The empty graph is well formed and acyclic. */
  lemma EmptyAcyclic<N(!new)>()
    ensures WellFormed(Empty<N>()) && Acyclic(Empty<N>())
  {
    var g := Empty<N>();
    forall n ensures !Reaches(g, n, n) {
      if Reaches(g, n, n) {
        var p :| IsPath(g, p) && p[0] == n && p[|p| - 1] == n;
        PathStep(g, p, 0);
        assert false;
      }
    }
  }

  lemma ReachesByEdge<N(!new)>(g: ValueGraph<N>, u: N, v: N)
    requires (u, v) in g.edges
    ensures Reaches(g, u, v)
  {
    var p := [u, v];
    assert EdgeAt(g, p, 0);
    assert IsPath(g, p);
  }

  lemma ReachesThenEdge<N(!new)>(g: ValueGraph<N>, u: N, x: N, y: N)
    requires Reaches(g, u, x) && (x, y) in g.edges
    ensures Reaches(g, u, y)
  {
    var p :| IsPath(g, p) && p[0] == u && p[|p| - 1] == x;
    var q := p + [y];
    forall i | 0 <= i < |q| - 1 ensures EdgeAt(g, q, i) {
      if i < |p| - 1 { assert EdgeAt(g, p, i); }
    }
    assert IsPath(g, q);
  }

  /** Reachability is transitive. */
  lemma ReachesTransitive<N(!new)>(g: ValueGraph<N>, u: N, v: N, w: N)
    requires Reaches(g, u, v) && Reaches(g, v, w)
    ensures Reaches(g, u, w)
  {
    var p :| IsPath(g, p) && p[0] == u && p[|p| - 1] == v;
    var q :| IsPath(g, q) && q[0] == v && q[|q| - 1] == w;
    var r := p + q[1..];
    forall i | 0 <= i < |r| - 1 ensures EdgeAt(g, r, i) {
      if i < |p| - 1 {
        assert EdgeAt(g, p, i);
      } else {
        assert EdgeAt(g, q, i - |p| + 1);
      }
    }
    assert IsPath(g, r);
  }

  /** Any stretch of a path with at least one edge is a path. */
  lemma SubPath<N(!new)>(g: ValueGraph<N>, p: seq<N>, i: int, j: int)
    requires IsPath(g, p) && 0 <= i < j < |p|
    ensures IsPath(g, p[i..j + 1]) && Reaches(g, p[i], p[j])
  {
    var q := p[i..j + 1];
    forall k | 0 <= k < |q| - 1 ensures EdgeAt(g, q, k) {
      assert EdgeAt(g, p, i + k);
    }
  }

  /** Both ends of a path with an edge are nodes of a well-formed graph. */
  lemma ReachesNodes<N(!new)>(g: ValueGraph<N>, u: N, v: N)
    requires WellFormed(g) && Reaches(g, u, v)
    ensures u in g.nodes && v in g.nodes
  {
    var p :| IsPath(g, p) && p[0] == u && p[|p| - 1] == v;
    assert EdgeAt(g, p, 0);
    assert EdgeAt(g, p, |p| - 2);
  }

  /** Reachability in a graph carries over to any graph with more edges. */
  lemma ReachesInSupergraph<N(!new)>(h: ValueGraph<N>, g: ValueGraph<N>, u: N, v: N)
    requires h.edges.Keys <= g.edges.Keys && Reaches(h, u, v)
    ensures Reaches(g, u, v)
  {
    var p :| IsPath(h, p) && p[0] == u && p[|p| - 1] == v;
    forall i | 0 <= i < |p| - 1 ensures EdgeAt(g, p, i) {
      assert EdgeAt(h, p, i);
    }
    assert IsPath(g, p);
  }

  /** A graph whose edges are among an acyclic graph's edges is acyclic. */
  lemma AcyclicSubgraph<N(!new)>(h: ValueGraph<N>, g: ValueGraph<N>)
    requires h.edges.Keys <= g.edges.Keys && Acyclic(g)
    ensures Acyclic(h)
  {
    forall n ensures !Reaches(h, n, n) {
      if Reaches(h, n, n) {
        ReachesInSupergraph(h, g, n, n);
      }
    }
  }

  // ---------------------------------------------------------------------
  // Computable reachability: closure over successor sets
  // ---------------------------------------------------------------------

  /** The nodes one edge away from some node of s. */
  function Successors<N(!new)>(g: ValueGraph<N>, s: set<N>): (r: set<N>)
    ensures forall v :: v in r <==> exists u :: u in s && (u, v) in g.edges
  {
    var r := set e | e in g.edges && e.0 in s :: e.1;
    assert forall u, v :: u in s && (u, v) in g.edges ==> v in r by {
      forall u, v | u in s && (u, v) in g.edges ensures v in r {
        var e := (u, v);
        assert e.1 == v;
      }
    }
    r
  }

  lemma ProperSubsetSmaller<N(!new)>(a: set<N>, b: set<N>)
    requires a < b
    ensures |a| < |b|
  {
    var d := b - a;
    assert b == a + d;
    assert a * d == {};
    var x :| x in d;
  }

  /** A superset of s, within the nodes, that is closed under successors; that
      it adds nothing unreachable from s is ClosureSound. */
  function Closure<N(!new)>(g: ValueGraph<N>, s: set<N>): (r: set<N>)
    requires WellFormed(g) && s <= g.nodes
    ensures s <= r <= g.nodes
    ensures Successors(g, r) <= r
    decreases |g.nodes - s|
  {
    var next := s + Successors(g, s);
    if next <= s then s
    else
      ProperSubsetSmaller(g.nodes - next, g.nodes - s);
      Closure(g, next)
  }

  /** The nodes reachable from u in one or more steps. */
  function Reachable<N(!new)>(g: ValueGraph<N>, u: N): (r: set<N>)
    requires WellFormed(g)
    ensures r <= g.nodes
  {
    Closure(g, Successors(g, {u}))
  }

  /** Whether n reaches itself, by the computable closure. */
  predicate OnCycle<N(!new)>(g: ValueGraph<N>, n: N)
    requires WellFormed(g)
  {
    n in Reachable(g, n)
  }

  /** Whether some node reaches itself. */
  predicate HasCycle<N(!new)>(g: ValueGraph<N>)
    requires WellFormed(g)
  {
    exists n {:trigger OnCycle(g, n)} :: n in g.nodes && OnCycle(g, n)
  }

  lemma {:induction false} ClosureSound<N(!new)>(g: ValueGraph<N>, s: set<N>, u: N)
    requires WellFormed(g) && s <= g.nodes
    requires forall x :: x in s ==> Reaches(g, u, x)
    ensures forall x :: x in Closure(g, s) ==> Reaches(g, u, x)
    decreases |g.nodes - s|
  {
    var next := s + Successors(g, s);
    if !(next <= s) {
      forall y | y in next ensures Reaches(g, u, y) {
        if y !in s {
          var x :| x in s && (x, y) in g.edges;
          ReachesThenEdge(g, u, x, y);
        }
      }
      ProperSubsetSmaller(g.nodes - next, g.nodes - s);
      ClosureSound(g, next, u);
    }
  }

  /** The computable closure agrees with path-based reachability. */
  lemma ReachableIff<N(!new)>(g: ValueGraph<N>, u: N, v: N)
    requires WellFormed(g)
    ensures v in Reachable(g, u) <==> Reaches(g, u, v)
  {
    var start := Successors(g, {u});
    var r := Reachable(g, u);
    forall x | x in start ensures Reaches(g, u, x) {
      ReachesByEdge(g, u, x);
    }
    ClosureSound(g, start, u);
    if Reaches(g, u, v) {
      var p :| IsPath(g, p) && p[0] == u && p[|p| - 1] == v;
      var k := 1;
      assert EdgeAt(g, p, 0);
      while k < |p| - 1
        invariant 1 <= k <= |p| - 1
        invariant p[k] in r
      {
        assert EdgeAt(g, p, k);
        assert p[k + 1] in Successors(g, r);
        k := k + 1;
      }
    }
  }

  /** The computable cycle test decides acyclicity. */
  lemma HasCycleIff<N(!new)>(g: ValueGraph<N>)
    requires WellFormed(g)
    ensures HasCycle(g) <==> !Acyclic(g)
  {
    if HasCycle(g) {
      var n :| n in g.nodes && OnCycle(g, n);
      ReachableIff(g, n, n);
    }
    if !Acyclic(g) {
      var n :| Reaches(g, n, n);
      ReachesNodes(g, n, n);
      ReachableIff(g, n, n);
      assert OnCycle(g, n);
    }
  }
}
