/**
 * Kahn's topological sort over the nodes of a graph, as an iterator whose
 * `ComputeNext` yields one node per call: a queue of roots (nodes all of
 * whose predecessors have been yielded) and a map from every other node not
 * yet yielded to its number of predecessors not yet yielded.
 *
 * `Sort` runs the iterator to the end. On an acyclic graph it yields every
 * node exactly once, each edge's source before its target; on a graph with
 * a cycle the iteration stops with the failure "graph has at least one cycle".
 */
module TopologicalSort {
  import opened Graphs

  /** What one call of `ComputeNext` yields. */
  datatype Step<N> = Next(node: N) | EndOfData | Failure(message: string)

  const CYCLE_MESSAGE := "graph has at least one cycle"

  /** The number of nodes that have an edge into v. */
  function InDegree<N(!new)>(g: ValueGraph<N>, v: N): nat
  {
    |set u | u in g.nodes && (u, v) in g.edges|
  }

  /** The number of predecessors of v that are not in `done`. */
  ghost function PendingInDegree<N(!new)>(g: ValueGraph<N>, v: N, done: seq<N>): nat
  {
    |set u | u in g.nodes && (u, v) in g.edges && u !in done|
  }

  function Elements<N>(s: seq<N>): set<N>
  {
    set x | x in s
  }

  predicate NoDuplicates<N(==)>(s: seq<N>)
  {
    forall i, j :: 0 <= i < j < |s| ==> s[i] != s[j]
  }

  /** Every edge between nodes of s runs forward in s. */
  ghost predicate Ordered<N(!new)>(g: ValueGraph<N>, s: seq<N>)
  {
    forall i, j :: 0 <= i < |s| && 0 <= j < |s| && (s[i], s[j]) in g.edges ==> i < j
  }

  /** Every predecessor of a node of s is in s. */
  ghost predicate PredecessorsWithin<N(!new)>(g: ValueGraph<N>, s: seq<N>)
  {
    forall u, v :: (u, v) in g.edges && v in s ==> u in s
  }

  /** Some node of s has an edge into v. */
  ghost predicate HasPredecessorIn<N(!new)>(g: ValueGraph<N>, s: set<N>, v: N)
  {
    exists u :: u in s && (u, v) in g.edges
  }

  /** The number of nodes the sort yields on an acyclic graph: the length of
      every duplicate-free listing of all the nodes. */
  function Size<N(!new)>(g: ValueGraph<N>): (r: nat)
    ensures forall order :: NoDuplicates(order) && Elements(order) == g.nodes ==> |order| == r
  {
    assert forall order :: NoDuplicates(order) && Elements(order) == g.nodes ==> |order| == |g.nodes| by {
      forall order | NoDuplicates(order) && Elements(order) == g.nodes {
        NoDuplicatesCard(order);
      }
    }
    |g.nodes|
  }

  // ---------------------------------------------------------------------
  // Facts about in-degrees, duplicates and cycles
  // ---------------------------------------------------------------------

  lemma InDegreeIsPending<N(!new)>(g: ValueGraph<N>, v: N)
    ensures PendingInDegree(g, v, []) == InDegree(g, v)
  {
    assert (set u | u in g.nodes && (u, v) in g.edges && u !in []) == (set u | u in g.nodes && (u, v) in g.edges);
  }

  /** Yielding `next` lowers the pending in-degree of its successors by one
      and leaves every other node's unchanged. */
  lemma PendingAfterEmit<N(!new)>(g: ValueGraph<N>, v: N, done: seq<N>, next: N)
    requires next in g.nodes && next !in done
    ensures PendingInDegree(g, v, done + [next]) ==
            if (next, v) in g.edges then PendingInDegree(g, v, done) - 1 else PendingInDegree(g, v, done)
  {
    var before := set u | u in g.nodes && (u, v) in g.edges && u !in done;
    var after := set u | u in g.nodes && (u, v) in g.edges && u !in done + [next];
    if (next, v) in g.edges {
      assert after == before - {next};
    } else {
      assert after == before;
    }
  }

  /** A node with no pending predecessor has all its predecessors in `done`. */
  lemma NoPendingPredecessor<N(!new)>(g: ValueGraph<N>, v: N, done: seq<N>, u: N)
    requires WellFormed(g) && PendingInDegree(g, v, done) == 0 && (u, v) in g.edges
    ensures u in done
  {
    var pending := set w | w in g.nodes && (w, v) in g.edges && w !in done;
    assert u in g.nodes && (u !in done ==> u in pending);
  }

  /** A node with a pending predecessor has one outside `done`. */
  lemma SomePendingPredecessor<N(!new)>(g: ValueGraph<N>, v: N, done: seq<N>) returns (u: N)
    requires PendingInDegree(g, v, done) > 0
    ensures u in g.nodes && (u, v) in g.edges && u !in done
  {
    var pending := set w | w in g.nodes && (w, v) in g.edges && w !in done;
    u :| u in pending;
  }

  lemma {:induction false} NoDuplicatesCard<N>(s: seq<N>)
    requires NoDuplicates(s)
    ensures |Elements(s)| == |s|
  {
    if s != [] {
      var init := s[..|s| - 1];
      assert NoDuplicates(init);
      NoDuplicatesCard(init);
      assert Elements(s) == Elements(init) + {s[|s| - 1]};
      assert s[|s| - 1] !in Elements(init);
    }
  }

  /** An edge from u into the start of a path that passes through u closes a cycle. */
  lemma ClosesCycle<N(!new)>(g: ValueGraph<N>, p: seq<N>, u: N, j: int)
    requires forall i :: 0 <= i < |p| - 1 ==> EdgeAt(g, p, i)
    requires 0 <= j < |p| && p[j] == u && (u, p[0]) in g.edges
    ensures !Acyclic(g)
  {
    var cycle := [u] + p[..j + 1];
    forall i | 0 <= i < |cycle| - 1 ensures EdgeAt(g, cycle, i) {
      if i > 0 { assert EdgeAt(g, p, i - 1); }
    }
    assert IsPath(g, cycle) && cycle[0] == u && cycle[|cycle| - 1] == u;
    assert Reaches(g, u, u);
  }

  /** An edge into the start of a path extends it backwards. */
  lemma ExtendBackwards<N(!new)>(g: ValueGraph<N>, p: seq<N>, u: N)
    requires |p| >= 1 && (u, p[0]) in g.edges
    requires forall i :: 0 <= i < |p| - 1 ==> EdgeAt(g, p, i)
    ensures forall i :: 0 <= i < |[u] + p| - 1 ==> EdgeAt(g, [u] + p, i)
  {
    var q := [u] + p;
    forall i | 0 <= i < |q| - 1 ensures EdgeAt(g, q, i) {
      if i > 0 { assert EdgeAt(g, p, i - 1); }
    }
  }

  /** When every node of a set s has a predecessor in s, following
      predecessors from any node of s closes a cycle. `p` is a path, walked
      backwards so far, of distinct nodes of s. */
  lemma {:induction false} BackwardsWalkCloses<N(!new)>(g: ValueGraph<N>, s: set<N>, p: seq<N>)
    requires forall v {:trigger HasPredecessorIn(g, s, v)} :: v in s ==> HasPredecessorIn(g, s, v)
    requires 1 <= |p| && NoDuplicates(p) && Elements(p) <= s
    requires forall i :: 0 <= i < |p| - 1 ==> EdgeAt(g, p, i)
    ensures !Acyclic(g)
    decreases |s - Elements(p)|
  {
    assert p[0] in Elements(p);
    assert HasPredecessorIn(g, s, p[0]);
    var u :| u in s && (u, p[0]) in g.edges;
    if u in p {
      var j :| 0 <= j < |p| && p[j] == u;
      ClosesCycle(g, p, u, j);
    } else {
      var q := [u] + p;
      ExtendBackwards(g, p, u);
      assert Elements(q) == Elements(p) + {u};
      assert s - Elements(q) == (s - Elements(p)) - {u};
      BackwardsWalkCloses(g, s, q);
    }
  }

  lemma NoSourceMeansCycle<N(!new)>(g: ValueGraph<N>, s: set<N>)
    requires s != {}
    requires forall v {:trigger HasPredecessorIn(g, s, v)} :: v in s ==> HasPredecessorIn(g, s, v)
    ensures !Acyclic(g)
  {
    var v :| v in s;
    assert Elements([v]) == {v};
    BackwardsWalkCloses(g, s, [v]);
  }

  /** A duplicate-free listing of the nodes in which every edge runs forward
      leaves no room for a cycle. */
  lemma OrderedAcyclic<N(!new)>(g: ValueGraph<N>, order: seq<N>)
    requires WellFormed(g) && Elements(order) == g.nodes && NoDuplicates(order) && Ordered(g, order)
    ensures Acyclic(g)
  {
    forall n ensures !Reaches(g, n, n) {
      if Reaches(g, n, n) {
        var p :| IsPath(g, p) && p[0] == n && p[|p| - 1] == n;
        PathStep(g, p, 0);
        var i0 :| 0 <= i0 < |order| && order[i0] == p[0];
        var k := 0;
        var ik := i0;
        while k < |p| - 1
          invariant 0 <= k <= |p| - 1 && 0 <= ik < |order| && order[ik] == p[k]
          invariant k > 0 ==> i0 < ik
        {
          PathStep(g, p, k);
          assert p[k + 1] in Elements(order);
          var next :| 0 <= next < |order| && order[next] == p[k + 1];
          k, ik := k + 1, next;
        }
      }
    }
  }

  // ---------------------------------------------------------------------
  // The iterator's state, as values
  // ---------------------------------------------------------------------

  /** Every node is yielded, queued as a root or counted as a non-root,
      exactly one of the three. */
  ghost predicate Partitioned<N(!new)>(g: ValueGraph<N>, emitted: seq<N>, roots: seq<N>, nonRoots: map<N, int>)
  {
    (forall x :: x in g.nodes ==> x in emitted || x in roots || x in nonRoots) &&
    (forall x :: x in emitted ==> x in g.nodes && x !in roots && x !in nonRoots) &&
    (forall x :: x in roots ==> x in g.nodes && x !in nonRoots) &&
    (forall x :: x in nonRoots ==> x in g.nodes) &&
    NoDuplicates(emitted) && NoDuplicates(roots)
  }

  /** The yielded nodes form a prefix of a topological order and every root
      has all its predecessors yielded. */
  ghost predicate PrefixOrdered<N(!new)>(g: ValueGraph<N>, emitted: seq<N>, roots: seq<N>)
  {
    Ordered(g, emitted) && PredecessorsWithin(g, emitted) &&
    (forall x, u :: x in roots && (u, x) in g.edges ==> u in emitted)
  }

  /** Between steps: besides the above, every non-root is counted with its
      number of predecessors not yet yielded, which is positive. */
  ghost predicate ValidState<N(!new)>(g: ValueGraph<N>, emitted: seq<N>, roots: seq<N>, nonRoots: map<N, int>)
  {
    WellFormed(g) && Partitioned(g, emitted, roots, nonRoots) && PrefixOrdered(g, emitted, roots) &&
    (forall v :: v in nonRoots ==> nonRoots[v] == PendingInDegree(g, v, emitted) && nonRoots[v] > 0)
  }

  /** Halfway through a step: `next` has been yielded, but the counts of its
      successors, all of them non-roots, still include it. */
  ghost predicate EmittingState<N(!new)>(g: ValueGraph<N>, emitted: seq<N>, roots: seq<N>, nonRoots: map<N, int>, next: N)
  {
    WellFormed(g) && Partitioned(g, emitted, roots, nonRoots) && PrefixOrdered(g, emitted, roots) &&
    |emitted| > 0 && emitted[|emitted| - 1] == next &&
    (forall v :: (next, v) in g.edges ==> v in nonRoots) &&
    (forall v :: v in nonRoots ==>
       nonRoots[v] == PendingInDegree(g, v, emitted) + (if (next, v) in g.edges then 1 else 0) &&
       nonRoots[v] > 0)
  }

  /** What a valid state says about the nodes yielded so far. */
  lemma ValidYielded<N(!new)>(g: ValueGraph<N>, emitted: seq<N>, roots: seq<N>, nonRoots: map<N, int>)
    requires ValidState(g, emitted, roots, nonRoots)
    ensures NoDuplicates(emitted) && Elements(emitted) <= g.nodes && Ordered(g, emitted)
    ensures |emitted| <= |g.nodes|
  {
    NoDuplicatesCard(emitted);
    if Elements(emitted) != g.nodes {
      ProperSubsetSmaller(Elements(emitted), g.nodes);
    }
  }

  /** Yielding the first root of a valid state: every count now includes
      exactly one too many for each successor of the root. */
  lemma PoppedEmitting<N(!new)>(g: ValueGraph<N>, done: seq<N>, roots: seq<N>, nonRoots: map<N, int>)
    requires ValidState(g, done, roots, nonRoots) && roots != []
    ensures EmittingState(g, done + [roots[0]], roots[1..], nonRoots, roots[0])
  {
    var next := roots[0];
    var emitted := done + [next];
    forall v | v in nonRoots
      ensures nonRoots[v] == PendingInDegree(g, v, emitted) + (if (next, v) in g.edges then 1 else 0)
    {
      PendingAfterEmit(g, v, done, next);
    }
    forall v | (next, v) in g.edges ensures v !in done && v != next {
    }
    forall i, j | 0 <= i < |emitted| && 0 <= j < |emitted| && (emitted[i], emitted[j]) in g.edges
      ensures i < j
    {
      assert j < |done| ==> emitted[j] in done;
    }
  }

  /** The non-roots whose count the emission of `next` brings to zero. */
  ghost function Released<N(!new)>(g: ValueGraph<N>, nonRoots: map<N, int>, next: N): set<N>
  {
    set v | v in nonRoots && nonRoots[v] == 1 && (next, v) in g.edges
  }

  /** Lowering the count of each successor of `next` by one, dropping those
      that reach zero from the non-roots and queueing them, gives a valid
      state again. */
  lemma ReleasedValid<N(!new)>(g: ValueGraph<N>, emitted: seq<N>, next: N,
                               queued: seq<N>, start: map<N, int>, added: seq<N>, nonRoots: map<N, int>)
    requires EmittingState(g, emitted, queued, start, next)
    requires NoDuplicates(added) && forall v :: v in added <==> v in Released(g, start, next)
    requires forall v :: v in nonRoots <==> v in start && v !in Released(g, start, next)
    requires forall v :: v in nonRoots ==>
               nonRoots[v] == if (next, v) in g.edges then start[v] - 1 else start[v]
    ensures ValidState(g, emitted, queued + added, nonRoots)
  {
    var roots := queued + added;
    forall x, u | x in roots && (u, x) in g.edges ensures u in emitted {
      if x in added {
        PendingAfterEmit(g, x, emitted[..|emitted| - 1], next);
        assert emitted[..|emitted| - 1] + [next] == emitted;
        NoPendingPredecessor(g, x, emitted, u);
      }
    }
    forall i, j | 0 <= i < j < |roots| ensures roots[i] != roots[j] {
      if i < |queued| <= j {
        assert roots[j] in added;
      }
    }
  }

  // ---------------------------------------------------------------------
  // The iterator
  // ---------------------------------------------------------------------

  class TopologicalOrderIterator<N(==,!new)> {
    const graph: ValueGraph<N>
    var roots: seq<N>
    var nonRootsToInDegree: map<N, int>
    /** The nodes yielded so far, in order. */
    ghost var emitted: seq<N>

    ghost predicate Valid()
      reads this
    {
      ValidState(graph, emitted, roots, nonRootsToInDegree)
    }

    ghost predicate Emitting(next: N)
      reads this
    {
      EmittingState(graph, emitted, roots, nonRootsToInDegree, next)
    }

    /** Queues the nodes of in-degree zero, in some order, and counts the
        in-degree of every other node. */
    constructor (graph: ValueGraph<N>)
      requires WellFormed(graph)
      ensures this.graph == graph && emitted == []
      ensures NoDuplicates(roots) && Elements(roots) == set v | v in graph.nodes && InDegree(graph, v) == 0
      ensures nonRootsToInDegree == map v | v in graph.nodes && InDegree(graph, v) > 0 :: InDegree(graph, v)
      ensures Valid()
    {
      var queued: seq<N> := [];
      var rest := graph.nodes;
      while rest != {}
        invariant rest <= graph.nodes && NoDuplicates(queued)
        invariant forall x :: x in queued <==> x in graph.nodes && x !in rest && InDegree(graph, x) == 0
        decreases |rest|
      {
        var x :| x in rest;
        if InDegree(graph, x) == 0 {
          queued := queued + [x];
        }
        rest := rest - {x};
      }
      this.graph := graph;
      roots := queued;
      nonRootsToInDegree := map v | v in graph.nodes && InDegree(graph, v) > 0 :: InDegree(graph, v);
      emitted := [];
      new;
      forall v | v in graph.nodes ensures PendingInDegree(graph, v, []) == InDegree(graph, v) {
        InDegreeIsPending(graph, v);
      }
      forall x, u | x in roots && (u, x) in graph.edges ensures false {
        NoPendingPredecessor(graph, x, [], u);
      }
    }

    /** One step of Kahn's algorithm: yields the first root and releases the
        successors whose last pending predecessor it was; with no root left,
        ends the iteration, or fails when nodes are still waiting. */
    method ComputeNext() returns (step: Step<N>)
      requires Valid()
      modifies this`roots, this`nonRootsToInDegree, this`emitted
      ensures Valid()
      ensures old(roots) != [] ==> step == Next(old(roots)[0]) && emitted == old(emitted) + [step.node]
      ensures old(roots) != [] ==>
                |roots| >= |old(roots)| - 1 && roots[..|old(roots)| - 1] == old(roots)[1..] &&
                Elements(roots[|old(roots)| - 1..]) == Released(graph, old(nonRootsToInDegree), old(roots)[0]) &&
                nonRootsToInDegree.Keys == old(nonRootsToInDegree).Keys - Released(graph, old(nonRootsToInDegree), old(roots)[0])
      ensures old(roots) == [] ==>
                roots == old(roots) && nonRootsToInDegree == old(nonRootsToInDegree) && emitted == old(emitted)
      ensures old(roots) == [] && old(nonRootsToInDegree) == map[] ==>
                step == EndOfData && Elements(emitted) == graph.nodes && |emitted| == |graph.nodes|
      ensures old(roots) == [] && old(nonRootsToInDegree) != map[] ==>
                step == Failure(CYCLE_MESSAGE) && !Acyclic(graph)
    {
      if roots != [] {
        var next := PopRoot();
        ReleaseSuccessors(next);
        step := Next(next);
        return;
      }
      if nonRootsToInDegree == map[] {
        assert Elements(emitted) == graph.nodes;
        NoDuplicatesCard(emitted);
        step := EndOfData;
        return;
      }
      forall v | v in nonRootsToInDegree.Keys
        ensures HasPredecessorIn(graph, nonRootsToInDegree.Keys, v)
      {
        var u := SomePendingPredecessor(graph, v, emitted);
        assert u in nonRootsToInDegree.Keys;
      }
      NoSourceMeansCycle(graph, nonRootsToInDegree.Keys);
      step := Failure(CYCLE_MESSAGE);
    }

    /** Takes the first root off the queue and yields it. */
    method PopRoot() returns (next: N)
      requires Valid() && roots != []
      modifies this`roots, this`emitted
      ensures next == old(roots)[0] && roots == old(roots)[1..] && emitted == old(emitted) + [next]
      ensures Emitting(next)
    {
      PoppedEmitting(graph, emitted, roots, nonRootsToInDegree);
      next := roots[0];
      roots := roots[1..];
      emitted := emitted + [next];
    }

    /** Lowers the count of each successor of `next` and queues those that
        reach zero, in some order. */
    method ReleaseSuccessors(next: N)
      requires Emitting(next)
      modifies this`roots, this`nonRootsToInDegree
      ensures Valid()
      ensures |roots| >= |old(roots)| && roots[..|old(roots)|] == old(roots)
      ensures Elements(roots[|old(roots)|..]) == Released(graph, old(nonRootsToInDegree), next)
      ensures nonRootsToInDegree.Keys == old(nonRootsToInDegree).Keys - Released(graph, old(nonRootsToInDegree), next)
    {
      ghost var start := nonRootsToInDegree;
      ghost var queued := roots;
      var successors := Successors(graph, {next});
      assert forall v :: v in successors <==> (next, v) in graph.edges;
      var inDegrees, added := LowerCounts(nonRootsToInDegree, successors);
      roots, nonRootsToInDegree := roots + added, inDegrees;
      ReleasedValid(graph, emitted, next, queued, start, added, nonRootsToInDegree);
    }
  }

  /** Lowers the count of each of `successors` by one, in some order, and
      drops those that reach zero, listing them in the order dropped. */
  method LowerCounts<N(==)>(start: map<N, int>, successors: set<N>) returns (inDegrees: map<N, int>, added: seq<N>)
    requires successors <= start.Keys
    ensures NoDuplicates(added)
    ensures forall v :: v in added <==> v in successors && start[v] == 1
    ensures forall v :: v in inDegrees <==> v in start && v !in added
    ensures forall v :: v in inDegrees ==> inDegrees[v] == if v in successors then start[v] - 1 else start[v]
  {
    inDegrees, added := start, [];
    var remaining := successors;
    while remaining != {}
      invariant remaining <= successors && NoDuplicates(added)
      invariant forall v :: v in added <==> v in successors && v !in remaining && start[v] == 1
      invariant forall v :: v in inDegrees <==> v in start && v !in added
      invariant forall v :: v in inDegrees ==>
                  inDegrees[v] == if v in successors && v !in remaining then start[v] - 1 else start[v]
      decreases |remaining|
    {
      var successor :| successor in remaining;
      var newInDegree := inDegrees[successor] - 1;
      inDegrees := inDegrees[successor := newInDegree];
      if newInDegree == 0 {
        inDegrees := inDegrees - {successor};
        added := added + [successor];
      }
      remaining := remaining - {successor};
    }
  }

  /** Runs the iterator to the end: the nodes in the order yielded, and
      whether the iteration ended normally rather than with the cycle failure. */
  method Sort<N(==,!new)>(graph: ValueGraph<N>) returns (order: seq<N>, ok: bool)
    requires WellFormed(graph)
    ensures ok <==> Acyclic(graph)
    ensures NoDuplicates(order) && Elements(order) <= graph.nodes && Ordered(graph, order)
    ensures ok ==> Elements(order) == graph.nodes && |order| == Size(graph)
  {
    var walk := new TopologicalOrderIterator(graph);
    order := [];
    ValidYielded(graph, walk.emitted, walk.roots, walk.nonRootsToInDegree);
    while true
      invariant walk.Valid() && walk.graph == graph && order == walk.emitted
      invariant NoDuplicates(order) && Elements(order) <= graph.nodes && Ordered(graph, order)
      invariant |order| <= |graph.nodes|
      decreases |graph.nodes| - |order|
    {
      var step := walk.ComputeNext();
      ValidYielded(graph, walk.emitted, walk.roots, walk.nonRootsToInDegree);
      match step {
        case Next(node) =>
          order := order + [node];
        case EndOfData =>
          OrderedAcyclic(graph, order);
          return order, true;
        case Failure(_) =>
          return order, false;
      }
    }
  }
}
