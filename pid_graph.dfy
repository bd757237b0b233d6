/**
 * The priority graph kept by the pid tracker: a directed graph over player
 * names whose edge pidder -> piddee holds the tick on which that assignment
 * was last made. This module gives the graph-level meaning of a new
 * assignment (with the "swap" eviction when it would close a cycle) and of
 * age-based pruning, and proves that both keep the graph acyclic.
 */
module PidGraph {

  import opened Wrappers
  import opened Graphs
  import opened PendingPidCheck

  /** Edges this many ticks old or older are pruned. */
  const MAX_PID_AGE: int := 150

  /** Whether inserting pidder -> piddee would close a cycle in an acyclic graph. */
  ghost predicate WouldCloseCycle(g: ValueGraph<string>, pidder: string, piddee: string)
  {
    pidder == piddee || Reaches(g, piddee, pidder)
  }

  /** A new assignment pidder -> piddee on `tick`. The edge is tried on a copy;
      if the copy has a cycle, both nodes (and every incident edge) are removed
      first. The edge is then put with value `tick`; an existing edge is
      renewed. A self-assignment is refused by the graph (no self loops), which
      is None here. */
  function Assign(g: ValueGraph<string>, pidder: string, piddee: string, tick: int): (r: Option<ValueGraph<string>>)
    requires WellFormed(g)
    ensures r.None? <==> pidder == piddee
    ensures r.Some? ==> WellFormed(r.value)
  {
    if pidder == piddee then None
    else
      var copy := PutEdgeValue(g, pidder, piddee, tick);
      var kept := if HasCycle(copy) then RemoveNode(RemoveNode(g, pidder), piddee) else g;
      Some(PutEdgeValue(kept, pidder, piddee, tick))
  }

  /** On an acyclic graph, the copy-and-test cycle check is the same as asking
      whether the new target already reaches the new source. */
  lemma CycleIffReverseReach(g: ValueGraph<string>, p: string, q: string, tick: int)
    requires WellFormed(g) && Acyclic(g)
    ensures HasCycle(PutEdgeValue(g, p, q, tick)) <==> WouldCloseCycle(g, p, q)
  {
    var h := PutEdgeValue(g, p, q, tick);
    HasCycleIff(h);
    if p == q {
      ReachesByEdge(h, p, p);
    } else if Reaches(g, q, p) {
      ReachesInSupergraph(g, h, q, p);
      ReachesThenEdge(h, q, p, q);
    } else if !Acyclic(h) {
      var n :| Reaches(h, n, n);
      var c :| IsPath(h, c) && c[0] == n && c[|c| - 1] == n;
      if i :| 0 <= i < |c| - 1 && c[i] == p && c[i + 1] == q {
        // q reaches n (or is n), and n reaches p (or is p), in h.
        if i + 1 < |c| - 1 { SubPath(h, c, i + 1, |c| - 1); }
        if i > 0 { SubPath(h, c, 0, i); }
        if i + 1 < |c| - 1 && i > 0 { ReachesTransitive(h, q, n, p); }
        ReachesAvoidingNewEdge(g, p, q, tick);
        assert false;
      } else {
        forall j | 0 <= j < |c| - 1 ensures EdgeAt(g, c, j) {
          assert EdgeAt(h, c, j);
        }
        assert IsPath(g, c);
        assert Reaches(g, n, n);
        assert false;
      }
    }
  }

  /** A path from q to p in g plus q's new edge p -> q yields one in g alone:
      cut it at the first visit to p, before the new edge can be used. */
  lemma ReachesAvoidingNewEdge(g: ValueGraph<string>, p: string, q: string, tick: int)
    requires p != q && Reaches(PutEdgeValue(g, p, q, tick), q, p)
    ensures Reaches(g, q, p)
  {
    var h := PutEdgeValue(g, p, q, tick);
    var d :| IsPath(h, d) && d[0] == q && d[|d| - 1] == p;
    var k := 1;
    while d[k] != p
      invariant 1 <= k < |d|
      invariant forall j :: 1 <= j < k ==> d[j] != p
      decreases |d| - k
    {
      k := k + 1;
    }
    var prefix := d[..k + 1];
    forall j | 0 <= j < |prefix| - 1 ensures EdgeAt(g, prefix, j) {
      assert EdgeAt(h, d, j);
    }
    assert IsPath(g, prefix);
  }

  /** A new assignment keeps the graph acyclic and always leaves the asserted
      edge in place with the current tick. */
  lemma AssignKeepsAcyclic(g: ValueGraph<string>, p: string, q: string, tick: int)
    requires WellFormed(g) && Acyclic(g) && p != q
    ensures Assign(g, p, q, tick).Some?
    ensures Acyclic(Assign(g, p, q, tick).value)
    ensures (p, q) in Assign(g, p, q, tick).value.edges
    ensures Assign(g, p, q, tick).value.edges[(p, q)] == tick
  {
    var copy := PutEdgeValue(g, p, q, tick);
    var r := Assign(g, p, q, tick).value;
    if !HasCycle(copy) {
      HasCycleIff(copy);
    } else {
      var m := RemoveNode(RemoveNode(g, p), q);
      assert r == PutEdgeValue(m, p, q, tick);
      forall n ensures !Reaches(r, n, n) {
        if Reaches(r, n, n) {
          var c :| IsPath(r, c) && c[0] == n && c[|c| - 1] == n;
          // Nothing leaves q in r, so the edge p -> q cannot be on a cycle.
          forall j | 0 <= j < |c| - 1 ensures EdgeAt(m, c, j) {
            assert EdgeAt(r, c, j);
            if c[j] == p && c[j + 1] == q {
              PathStep(r, c, if j + 1 < |c| - 1 then j + 1 else 0);
              assert false;
            }
          }
          assert IsPath(m, c);
          ReachesInSupergraph(m, g, n, n);
        }
      }
    }
  }

  /** Without a would-be cycle, an assignment just puts (or renews) the edge:
      every other edge and its value stays. */
  lemma AssignRenews(g: ValueGraph<string>, p: string, q: string, tick: int)
    requires WellFormed(g) && Acyclic(g) && !WouldCloseCycle(g, p, q)
    ensures Assign(g, p, q, tick).Some?
    ensures Assign(g, p, q, tick).value.nodes == g.nodes + {p, q}
    ensures Assign(g, p, q, tick).value.edges == g.edges[(p, q) := tick]
  {
    CycleIffReverseReach(g, p, q, tick);
  }

  /** With a would-be cycle (a swap), p and q lose every other incident edge;
      edges away from both are kept with their values. */
  lemma AssignSwaps(g: ValueGraph<string>, p: string, q: string, tick: int)
    requires WellFormed(g) && Acyclic(g) && Reaches(g, q, p)
    ensures Assign(g, p, q, tick).Some?
    ensures Assign(g, p, q, tick).value.nodes == g.nodes
    ensures Assign(g, p, q, tick).value.edges[(p, q)] == tick
    ensures forall e :: e in Assign(g, p, q, tick).value.edges && (e.0 == p || e.0 == q || e.1 == p || e.1 == q)
                        ==> e == (p, q)
    ensures forall e :: e in g.edges && e.0 != p && e.0 != q && e.1 != p && e.1 != q
                        ==> e in Assign(g, p, q, tick).value.edges && Assign(g, p, q, tick).value.edges[e] == g.edges[e]
    ensures forall e :: e in Assign(g, p, q, tick).value.edges && e != (p, q) ==> e in g.edges
  {
    assert p != q;
    ReachesNodes(g, q, p);
    CycleIffReverseReach(g, p, q, tick);
  }

  /** The assignments emitted during one tick, applied in order on that tick.
      The second component is false when one of them was a self-assignment:
      the graph refuses it, and the rest of the tick is abandoned. */
  function AssignAll(g: ValueGraph<string>, assignments: seq<Assignment>, tick: int): (r: (ValueGraph<string>, bool))
    requires WellFormed(g)
    ensures WellFormed(r.0)
    ensures r.1 <==> forall i :: 0 <= i < |assignments| ==> !assignments[i].SelfAssignment()
  {
    AssignFirst(g, assignments, |assignments|, tick)
  }

  /** The first k of the assignments, applied in order. */
  function AssignFirst(g: ValueGraph<string>, assignments: seq<Assignment>, k: nat, tick: int): (r: (ValueGraph<string>, bool))
    requires WellFormed(g) && k <= |assignments|
    ensures WellFormed(r.0)
    ensures r.1 <==> forall i :: 0 <= i < k ==> !assignments[i].SelfAssignment()
  {
    if k == 0 then (g, true)
    else
      var before := AssignFirst(g, assignments, k - 1, tick);
      if !before.1 then before
      else
        var last := assignments[k - 1];
        var step := Assign(before.0, last.pidder, last.piddee, tick);
        if step.None? then (before.0, false) else (step.value, true)
  }

  /** A single assignment is applied as `Assign` says; none leaves the graph as is. */
  lemma AssignAllOne(g: ValueGraph<string>, a: Assignment, tick: int)
    requires WellFormed(g)
    ensures AssignAll(g, [], tick) == (g, true)
    ensures AssignAll(g, [a], tick) ==
            if a.pidder == a.piddee then (g, false) else (Assign(g, a.pidder, a.piddee, tick).value, true)
  {
    assert AssignFirst(g, [a], 0, tick) == (g, true);
  }

  /** Applying assignments one after another keeps an acyclic graph acyclic. */
  lemma {:induction false} AssignFirstKeepsAcyclic(g: ValueGraph<string>, assignments: seq<Assignment>, k: nat, tick: int)
    requires WellFormed(g) && Acyclic(g) && k <= |assignments|
    ensures Acyclic(AssignFirst(g, assignments, k, tick).0)
  {
    if k > 0 {
      AssignFirstKeepsAcyclic(g, assignments, k - 1, tick);
      var before := AssignFirst(g, assignments, k - 1, tick);
      var last := assignments[k - 1];
      if before.1 && last.pidder != last.piddee {
        AssignKeepsAcyclic(before.0, last.pidder, last.piddee, tick);
      }
    }
  }

  lemma AssignAllKeepsAcyclic(g: ValueGraph<string>, assignments: seq<Assignment>, tick: int)
    requires WellFormed(g) && Acyclic(g)
    ensures Acyclic(AssignAll(g, assignments, tick).0)
  {
    AssignFirstKeepsAcyclic(g, assignments, |assignments|, tick);
  }

  /** Assignments appended later do not change how earlier ones apply. */
  lemma {:induction false} AssignFirstOfLonger(g: ValueGraph<string>, xs: seq<Assignment>, ys: seq<Assignment>, k: nat, tick: int)
    requires WellFormed(g) && k <= |xs|
    ensures AssignFirst(g, xs + ys, k, tick) == AssignFirst(g, xs, k, tick)
  {
    if k > 0 {
      AssignFirstOfLonger(g, xs, ys, k - 1, tick);
      assert (xs + ys)[k - 1] == xs[k - 1];
    }
  }

  lemma {:induction false} AssignFirstAppend(g: ValueGraph<string>, xs: seq<Assignment>, ys: seq<Assignment>, k: nat, tick: int)
    requires WellFormed(g) && k <= |ys|
    ensures AssignFirst(g, xs + ys, |xs| + k, tick) ==
            if AssignAll(g, xs, tick).1 then AssignFirst(AssignAll(g, xs, tick).0, ys, k, tick) else AssignAll(g, xs, tick)
  {
    if k == 0 {
      AssignFirstOfLonger(g, xs, ys, |xs|, tick);
    } else {
      AssignFirstAppend(g, xs, ys, k - 1, tick);
      assert (xs + ys)[|xs| + k - 1] == ys[k - 1];
    }
  }

  /** Applying xs + ys is applying xs, then ys to the result unless xs was
      abandoned. */
  lemma AssignAllAppend(g: ValueGraph<string>, xs: seq<Assignment>, ys: seq<Assignment>, tick: int)
    requires WellFormed(g)
    ensures AssignAll(g, xs + ys, tick) ==
            if AssignAll(g, xs, tick).1 then AssignAll(AssignAll(g, xs, tick).0, ys, tick) else AssignAll(g, xs, tick)
  {
    AssignFirstAppend(g, xs, ys, |ys|, tick);
  }

  /** After a refused self-assignment nothing further is applied. */
  lemma AssignAllStopsAtRefusal(g: ValueGraph<string>, xs: seq<Assignment>, ys: seq<Assignment>, tick: int)
    requires WellFormed(g) && !AssignAll(g, xs, tick).1
    ensures AssignAll(g, xs + ys, tick) == AssignAll(g, xs, tick)
  {
    AssignAllAppend(g, xs, ys, tick);
  }

  /** Whether an edge assigned on `assignedOnTick` has expired by `currentTick`. */
  predicate Expired(assignedOnTick: int, currentTick: int)
  {
    currentTick >= assignedOnTick + MAX_PID_AGE
  }

  /** The edges collected for removal, before any is removed. */
  function ExpiredEdges(g: ValueGraph<string>, currentTick: int): (r: set<(string, string)>)
    ensures forall e :: e in r <==> e in g.edges && Expired(g.edges[e], currentTick)
  {
    set e | e in g.edges && Expired(g.edges[e], currentTick)
  }

  /** The graph once expired edges are pruned. */
  function Culled(g: ValueGraph<string>, currentTick: int): (r: ValueGraph<string>)
    ensures r.nodes == g.nodes
    ensures forall e :: e in r.edges <==> e in g.edges && currentTick - g.edges[e] < MAX_PID_AGE
    ensures forall e :: e in r.edges ==> r.edges[e] == g.edges[e]
    ensures WellFormed(g) ==> WellFormed(r)
    ensures Acyclic(g) ==> Acyclic(r)
  {
    var r := ValueGraph(g.nodes, g.edges - ExpiredEdges(g, currentTick));
    assert Acyclic(g) ==> Acyclic(r) by {
      if Acyclic(g) { AcyclicSubgraph(r, g); }
    }
    r
  }
}
