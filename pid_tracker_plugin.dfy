/**
 * The pid tracker plugin: a store of pending two-tick checks, changed in place
 * by the projectile, animation and hitsplat handlers and finalised once per
 * tick, and the priority graph the finalised checks feed. Each handler is
 * proved to change the store exactly as the matching function of PidStore
 * says, and to keep the invariant `Valid`: distinct, well-formed checks and an
 * acyclic graph.
 */
module PidTracker {

  import opened Wrappers
  import opened Graphs
  import opened PendingPidCheck
  import opened PidStore
  import opened PidGraph

  /** No element of xs occurs twice. The quantifier hangs on `Apart`, so it is
      only unfolded where a proof names two positions. */
  predicate Distinct<T(==)>(xs: seq<T>)
  {
    forall i, j :: 0 <= i < j < |xs| ==> Apart(xs, i, j)
  }

  predicate Apart<T(==)>(xs: seq<T>, i: int, j: int)
    requires 0 <= i < |xs| && 0 <= j < |xs|
  {
    xs[i] != xs[j]
  }

  /** Elements at two different positions of a distinct sequence differ. */
  lemma DistinctAt<T>(xs: seq<T>, i: int, j: int)
    requires Distinct(xs) && 0 <= i < |xs| && 0 <= j < |xs| && i != j
    ensures xs[i] != xs[j]
  {
    if i < j { assert Apart(xs, i, j); } else { assert Apart(xs, j, i); }
  }

  /** The last element of a distinct sequence is not among the others, and
      the others are distinct. */
  lemma DistinctInit<T>(xs: seq<T>)
    requires Distinct(xs) && xs != []
    ensures xs[|xs| - 1] !in xs[..|xs| - 1]
    ensures Distinct(xs[..|xs| - 1])
  {
    var init := xs[..|xs| - 1];
    forall i | 0 <= i < |init| ensures init[i] != xs[|xs| - 1] {
      DistinctAt(xs, i, |xs| - 1);
    }
    forall i, j | 0 <= i < j < |init| ensures Apart(init, i, j) {
      DistinctAt(xs, i, j);
    }
  }

  /** Appending a new element keeps a sequence distinct. */
  lemma DistinctAppend<T>(xs: seq<T>, x: T)
    requires Distinct(xs) && x !in xs
    ensures Distinct(xs + [x])
  {
    var ys := xs + [x];
    forall i, j | 0 <= i < j < |ys| ensures Apart(ys, i, j) {
      if j < |xs| { DistinctAt(xs, i, j); } else { assert ys[i] == xs[i]; }
    }
  }

  /** The contents of a list of checks, in order. */
  function ViewsOf(cs: seq<PendingPidCheck>): (r: seq<PidCheck>)
    reads cs
    ensures |r| == |cs|
    ensures forall i {:trigger r[i]} :: 0 <= i < |cs| ==> r[i] == cs[i].View()
  {
    if cs == [] then [] else ViewsOf(cs[..|cs| - 1]) + [cs[|cs| - 1].View()]
  }

  /** Checks holding, one by one, the first n finalised contents of `before`
      and then the rest of `before` hold FinalisedFirst(before, n). */
  lemma FinalisedUpToViews(cs: seq<PendingPidCheck>, n: nat, before: seq<PidCheck>, currentTick: int,
                           hitsplatCounts: HitsplatCounts)
    requires n <= |cs| == |before|
    requires forall k {:trigger cs[k].View()} :: 0 <= k < n ==> cs[k].View() == Finalised(before[k], currentTick, hitsplatCounts)
    requires forall k {:trigger cs[k].View()} :: n <= k < |cs| ==> cs[k].View() == before[k]
    ensures ViewsOf(cs) == FinalisedFirst(before, n, currentTick, hitsplatCounts)
  {
    var v := ViewsOf(cs);
    var f := FinalisedFirst(before, n, currentTick, hitsplatCounts);
    forall k | 0 <= k < |cs| ensures v[k] == f[k] {
      assert v[k] == cs[k].View();
    }
  }

  /** The checks of cs aimed at `target`, in order. */
  function ChecksWithTarget(cs: seq<PendingPidCheck>, target: string): (r: seq<PendingPidCheck>)
    ensures forall i :: 0 <= i < |r| ==> r[i] in cs && r[i].target == target
    ensures forall i :: 0 <= i < |cs| && cs[i].target == target ==> cs[i] in r
    ensures Distinct(cs) ==> Distinct(r)
  {
    if cs == [] then []
    else
      var last := cs[|cs| - 1];
      var before := ChecksWithTarget(cs[..|cs| - 1], target);
      assert forall i :: 0 <= i < |cs| - 1 ==> cs[i] == cs[..|cs| - 1][i];
      if last.target == target then
        assert Distinct(cs) ==> Distinct(before + [last]) by {
          if Distinct(cs) { DistinctInit(cs); DistinctAppend(before, last); }
        }
        before + [last]
      else
        assert Distinct(cs) ==> Distinct(before) by {
          if Distinct(cs) { DistinctInit(cs); }
        }
        before
  }

  /** The orphan melee checks of cs into which an animation by the attacker of
      `target` on `currentTick` can be filled, in order. */
  function MatchingMeleePidChecks(cs: seq<PendingPidCheck>, currentTick: int, target: string): (r: seq<PendingPidCheck>)
    reads cs
    ensures forall i :: 0 <= i < |r| ==> r[i] in cs && IsOrphan(r[i].View(), currentTick, target)
    ensures forall i :: 0 <= i < |cs| && IsOrphan(cs[i].View(), currentTick, target) ==> cs[i] in r
    ensures Distinct(cs) ==> Distinct(r)
  {
    if cs == [] then []
    else
      var last := cs[|cs| - 1];
      var before := MatchingMeleePidChecks(cs[..|cs| - 1], currentTick, target);
      assert forall i :: 0 <= i < |cs| - 1 ==> cs[i] == cs[..|cs| - 1][i];
      if IsOrphan(last.View(), currentTick, target) then
        assert Distinct(cs) ==> Distinct(before + [last]) by {
          if Distinct(cs) { DistinctInit(cs); DistinctAppend(before, last); }
        }
        before + [last]
      else
        assert Distinct(cs) ==> Distinct(before) by {
          if Distinct(cs) { DistinctInit(cs); }
        }
        before
  }

  /** The checks of cs that do not finish on `currentTick`, in order. */
  function UnfinishedChecks(cs: seq<PendingPidCheck>, currentTick: int): (r: seq<PendingPidCheck>)
    ensures forall c :: c in r ==> c in cs && c.tick2 != currentTick
    ensures forall i :: 0 <= i < |cs| && cs[i].tick2 != currentTick ==> cs[i] in r
    ensures Distinct(cs) ==> Distinct(r)
  {
    if cs == [] then []
    else
      var last := cs[|cs| - 1];
      var before := UnfinishedChecks(cs[..|cs| - 1], currentTick);
      assert cs == cs[..|cs| - 1] + [last];
      if last.tick2 == currentTick then
        assert Distinct(cs) ==> Distinct(before) by {
          if Distinct(cs) { DistinctInit(cs); }
        }
        before
      else
        assert Distinct(cs) ==> Distinct(before + [last]) by {
          if Distinct(cs) { DistinctInit(cs); DistinctAppend(before, last); }
        }
        before + [last]
  }

  /** Keeping the unfinished check objects keeps exactly the unfinished contents. */
  lemma {:induction false} ViewsOfUnfinished(cs: seq<PendingPidCheck>, currentTick: int)
    ensures ViewsOf(UnfinishedChecks(cs, currentTick)) == Unfinished(ViewsOf(cs), currentTick)
    decreases |cs|
  {
    if cs != [] {
      var init := cs[..|cs| - 1];
      var vs := ViewsOf(cs);
      assert vs[..|vs| - 1] == ViewsOf(init);
      ViewsOfUnfinished(init, currentTick);
      var u := UnfinishedChecks(init, currentTick);
      if cs[|cs| - 1].tick2 != currentTick {
        var w := u + [cs[|cs| - 1]];
        assert w[..|w| - 1] == u;
      }
    }
  }

  /** Fills `attacker` into every check of cs. */
  method SetAttackerOnAll(cs: seq<PendingPidCheck>, attacker: string)
    requires Distinct(cs)
    modifies cs
    ensures forall k :: 0 <= k < |cs| ==> cs[k].View() == old(cs[k].View()).(attacker := Some(attacker))
  {
    for j := 0 to |cs|
      invariant forall k :: 0 <= k < j ==> cs[k].View() == old(cs[k].View()).(attacker := Some(attacker))
      invariant forall k :: j <= k < |cs| ==> cs[k].View() == old(cs[k].View())
    {
      forall k | 0 <= k < |cs| && k != j ensures cs[k] != cs[j] { DistinctAt(cs, k, j); }
      cs[j].SetAttacker(Some(attacker));
    }
  }

  /** Counts one more hitsplat on `tick` in every check of cs. */
  method IncrementCountOnAll(cs: seq<PendingPidCheck>, tick: int)
    requires Distinct(cs)
    modifies cs
    ensures forall k :: 0 <= k < |cs| ==> cs[k].View() == old(cs[k].View()).CountedOn(tick)
  {
    for j := 0 to |cs|
      invariant forall k :: 0 <= k < j ==> cs[k].View() == old(cs[k].View()).CountedOn(tick)
      invariant forall k :: j <= k < |cs| ==> cs[k].View() == old(cs[k].View())
    {
      forall k | 0 <= k < |cs| && k != j ensures cs[k] != cs[j] { DistinctAt(cs, k, j); }
      cs[j].IncrementCountForTick(tick);
    }
  }

  lemma CountedIsAfterHitsplat(before: seq<PidCheck>, after: seq<PidCheck>, target: string, currentTick: int)
    requires HasTarget(before, target) && |after| == |before|
    requires forall k :: 0 <= k < |after| ==>
               after[k] == if before[k].target == target then before[k].CountedOn(currentTick) else before[k]
    ensures after == AfterHitsplat(before, target, currentTick)
  {
  }

  lemma FilledIsAfterAnimation(before: seq<PidCheck>, after: seq<PidCheck>, attacker: string, target: string,
                               animation: int, meleeAnimations: set<int>, currentTick: int)
    requires HasOrphan(before, currentTick, target) && animation in meleeAnimations && |after| == |before|
    requires forall k :: 0 <= k < |after| ==>
               after[k] == if IsOrphan(before[k], currentTick, target) then before[k].(attacker := Some(attacker)) else before[k]
    ensures after == AfterAnimation(before, attacker, Some(target), animation, meleeAnimations, currentTick)
  {
  }

  /** The n-th check of s (counting from 1) is the one whose assignment the
      graph g refuses first: everything emitted before it is accepted, and
      what it emits is not. */
  ghost predicate RefusedAt(g: ValueGraph<string>, s: seq<PidCheck>, n: nat, currentTick: int, hitsplatCounts: HitsplatCounts)
    requires WellFormed(g)
  {
    && 0 < n <= |s|
    && AssignAll(g, EmittedUpTo(s, n - 1, currentTick, hitsplatCounts), currentTick).1
    && !AssignAll(g, EmittedUpTo(s, n, currentTick, hitsplatCounts), currentTick).1
  }

  /** At most one check can be the first refused: the stopping point of a tick
      is determined by the store, the graph and the counts. */
  lemma RefusedAtUnique(g: ValueGraph<string>, s: seq<PidCheck>, n: nat, m: nat, currentTick: int, hitsplatCounts: HitsplatCounts)
    requires WellFormed(g)
    requires RefusedAt(g, s, n, currentTick, hitsplatCounts) && RefusedAt(g, s, m, currentTick, hitsplatCounts)
    ensures n == m
  {
    if n < m {
      NotRefusedLater(g, s, n, m, currentTick, hitsplatCounts);
    } else if m < n {
      NotRefusedLater(g, s, m, n, currentTick, hitsplatCounts);
    }
  }

  /** No check after the first refused one is the first refused. */
  lemma NotRefusedLater(g: ValueGraph<string>, s: seq<PidCheck>, n: nat, m: nat, currentTick: int, hitsplatCounts: HitsplatCounts)
    requires WellFormed(g) && n < m
    requires RefusedAt(g, s, n, currentTick, hitsplatCounts)
    ensures !RefusedAt(g, s, m, currentTick, hitsplatCounts)
  {
    if m <= |s| {
      StillRefused(g, s, n, m - 1, currentTick, hitsplatCounts);
    }
  }

  /** Once the assignments of a prefix are refused, those of any longer
      prefix are refused too. */
  lemma StillRefused(g: ValueGraph<string>, s: seq<PidCheck>, n: nat, m: nat, currentTick: int, hitsplatCounts: HitsplatCounts)
    requires WellFormed(g) && n <= m <= |s|
    requires !AssignAll(g, EmittedUpTo(s, n, currentTick, hitsplatCounts), currentTick).1
    ensures !AssignAll(g, EmittedUpTo(s, m, currentTick, hitsplatCounts), currentTick).1
  {
    var done := EmittedUpTo(s, n, currentTick, hitsplatCounts);
    var more := EmittedUpTo(s, m, currentTick, hitsplatCounts);
    EmittedUpToPrefix(s, n, m, currentTick, hitsplatCounts);
    assert more == done + more[|done|..];
    AssignAllStopsAtRefusal(g, done, more[|done|..], currentTick);
  }

  /** A refused assignment ends the tick: what the checks after the n-th
      would have emitted changes nothing. */
  lemma RefusalEndsTick(g: ValueGraph<string>, s: seq<PidCheck>, n: nat, currentTick: int, hitsplatCounts: HitsplatCounts)
    requires WellFormed(g) && n <= |s|
    requires !AssignAll(g, EmittedUpTo(s, n, currentTick, hitsplatCounts), currentTick).1
    ensures AssignAll(g, Emitted(s, currentTick, hitsplatCounts), currentTick)
            == AssignAll(g, EmittedUpTo(s, n, currentTick, hitsplatCounts), currentTick)
  {
    var done := EmittedUpTo(s, n, currentTick, hitsplatCounts);
    var all := Emitted(s, currentTick, hitsplatCounts);
    EmittedUpToPrefix(s, n, |s|, currentTick, hitsplatCounts);
    assert all == done + all[|done|..];
    AssignAllStopsAtRefusal(g, done, all[|done|..], currentTick);
  }

  class PidTrackerPlugin {
    var pendingPidChecks: seq<PendingPidCheck>
    var pidGraph: ValueGraph<string>

    /** The store's contents, in order. */
    function Views(): seq<PidCheck>
      reads this`pendingPidChecks, pendingPidChecks
    {
      ViewsOf(pendingPidChecks)
    }

    /** The store holds distinct check objects, each well formed. */
    ghost predicate StoreValid()
      reads this`pendingPidChecks, pendingPidChecks
    {
      Distinct(pendingPidChecks) && AllWellFormed(Views())
    }

    /** The graph is well formed and acyclic. */
    ghost predicate GraphValid()
      reads this`pidGraph
    {
      WellFormed(pidGraph) && Acyclic(pidGraph)
    }

    ghost predicate Valid()
      reads this, pendingPidChecks
    {
      StoreValid() && GraphValid()
    }

    constructor ()
      ensures Valid()
      ensures pendingPidChecks == [] && pidGraph == Empty()
    {
      pendingPidChecks := [];
      pidGraph := Empty();
      EmptyAcyclic<string>();
    }

    /** A projectile launched at `target` by whoever stands alone on the
        launch tile, landing on `landsOnTick`. */
    method OnProjectileMoved(occupants: seq<string>, target: string, landsOnTick: int)
      requires StoreValid()
      modifies this`pendingPidChecks
      ensures Views() == AfterLaunch(old(Views()), occupants, target, landsOnTick)
      ensures StoreValid()
    {
      var attacker := ProjectileCreator(occupants);
      if attacker.None? || attacker.value == target {
        return;
      }
      var check := new PendingPidCheck(attacker, target, landsOnTick - 1, landsOnTick);
      Append(check);
    }

    /** `attacker` played `animation` while interacting with `target` (None
        when it is not interacting with a player). */
    method OnAnimationChanged(attacker: string, target: Option<string>, animation: int,
                              meleeAnimations: set<int>, currentTick: int)
      requires StoreValid()
      modifies this`pendingPidChecks, pendingPidChecks
      ensures Views() == AfterAnimation(old(Views()), attacker, target, animation, meleeAnimations, currentTick)
      ensures StoreValid()
    {
      if target.None? || animation !in meleeAnimations {
        return;
      }
      var matching := MatchingMeleePidChecks(pendingPidChecks, currentTick, target.value);
      if |matching| > 0 {
        FillAttacker(matching, attacker, target.value, animation, meleeAnimations, currentTick);
      } else {
        assert !HasOrphan(Views(), currentTick, target.value);
        StartMeleeCheck(attacker, target.value, currentTick);
      }
    }

    /** Adds a melee check by `attacker` on `target` for this tick and the next. */
    method StartMeleeCheck(attacker: string, target: string, currentTick: int)
      requires StoreValid()
      modifies this`pendingPidChecks
      ensures Views() == old(Views()) + [PidCheck(Some(attacker), target, currentTick, currentTick + 1, true, 0, 0)]
      ensures StoreValid()
    {
      var check := new PendingPidCheck(Some(attacker), target, currentTick, currentTick + 1);
      check.SetMelee(true);
      Append(check);
    }

    /** Fills the attacker into the matching orphans (at least one). */
    method FillAttacker(matching: seq<PendingPidCheck>, attacker: string, target: string, animation: int,
                        meleeAnimations: set<int>, currentTick: int)
      requires StoreValid() && animation in meleeAnimations
      requires matching == MatchingMeleePidChecks(pendingPidChecks, currentTick, target) && |matching| > 0
      modifies pendingPidChecks
      ensures Views() == AfterAnimation(old(Views()), attacker, Some(target), animation, meleeAnimations, currentTick)
      ensures StoreValid()
    {
      ghost var before := Views();
      ghost var w :| 0 <= w < |pendingPidChecks| && pendingPidChecks[w] == matching[0];
      assert IsOrphan(before[w], currentTick, target);
      SetAttackerOnAll(matching, attacker);
      ghost var after := Views();
      forall k | 0 <= k < |after|
        ensures after[k] == if IsOrphan(before[k], currentTick, target)
                            then before[k].(attacker := Some(attacker)) else before[k]
      {
        if pendingPidChecks[k] in matching {
          var i :| 0 <= i < |matching| && matching[i] == pendingPidChecks[k];
        }
      }
      FilledIsAfterAnimation(before, after, attacker, target, animation, meleeAnimations, currentTick);
    }

    /** A hitsplat has appeared on the player `target`. */
    method OnHitsplatApplied(target: string, currentTick: int)
      requires StoreValid()
      modifies this`pendingPidChecks, pendingPidChecks
      ensures Views() == AfterHitsplat(old(Views()), target, currentTick)
      ensures StoreValid()
    {
      var withTarget := ChecksWithTarget(pendingPidChecks, target);
      if |withTarget| > 0 {
        CountHitsplat(withTarget, target, currentTick);
      } else {
        assert !HasTarget(Views(), target);
        AddOrphan(target, currentTick);
      }
    }

    /** Adds an orphan melee check on `target` whose first tick already holds
        one hitsplat; the attacker is filled in by a later animation. */
    method AddOrphan(target: string, currentTick: int)
      requires StoreValid()
      modifies this`pendingPidChecks
      ensures Views() == old(Views()) + [PidCheck(None, target, currentTick, currentTick + 1, true, 1, 0)]
      ensures StoreValid()
    {
      var check := new PendingPidCheck(None, target, currentTick, currentTick + 1);
      check.SetMelee(true);
      check.SetCountForTick(currentTick, 1);
      Append(check);
    }

    /** Counts the hitsplat in every check aimed at `target` (at least one). */
    method CountHitsplat(withTarget: seq<PendingPidCheck>, target: string, currentTick: int)
      requires StoreValid()
      requires withTarget == ChecksWithTarget(pendingPidChecks, target) && |withTarget| > 0
      modifies pendingPidChecks
      ensures Views() == AfterHitsplat(old(Views()), target, currentTick)
      ensures StoreValid()
    {
      ghost var before := Views();
      ghost var w :| 0 <= w < |pendingPidChecks| && pendingPidChecks[w] == withTarget[0];
      assert before[w].target == target;
      IncrementCountOnAll(withTarget, currentTick);
      ghost var after := Views();
      forall k | 0 <= k < |after|
        ensures after[k] == if before[k].target == target then before[k].CountedOn(currentTick) else before[k]
      {
        if pendingPidChecks[k] in withTarget {
          var i :| 0 <= i < |withTarget| && withTarget[i] == pendingPidChecks[k];
        }
      }
      CountedIsAfterHitsplat(before, after, target, currentTick);
    }

    /** Adds a new, well-formed check at the end of the store. */
    method Append(check: PendingPidCheck)
      requires StoreValid() && check !in pendingPidChecks && check.View().WellFormed()
      modifies this`pendingPidChecks
      ensures pendingPidChecks == old(pendingPidChecks) + [check]
      ensures Views() == old(Views()) + [check.View()]
      ensures StoreValid()
    {
      DistinctAppend(pendingPidChecks, check);
      pendingPidChecks := pendingPidChecks + [check];
      assert pendingPidChecks[..|pendingPidChecks| - 1] == old(pendingPidChecks);
    }

    /** A new assignment pidder -> piddee. False when the graph refuses it
        (a self-assignment: the graph allows no self loops). */
    method OnNewPidAssignment(pidder: string, piddee: string, currentTick: int) returns (ok: bool)
      requires WellFormed(pidGraph) && Acyclic(pidGraph)
      modifies this`pidGraph
      ensures WellFormed(pidGraph) && Acyclic(pidGraph)
      ensures ok <==> pidder != piddee
      ensures ok ==> pidGraph == Assign(old(pidGraph), pidder, piddee, currentTick).value
      ensures ok ==> (pidder, piddee) in pidGraph.edges && pidGraph.edges[(pidder, piddee)] == currentTick
      ensures !ok ==> pidGraph == old(pidGraph)
    {
      if pidder == piddee {
        return false;
      }
      AssignKeepsAcyclic(pidGraph, pidder, piddee, currentTick);
      var copy := PutEdgeValue(pidGraph, pidder, piddee, currentTick);
      if HasCycle(copy) {
        pidGraph := RemoveNode(pidGraph, pidder);
        pidGraph := RemoveNode(pidGraph, piddee);
      }
      pidGraph := PutEdgeValue(pidGraph, pidder, piddee, currentTick);
      ok := true;
    }

    /** Prunes every edge at least MAX_PID_AGE ticks old: first collects them,
        then removes each one still present. */
    method CullExpiredPids(currentTick: int)
      modifies this`pidGraph
      ensures pidGraph == Culled(old(pidGraph), currentTick)
    {
      ghost var start := pidGraph;
      var edgesToCull := ExpiredEdges(pidGraph, currentTick);
      var remaining := edgesToCull;
      while remaining != {}
        invariant remaining <= edgesToCull
        invariant pidGraph.nodes == start.nodes
        invariant pidGraph.edges == start.edges - (edgesToCull - remaining)
        decreases |remaining|
      {
        var edge :| edge in remaining;
        if edge in pidGraph.edges {
          pidGraph := RemoveEdge(pidGraph, edge.0, edge.1);
        }
        remaining := remaining - {edge};
      }
    }

    /** The end of a tick. Each check finishing now gets its final count
        (the hitsplats `hitsplatCounts` gives for its target), is resolved, and any assignment it
        yields goes into the graph; then finished checks are dropped and
        expired edges pruned. A refused assignment abandons the rest of the
        tick: later checks are not counted, nothing is dropped or pruned. */
    method OnTick(currentTick: int, hitsplatCounts: HitsplatCounts) returns (ok: bool)
      requires Valid()
      modifies this, pendingPidChecks
      ensures Valid()
      ensures ok == AssignAll(old(pidGraph), Emitted(old(Views()), currentTick, hitsplatCounts), currentTick).1
      ensures ok ==> Views() == Unfinished(old(Views()), currentTick)
      ensures ok ==> pidGraph == Culled(AssignAll(old(pidGraph), Emitted(old(Views()), currentTick, hitsplatCounts), currentTick).0, currentTick)
      ensures !ok ==> pidGraph == AssignAll(old(pidGraph), Emitted(old(Views()), currentTick, hitsplatCounts), currentTick).0
      ensures !ok ==> pendingPidChecks == old(pendingPidChecks)
      ensures !ok ==> exists n :: RefusedAt(old(pidGraph), old(Views()), n, currentTick, hitsplatCounts) &&
                        Views() == FinalisedFirst(old(Views()), n, currentTick, hitsplatCounts)
    {
      ghost var before := Views();
      ghost var graphBefore := pidGraph;
      var n;
      ok, n := ResolveFinishing(currentTick, hitsplatCounts);
      FinalisedFirstWellFormed(before, n, currentTick, hitsplatCounts);
      if !ok {
        RefusalEndsTick(graphBefore, before, n, currentTick, hitsplatCounts);
        return;
      }
      FinishTick(before, currentTick, hitsplatCounts);
    }

    /** Once every check has been finalised: the finished ones are dropped and
        expired edges culled. */
    method FinishTick(ghost before: seq<PidCheck>, currentTick: int, hitsplatCounts: HitsplatCounts)
      requires StoreValid() && GraphValid()
      requires Views() == FinalisedAll(before, currentTick, hitsplatCounts)
      modifies this`pidGraph, this`pendingPidChecks
      ensures Valid()
      ensures Views() == Unfinished(before, currentTick)
      ensures pidGraph == Culled(old(pidGraph), currentTick)
    {
      RemoveFinished(currentTick);
      UnfinishedAfterFinalising(before, currentTick, hitsplatCounts);
      CullExpiredPids(currentTick);
    }

    /** The final count and resolution of the checks finishing on
        `currentTick`, in store order, stopping after a refused assignment;
        n is how many checks were visited. */
    method ResolveFinishing(currentTick: int, hitsplatCounts: HitsplatCounts) returns (ok: bool, n: nat)
      requires Distinct(pendingPidChecks) && GraphValid()
      modifies this`pidGraph, pendingPidChecks
      ensures n <= |pendingPidChecks| && (ok ==> n == |pendingPidChecks|)
      ensures Views() == FinalisedFirst(old(Views()), n, currentTick, hitsplatCounts)
      ensures (pidGraph, ok) == AssignAll(old(pidGraph), EmittedUpTo(old(Views()), n, currentTick, hitsplatCounts), currentTick)
      ensures !ok ==> RefusedAt(old(pidGraph), old(Views()), n, currentTick, hitsplatCounts)
      ensures GraphValid()
    {
      ghost var before := Views();
      ghost var graphBefore := pidGraph;
      var cs := pendingPidChecks;
      ok, n := ResolvePrefix(cs, before, graphBefore, currentTick, hitsplatCounts);
      FinalisedUpToViews(cs, n, before, currentTick, hitsplatCounts);
      AssignAllKeepsAcyclic(graphBefore, EmittedUpTo(before, n, currentTick, hitsplatCounts), currentTick);
    }

    /** The finaliser's loop over the checks `cs`, whose contents were
        `before` and the graph `graphBefore`: it visits them in order and
        stops right after the first refused assignment. */
    method ResolvePrefix(cs: seq<PendingPidCheck>, ghost before: seq<PidCheck>, ghost graphBefore: ValueGraph<string>,
                         currentTick: int, hitsplatCounts: HitsplatCounts) returns (ok: bool, n: nat)
      requires |cs| == |before| && Distinct(cs)
      requires WellFormed(graphBefore) && Acyclic(graphBefore) && pidGraph == graphBefore
      requires forall k {:trigger cs[k].View()} :: 0 <= k < |cs| ==> cs[k].View() == before[k]
      modifies this`pidGraph, cs
      ensures n <= |cs| && (ok ==> n == |cs|)
      ensures forall k {:trigger cs[k].View()} :: 0 <= k < n ==> cs[k].View() == Finalised(before[k], currentTick, hitsplatCounts)
      ensures forall k {:trigger cs[k].View()} :: n <= k < |cs| ==> cs[k].View() == before[k]
      ensures (pidGraph, ok) == AssignAll(graphBefore, EmittedUpTo(before, n, currentTick, hitsplatCounts), currentTick)
      ensures !ok ==> RefusedAt(graphBefore, before, n, currentTick, hitsplatCounts)
    {
      n := 0;
      ok := true;
      while n < |cs|
        invariant n <= |cs| && ok
        invariant forall k {:trigger cs[k].View()} :: 0 <= k < n ==> cs[k].View() == Finalised(before[k], currentTick, hitsplatCounts)
        invariant forall k {:trigger cs[k].View()} :: n <= k < |cs| ==> cs[k].View() == before[k]
        invariant (pidGraph, true) == AssignAll(graphBefore, EmittedUpTo(before, n, currentTick, hitsplatCounts), currentTick)
      {
        ok := ResolveAt(cs, n, before, graphBefore, currentTick, hitsplatCounts);
        n := n + 1;
        if !ok {
          break;
        }
      }
    }

    /** One step of the finaliser: the check at position n of the store is
        finalised and resolved, given that the checks before it have been. */
    method ResolveAt(cs: seq<PendingPidCheck>, n: nat, ghost before: seq<PidCheck>, ghost graphBefore: ValueGraph<string>,
                     currentTick: int, hitsplatCounts: HitsplatCounts) returns (ok: bool)
      requires n < |cs| == |before| && Distinct(cs)
      requires WellFormed(graphBefore) && Acyclic(graphBefore)
      requires forall k {:trigger cs[k].View()} :: 0 <= k < n ==> cs[k].View() == Finalised(before[k], currentTick, hitsplatCounts)
      requires forall k {:trigger cs[k].View()} :: n <= k < |cs| ==> cs[k].View() == before[k]
      requires (pidGraph, true) == AssignAll(graphBefore, EmittedUpTo(before, n, currentTick, hitsplatCounts), currentTick)
      modifies this`pidGraph, cs[n]
      ensures forall k {:trigger cs[k].View()} :: 0 <= k < n + 1 ==> cs[k].View() == Finalised(before[k], currentTick, hitsplatCounts)
      ensures forall k {:trigger cs[k].View()} :: n + 1 <= k < |cs| ==> cs[k].View() == before[k]
      ensures (pidGraph, ok) == AssignAll(graphBefore, EmittedUpTo(before, n + 1, currentTick, hitsplatCounts), currentTick)
    {
      assert cs[n].View() == before[n];
      forall k | 0 <= k < |cs| && k != n ensures cs[k] != cs[n] { DistinctAt(cs, k, n); }
      AssignAllKeepsAcyclic(graphBefore, EmittedUpTo(before, n, currentTick, hitsplatCounts), currentTick);
      AssignAllAppend(graphBefore, EmittedUpTo(before, n, currentTick, hitsplatCounts),
                      ResolutionOf(Finalised(before[n], currentTick, hitsplatCounts), currentTick), currentTick);
      ok := ResolveCheck(cs[n], currentTick, hitsplatCounts);
    }

    /** Gives `check` its final count if it finishes now, and feeds the
        assignment it resolves to, if any, into the graph. */
    method ResolveCheck(check: PendingPidCheck, currentTick: int, hitsplatCounts: HitsplatCounts) returns (ok: bool)
      requires WellFormed(pidGraph) && Acyclic(pidGraph)
      modifies this`pidGraph, check
      ensures check.View() == Finalised(old(check.View()), currentTick, hitsplatCounts)
      ensures WellFormed(pidGraph) && Acyclic(pidGraph)
      ensures (pidGraph, ok) == AssignAll(old(pidGraph), ResolutionOf(check.View(), currentTick), currentTick)
    {
      ok := true;
      if check.View().FinishesOn(currentTick) {
        check.SetCountForTick(currentTick, HitsplatsOn(hitsplatCounts, check.target));
        var assignment := check.View().DeterminePid();
        if assignment.Some? {
          AssignAllOne(pidGraph, assignment.value, currentTick);
          ok := OnNewPidAssignment(assignment.value.pidder, assignment.value.piddee, currentTick);
        } else {
          AssignAllOne(pidGraph, Assignment("", ""), currentTick);
        }
      } else {
        AssignAllOne(pidGraph, Assignment("", ""), currentTick);
      }
    }

    /** Drops every check finishing on `currentTick`. */
    method RemoveFinished(currentTick: int)
      requires StoreValid()
      modifies this`pendingPidChecks
      ensures Views() == Unfinished(old(Views()), currentTick)
      ensures StoreValid()
    {
      ViewsOfUnfinished(pendingPidChecks, currentTick);
      UnfinishedWellFormed(Views(), currentTick);
      pendingPidChecks := UnfinishedChecks(pendingPidChecks, currentTick);
    }

    /** Whether the local player `us` is processed before `them`: Some(true)
        when we reach them in the graph, Some(false) when they reach us and
        not the reverse, None when unknown. */
    function WePidPlayer(us: string, them: Option<string>): (r: Option<bool>)
      reads this
      requires WellFormed(pidGraph)
      ensures them.None? || them.value == us || us !in pidGraph.nodes || them.value !in pidGraph.nodes ==> r.None?
      ensures r == Some(true) <==> them.Some? && them.value != us && Reaches(pidGraph, us, them.value)
      ensures r == Some(false) <==>
                them.Some? && them.value != us && Reaches(pidGraph, them.value, us) && !Reaches(pidGraph, us, them.value)
      ensures Acyclic(pidGraph) ==>
                (r == Some(false) <==> them.Some? && them.value != us && Reaches(pidGraph, them.value, us))
    {
      if them.None? then None
      else if them.value == us || us !in pidGraph.nodes || them.value !in pidGraph.nodes then
        assert them.value != us ==> !Reaches(pidGraph, us, them.value) && !Reaches(pidGraph, them.value, us) by {
          if Reaches(pidGraph, us, them.value) { ReachesNodes(pidGraph, us, them.value); }
          if Reaches(pidGraph, them.value, us) { ReachesNodes(pidGraph, them.value, us); }
        }
        None
      else
        ReachableIff(pidGraph, us, them.value);
        ReachableIff(pidGraph, them.value, us);
        assert Acyclic(pidGraph) ==> !(Reaches(pidGraph, us, them.value) && Reaches(pidGraph, them.value, us)) by {
          if Reaches(pidGraph, us, them.value) && Reaches(pidGraph, them.value, us) {
            ReachesTransitive(pidGraph, us, them.value, us);
          }
        }
        if them.value in Reachable(pidGraph, us) then Some(true)
        else if us in Reachable(pidGraph, them.value) then Some(false)
        else None
    }
  }
}
