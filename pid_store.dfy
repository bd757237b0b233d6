/**
 * The pending-check store as a sequence of values: what each of the plugin's
 * event handlers and its per-tick finaliser does to it. The plugin's methods
 * (module PidTracker) are proved to change their store exactly as these
 * functions say; the properties of the store are proved here, once.
 */
module PidStore {

  import opened Wrappers
  import opened PendingPidCheck

  /** Every check has a window of two consecutive ticks and non-negative counts. */
  predicate AllWellFormed(s: seq<PidCheck>)
  {
    forall i :: 0 <= i < |s| ==> s[i].WellFormed()
  }

  // ---------------------------------------------------------------------
  // Projectile launch
  // ---------------------------------------------------------------------

  /** The creator of a projectile is known only when exactly one player
      stands on the launch tile. */
  function ProjectileCreator(occupants: seq<string>): (r: Option<string>)
    ensures r.Some? <==> |occupants| == 1
    ensures r.Some? ==> r.value in occupants
  {
    if |occupants| == 1 then Some(occupants[0]) else None
  }

  /** A launch whose creator is known and differs from the target adds one
      ranged/magic check whose window ends on the landing tick. */
  function AfterLaunch(s: seq<PidCheck>, occupants: seq<string>, target: string, landsOnTick: int): (r: seq<PidCheck>)
    ensures |r| >= |s| && r[..|s|] == s
    ensures var creator := ProjectileCreator(occupants);
            |r| == |s| + (if creator.Some? && creator.value != target then 1 else 0)
    ensures |r| > |s| ==> r[|s|] == PidCheck(ProjectileCreator(occupants), target, landsOnTick - 1, landsOnTick, false, 0, 0)
    ensures AllWellFormed(s) ==> AllWellFormed(r)
  {
    var creator := ProjectileCreator(occupants);
    if creator.None? || creator.value == target then s
    else s + [PidCheck(creator, target, landsOnTick - 1, landsOnTick, false, 0, 0)]
  }

  // ---------------------------------------------------------------------
  // Melee animation
  // ---------------------------------------------------------------------

  /** A check left by a hitsplat that arrived before its attacker's animation. */
  predicate IsOrphan(c: PidCheck, currentTick: int, target: string)
  {
    c.melee && c.tick1 == currentTick && c.attacker.None? && c.target == target
  }

  predicate HasOrphan(s: seq<PidCheck>, currentTick: int, target: string)
  {
    exists i :: 0 <= i < |s| && IsOrphan(s[i], currentTick, target)
  }

  /** A melee animation of `attacker` aimed at `target`. Orphans for the target
      on this tick get the attacker filled in; with no orphan, a new melee check
      for this tick and the next is added. A non-melee animation, or an actor
      not interacting with a player, changes nothing. */
  function AfterAnimation(s: seq<PidCheck>, attacker: string, target: Option<string>, animation: int,
                          meleeAnimations: set<int>, currentTick: int): (r: seq<PidCheck>)
    ensures target.None? || animation !in meleeAnimations ==> r == s
    ensures target.Some? && animation in meleeAnimations && HasOrphan(s, currentTick, target.value) ==>
            |r| == |s| && forall i :: 0 <= i < |s| ==>
              r[i] == if IsOrphan(s[i], currentTick, target.value) then s[i].(attacker := Some(attacker)) else s[i]
    ensures target.Some? && animation in meleeAnimations && !HasOrphan(s, currentTick, target.value) ==>
            r == s + [PidCheck(Some(attacker), target.value, currentTick, currentTick + 1, true, 0, 0)]
    ensures AllWellFormed(s) ==> AllWellFormed(r)
  {
    if target.None? || animation !in meleeAnimations then s
    else if HasOrphan(s, currentTick, target.value) then Filled(s, attacker, currentTick, target.value)
    else s + [PidCheck(Some(attacker), target.value, currentTick, currentTick + 1, true, 0, 0)]
  }

  /** s with `attacker` filled into every orphan for `target` on `currentTick`. */
  function Filled(s: seq<PidCheck>, attacker: string, currentTick: int, target: string): (r: seq<PidCheck>)
    ensures |r| == |s|
    ensures forall i :: 0 <= i < |s| ==>
              r[i] == if IsOrphan(s[i], currentTick, target) then s[i].(attacker := Some(attacker)) else s[i]
  {
    if s == [] then []
    else
      var last := s[|s| - 1];
      Filled(s[..|s| - 1], attacker, currentTick, target)
        + [if IsOrphan(last, currentTick, target) then last.(attacker := Some(attacker)) else last]
  }

  // ---------------------------------------------------------------------
  // Hitsplat
  // ---------------------------------------------------------------------

  predicate HasTarget(s: seq<PidCheck>, target: string)
  {
    exists i :: 0 <= i < |s| && s[i].target == target
  }

  /** A hitsplat on `target`. Every check aimed at the target counts it for the
      current tick; with none, an orphan melee check is added whose first tick
      already holds this hitsplat, waiting for the attacker's animation. */
  function AfterHitsplat(s: seq<PidCheck>, target: string, currentTick: int): (r: seq<PidCheck>)
    ensures HasTarget(s, target) ==>
            |r| == |s| && forall i :: 0 <= i < |s| ==>
              r[i] == if s[i].target == target then s[i].CountedOn(currentTick) else s[i]
    ensures !HasTarget(s, target) ==>
            r == s + [PidCheck(None, target, currentTick, currentTick + 1, true, 1, 0)]
    ensures AllWellFormed(s) ==> AllWellFormed(r)
  {
    if HasTarget(s, target) then Counted(s, target, currentTick)
    else s + [PidCheck(None, target, currentTick, currentTick + 1, true, 1, 0)]
  }

  /** s with one more hitsplat on `currentTick` in every check aimed at `target`. */
  function Counted(s: seq<PidCheck>, target: string, currentTick: int): (r: seq<PidCheck>)
    ensures |r| == |s|
    ensures forall i :: 0 <= i < |s| ==> r[i] == if s[i].target == target then s[i].CountedOn(currentTick) else s[i]
  {
    if s == [] then []
    else
      var last := s[|s| - 1];
      Counted(s[..|s| - 1], target, currentTick)
        + [if last.target == target then last.CountedOn(currentTick) else last]
  }

  /** Event order within a tick does not matter: for a target with no pending
      check, "hitsplat, then the attacker's melee animation" and "animation,
      then hitsplat" leave the same store, with one melee check for the pair
      whose first tick holds the hitsplat. */
  lemma SameTickOrderIndependent(s: seq<PidCheck>, attacker: string, target: string, animation: int,
                                 meleeAnimations: set<int>, currentTick: int)
    requires !HasTarget(s, target) && animation in meleeAnimations
    ensures var expected := s + [PidCheck(Some(attacker), target, currentTick, currentTick + 1, true, 1, 0)];
            && AfterAnimation(AfterHitsplat(s, target, currentTick), attacker, Some(target), animation, meleeAnimations, currentTick) == expected
            && AfterHitsplat(AfterAnimation(s, attacker, Some(target), animation, meleeAnimations, currentTick), target, currentTick) == expected
  {
    var orphan := PidCheck(None, target, currentTick, currentTick + 1, true, 1, 0);
    var hitFirst := AfterHitsplat(s, target, currentTick);
    assert hitFirst == s + [orphan];
    assert IsOrphan(hitFirst[|s|], currentTick, target);
    forall i | 0 <= i < |s| ensures !IsOrphan(s[i], currentTick, target) {
      assert s[i].target != target;
    }
    var started := PidCheck(Some(attacker), target, currentTick, currentTick + 1, true, 0, 0);
    var animFirst := AfterAnimation(s, attacker, Some(target), animation, meleeAnimations, currentTick);
    assert !HasOrphan(s, currentTick, target);
    assert animFirst == s + [started];
    assert animFirst[|s|].target == target;
  }

  // ---------------------------------------------------------------------
  // Per-tick finalisation
  // ---------------------------------------------------------------------

  /** The number of hitsplats showing on each player when the tick ends; a
      player not listed shows none. */
  type HitsplatCounts = map<string, nat>

  function HitsplatsOn(counts: HitsplatCounts, player: string): nat
  {
    if player in counts then counts[player] else 0
  }

  /** A check after the final count: one that finishes this tick gets the count
      for the current tick overwritten by the number of hitsplats now showing on
      its target. */
  function Finalised(c: PidCheck, currentTick: int, hitsplatCounts: HitsplatCounts): (r: PidCheck)
    ensures c.SameWindow(r)
    ensures !c.FinishesOn(currentTick) ==> r == c
    ensures c.WellFormed() && c.FinishesOn(currentTick) ==>
            r.tick2Hitsplats == HitsplatsOn(hitsplatCounts, c.target) && r.tick1Hitsplats == c.tick1Hitsplats
    ensures c.WellFormed() ==> r.WellFormed()
  {
    if c.FinishesOn(currentTick) then c.WithCount(currentTick, HitsplatsOn(hitsplatCounts, c.target)) else c
  }

  /** s part-way through the finaliser: its first n checks finalised, the
      rest as they were. */
  function FinalisedFirst(s: seq<PidCheck>, n: nat, currentTick: int, hitsplatCounts: HitsplatCounts): (r: seq<PidCheck>)
    requires n <= |s|
    ensures |r| == |s|
    ensures forall k {:trigger r[k]} :: 0 <= k < |s| ==> r[k] == if k < n then Finalised(s[k], currentTick, hitsplatCounts) else s[k]
  {
    if n == 0 then s
    else FinalisedFirst(s, n - 1, currentTick, hitsplatCounts)[n - 1 := Finalised(s[n - 1], currentTick, hitsplatCounts)]
  }

  /** Every check of s after the final count. */
  function FinalisedAll(s: seq<PidCheck>, currentTick: int, hitsplatCounts: HitsplatCounts): (r: seq<PidCheck>)
    ensures |r| == |s| && forall k {:trigger r[k]} :: 0 <= k < |s| ==> r[k] == Finalised(s[k], currentTick, hitsplatCounts)
  {
    FinalisedFirst(s, |s|, currentTick, hitsplatCounts)
  }

  /** A store part-way through the finaliser is well formed. */
  lemma FinalisedFirstWellFormed(s: seq<PidCheck>, n: nat, currentTick: int, hitsplatCounts: HitsplatCounts)
    requires AllWellFormed(s) && n <= |s|
    ensures AllWellFormed(FinalisedFirst(s, n, currentTick, hitsplatCounts))
  {
    var r := FinalisedFirst(s, n, currentTick, hitsplatCounts);
    forall k | 0 <= k < |r| ensures r[k].WellFormed() {
      assert s[k].WellFormed();
    }
  }

  /** What one check contributes when the tick is resolved: the assignment it
      determines, if it finishes on this tick and determines one. */
  function ResolutionOf(c: PidCheck, currentTick: int): (r: seq<Assignment>)
    ensures |r| <= 1
    ensures |r| == 1 <==> c.FinishesOn(currentTick) && c.DeterminePid().Some?
    ensures |r| == 1 ==> r[0] == c.DeterminePid().value
  {
    if c.FinishesOn(currentTick) && c.DeterminePid().Some? then [c.DeterminePid().value] else []
  }

  /** The assignments emitted while finalising the first n checks of s, in
      store order. */
  function EmittedUpTo(s: seq<PidCheck>, n: nat, currentTick: int, hitsplatCounts: HitsplatCounts): (r: seq<Assignment>)
    requires n <= |s|
    ensures |r| <= n
  {
    if n == 0 then []
    else EmittedUpTo(s, n - 1, currentTick, hitsplatCounts) + ResolutionOf(Finalised(s[n - 1], currentTick, hitsplatCounts), currentTick)
  }

  /** What the finaliser emits for the store s: one assignment per finishing
      check that determines one. */
  function Emitted(s: seq<PidCheck>, currentTick: int, hitsplatCounts: HitsplatCounts): seq<Assignment>
  {
    EmittedUpTo(s, |s|, currentTick, hitsplatCounts)
  }

  /** What is emitted for a prefix of the store comes first in what is emitted
      for a longer one. */
  lemma {:induction false} EmittedUpToPrefix(s: seq<PidCheck>, n: nat, m: nat, currentTick: int, hitsplatCounts: HitsplatCounts)
    requires n <= m <= |s|
    ensures EmittedUpTo(s, n, currentTick, hitsplatCounts) <= EmittedUpTo(s, m, currentTick, hitsplatCounts)
    decreases m
  {
    if n < m {
      EmittedUpToPrefix(s, n, m - 1, currentTick, hitsplatCounts);
    }
  }

  /** Whether the k-th check of s, once finalised, resolves to assignment a. */
  ghost predicate Yields(s: seq<PidCheck>, k: int, a: Assignment, currentTick: int, hitsplatCounts: HitsplatCounts)
    requires 0 <= k < |s|
  {
    s[k].FinishesOn(currentTick) && Finalised(s[k], currentTick, hitsplatCounts).DeterminePid() == Some(a)
  }

  /** The positions among the first n of s whose finalised check resolves. */
  ghost function Resolving(s: seq<PidCheck>, n: nat, currentTick: int, hitsplatCounts: HitsplatCounts): set<nat>
    requires n <= |s|
  {
    set k: nat | k < n && s[k].FinishesOn(currentTick) && Finalised(s[k], currentTick, hitsplatCounts).DeterminePid().Some?
  }

  /** Every assignment emitted for the first n checks comes from one of them
      that finishes now and whose finalised counts determine it, and every
      such assignment is emitted. */
  lemma {:induction false} EmittedUpToSources(s: seq<PidCheck>, n: nat, currentTick: int, hitsplatCounts: HitsplatCounts)
    requires n <= |s|
    ensures forall a :: a in EmittedUpTo(s, n, currentTick, hitsplatCounts) <==>
                        exists k :: 0 <= k < n && Yields(s, k, a, currentTick, hitsplatCounts)
    decreases n
  {
    if n > 0 {
      EmittedUpToSources(s, n - 1, currentTick, hitsplatCounts);
      var f := Finalised(s[n - 1], currentTick, hitsplatCounts);
      var prev := EmittedUpTo(s, n - 1, currentTick, hitsplatCounts);
      var last := ResolutionOf(f, currentTick);
      assert EmittedUpTo(s, n, currentTick, hitsplatCounts) == prev + last;
      forall a ensures a in prev + last <==> exists k :: 0 <= k < n && Yields(s, k, a, currentTick, hitsplatCounts) {
        if Yields(s, n - 1, a, currentTick, hitsplatCounts) {
          assert a in last;
        }
        if a in last {
          assert Yields(s, n - 1, a, currentTick, hitsplatCounts);
        }
        if exists k :: 0 <= k < n - 1 && Yields(s, k, a, currentTick, hitsplatCounts) {
          assert a in prev;
        }
      }
    }
  }

  /** The resolving positions among the first n are those among the first
      n - 1, plus n - 1 itself when that check resolves. */
  lemma ResolvingStep(s: seq<PidCheck>, n: nat, currentTick: int, hitsplatCounts: HitsplatCounts)
    requires 0 < n <= |s|
    ensures n - 1 !in Resolving(s, n - 1, currentTick, hitsplatCounts)
    ensures Resolving(s, n, currentTick, hitsplatCounts)
            == Resolving(s, n - 1, currentTick, hitsplatCounts) +
               if s[n - 1].FinishesOn(currentTick) && Finalised(s[n - 1], currentTick, hitsplatCounts).DeterminePid().Some?
               then {n - 1} else {}
  {
  }

  /** One assignment is emitted for each of the first n checks that finishes
      now and whose finalised counts determine one. */
  lemma {:induction false} EmittedUpToCount(s: seq<PidCheck>, n: nat, currentTick: int, hitsplatCounts: HitsplatCounts)
    requires n <= |s|
    ensures |EmittedUpTo(s, n, currentTick, hitsplatCounts)| == |Resolving(s, n, currentTick, hitsplatCounts)|
    decreases n
  {
    if n > 0 {
      EmittedUpToCount(s, n - 1, currentTick, hitsplatCounts);
      ResolvingStep(s, n, currentTick, hitsplatCounts);
      var f := Finalised(s[n - 1], currentTick, hitsplatCounts);
      assert f.FinishesOn(currentTick) == s[n - 1].FinishesOn(currentTick);
      assert |EmittedUpTo(s, n, currentTick, hitsplatCounts)|
          == |EmittedUpTo(s, n - 1, currentTick, hitsplatCounts)| + |ResolutionOf(f, currentTick)|;
    }
  }

  /** Checks that do not finish on this tick emit nothing. */
  lemma {:induction false} EmittedOnlyByFinishing(s: seq<PidCheck>, currentTick: int, hitsplatCounts: HitsplatCounts)
    requires forall k :: 0 <= k < |s| ==> !s[k].FinishesOn(currentTick)
    ensures Emitted(s, currentTick, hitsplatCounts) == []
  {
    var n := 0;
    while n < |s|
      invariant n <= |s| && EmittedUpTo(s, n, currentTick, hitsplatCounts) == []
    {
      assert Finalised(s[n], currentTick, hitsplatCounts) == s[n];
      n := n + 1;
    }
  }

  /** The checks that survive the tick: those not finishing on it, in order. */
  function Unfinished(s: seq<PidCheck>, currentTick: int): (r: seq<PidCheck>)
    ensures |r| <= |s|
    ensures forall c :: c in r ==> c in s && !c.FinishesOn(currentTick)
    ensures forall c :: c in s && !c.FinishesOn(currentTick) ==> c in r
    decreases |s|
  {
    if s == [] then []
    else
      var last := s[|s| - 1];
      var before := Unfinished(s[..|s| - 1], currentTick);
      assert forall c :: c in s ==> c in s[..|s| - 1] || c == last;
      if last.FinishesOn(currentTick) then before else before + [last]
  }

  /** Each check occurs among the survivors as often as in the store when it
      does not finish now, and not at all when it does: equal checks are
      neither merged nor dropped. */
  lemma {:induction false} UnfinishedCounts(s: seq<PidCheck>, currentTick: int)
    ensures forall c :: multiset(Unfinished(s, currentTick))[c] == if c.FinishesOn(currentTick) then 0 else multiset(s)[c]
    decreases |s|
  {
    if s != [] {
      var last := s[|s| - 1];
      UnfinishedCounts(s[..|s| - 1], currentTick);
      assert s == s[..|s| - 1] + [last];
    }
  }

  /** The final count never decides which checks survive the tick, and those
      that survive are unchanged by it. */
  lemma {:induction false} UnfinishedAfterFinalising(s: seq<PidCheck>, currentTick: int, hitsplatCounts: HitsplatCounts)
    ensures Unfinished(FinalisedAll(s, currentTick, hitsplatCounts), currentTick) == Unfinished(s, currentTick)
    decreases |s|
  {
    if s != [] {
      var f := FinalisedAll(s, currentTick, hitsplatCounts);
      assert f[..|f| - 1] == FinalisedAll(s[..|s| - 1], currentTick, hitsplatCounts);
      UnfinishedAfterFinalising(s[..|s| - 1], currentTick, hitsplatCounts);
    }
  }

  /** Dropping finished checks leaves the store well formed. */
  lemma UnfinishedWellFormed(s: seq<PidCheck>, currentTick: int)
    requires AllWellFormed(s)
    ensures AllWellFormed(Unfinished(s, currentTick))
  {
    var u := Unfinished(s, currentTick);
    forall i | 0 <= i < |u| ensures u[i].WellFormed() {
      assert u[i] in u;
    }
  }
}
