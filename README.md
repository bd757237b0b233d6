# Pid tracker: a verified model in Dafny

The pid tracker plugin infers which of two players the game server processes
first within a tick (the player's "pid"). It works in three stages, all
sequential and driven by game ticks:

1. **Pending-check store.** Each record holds two ticks of evidence about one
   attacker/target pair. A projectile launch adds a record, and so does a
   melee animation. A hitsplat also adds one, with no attacker yet, when no
   record is aimed at its target. A later animation fills in the attacker, so
   "hitsplat then animation" and "animation then hitsplat" in the same tick
   end up with the same record.
2. **Resolution rule.** When a record's window ends, the hitsplat counts on
   its two ticks decide whether the attacker goes first, the target goes
   first, or nothing can be said.
3. **Priority graph.** This is a directed graph of player names. Each edge
   holds the tick of its last assertion. A new assertion that would close a
   cycle first removes both of its endpoint nodes. Edges `MAX_PID_AGE` = 150
   ticks old are pruned. A reachability query answers "do we go before them?"
   as true, false or unknown.

A separate component is Kahn's topological sort, written as a lazy iterator
over a graph's nodes.

The project is organised as follows:

| file | module | contents |
|---|---|---|
| `wrappers.dfy` | `Wrappers` | `Option` |
| `graphs.dfy` | `Graphs` | value graphs with an integer per edge, their three mutators, path-based reachability (the reference) and a computable closure, proved equal (`ReachableIff`, `HasCycleIff`) |
| `pending_pid_check.dfy` | `PendingPidCheck` | the record as a value (`PidCheck`) with its count updates and the resolution rule; the mutable class `PendingPidCheck`, each method proved against the value function |
| `pid_store.dfy` | `PidStore` | what each event handler and the per-tick finaliser do to the store, as functions on sequences of values, plus the lemmas about them |
| `pid_graph.dfy` | `PidGraph` | the meaning of a new assignment and of pruning, proved to keep the graph acyclic |
| `pid_tracker_plugin.dfy` | `PidTracker` | the plugin class holding a sequence of check objects and the graph; each handler is proved to change the store exactly as its `PidStore` function says, and to keep the invariant (distinct, well-formed checks and an acyclic graph) |
| `topological_sort.dfy` | `TopologicalSort` | the iterator class with its root queue and in-degree map, and `Sort`, which runs it to the end |

Inputs the plugin reads from the game client become parameters:

- the players on the launch tile;
- the tick on which a projectile lands;
- the set of melee animation ids;
- the number of hitsplats showing on each player at the end of a tick;
- the local player's name and the current tick.

## Model

Source paths are relative to the repository root; every core file is under `runelite-client/src/main/java/net/runelite/client/plugins/pidtracker/`.

| member | source | states |
|---|---|---|
| PendingPidCheck.PidCheck.CountedOn | runelite-client/src/main/java/net/runelite/client/plugins/pidtracker/PendingPidCheck.java:27-37 | a hitsplat on tick1 raises only the tick1 count, one on tick2 only the tick2 count, any other tick changes nothing; pair and window unchanged; well-formedness kept |
| PendingPidCheck.PidCheck.WithCount | runelite-client/src/main/java/net/runelite/client/plugins/pidtracker/PendingPidCheck.java:39-49 | overwrites only the count of the matching tick (tick1 first); a tick outside the window leaves the record unchanged |
| PendingPidCheck.PidCheck.FinishesOn | runelite-client/src/main/java/net/runelite/client/plugins/pidtracker/PendingPidCheck.java:51-54 | the check is done on its second tick; which checks are finalised and dropped on a tick is decided by it (`Finalised`, `Unfinished`) |
| PendingPidCheck.PidCheck.FinishesOnTickAfterFirst | runelite-client/src/main/java/net/runelite/client/plugins/pidtracker/PendingPidCheck.java:51-54 | a well-formed check finishes exactly on the tick after its first tick, and never on its first |
| PendingPidCheck.PidCheck.DeterminePid | runelite-client/src/main/java/net/runelite/client/plugins/pidtracker/PendingPidCheck.java:56-75 | no attacker: nothing; counts (1, 1): attacker -> target; (0, 1): target -> attacker; every other pair: nothing; an assignment always joins the attacker and the target |
| PendingPidCheck.PendingPidCheck.constructor | runelite-client/src/main/java/net/runelite/client/plugins/pidtracker/PendingPidCheck.java:10-25 | the new record holds the given pair and window, not melee, both counts zero |
| PendingPidCheck.PendingPidCheck.IncrementCountForTick | runelite-client/src/main/java/net/runelite/client/plugins/pidtracker/PendingPidCheck.java:27-37 | the record's new contents are `CountedOn(tick)` of its old contents |
| PendingPidCheck.PendingPidCheck.SetCountForTick | runelite-client/src/main/java/net/runelite/client/plugins/pidtracker/PendingPidCheck.java:39-49 | the record's new contents are `WithCount(tick, count)` of its old contents |
| PendingPidCheck.PendingPidCheck.SetAttacker | runelite-client/src/main/java/net/runelite/client/plugins/pidtracker/PendingPidCheck.java:7-10 | only the attacker changes |
| PendingPidCheck.PendingPidCheck.SetMelee | runelite-client/src/main/java/net/runelite/client/plugins/pidtracker/PendingPidCheck.java:7-14 | only the melee flag changes |
| PidStore.ProjectileCreator | runelite-client/src/main/java/net/runelite/client/plugins/pidtracker/PidTrackerPlugin.java:282-289 | a creator is known exactly when one player stands on the launch tile, and it is that player |
| PidStore.IsOrphan | runelite-client/src/main/java/net/runelite/client/plugins/pidtracker/PidTrackerPlugin.java:308 | a melee check started on this tick for this target whose attacker is still unknown; `MatchingMeleePidChecks` selects exactly these |
| PidStore.AfterLaunch | runelite-client/src/main/java/net/runelite/client/plugins/pidtracker/PidTrackerPlugin.java:148-164 | no creator, or creator == target: store unchanged; otherwise exactly one non-melee check (creator, target, landsOnTick - 1, landsOnTick) with zero counts is appended; the old checks are a prefix; well-formedness kept |
| PidStore.AfterAnimation | runelite-client/src/main/java/net/runelite/client/plugins/pidtracker/PidTrackerPlugin.java:168-197 | non-melee animation or no player target: unchanged; with orphans (melee, tick1 == now, no attacker, same target), exactly those get the attacker and the length is kept; without: one melee check (attacker, target, now, now + 1) with zero counts appended |
| PidStore.Filled | runelite-client/src/main/java/net/runelite/client/plugins/pidtracker/PidTrackerPlugin.java:184-188 | position by position: orphans get the attacker, every other check is unchanged |
| PidStore.AfterHitsplat | runelite-client/src/main/java/net/runelite/client/plugins/pidtracker/PidTrackerPlugin.java:200-231 | with checks aimed at the target: exactly those count the hitsplat on the current tick, others unchanged, nothing added; without: one melee orphan (no attacker, window now, now + 1, tick1 count 1) appended |
| PidStore.Counted | runelite-client/src/main/java/net/runelite/client/plugins/pidtracker/PidTrackerPlugin.java:211-219 | position by position: checks on the target count the hitsplat, the others are unchanged |
| PidStore.SameTickOrderIndependent | runelite-client/src/main/java/net/runelite/client/plugins/pidtracker/PidTrackerPlugin.java:81-90 | for a target with no pending check, hitsplat-then-animation and animation-then-hitsplat leave the same store: one melee check (attacker, target, now, now + 1) with counts (1, 0) |
| PidStore.Finalised | runelite-client/src/main/java/net/runelite/client/plugins/pidtracker/PidTrackerPlugin.java:241-245 | a check not finishing now is unchanged; a finishing check gets its tick2 count set to the hitsplats showing on its target, tick1 count kept |
| PidStore.FinalisedFirst | runelite-client/src/main/java/net/runelite/client/plugins/pidtracker/PidTrackerPlugin.java:241-247 | the store part-way through the finaliser: the first n checks finalised, the rest as they were |
| PidStore.FinalisedAll | runelite-client/src/main/java/net/runelite/client/plugins/pidtracker/PidTrackerPlugin.java:241-247 | every check finalised, position by position |
| PidStore.FinalisedFirstWellFormed | runelite-client/src/main/java/net/runelite/client/plugins/pidtracker/PidTrackerPlugin.java:241-247 | finalising keeps every check well formed |
| PidStore.EmittedUpToPrefix | runelite-client/src/main/java/net/runelite/client/plugins/pidtracker/PidTrackerPlugin.java:241-247 | what a prefix of the store yields comes first in what a longer prefix yields |
| PidStore.EmittedUpToSources | runelite-client/src/main/java/net/runelite/client/plugins/pidtracker/PidTrackerPlugin.java:241-247 | an assignment is emitted for the first n checks iff one of them finishes now and its finalised counts determine exactly that assignment |
| PidStore.EmittedUpToCount | runelite-client/src/main/java/net/runelite/client/plugins/pidtracker/PidTrackerPlugin.java:241-247 | exactly one assignment is emitted per check among the first n that finishes now and whose finalised counts determine one |
| PidStore.EmittedOnlyByFinishing | runelite-client/src/main/java/net/runelite/client/plugins/pidtracker/PidTrackerPlugin.java:241-243 | a store with no check finishing now yields no assignment |
| PidStore.Unfinished | runelite-client/src/main/java/net/runelite/client/plugins/pidtracker/PidTrackerPlugin.java:250 | a check is kept iff it does not finish now; no check appears that was not there |
| PidStore.UnfinishedCounts | runelite-client/src/main/java/net/runelite/client/plugins/pidtracker/PidTrackerPlugin.java:250 | each check occurs among the survivors exactly as often as in the store if it does not finish now, and not at all if it does: equal checks are neither merged nor dropped |
| PidStore.UnfinishedAfterFinalising | runelite-client/src/main/java/net/runelite/client/plugins/pidtracker/PidTrackerPlugin.java:241-250 | the final count never changes which checks survive, and the survivors are exactly the old ones, unchanged |
| PidStore.UnfinishedWellFormed | runelite-client/src/main/java/net/runelite/client/plugins/pidtracker/PidTrackerPlugin.java:250 | dropping finished checks keeps the store well formed |
| Graphs.PutEdgeValue | runelite-client/src/main/java/net/runelite/client/plugins/pidtracker/PidTrackerPlugin.java:319 | setting an edge value keeps the graph well formed |
| Graphs.RemoveNode | runelite-client/src/main/java/net/runelite/client/plugins/pidtracker/PidTrackerPlugin.java:325-326 | removing a node and its incident edges keeps the graph well formed |
| Graphs.RemoveEdge | runelite-client/src/main/java/net/runelite/client/plugins/pidtracker/PidTrackerPlugin.java:277 | removing an edge keeps the graph well formed |
| Graphs.EmptyAcyclic | runelite-client/src/main/java/net/runelite/client/plugins/pidtracker/PidTrackerPlugin.java:105 | the freshly built graph is well formed and acyclic |
| Graphs.Successors | runelite-client/src/main/java/net/runelite/client/plugins/pidtracker/TopologicalSort.java:83 | v is a successor of the set iff some node of the set has an edge to v |
| Graphs.Closure | runelite-client/src/main/java/net/runelite/client/plugins/pidtracker/PidTrackerPlugin.java:345 | the closure contains the start set, stays within the nodes and is closed under successors |
| Graphs.Reachable | runelite-client/src/main/java/net/runelite/client/plugins/pidtracker/PidTrackerPlugin.java:345-347 | the successors of u in the transitive closure; stays within the nodes, and is exactly the nodes a path from u reaches (`ReachableIff`) |
| Graphs.ClosureSound | runelite-client/src/main/java/net/runelite/client/plugins/pidtracker/PidTrackerPlugin.java:345 | everything in the closure of nodes reachable from u is reachable from u |
| Graphs.ReachableIff | runelite-client/src/main/java/net/runelite/client/plugins/pidtracker/PidTrackerPlugin.java:345-348 | v is in the computed closure of u's successors iff a path leads from u to v |
| Graphs.HasCycle | runelite-client/src/main/java/net/runelite/client/plugins/pidtracker/PidTrackerPlugin.java:323 | some node is in its own reachable set; decides exactly the graphs that are not acyclic (`HasCycleIff`) |
| Graphs.HasCycleIff | runelite-client/src/main/java/net/runelite/client/plugins/pidtracker/PidTrackerPlugin.java:323 | the computable cycle test holds iff the graph is not acyclic |
| PidGraph.Assign | runelite-client/src/main/java/net/runelite/client/plugins/pidtracker/PidTrackerPlugin.java:312-330 | the graph refuses exactly the self-assignment; otherwise the result is well formed |
| PidGraph.CycleIffReverseReach | runelite-client/src/main/java/net/runelite/client/plugins/pidtracker/PidTrackerPlugin.java:318-323 | on an acyclic graph, trying p -> q on a copy makes a cycle iff p == q or q already reaches p |
| PidGraph.ReachesAvoidingNewEdge | runelite-client/src/main/java/net/runelite/client/plugins/pidtracker/PidTrackerPlugin.java:318-323 | a path from q to p that may use the new edge p -> q can be shortened to one in the old graph |
| PidGraph.AssignKeepsAcyclic | runelite-client/src/main/java/net/runelite/client/plugins/pidtracker/PidTrackerPlugin.java:318-329 | on an acyclic graph, an assignment p -> q (p != q) leaves an acyclic graph holding p -> q with the current tick |
| PidGraph.AssignRenews | runelite-client/src/main/java/net/runelite/client/plugins/pidtracker/PidTrackerPlugin.java:318-329 | with no would-be cycle, the edge is put or renewed and every other edge keeps its value; only p and q may be added as nodes |
| PidGraph.AssignSwaps | runelite-client/src/main/java/net/runelite/client/plugins/pidtracker/PidTrackerPlugin.java:321-329 | with a would-be cycle, p and q keep no incident edge other than p -> q; edges away from both are kept with their values; no edge is added but p -> q; the node set is unchanged |
| PidGraph.AssignAll | runelite-client/src/main/java/net/runelite/client/plugins/pidtracker/PidTrackerPlugin.java:241-247 | applying a tick's assignments in order is refused iff one of them is a self-assignment; the graph stays well formed |
| PidGraph.AssignFirst | runelite-client/src/main/java/net/runelite/client/plugins/pidtracker/PidTrackerPlugin.java:241-247 | the same for the first k assignments |
| PidGraph.AssignAllOne | runelite-client/src/main/java/net/runelite/client/plugins/pidtracker/PidTrackerPlugin.java:246 | no assignment leaves the graph as it is; one assignment is `Assign`, or a refusal that changes nothing |
| PidGraph.AssignFirstKeepsAcyclic | runelite-client/src/main/java/net/runelite/client/plugins/pidtracker/PidTrackerPlugin.java:241-247 | applying any number of assignments in order keeps an acyclic graph acyclic |
| PidGraph.AssignAllKeepsAcyclic | runelite-client/src/main/java/net/runelite/client/plugins/pidtracker/PidTrackerPlugin.java:241-247 | a whole tick's assignments keep an acyclic graph acyclic |
| PidGraph.AssignFirstOfLonger | runelite-client/src/main/java/net/runelite/client/plugins/pidtracker/PidTrackerPlugin.java:241-247 | assignments made later do not change how earlier ones were applied |
| PidGraph.AssignFirstAppend | runelite-client/src/main/java/net/runelite/client/plugins/pidtracker/PidTrackerPlugin.java:241-247 | applying xs then the first k of ys, stopping at a refusal |
| PidGraph.AssignAllAppend | runelite-client/src/main/java/net/runelite/client/plugins/pidtracker/PidTrackerPlugin.java:241-247 | applying xs + ys is applying xs and then, unless xs was refused, ys |
| PidGraph.AssignAllStopsAtRefusal | runelite-client/src/main/java/net/runelite/client/plugins/pidtracker/PidTrackerPlugin.java:241-247 | after a refused assignment nothing further changes the graph |
| PidGraph.Expired | runelite-client/src/main/java/net/runelite/client/plugins/pidtracker/PidTrackerPlugin.java:266-267 | an edge assigned on tick a is expired on tick t when t >= a + 150; `Culled` keeps exactly the edges that are not |
| PidGraph.Culled | runelite-client/src/main/java/net/runelite/client/plugins/pidtracker/PidTrackerPlugin.java:259-280 | exactly the edges younger than 150 ticks survive, with their values; no node is removed; well-formedness and acyclicity kept |
| PidTracker.ChecksWithTarget | runelite-client/src/main/java/net/runelite/client/plugins/pidtracker/PidTrackerPlugin.java:211-213 | exactly the store's checks aimed at the target, each once |
| PidTracker.MatchingMeleePidChecks | runelite-client/src/main/java/net/runelite/client/plugins/pidtracker/PidTrackerPlugin.java:305-310 | exactly the store's orphans for this tick and target, each once |
| PidTracker.UnfinishedChecks | runelite-client/src/main/java/net/runelite/client/plugins/pidtracker/PidTrackerPlugin.java:250 | the kept objects are exactly the store's objects whose second tick is not the current one, each once |
| PidTracker.ViewsOfUnfinished | runelite-client/src/main/java/net/runelite/client/plugins/pidtracker/PidTrackerPlugin.java:250 | the kept check objects hold exactly `Unfinished` of the store's contents |
| PidTracker.SetAttackerOnAll | runelite-client/src/main/java/net/runelite/client/plugins/pidtracker/PidTrackerPlugin.java:187 | every matching check gets the attacker and nothing else changes in it |
| PidTracker.IncrementCountOnAll | runelite-client/src/main/java/net/runelite/client/plugins/pidtracker/PidTrackerPlugin.java:218 | every check on the target counts the hitsplat, as `CountedOn` says |
| PidTracker.RefusalEndsTick | runelite-client/src/main/java/net/runelite/client/plugins/pidtracker/PidTrackerPlugin.java:241-247 | once an assignment is refused, the rest of the tick's assignments change nothing |
| PidTracker.RefusedAt | runelite-client/src/main/java/net/runelite/client/plugins/pidtracker/PidTrackerPlugin.java:241-247 | the n-th check is the first whose assignment the graph refuses: all emitted before it accepted, its own not |
| PidTracker.RefusedAtUnique | runelite-client/src/main/java/net/runelite/client/plugins/pidtracker/PidTrackerPlugin.java:241-247 | at most one check is the first refused, so where a tick stops is fixed by the store, the graph and the counts |
| PidTracker.NotRefusedLater | runelite-client/src/main/java/net/runelite/client/plugins/pidtracker/PidTrackerPlugin.java:241-247 | no check after the first refused one is the first refused |
| PidTracker.StillRefused | runelite-client/src/main/java/net/runelite/client/plugins/pidtracker/PidTrackerPlugin.java:241-247 | once a prefix's assignments are refused, every longer prefix's are |
| PidTracker.PidTrackerPlugin.constructor | runelite-client/src/main/java/net/runelite/client/plugins/pidtracker/PidTrackerPlugin.java:104-105 | empty store, empty graph, invariant established |
| PidTracker.PidTrackerPlugin.OnProjectileMoved | runelite-client/src/main/java/net/runelite/client/plugins/pidtracker/PidTrackerPlugin.java:148-164 | the store becomes `AfterLaunch` of the old store; invariant kept |
| PidTracker.PidTrackerPlugin.OnAnimationChanged | runelite-client/src/main/java/net/runelite/client/plugins/pidtracker/PidTrackerPlugin.java:168-197 | the store becomes `AfterAnimation` of the old store; invariant kept |
| PidTracker.PidTrackerPlugin.StartMeleeCheck | runelite-client/src/main/java/net/runelite/client/plugins/pidtracker/PidTrackerPlugin.java:189-195 | appends one melee check (attacker, target, now, now + 1) with zero counts |
| PidTracker.PidTrackerPlugin.FillAttacker | runelite-client/src/main/java/net/runelite/client/plugins/pidtracker/PidTrackerPlugin.java:184-188 | with at least one orphan, the store becomes `AfterAnimation` of the old store |
| PidTracker.PidTrackerPlugin.OnHitsplatApplied | runelite-client/src/main/java/net/runelite/client/plugins/pidtracker/PidTrackerPlugin.java:200-231 | the store becomes `AfterHitsplat` of the old store; invariant kept |
| PidTracker.PidTrackerPlugin.AddOrphan | runelite-client/src/main/java/net/runelite/client/plugins/pidtracker/PidTrackerPlugin.java:220-228 | appends one melee orphan (no attacker, now, now + 1) with counts (1, 0) |
| PidTracker.PidTrackerPlugin.CountHitsplat | runelite-client/src/main/java/net/runelite/client/plugins/pidtracker/PidTrackerPlugin.java:215-219 | with at least one check on the target, the store becomes `AfterHitsplat` of the old store |
| PidTracker.PidTrackerPlugin.Append | runelite-client/src/main/java/net/runelite/client/plugins/pidtracker/PidTrackerPlugin.java:164 | adds one new check at the end; the store stays distinct and well formed |
| PidTracker.PidTrackerPlugin.OnNewPidAssignment | runelite-client/src/main/java/net/runelite/client/plugins/pidtracker/PidTrackerPlugin.java:312-330 | refused iff pidder == piddee, then nothing changes; otherwise the graph becomes `Assign` of the old one, stays acyclic and holds pidder -> piddee with the current tick |
| PidTracker.PidTrackerPlugin.CullExpiredPids | runelite-client/src/main/java/net/runelite/client/plugins/pidtracker/PidTrackerPlugin.java:259-280 | the collect-then-remove loop leaves exactly `Culled` of the old graph |
| PidTracker.PidTrackerPlugin.OnTick | runelite-client/src/main/java/net/runelite/client/plugins/pidtracker/PidTrackerPlugin.java:233-254 | the graph receives the tick's assignments in store order, and the invariant is kept; normally: exactly the unfinished checks survive, unchanged; edges are culled; with a refused assignment: no check is dropped, no edge culled, and the checks up to and including the first refused one (`RefusedAt`, unique by `RefusedAtUnique`) are finalised, the rest untouched |
| PidTracker.PidTrackerPlugin.FinishTick | runelite-client/src/main/java/net/runelite/client/plugins/pidtracker/PidTrackerPlugin.java:249-253 | after finalising every check, the survivors are `Unfinished` of the store before the tick and the graph is culled |
| PidTracker.PidTrackerPlugin.ResolveFinishing | runelite-client/src/main/java/net/runelite/client/plugins/pidtracker/PidTrackerPlugin.java:241-247 | the first n checks are finalised and the graph is the old one with their assignments applied; n is the whole store unless an assignment was refused, and then exactly the position of the first refused check (`RefusedAt`); acyclicity kept |
| PidTracker.PidTrackerPlugin.ResolvePrefix | runelite-client/src/main/java/net/runelite/client/plugins/pidtracker/PidTrackerPlugin.java:241-247 | the loop over the check objects: visits them in order, finalising each, and stops right after the first refused assignment |
| PidTracker.PidTrackerPlugin.ResolveAt | runelite-client/src/main/java/net/runelite/client/plugins/pidtracker/PidTrackerPlugin.java:243-247 | one more check finalised and its assignment applied |
| PidTracker.PidTrackerPlugin.ResolveCheck | runelite-client/src/main/java/net/runelite/client/plugins/pidtracker/PidTrackerPlugin.java:245-246 | the check gets its final count if it finishes now, and what it resolves to is applied to the graph |
| PidTracker.PidTrackerPlugin.RemoveFinished | runelite-client/src/main/java/net/runelite/client/plugins/pidtracker/PidTrackerPlugin.java:250 | the store becomes `Unfinished` of the old store; invariant kept |
| PidTracker.PidTrackerPlugin.WePidPlayer | runelite-client/src/main/java/net/runelite/client/plugins/pidtracker/PidTrackerPlugin.java:332-360 | unknown when them is absent, equals us, or either is not in the graph; true iff a path leads from us to them; false iff they reach us and we do not reach them (on an acyclic graph: iff they reach us); reads the graph only |
| TopologicalSort.InDegreeIsPending | runelite-client/src/main/java/net/runelite/client/plugins/pidtracker/TopologicalSort.java:68-73 | with nothing yielded, the pending in-degree is the in-degree |
| TopologicalSort.PendingAfterEmit | runelite-client/src/main/java/net/runelite/client/plugins/pidtracker/TopologicalSort.java:83-86 | yielding a node lowers by one the pending in-degree of its successors and of no other node |
| TopologicalSort.NoPendingPredecessor | runelite-client/src/main/java/net/runelite/client/plugins/pidtracker/TopologicalSort.java:87-91 | a node whose count reaches zero has all its predecessors yielded |
| TopologicalSort.SomePendingPredecessor | runelite-client/src/main/java/net/runelite/client/plugins/pidtracker/TopologicalSort.java:95 | a positive count names a predecessor not yet yielded |
| TopologicalSort.BackwardsWalkCloses | runelite-client/src/main/java/net/runelite/client/plugins/pidtracker/TopologicalSort.java:95 | if every node of a set has a predecessor in the set, walking predecessors closes a cycle |
| TopologicalSort.NoSourceMeansCycle | runelite-client/src/main/java/net/runelite/client/plugins/pidtracker/TopologicalSort.java:95 | nodes left waiting with no root to release them mean the graph has a cycle |
| TopologicalSort.OrderedAcyclic | runelite-client/src/main/java/net/runelite/client/plugins/pidtracker/TopologicalSort.java:96 | a duplicate-free listing of all nodes in which every edge runs forward means the graph is acyclic |
| TopologicalSort.ValidYielded | runelite-client/src/main/java/net/runelite/client/plugins/pidtracker/TopologicalSort.java:77-97 | between steps, the nodes yielded so far are distinct nodes of the graph, every edge among them runs forward, and there are at most as many as nodes |
| TopologicalSort.PoppedEmitting | runelite-client/src/main/java/net/runelite/client/plugins/pidtracker/TopologicalSort.java:82 | taking the first root keeps the partition and the order, and every count is then one too high exactly for the root's successors |
| TopologicalSort.ReleasedValid | runelite-client/src/main/java/net/runelite/client/plugins/pidtracker/TopologicalSort.java:83-92 | lowering the successors' counts and queueing those reaching zero restores the state invariant: every count equals the predecessors not yet yielded |
| TopologicalSort.LowerCounts | runelite-client/src/main/java/net/runelite/client/plugins/pidtracker/TopologicalSort.java:83-92 | each successor's count drops by one; exactly those whose count was 1 are removed and listed once each; other counts unchanged |
| TopologicalSort.Size | runelite-client/src/main/java/net/runelite/client/plugins/pidtracker/TopologicalSort.java:41-44 | the node count, which is the length of every duplicate-free listing of all the nodes, hence the length of a completed sort |
| TopologicalSort.TopologicalOrderIterator.constructor | runelite-client/src/main/java/net/runelite/client/plugins/pidtracker/TopologicalSort.java:59-74 | the roots are exactly the nodes of in-degree 0, each once; the map holds every other node with its in-degree; state invariant established |
| TopologicalSort.TopologicalOrderIterator.ComputeNext | runelite-client/src/main/java/net/runelite/client/plugins/pidtracker/TopologicalSort.java:76-97 | with a root: yields the first root, the other roots stay queued in order, exactly the released successors are queued after them and leave the map; no root and empty map: end of data with every node yielded exactly once; no root but waiting nodes: the failure "graph has at least one cycle", and the graph is indeed cyclic; the state invariant is kept |
| TopologicalSort.TopologicalOrderIterator.PopRoot | runelite-client/src/main/java/net/runelite/client/plugins/pidtracker/TopologicalSort.java:82 | dequeues the first root and yields it |
| TopologicalSort.TopologicalOrderIterator.ReleaseSuccessors | runelite-client/src/main/java/net/runelite/client/plugins/pidtracker/TopologicalSort.java:83-92 | the old roots stay a prefix of the queue, exactly the released successors are appended, the map loses exactly them, and the state invariant holds again |
| TopologicalSort.Sort | runelite-client/src/main/java/net/runelite/client/plugins/pidtracker/TopologicalSort.java:20-44 | iteration ends normally iff the graph is acyclic; the output never repeats a node, lists only nodes, and puts each edge's source before its target; on an acyclic graph it lists every node and its length is `size()`, the node count |

## Left out

- The host filters at the top of each handler are not modelled: "projectile has just launched", "the target is a player", "the actor is a player" (`PidTrackerPlugin.java:136-146`, 170-176, 202-205). The handlers receive only events that pass them, and a non-player target is the `None` of `OnAnimationChanged`.
- The tile query in `getProjectileCreator` is host code. Its "exactly one occupant" rule is modelled on the occupant list, which is a parameter.
- `calcProjectileRemainingTravelTicks` computes `Math.ceil` over doubles, so the landing tick is a parameter.
- `countActorHitsplats` reads the client's hitsplat arrays, so the end-of-tick counts are a parameter: a map from player name to count, where a player not listed has 0. Its `-1` branch for a null actor is unreachable, because a check's target is never null.
- `CombatAnimations.MELEE` and `AnimationID` are constant tables. The melee test is membership in a set passed as a parameter.
- The client's local player and tick count are replaced by the `us` and `currentTick` parameters.
- Players are compared by name. The source mixes reference identity (`==` at `PidTrackerPlugin.java:157` and 308) with `equals` (212).
- Ticks and counts are unbounded integers. Java `int` overflow would need 2^31 ticks.
- Guava's `Graphs.copyOf`, `hasCycle` and `transitiveClosure` are foreign calls. They are re-expressed by `Graphs.Closure`, `HasCycle` and `Reachable`, each proved against path-based reachability.
- Guava's transitive closure is reflexive. That makes no difference here, because `them == us` is answered first.
- The graph is built without self loops, so `putEdgeValue(p, p, …)` throws. Such a refusal is modelled by the `ok` flag. The exception leaves the rest of `onTick`'s loop, the `removeIf` and the cull undone, and the model does the same.
- Iteration orders:
  - the store keeps its list order;
  - culling works on the set of expired edges, so its removal order does not matter;
  - the sort queues roots and released successors in an unspecified order, chosen by the model's loops.
- `startUp`, `shutDown`, the overlay and the event-bus wiring are UI and host plumbing.
- The `TopologicallySortedNodes` set wrapper, its `iterator()` and its `remove`, which throws `UnsupportedOperationException`, are not modelled. The sort is a sequence produced by `TopologicalSort.Sort`. The graph is a value and is never modified by sorting.
- The `AbstractIterator` protocol (`hasNext`, `next`, `endOfData`, the exception leaving the iterator) is a `Step` value. `checkState`'s exception is `Failure(message)`.
- `checkNotNull` is not modelled, because a graph value cannot be null.
- The root queue is built in the constructor by a loop over the node set. The source does this with a stream collector.
- The successor loop works on a local copy of the in-degree map and queue, and writes both back once. The source updates its `HashMap` and `ArrayDeque` in place, but nothing else can observe them meanwhile.
- The Lombok-generated getters, `equals`, `hashCode` and `toString` of `PendingPidCheck` are not modelled. `setTarget`, `setTick1` and `setTick2` are never called, so those fields are constants here.
- `TopologicalSort.Sort`: it states that the output is a topological order, not which one of the possible orders. That choice depends on Guava's iteration order.
