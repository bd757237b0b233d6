/**
 * One pending check: the evidence gathered about a single (attacker, target)
 * pair over a window of two game ticks, and the rule that turns that evidence
 * into at most one directed priority assignment.
 *
 * `PidCheck` is the record as a value; the class `PendingPidCheck` holds the
 * same fields and is updated in place, each of its methods proved against the
 * value-level function of the same name.
 */
module PendingPidCheck {

  import opened Wrappers

  /** A directed priority fact: the game processes `pidder` before `piddee`. */
  datatype Assignment = Assignment(pidder: string, piddee: string)
  {
    predicate SelfAssignment()
    {
      pidder == piddee
    }
  }

  /** The state of a pending check. `attacker` is None while it is unknown. */
  datatype PidCheck = PidCheck(
    attacker: Option<string>,
    target: string,
    tick1: int,
    tick2: int,
    melee: bool,
    tick1Hitsplats: int,
    tick2Hitsplats: int)
  {
    /** The shape every check in the store keeps: two consecutive ticks and
        counts that are never negative. */
    predicate WellFormed()
    {
      tick2 == tick1 + 1 && tick1Hitsplats >= 0 && tick2Hitsplats >= 0
    }

    /** Same pair, window and style; only the counts may differ. */
    predicate SameWindow(other: PidCheck)
    {
      && other.attacker == attacker && other.target == target
      && other.tick1 == tick1 && other.tick2 == tick2 && other.melee == melee
    }

    /** The check after one more hitsplat was seen on `tick`. */
    function CountedOn(tick: int): (r: PidCheck)
      ensures SameWindow(r)
      ensures r.tick1Hitsplats + r.tick2Hitsplats
              == tick1Hitsplats + tick2Hitsplats + (if tick == tick1 || tick == tick2 then 1 else 0)
      ensures tick != tick1 ==> r.tick1Hitsplats == tick1Hitsplats
      ensures tick == tick1 ==> r.tick2Hitsplats == tick2Hitsplats
      ensures WellFormed() ==> r.WellFormed()
    {
      if tick == tick1 then this.(tick1Hitsplats := tick1Hitsplats + 1)
      else if tick == tick2 then this.(tick2Hitsplats := tick2Hitsplats + 1)
      else this
    }

    /** The check with the count for `tick` overwritten by `count`; a tick
        outside the window changes nothing. */
    function WithCount(tick: int, count: int): (r: PidCheck)
      ensures SameWindow(r)
      ensures tick != tick1 && tick != tick2 ==> r == this
      ensures tick == tick1 ==> r.tick1Hitsplats == count && r.tick2Hitsplats == tick2Hitsplats
      ensures tick != tick1 && tick == tick2 ==> r.tick2Hitsplats == count && r.tick1Hitsplats == tick1Hitsplats
      ensures WellFormed() && count >= 0 ==> r.WellFormed()
    {
      if tick == tick1 then this.(tick1Hitsplats := count)
      else if tick == tick2 then this.(tick2Hitsplats := count)
      else this
    }

    /** Whether the check's window closes on `currentTick`. */
    predicate FinishesOn(currentTick: int)
    {
      currentTick == tick2
    }

    /** A well-formed check finishes on exactly one tick, the one after its
        first, and never on its first. */
    lemma FinishesOnTickAfterFirst(t: int)
      requires WellFormed()
      ensures FinishesOn(t) <==> t == tick1 + 1
      ensures !FinishesOn(tick1)
    {
    }

    /** The resolution rule. With an unknown attacker nothing is asserted.
        One hitsplat on each tick means the attacker's hit landed first and
        stayed the only one: the attacker is processed first. No hitsplat on
        the first tick and exactly one on the second means the target is
        processed first. Every other pattern is inconclusive. */
    function DeterminePid(): (r: Option<Assignment>)
      ensures attacker.None? ==> r.None?
      ensures attacker.Some? && tick1Hitsplats == 1 && tick2Hitsplats == 1
              ==> r == Some(Assignment(attacker.value, target))
      ensures attacker.Some? && tick1Hitsplats == 0 && tick2Hitsplats == 1
              ==> r == Some(Assignment(target, attacker.value))
      ensures tick2Hitsplats != 1 || (tick1Hitsplats != 0 && tick1Hitsplats != 1) ==> r.None?
      ensures r.Some? ==> {r.value.pidder, r.value.piddee} == {attacker.value, target}
    {
      match attacker
      case None => None
      case Some(a) =>
        if tick1Hitsplats == 1 && tick2Hitsplats == 1 then Some(Assignment(a, target))
        else if tick1Hitsplats == 0 && tick2Hitsplats == 1 then Some(Assignment(target, a))
        else None
    }
  }

  /** A pending check as the plugin stores it: a mutable record. The fields
      target, tick1 and tick2 are never reassigned after construction. */
  class PendingPidCheck {
    var attacker: Option<string>
    const target: string
    const tick1: int
    const tick2: int
    var melee: bool
    var tick1Hitsplats: int
    var tick2Hitsplats: int

    /** The record's current contents as a value. */
    function View(): PidCheck
      reads this
    {
      PidCheck(attacker, target, tick1, tick2, melee, tick1Hitsplats, tick2Hitsplats)
    }

    constructor (attacker: Option<string>, target: string, tick1: int, tick2: int)
      ensures View() == PidCheck(attacker, target, tick1, tick2, false, 0, 0)
    {
      this.attacker := attacker;
      this.target := target;
      this.tick1 := tick1;
      this.tick2 := tick2;
      this.melee := false;
      this.tick1Hitsplats := 0;
      this.tick2Hitsplats := 0;
    }

    method IncrementCountForTick(tick: int)
      modifies this
      ensures View() == old(View()).CountedOn(tick)
    {
      if tick == tick1 {
        tick1Hitsplats := tick1Hitsplats + 1;
      } else if tick == tick2 {
        tick2Hitsplats := tick2Hitsplats + 1;
      }
    }

    method SetCountForTick(tick: int, count: int)
      modifies this
      ensures View() == old(View()).WithCount(tick, count)
    {
      if tick == tick1 {
        tick1Hitsplats := count;
      } else if tick == tick2 {
        tick2Hitsplats := count;
      }
    }

    method SetAttacker(attacker: Option<string>)
      modifies this
      ensures View() == old(View()).(attacker := attacker)
    {
      this.attacker := attacker;
    }

    method SetMelee(melee: bool)
      modifies this
      ensures View() == old(View()).(melee := melee)
    {
      this.melee := melee;
    }
  }
}
