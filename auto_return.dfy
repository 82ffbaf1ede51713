/**
 * Auto-return after a cast: clicking a usable QuickCast slot marks the cast
 * (caster, blueprint) when the setting asks for it, and the end of that
 * unit's ability command closes the page when the cast succeeded.
 */
module AutoReturn {
  import opened Common
  import opened Catalog
  import opened SlotSpell
  import opened Surface
  import opened Overlay

  /** The mark a click on a usable slot leaves: the cast when auto-return is on, nothing otherwise. */
  function MarkFor(s: QuickCastSlot, autoReturnAfterCast: bool): (mark: Option<(nat, Blueprint)>)
    requires !IsBad(s)
    ensures mark.Some? <==> autoReturnAfterCast
    ensures mark.Some? ==> mark.value.0 == s.unit.value.ref && s.spell.value.blueprint == Some(mark.value.1)
  {
    if autoReturnAfterCast then Some((s.unit.value.ref, s.spell.value.blueprint.value)) else None
  }

  /**
   * The click on a QuickCast slot: a bad slot, or one the host will not let
   * the unit use now, leaves the mark alone; otherwise the mark is replaced
   * (and dropped when auto-return is off). The cast itself is the host's.
   */
  method SlotOnClick(m: ActionBarManager, s: QuickCastSlot, possibleActive: bool, autoReturnAfterCast: bool)
    modifies m`autoReturnMark
    ensures IsBad(s) || !possibleActive ==> m.autoReturnMark == old(m.autoReturnMark)
    ensures !IsBad(s) && possibleActive ==> m.autoReturnMark == MarkFor(s, autoReturnAfterCast)
  {
    if IsBad(s) || !possibleActive {
      return;
    }
    if autoReturnAfterCast && s.unit.Some? && s.spell.Some? {
      m.autoReturnMark := Some((s.unit.value.ref, s.spell.value.blueprint.value));
    } else {
      m.autoReturnMark := None;
    }
  }

  /** The ended command is the marked cast: same executor, and an ability of the marked blueprint. */
  predicate IsMarkedCast(mark: (nat, Blueprint), executor: nat, ability: Option<AbilityData>)
  {
    executor == mark.0 && ability.Some? && ability.value.blueprint == Some(mark.1)
  }

  /**
   * The end of an ability command. With the mod running and auto-return on,
   * a successful command consumes the mark and, when it is the marked cast,
   * ends the session. A failed marked cast only drops the mark. Anything
   * else changes nothing.
   */
  method OnEnded(m: ActionBarManager, modReady: bool, autoReturnAfterCast: bool, executor: nat,
                 ability: Option<AbilityData>, success: bool, vm: ActionBarVM, h: Host)
    requires m.Valid()
    modifies m`autoReturnMark, m`internalUpdate, m`snapshot, m`active, m`page, vm`slots
    ensures m.Valid()
    ensures old(m.autoReturnMark).None? ==> unchanged(m, vm)
    ensures old(m.autoReturnMark).Some? && success && modReady && autoReturnAfterCast ==>
      m.autoReturnMark.None? &&
      if IsMarkedCast(old(m.autoReturnMark).value, executor, ability) && old(m.active) then
        !m.active && m.page == -1 && m.snapshot == map[] &&
        vm.slots == (if h.barPresent then Restored(old(vm.slots), vm.count, old(m.snapshot)) else old(vm.slots))
      else
        m.active == old(m.active) && m.page == old(m.page) && m.snapshot == old(m.snapshot) && vm.slots == old(vm.slots)
    ensures old(m.autoReturnMark).Some? && success && !(modReady && autoReturnAfterCast) ==> unchanged(m, vm)
    ensures old(m.autoReturnMark).Some? && !success ==>
      m.autoReturnMark == (if IsMarkedCast(old(m.autoReturnMark).value, executor, ability) then None else old(m.autoReturnMark)) &&
      m.active == old(m.active) && m.page == old(m.page) && m.snapshot == old(m.snapshot) && vm.slots == old(vm.slots)
  {
    if modReady && autoReturnAfterCast && m.autoReturnMark.Some? && success {
      if IsMarkedCast(m.autoReturnMark.value, executor, ability) {
        m.TryDeactivate(false, vm, h);
      }
      m.autoReturnMark := None;
    } else if m.autoReturnMark.Some? && !success {
      if IsMarkedCast(m.autoReturnMark.value, executor, ability) {
        m.autoReturnMark := None;
      }
    }
  }

  /**
   * The cast a click starts is the one the mark recognises when its command
   * ends: same unit, same spell blueprint; a command of another unit is not.
   */
  lemma MarkRecognisesItsCast(s: QuickCastSlot, other: nat)
    requires !IsBad(s)
    ensures IsMarkedCast(MarkFor(s, true).value, s.unit.value.ref, s.spell)
    ensures other != s.unit.value.ref ==> !IsMarkedCast(MarkFor(s, true).value, other, s.spell)
  {
  }
}
