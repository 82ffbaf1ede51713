/**
 * The reconciliation guard: the rule that decides whether a write into a main
 * bar slot, observed after the fact, is the user clearing a bound slot (which
 * unbinds the spell on the active page) or a write to ignore.
 */
module Guard {
  import opened Common
  import opened Surface

  /**
   * The write-provenance flags the guard reads: the manager's internal-update
   * and state-transition flags, the host bulk-refresh flag, and the immunity
   * frame compared with the current frame.
   */
  datatype Provenance = Provenance(
    internalUpdate: bool,
    stateTransition: bool,
    gameRefreshing: bool,
    ignoreUntilFrame: int,
    frame: int)

  /** One observed slot write: the slot view model's index, whether it belongs to the main bar's slot list, and the new content. */
  datatype SlotWrite = SlotWrite(index: int, inMainBar: bool, content: Content)

  /** No flag marks the write as the overlay's or the game's own, and the immunity window has passed. */
  predicate CanUnbind(p: Provenance)
  {
    !p.internalUpdate && !p.stateTransition && !p.gameRefreshing && !(p.ignoreUntilFrame >= p.frame)
  }

  /**
   * Whether the slot-write postfix (with QuickCast active) asks the manager to
   * unbind the written slot; `barPresent` says whether the host's main bar view
   * model could be found.
   */
  function RequestsUnbind(p: Provenance, w: SlotWrite, barPresent: bool): (r: bool)
    ensures r ==> IsEmptied(w.content) && IsLogicalSlot(w.index)
    ensures r ==> barPresent && w.inMainBar
    ensures p.internalUpdate || p.stateTransition || p.gameRefreshing ==> !r
    ensures p.ignoreUntilFrame >= p.frame ==> !r
    ensures CanUnbind(p) && IsEmptied(w.content) && IsLogicalSlot(w.index) && barPresent && w.inMainBar ==> r
  {
    if CanUnbind(p) && IsEmptied(w.content) then
      if 0 <= w.index < 12 then barPresent && w.inMainBar
      else false
    else false
  }
}
