/**
 * The overlay's own action-bar slot object: a spell entry together with the
 * unit that owns the bar. Its getters fall back to neutral values when the
 * spell is missing, and `IsBad` decides whether the slot can be used at all.
 * Host behaviour the getters delegate to (remaining casts, names, the
 * spellbook's level computation, the action-type check) is passed in.
 */
module SlotSpell {
  import opened Common
  import opened Catalog

  /** A QuickCast slot: constructed from the bound spell and the bar's unit. */
  datatype QuickCastSlot = QuickCastSlot(spell: Option<AbilityData>, unit: Option<Unit>)

  /** The unit's current standard command, as far as `IsCasting` looks at it. */
  datatype Command = UseAbility(blueprint: Blueprint) | OtherCommand | NoCommand

  /**
   * A slot is bad when its spell, the spell's blueprint or caster, or its unit
   * is missing, the blueprint is hidden, or the spell level is negative.
   */
  predicate IsBad(s: QuickCastSlot)
  {
    s.spell.None? || s.spell.value.blueprint.None? || s.spell.value.caster.None? ||
    s.spell.value.blueprint.value.hidden || s.unit.None? || s.spell.value.spellLevel < 0
  }

  /** What a usable slot is guaranteed to hold. */
  lemma UsableSlotIsComplete(s: QuickCastSlot)
    requires !IsBad(s)
    ensures s.spell.Some? && s.unit.Some?
    ensures s.spell.value.blueprint.Some? && !s.spell.value.blueprint.value.hidden
    ensures s.spell.value.caster.Some? && s.spell.value.spellLevel >= 0
  {
  }

  /** The slot is casting when it is usable and its unit is using an ability of the same blueprint. */
  function IsCasting(s: QuickCastSlot, standard: Command): (r: bool)
    ensures IsBad(s) ==> !r
    ensures r ==> standard.UseAbility? && s.spell.value.blueprint == Some(standard.blueprint)
    ensures !IsBad(s) && standard.UseAbility? && s.spell.value.blueprint == Some(standard.blueprint) ==> r
  {
    if IsBad(s) then false
    else match standard
      case UseAbility(bp) => s.spell.value.blueprint == Some(bp)
      case _ => false
  }

  /** Turn-based usability: never without a spell, otherwise the host's action-type check. */
  function CanUseIfTurnBasedInternal(s: QuickCastSlot, canUseByActionType: AbilityData -> bool): (r: bool)
    ensures s.spell.None? ==> !r
    ensures s.spell.Some? ==> r == canUseByActionType(s.spell.value)
  {
    s.spell.Some? && canUseByActionType(s.spell.value)
  }

  /** Remaining casts, 0 without a spell. */
  function GetResource(s: QuickCastSlot, availableForCast: AbilityData -> int): (r: int)
    ensures s.spell.None? ==> r == 0
    ensures s.spell.Some? ==> r == availableForCast(s.spell.value)
  {
    if s.spell.Some? then availableForCast(s.spell.value) else 0
  }

  /** A host text of the spell (its name, its short description), "" when either is missing. */
  function TextOrEmpty(s: QuickCastSlot, text: AbilityData -> Option<string>): (r: string)
    ensures s.spell.None? ==> r == ""
    ensures s.spell.Some? && text(s.spell.value).None? ==> r == ""
    ensures s.spell.Some? && text(s.spell.value).Some? ==> r == text(s.spell.value).value
  {
    if s.spell.Some? && text(s.spell.value).Some? then text(s.spell.value).value else ""
  }

  function GetTitle(s: QuickCastSlot, name: AbilityData -> Option<string>): (r: string)
    ensures s.spell.None? ==> r == ""
  {
    TextOrEmpty(s, name)
  }

  function GetDescription(s: QuickCastSlot, shortDescription: AbilityData -> Option<string>): (r: string)
    ensures s.spell.None? ==> r == ""
  {
    TextOrEmpty(s, shortDescription)
  }

  /**
   * The displayed level: the spellbook's computed level (metamagic included)
   * when the spell has a spellbook, else the spell's own level, else -1.
   */
  function GetLevel(s: QuickCastSlot, spellbookLevel: AbilityData -> int): (r: int)
    ensures s.spell.None? ==> r == -1
    ensures s.spell.Some? && s.spell.value.spellbook.None? ==> r == s.spell.value.spellLevel
    ensures s.spell.Some? && s.spell.value.spellbook.Some? ==> r == spellbookLevel(s.spell.value)
  {
    if s.spell.None? || s.spell.value.spellbook.None? then
      (if s.spell.Some? then s.spell.value.spellLevel else -1)
    else spellbookLevel(s.spell.value)
  }
}
