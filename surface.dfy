/**
 * The part of the game's UI the overlay writes to: the main action bar's view
 * model, whose slot view models each hold one mechanic slot object.
 *
 * Slot objects are compared by identity in the host; here every object the
 * overlay or the host creates carries an `ObjId`, which also stands for the
 * object's hash code.
 */
module Surface {
  import opened Common
  import opened Catalog
  import opened SlotSpell

  /** The identity (and hash code) of a mechanic slot object. */
  datatype ObjId = ObjId(generation: nat, index: int)

  /**
   * What a slot view model holds: nothing (a null slot object), the empty
   * placeholder, one of the overlay's QuickCast slots, or any other slot
   * object of the game (abilities, items, the game's own spell slots).
   */
  datatype Content =
    | NoContent
    | Empty
    | QC(slot: QuickCastSlot, id: ObjId)
    | Native(id: ObjId)

  /** A write of this content looks to the overlay like the user clearing the slot. */
  predicate IsEmptied(c: Content)
  {
    c.NoContent? || c.Empty?
  }

  /**
   * The main action bar's view model. `slots` maps the index of every non-null
   * slot view model to its content; `count` is the length of the host's slot
   * list (null entries included); `selectedUnit` is the unit the bar shows;
   * `currentSpellLevel` is the spell level the bar's spellbook group displays.
   */
  class ActionBarVM {
    var slots: map<int, Content>
    var count: nat
    var selectedUnit: Option<Unit>
    var currentSpellLevel: int

    constructor (slots: map<int, Content>, count: nat, selectedUnit: Option<Unit>, currentSpellLevel: int)
      ensures this.slots == slots && this.count == count
      ensures this.selectedUnit == selectedUnit && this.currentSpellLevel == currentSpellLevel
    {
      this.slots := slots;
      this.count := count;
      this.selectedUnit := selectedUnit;
      this.currentSpellLevel := currentSpellLevel;
    }
  }
}
