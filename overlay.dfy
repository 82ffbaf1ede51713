/**
 * The quick-cast overlay session: it takes over the managed slots of the main
 * action bar for one page (a spell level), remembers what they held, writes
 * the page's bound spells into them, and gives the bar back when the session
 * ends.
 *
 * A slot is managed when its index is below both the bar's slot count and the
 * length of the bind-key table and its bind key is set. What a session does
 * to the bar is specified by three functions on the bar's content map:
 * `SnapshotOf` (what activation saves), `Refreshed` (what a refresh writes)
 * and `Restored` (what restoring writes back).
 */
module Overlay {
  import opened Common
  import opened Config
  import opened Catalog
  import opened SlotSpell
  import opened Surface
  import opened BindingData
  import opened Guard

  /** The game modes the overlay distinguishes. */
  datatype GameMode = Default | TacticalCombat | Pause | Dialog | FullScreenUi | Cutscene | CutsceneGlobalMap | OtherMode

  /** Modes during which the session is suspended: dialogs, full-screen UI and cutscenes. */
  predicate Suspends(m: GameMode)
  {
    m.Dialog? || m.FullScreenUi? || m.Cutscene? || m.CutsceneGlobalMap?
  }

  /** Modes in which activation also moves the bar's spellbook group to the page. */
  predicate SyncsSpellLevel(m: GameMode)
  {
    m.Default? || m.TacticalCombat? || m.Pause?
  }

  /** Where, if anywhere, the guarded part of activation throws. */
  datatype Fault = NoFault | FaultBeforeRefresh | FaultAfterRefresh

  /**
   * What the host answers during one call: the selection's current character
   * and whether exactly one unit is selected, the spell catalog, the bind-key
   * table of the settings, the frame counter, whether the spellbook group view
   * exists, the game mode, where activation throws, whether the main bar's view
   * model (with its slot list) can be reached, whether the mod can write its
   * bindings file, and the frame until which external slot clears are
   * ignored.
   */
  datatype Host = Host(
    selected: Option<Unit>,
    singleSelection: bool,
    catalog: Catalog,
    keys: seq<KeyCode>,
    frame: int,
    spellsGroupPresent: bool,
    mode: GameMode,
    fault: Fault,
    barPresent: bool,
    canSave: bool,
    ignoreUntilFrame: int)

  /** The first spellbook of a unit, if it has one. */
  function FirstBook(u: Option<Unit>): (r: Option<Spellbook>)
    ensures r.Some? ==>
      u.Some? && u.value.spellbooks.Some? && |u.value.spellbooks.value| > 0 && r.value == u.value.spellbooks.value[0]
    ensures r.None? ==> u.None? || u.value.spellbooks.None? || u.value.spellbooks.value == []
  {
    if u.Some? && u.value.spellbooks.Some? && |u.value.spellbooks.value| > 0 then Some(u.value.spellbooks.value[0])
    else None
  }

  /** Activation's first checks: a selected character whose first spellbook reaches the level. */
  predicate CanOpenPage(h: Host, spellLevel: int)
  {
    FirstBook(h.selected).Some? && spellLevel <= FirstBook(h.selected).value.maxSpellLevel
  }

  /** Slot `i` is managed: below the slot count and the key table's length, with a bind key set. */
  predicate Managed(keys: seq<KeyCode>, count: int, i: int)
  {
    0 <= i < count && i < |keys| && keys[i] != NoKey
  }

  /** What activation saves: the content of every managed slot that is not one of the overlay's own. */
  function SnapshotOf(bar: map<int, Content>, count: int, keys: seq<KeyCode>): map<int, Content>
  {
    map i | i in bar && Managed(keys, count, i) && !bar[i].QC? :: bar[i]
  }

  /** What restoring writes: every saved content back into its slot, when the slot is in range and present. */
  function Restored(bar: map<int, Content>, count: int, snap: map<int, Content>): map<int, Content>
  {
    map i | i in bar :: if i in snap && 0 <= i < count then snap[i] else bar[i]
  }

  /** The bindings of one owner's page, when the owner and the page have any. */
  function PageBindings(pc: AllBindings<SpellId>, owner: Option<string>, page: int): (r: Option<map<int, SpellId>>)
    ensures r.Some? <==> owner.Some? && owner.value in pc && page in pc[owner.value]
  {
    if owner.Some? && owner.value in pc && page in pc[owner.value] then Some(pc[owner.value][page]) else None
  }

  /**
   * What a refresh writes into slot `i`: nothing for a slot without a binding,
   * a new QuickCast slot for a binding that resolves, the empty placeholder for
   * one that does not.
   */
  function Rewrite(b: Option<map<int, SpellId>>, unit: Unit, cat: Catalog, gen: nat, i: int): (r: Option<Content>)
    ensures r.None? <==> b.None? || i !in b.value
    ensures r.Some? && r.value.QC? ==>
      r.value.id == ObjId(gen, i) && r.value.slot.unit == Some(unit) &&
      r.value.slot.spell == GetBoundAbilityData(Some(unit), cat, b.value[i])
    ensures r.Some? ==> r.value.QC? || (r.value.Empty? && !Resolves(Some(unit), cat, b.value[i]))
  {
    if b.None? || i !in b.value then None
    else match GetBoundAbilityData(Some(unit), cat, b.value[i])
      case Some(a) => Some(QC(QuickCastSlot(Some(a), Some(unit)), ObjId(gen, i)))
      case None => Some(Empty)
  }

  /** The bar after a refresh of page bindings `b`: managed bound slots rewritten, every other slot as it was. */
  function Refreshed(bar: map<int, Content>, count: int, keys: seq<KeyCode>, b: Option<map<int, SpellId>>,
                     unit: Unit, cat: Catalog, gen: nat): map<int, Content>
  {
    map i | i in bar :: if Managed(keys, count, i) && Rewrite(b, unit, cat, gen, i).Some? then Rewrite(b, unit, cat, gen, i).value else bar[i]
  }

  /** The identities of the QuickCast slots a refresh creates. */
  function NewlyBound(bar: map<int, Content>, count: int, keys: seq<KeyCode>, b: Option<map<int, SpellId>>,
                      unit: Unit, cat: Catalog, gen: nat): set<ObjId>
  {
    set i | i in bar && Managed(keys, count, i) && Rewrite(b, unit, cat, gen, i).Some? && Rewrite(b, unit, cat, gen, i).value.QC? :: ObjId(gen, i)
  }

  /** The validity test the overlay's validation applies: the binding still resolves for `unit`. */
  function ValidFor(unit: Option<Unit>, cat: Catalog): SpellId -> bool
  {
    id => Resolves(unit, cat, id)
  }

  /**
   * The identity tuple a binding stores for a spell entry: its guid, its
   * metamagic mask (0 without metamagic data), its heighten level when the
   * mask holds the Heighten flag (0 otherwise), and its decoration.
   */
  function IdOf(a: AbilityData, heightenFlag: Mask): (id: SpellId)
    requires a.blueprint.Some?
    ensures HasGuid(a, id.guid) && id.mask == MaskOf(a) && id.color == a.color && id.border == a.border
    ensures id.heighten != 0 ==>
      a.metamagic.Some? && a.metamagic.value.mask & heightenFlag == heightenFlag && id.heighten == a.metamagic.value.heightenLevel
  {
    var mask := if a.metamagic.Some? then a.metamagic.value.mask else 0;
    var heighten := if a.metamagic.Some? && a.metamagic.value.mask & heightenFlag == heightenFlag then a.metamagic.value.heightenLevel else 0;
    SpellId(a.blueprint.value.guid, mask, heighten, a.color, a.border)
  }

  /** The bindings with the owner's page created when missing (the owner created too). */
  function WithPage(pc: AllBindings<SpellId>, owner: string, page: int): AllBindings<SpellId>
  {
    var pages := if owner in pc then pc[owner] else map[];
    if page in pages then pc[owner := pages] else pc[owner := pages[page := map[]]]
  }

  /** The bindings with `id` stored under (owner, page, slot). */
  function WithBinding(pc: AllBindings<SpellId>, owner: string, page: int, slot: int, id: SpellId): AllBindings<SpellId>
  {
    var pages := if owner in pc then pc[owner] else map[];
    var slots := if page in pages then pages[page] else map[];
    pc[owner := pages[page := slots[slot := id]]]
  }

  /** The bindings with the entry (owner, page, slot) removed; the page map stays even when it becomes empty. */
  function WithoutBinding(pc: AllBindings<SpellId>, owner: string, page: int, slot: int): AllBindings<SpellId>
    requires owner in pc && page in pc[owner]
  {
    pc[owner := pc[owner][page := pc[owner][page] - {slot}]]
  }

  /**
   * The overlay manager. `snapshot` holds the original content of the slots
   * the active page took over; `internalUpdate` marks the manager's own bar
   * writes and `stateTransition` the dialog and selection transitions, so that
   * the slot-write guard ignores them. `recentlyBound` and `frameOfLastRefresh`
   * record the QuickCast slots written in the last refresh and its frame, for
   * the click suppression; `generation` numbers refreshes so that every
   * QuickCast slot object gets a new identity; `autoReturnMark` is the
   * (caster, blueprint) of the last cast marked for auto-return.
   */
  class ActionBarManager {
    var active: bool
    var page: int
    var pageToRestoreAfterDialog: int
    var deferredRestoreQueued: bool
    var pageToRestoreDeferred: int
    var internalUpdate: bool
    var stateTransition: bool
    var snapshot: map<int, Content>
    var recentlyBound: set<ObjId>
    var frameOfLastRefresh: int
    var generation: nat
    var autoReturnMark: Option<(nat, Blueprint)>
    const store: BindingStore<SpellId>

    /** Between calls: an inactive session has no page and no saved content, and no internal write is in progress. */
    ghost predicate Valid()
      reads this
    {
      (!active ==> page == -1 && snapshot == map[]) && !internalUpdate
    }

    constructor (store: BindingStore<SpellId>)
      ensures Valid() && this.store == store
      ensures !active && page == -1 && pageToRestoreAfterDialog == -1
      ensures !deferredRestoreQueued && pageToRestoreDeferred == -1
      ensures !stateTransition && snapshot == map[] && recentlyBound == {} && frameOfLastRefresh == -1
      ensures autoReturnMark.None?
    {
      this.store := store;
      active := false;
      page := -1;
      pageToRestoreAfterDialog := -1;
      deferredRestoreQueued := false;
      pageToRestoreDeferred := -1;
      internalUpdate := false;
      stateTransition := false;
      snapshot := map[];
      recentlyBound := {};
      frameOfLastRefresh := -1;
      generation := 0;
      autoReturnMark := None;
    }

    /** On a frame other than the last refresh's, forgets the recently bound slots. */
    method ClearRecentlyBoundSlotsIfNewFrame(frame: int)
      modifies this`recentlyBound
      ensures recentlyBound == if frame != frameOfLastRefresh then {} else old(recentlyBound)
    {
      if frame != frameOfLastRefresh {
        recentlyBound := {};
      }
    }

    /**
     * Writes every saved content back into its slot (skipping indices out of
     * range and missing slot view models) and forgets the saved content, also
     * when the bar is missing.
     */
    method Restore(vm: ActionBarVM, h: Host)
      modifies this`internalUpdate, this`snapshot, vm`slots
      ensures snapshot == map[] && !internalUpdate
      ensures !h.barPresent ==> vm.slots == old(vm.slots)
      ensures h.barPresent ==> vm.slots == Restored(old(vm.slots), vm.count, old(snapshot))
    {
      internalUpdate := true;
      if !h.barPresent {
        snapshot := map[];
        internalUpdate := false;
        return;
      }
      ghost var bar := vm.slots;
      var left := snapshot.Keys;
      while left != {}
        invariant internalUpdate
        invariant snapshot == old(snapshot) && left <= snapshot.Keys
        invariant vm.slots == map i | i in bar :: if i in snapshot && i !in left && 0 <= i < vm.count then snapshot[i] else bar[i]
        decreases left
      {
        var e := Pick(left);
        if 0 <= e < vm.count && e in vm.slots {
          WriteSlot(e, snapshot[e], vm, h);
        }
        left := left - {e};
      }
      assert vm.slots == Restored(bar, vm.count, snapshot);
      snapshot := map[];
      internalUpdate := false;
    }

    /**
     * Rewrites the managed slots for the active page: a no-op unless the
     * session is active on a page; without a bar or a unit on it, only the
     * internal-update flag is touched. Otherwise it stamps the frame, clears
     * the recently bound set on a new frame and adds every QuickCast slot it
     * writes.
     */
    method Refresh(vm: ActionBarVM, h: Host)
      modifies this`internalUpdate, this`recentlyBound, this`frameOfLastRefresh, this`generation, vm`slots, store`perCharacter
      ensures store.perCharacter == old(store.perCharacter)
      ensures !active || page == -1 ==>
        internalUpdate == old(internalUpdate) && recentlyBound == old(recentlyBound) &&
        frameOfLastRefresh == old(frameOfLastRefresh) && generation == old(generation) &&
        vm.slots == old(vm.slots)
      ensures active && page != -1 ==> !internalUpdate
      ensures active && page != -1 && (!h.barPresent || vm.selectedUnit.None?) ==>
        recentlyBound == old(recentlyBound) && frameOfLastRefresh == old(frameOfLastRefresh) &&
        generation == old(generation) && vm.slots == old(vm.slots)
      ensures active && page != -1 && h.barPresent && vm.selectedUnit.Some? ==>
        var b := PageBindings(store.perCharacter, OwnerId(h.selected), page);
        vm.slots == Refreshed(old(vm.slots), vm.count, h.keys, b, vm.selectedUnit.value, h.catalog, old(generation)) &&
        recentlyBound == (if h.frame != old(frameOfLastRefresh) then {} else old(recentlyBound)) +
          NewlyBound(old(vm.slots), vm.count, h.keys, b, vm.selectedUnit.value, h.catalog, old(generation)) &&
        frameOfLastRefresh == h.frame && generation == old(generation) + 1
    {
      if !active || page == -1 {
        return;
      }
      internalUpdate := true;
      if !h.barPresent || vm.selectedUnit.None? {
        internalUpdate := false;
        return;
      }
      var unit := vm.selectedUnit.value;
      if h.frame != frameOfLastRefresh {
        recentlyBound := {};
      }
      frameOfLastRefresh := h.frame;

      var pages := store.GetCurrentCharacterBindings(OwnerId(h.selected), false);
      var b: Option<map<int, SpellId>> := if pages.Some? && page in pages.value then Some(pages.value[page]) else None;
      assert b == PageBindings(store.perCharacter, OwnerId(h.selected), page);

      WriteBoundSlots(vm, h, b, unit);
      generation := generation + 1;
      internalUpdate := false;
    }

    /** Saves the content of every managed slot that is not a QuickCast slot. */
    method TakeSnapshot(vm: ActionBarVM, keys: seq<KeyCode>)
      modifies this`snapshot
      ensures snapshot == old(snapshot) + SnapshotOf(vm.slots, vm.count, keys)
    {
      var n := Min(vm.count, |keys|);
      var i := 0;
      while i < n
        invariant 0 <= i <= n
        invariant snapshot == old(snapshot) + SnapshotOf(vm.slots, i, keys)
      {
        if keys[i] != NoKey && i in vm.slots && !vm.slots[i].QC? {
          snapshot := snapshot[i := vm.slots[i]];
        }
        assert SnapshotOf(vm.slots, i + 1, keys) ==
          if keys[i] != NoKey && i in vm.slots && !vm.slots[i].QC? then SnapshotOf(vm.slots, i, keys)[i := vm.slots[i]]
          else SnapshotOf(vm.slots, i, keys);
        i := i + 1;
      }
      assert forall j :: Managed(keys, n, j) <==> Managed(keys, vm.count, j);
    }

    /**
     * Ends the session: without `force` an inactive session is left alone;
     * otherwise the bar gets its saved content back and the session is
     * inactive with no page.
     */
    method TryDeactivate(force: bool, vm: ActionBarVM, h: Host)
      requires Valid()
      modifies this`internalUpdate, this`snapshot, this`active, this`page, vm`slots
      ensures Valid()
      ensures !old(active) && !force ==> unchanged(this) && vm.slots == old(vm.slots)
      ensures old(active) || force ==>
        !active && page == -1 && snapshot == map[] &&
        vm.slots == (if h.barPresent then Restored(old(vm.slots), vm.count, old(snapshot)) else old(vm.slots))
    {
      if !active && !force {
        return;
      }
      Restore(vm, h);
      active := false;
      page := -1;
    }

    /**
     * Validation as activation and the deferred restore run it: the selected
     * character's bindings, when it has any, lose every entry that does not
     * resolve for `unit`.
     */
    method ValidateSelected(unit: Option<Unit>, h: Host)
      modifies store
      ensures var owner := OwnerId(h.selected);
        var validated := owner.Some? && owner.value in old(store.perCharacter);
        store.perCharacter ==
          (if validated then old(store.perCharacter)[owner.value := Cleaned(old(store.perCharacter)[owner.value], ValidFor(unit, h.catalog))]
           else old(store.perCharacter)) &&
        store.written ==
          (if validated && InvalidEntries(old(store.perCharacter)[owner.value], ValidFor(unit, h.catalog)) != {} && h.canSave
           then old(store.written) + [store.perCharacter] else old(store.written))
    {
      var owner := OwnerId(h.selected);
      var pages := store.GetCurrentCharacterBindings(owner, false);
      if pages.Some? {
        var changed := store.ValidateAndCleanupBindings(true, owner, ValidFor(unit, h.catalog), h.canSave);
      }
    }

    /**
     * Activation's hand-over: an active session first gets its slots back,
     * then the saved content is replaced by that of the managed slots.
     */
    method SaveOriginal(vm: ActionBarVM, h: Host)
      requires Valid() && h.barPresent
      modifies this`internalUpdate, this`snapshot, vm`slots
      ensures !internalUpdate
      ensures vm.slots == Restored(old(vm.slots), vm.count, old(snapshot))
      ensures snapshot == SnapshotOf(vm.slots, vm.count, h.keys)
    {
      if active {
        Restore(vm, h);
      } else {
        RestoreNothing(vm.slots, vm.count);
      }
      snapshot := map[];
      TakeSnapshot(vm, h.keys);
    }

    /**
     * The guarded part of activation: the page becomes active and is written
     * into the bar; a fault restores the bar and ends the session.
     */
    method ShowPage(spellLevel: int, vm: ActionBarVM, h: Host) returns (ok: bool)
      requires h.barPresent && vm.selectedUnit.Some? && !internalUpdate
      requires snapshot == SnapshotOf(vm.slots, vm.count, h.keys)
      modifies this`active, this`page, this`internalUpdate, this`snapshot, this`recentlyBound,
        this`frameOfLastRefresh, this`generation, vm`slots, vm`currentSpellLevel, store`perCharacter
      ensures store.perCharacter == old(store.perCharacter) && !internalUpdate
      ensures vm.currentSpellLevel ==
        (if !h.fault.FaultBeforeRefresh? && SyncsSpellLevel(h.mode) then spellLevel else old(vm.currentSpellLevel))
      ensures h.fault.NoFault? ==>
        ok && active && page == spellLevel && snapshot == old(snapshot) &&
        vm.slots ==
          (if spellLevel != -1
           then Refreshed(old(vm.slots), vm.count, h.keys, PageBindings(store.perCharacter, OwnerId(h.selected), spellLevel),
                          vm.selectedUnit.value, h.catalog, old(generation))
           else old(vm.slots))
      ensures !h.fault.NoFault? ==>
        !ok && !active && page == -1 && snapshot == map[] && vm.slots.Keys == old(vm.slots).Keys &&
        forall i :: i in old(vm.slots) && !(Managed(h.keys, vm.count, i) && old(vm.slots)[i].QC?) ==> vm.slots[i] == old(vm.slots)[i]
      ensures !h.fault.FaultBeforeRefresh? && spellLevel != -1 ==>
        recentlyBound == (if h.frame != old(frameOfLastRefresh) then {} else old(recentlyBound)) +
          NewlyBound(old(vm.slots), vm.count, h.keys, PageBindings(store.perCharacter, OwnerId(h.selected), spellLevel),
                     vm.selectedUnit.value, h.catalog, old(generation)) &&
        frameOfLastRefresh == h.frame && generation == old(generation) + 1
      ensures h.fault.FaultBeforeRefresh? || spellLevel == -1 ==>
        recentlyBound == old(recentlyBound) && frameOfLastRefresh == old(frameOfLastRefresh) && generation == old(generation)
    {
      ghost var original := vm.slots;
      RestoreOwnSnapshot(original, vm.count, h.keys);
      if h.fault.FaultBeforeRefresh? {
        Restore(vm, h);
        page := -1;
        active := false;
        return false;
      }
      if SyncsSpellLevel(h.mode) {
        vm.currentSpellLevel := spellLevel;
      }
      active := true;
      page := spellLevel;
      Refresh(vm, h);
      if h.fault.FaultAfterRefresh? {
        RestoreUndoesRefresh(original, vm.count, h.keys, PageBindings(store.perCharacter, OwnerId(h.selected), spellLevel),
          vm.selectedUnit.value, h.catalog, old(generation));
        Restore(vm, h);
        page := -1;
        active := false;
        return false;
      }
      return true;
    }

    /**
     * What opening page `spellLevel` leaves behind, between the state before
     * and after. It refuses, changing nothing, without a selected character,
     * without a spellbook or above the book's highest level. Without the
     * spellbook group view or the bar it restores the bar and ends the
     * session; without a unit on the bar it ends the session. Otherwise it
     * validates the character's bindings, gives back the previous page's
     * slots (`original`), saves the managed slots, and writes the page into
     * them; a fault in the guarded part restores the bar and ends the session.
     */
    twostate predicate Activated(spellLevel: int, vm: ActionBarVM, h: Host)
      reads this, vm, store
    {
      var opens := h.spellsGroupPresent && h.barPresent && vm.selectedUnit.Some?;
      var original := Restored(old(vm.slots), vm.count, old(snapshot));
      var b := PageBindings(store.perCharacter, OwnerId(h.selected), spellLevel);
      var sameRecord := recentlyBound == old(recentlyBound) && frameOfLastRefresh == old(frameOfLastRefresh) &&
        generation == old(generation);
      (!CanOpenPage(h, spellLevel) ==>
        active == old(active) && page == old(page) && snapshot == old(snapshot) && sameRecord &&
        vm.slots == old(vm.slots) && vm.currentSpellLevel == old(vm.currentSpellLevel) &&
        store.perCharacter == old(store.perCharacter) && store.written == old(store.written)) &&
      (CanOpenPage(h, spellLevel) && !opens ==>
        !active && page == -1 && snapshot == map[] && sameRecord &&
        store.perCharacter == old(store.perCharacter) && store.written == old(store.written) &&
        vm.currentSpellLevel == old(vm.currentSpellLevel) &&
        vm.slots == (if h.barPresent then original else old(vm.slots))) &&
      (CanOpenPage(h, spellLevel) && opens ==>
        var owner := OwnerId(h.selected);
        var valid := ValidFor(vm.selectedUnit, h.catalog);
        var validated := owner.Some? && owner.value in old(store.perCharacter);
        store.perCharacter ==
          (if validated then old(store.perCharacter)[owner.value := Cleaned(old(store.perCharacter)[owner.value], valid)]
           else old(store.perCharacter)) &&
        store.written ==
          (if validated && InvalidEntries(old(store.perCharacter)[owner.value], valid) != {} && h.canSave
           then old(store.written) + [store.perCharacter] else old(store.written)) &&
        vm.currentSpellLevel ==
          (if !h.fault.FaultBeforeRefresh? && SyncsSpellLevel(h.mode) then spellLevel else old(vm.currentSpellLevel)) &&
        (if !h.fault.FaultBeforeRefresh? && spellLevel != -1
         then recentlyBound == (if h.frame != old(frameOfLastRefresh) then {} else old(recentlyBound)) +
                NewlyBound(original, vm.count, h.keys, b, vm.selectedUnit.value, h.catalog, old(generation)) &&
              frameOfLastRefresh == h.frame && generation == old(generation) + 1
         else sameRecord)) &&
      (CanOpenPage(h, spellLevel) && opens && h.fault.NoFault? ==>
        active && page == spellLevel && snapshot == SnapshotOf(original, vm.count, h.keys) &&
        vm.slots == (if spellLevel != -1 then Refreshed(original, vm.count, h.keys, b, vm.selectedUnit.value, h.catalog, old(generation))
                     else original)) &&
      (CanOpenPage(h, spellLevel) && opens && !h.fault.NoFault? ==>
        !active && page == -1 && snapshot == map[] && vm.slots.Keys == original.Keys &&
        forall i :: i in original && !(Managed(h.keys, vm.count, i) && original[i].QC?) ==> vm.slots[i] == original[i])
    }

    /** Opens page `spellLevel` as `Activated` describes; it succeeds exactly when the page is written without a fault. */
    method TryActivate(spellLevel: int, vm: ActionBarVM, h: Host) returns (ok: bool)
      requires Valid()
      modifies this`active, this`page, this`internalUpdate, this`snapshot, this`recentlyBound,
        this`frameOfLastRefresh, this`generation, vm`slots, vm`currentSpellLevel, store
      ensures Valid()
      ensures ok <==> CanOpenPage(h, spellLevel) && h.spellsGroupPresent && h.barPresent && vm.selectedUnit.Some? && h.fault.NoFault?
      ensures ok ==> active && page == spellLevel
      ensures !CanOpenPage(h, spellLevel) ==> unchanged(this, vm, store)
      ensures Activated(spellLevel, vm, h)
    {
      if h.selected.None? {
        return false;
      }
      var book := FirstBook(h.selected);
      if book.None? {
        return false;
      }
      if spellLevel > book.value.maxSpellLevel {
        return false;
      }
      if !h.spellsGroupPresent || !h.barPresent {
        Restore(vm, h);
        page := -1;
        active := false;
        return false;
      }
      if vm.selectedUnit.None? {
        if active {
          TryDeactivate(true, vm, h);
        } else {
          RestoreNothing(vm.slots, vm.count);
          page := -1;
          active := false;
        }
        return false;
      }

      ValidateSelected(vm.selectedUnit, h);
      SaveOriginal(vm, h);

      ok := ShowPage(spellLevel, vm, h);
    }

    /**
     * The store part of binding: gets or creates the character's bindings and
     * the page, then stores the identity of `a`; `stored` is false when there
     * is no character, or when `a` has no blueprint (the host throws there,
     * after the page was created).
     */
    method StoreBinding(owner: Option<string>, spellLevel: int, slot: int, a: AbilityData, heightenFlag: Mask)
      returns (stored: bool)
      modifies store`perCharacter
      ensures stored <==> owner.Some? && a.blueprint.Some?
      ensures owner.None? ==> store.perCharacter == old(store.perCharacter)
      ensures owner.Some? && a.blueprint.None? ==> store.perCharacter == WithPage(old(store.perCharacter), owner.value, spellLevel)
      ensures stored ==>
        store.perCharacter == WithBinding(old(store.perCharacter), owner.value, spellLevel, slot, IdOf(a, heightenFlag))
    {
      var pages := store.GetCurrentCharacterBindings(owner, true);
      if pages.None? {
        return false;
      }
      var id := owner.value;
      var current := pages.value;
      ghost var existing := if id in old(store.perCharacter) then old(store.perCharacter)[id] else map[];
      assert current == existing;
      if spellLevel !in current {
        current := current[spellLevel := map[]];
        store.perCharacter := store.perCharacter[id := current];
      }
      if a.blueprint.None? {
        return false;
      }
      var identity := IdOf(a, heightenFlag);
      ghost var slots := if spellLevel in existing then existing[spellLevel] else map[];
      assert current[spellLevel := slots[slot := identity]] == existing[spellLevel := slots[slot := identity]];
      store.perCharacter := store.perCharacter[id := current[spellLevel := current[spellLevel][slot := identity]]];
      return true;
    }

    /**
     * Stores the identity of `data` under (selected character, page, slot),
     * creating the page when missing, and rewrites the bar when the session is
     * active on that page. It refuses a missing spell, a slot outside 0..11 and
     * a missing character. A spell without a blueprint makes the host throw
     * once the page exists: the page is created and nothing is stored.
     */
    method Bind(spellLevel: int, slot: int, data: Option<AbilityData>, vm: ActionBarVM, h: Host)
      requires Valid()
      modifies this`internalUpdate, this`recentlyBound, this`frameOfLastRefresh, this`generation, vm`slots, store`perCharacter
      ensures Valid()
      ensures data.None? || !IsLogicalSlot(slot) || OwnerId(h.selected).None? ==> unchanged(this, vm, store)
      ensures data.Some? && IsLogicalSlot(slot) && OwnerId(h.selected).Some? && data.value.blueprint.None? ==>
        store.perCharacter == WithPage(old(store.perCharacter), OwnerId(h.selected).value, spellLevel) &&
        unchanged(this, vm)
      ensures data.Some? && IsLogicalSlot(slot) && OwnerId(h.selected).Some? && data.value.blueprint.Some? ==>
        store.perCharacter ==
          WithBinding(old(store.perCharacter), OwnerId(h.selected).value, spellLevel, slot, IdOf(data.value, h.catalog.heighten))
      ensures (data.Some? && IsLogicalSlot(slot) && OwnerId(h.selected).Some? && data.value.blueprint.Some? &&
               !(active && page == spellLevel)) ==> unchanged(this, vm)
      ensures (data.Some? && IsLogicalSlot(slot) && OwnerId(h.selected).Some? && data.value.blueprint.Some? &&
               active && page == spellLevel && spellLevel != -1 && h.barPresent && vm.selectedUnit.Some?) ==>
        vm.slots == Refreshed(old(vm.slots), vm.count, h.keys, PageBindings(store.perCharacter, OwnerId(h.selected), spellLevel),
                              vm.selectedUnit.value, h.catalog, old(generation)) &&
        recentlyBound == (if h.frame != old(frameOfLastRefresh) then {} else old(recentlyBound)) +
          NewlyBound(old(vm.slots), vm.count, h.keys, PageBindings(store.perCharacter, OwnerId(h.selected), spellLevel),
                     vm.selectedUnit.value, h.catalog, old(generation)) &&
        frameOfLastRefresh == h.frame && generation == old(generation) + 1
      ensures (data.Some? && IsLogicalSlot(slot) && OwnerId(h.selected).Some? && data.value.blueprint.Some? &&
               active && page == spellLevel && !(spellLevel != -1 && h.barPresent && vm.selectedUnit.Some?)) ==>
        vm.slots == old(vm.slots) && recentlyBound == old(recentlyBound) &&
        frameOfLastRefresh == old(frameOfLastRefresh) && generation == old(generation)
    {
      if data.None? {
        return;
      }
      if slot < 0 || slot >= 12 {
        return;
      }
      var stored := StoreBinding(OwnerId(h.selected), spellLevel, slot, data.value, h.catalog.heighten);
      if !stored {
        return;
      }
      if active && page == spellLevel {
        Refresh(vm, h);
      }
    }

    /**
     * The user cleared slot `slot` of the bar: with the session active on a
     * page, removes that slot's binding from the page (the page stays, even
     * empty), rewrites the bar and saves. Anything else changes nothing.
     */
    method Unbind(slot: int, vm: ActionBarVM, h: Host)
      requires Valid()
      modifies this`internalUpdate, this`recentlyBound, this`frameOfLastRefresh, this`generation, vm`slots, store
      ensures Valid()
      ensures !(old(active) && old(page) != -1 && IsLogicalSlot(slot) && UnbindFinds(old(store.perCharacter), OwnerId(h.selected), old(page), slot)) ==>
        unchanged(this, vm, store)
      ensures old(active) && old(page) != -1 && IsLogicalSlot(slot) && UnbindFinds(old(store.perCharacter), OwnerId(h.selected), old(page), slot) ==>
        store.perCharacter == WithoutBinding(old(store.perCharacter), OwnerId(h.selected).value, page, slot) &&
        store.written == (if h.canSave then old(store.written) + [store.perCharacter] else old(store.written)) &&
        vm.slots ==
          (if h.barPresent && vm.selectedUnit.Some?
           then Refreshed(old(vm.slots), vm.count, h.keys, PageBindings(store.perCharacter, OwnerId(h.selected), page),
                          vm.selectedUnit.value, h.catalog, old(generation))
           else old(vm.slots)) &&
        if h.barPresent && vm.selectedUnit.Some?
        then recentlyBound == (if h.frame != old(frameOfLastRefresh) then {} else old(recentlyBound)) +
               NewlyBound(old(vm.slots), vm.count, h.keys, PageBindings(store.perCharacter, OwnerId(h.selected), page),
                          vm.selectedUnit.value, h.catalog, old(generation)) &&
             frameOfLastRefresh == h.frame && generation == old(generation) + 1
        else recentlyBound == old(recentlyBound) && frameOfLastRefresh == old(frameOfLastRefresh) && generation == old(generation)
    {
      if !active || page == -1 {
        return;
      }
      if slot < 0 || slot >= 12 {
        return;
      }
      var owner := OwnerId(h.selected);
      var pages := store.GetCurrentCharacterBindings(owner, false);
      if pages.Some? && page in pages.value && slot in pages.value[page] {
        store.perCharacter := store.perCharacter[owner.value := pages.value[page := pages.value[page] - {slot}]];
        Refresh(vm, h);
        store.SaveBindings(h.canSave);
      }
    }

    /**
     * A dialog, full-screen UI or cutscene starts: the active page (or -1) is
     * recorded and the transition flag set, the session itself untouched. Any
     * other mode clears the flag and runs a queued deferred restore.
     */
    method OnGameModeStart(mode: GameMode, vm: ActionBarVM, h: Host)
      requires Valid()
      modifies this, vm`slots, vm`currentSpellLevel, store
      ensures Valid()
      ensures deferredRestoreQueued ==> old(deferredRestoreQueued)
      ensures Suspends(mode) ==>
        stateTransition && pageToRestoreAfterDialog == (if old(active) then old(page) else -1) &&
        active == old(active) && page == old(page) && snapshot == old(snapshot) &&
        deferredRestoreQueued == old(deferredRestoreQueued) && pageToRestoreDeferred == old(pageToRestoreDeferred) &&
        autoReturnMark == old(autoReturnMark) && unchanged(vm, store)
      ensures !Suspends(mode) ==>
        !stateTransition && pageToRestoreAfterDialog == old(pageToRestoreAfterDialog) && autoReturnMark == old(autoReturnMark)
      ensures !Suspends(mode) && !(old(deferredRestoreQueued) && old(pageToRestoreDeferred) != -1) ==>
        active == old(active) && page == old(page) && snapshot == old(snapshot) &&
        deferredRestoreQueued == old(deferredRestoreQueued) && pageToRestoreDeferred == old(pageToRestoreDeferred) &&
        unchanged(vm, store)
      ensures !Suspends(mode) && old(deferredRestoreQueued) && old(pageToRestoreDeferred) != -1 ==>
        !deferredRestoreQueued && pageToRestoreDeferred == -1
    {
      stateTransition := false;
      if Suspends(mode) {
        pageToRestoreAfterDialog := if active then page else -1;
        stateTransition := true;
        return;
      } else if deferredRestoreQueued && pageToRestoreDeferred != -1 {
        var ok := TryActivate(pageToRestoreDeferred, vm, h);
        deferredRestoreQueued := false;
        pageToRestoreDeferred := -1;
      }
    }

    /**
     * A dialog, full-screen UI or cutscene ends: the transition flag is cleared,
     * a recorded page is opened again, and the record is cleared. Other modes
     * change nothing.
     */
    method OnGameModeStop(mode: GameMode, vm: ActionBarVM, h: Host)
      requires Valid()
      modifies this, vm`slots, vm`currentSpellLevel, store
      ensures Valid()
      ensures !Suspends(mode) ==> unchanged(this, vm, store)
      ensures Suspends(mode) ==>
        !stateTransition && pageToRestoreAfterDialog == -1 &&
        deferredRestoreQueued == old(deferredRestoreQueued) && pageToRestoreDeferred == old(pageToRestoreDeferred) &&
        autoReturnMark == old(autoReturnMark)
      ensures Suspends(mode) && old(pageToRestoreAfterDialog) == -1 ==>
        active == old(active) && page == old(page) && snapshot == old(snapshot) && unchanged(vm, store)
      ensures Suspends(mode) && old(pageToRestoreAfterDialog) != -1 ==> Activated(old(pageToRestoreAfterDialog), vm, h)
    {
      if Suspends(mode) {
        stateTransition := false;
        if pageToRestoreAfterDialog != -1 {
          var ok := TryActivate(pageToRestoreAfterDialog, vm, h);
        }
        pageToRestoreAfterDialog := -1;
      }
    }

    /**
     * The selected unit changes within the group: an active session is ended
     * (forced) and any deferred restore dropped; the transition flag stays set
     * only while a deferred restore is queued.
     */
    method HandleSwitchSelectionUnitInGroup(vm: ActionBarVM, h: Host)
      requires Valid()
      modifies this`stateTransition, this`active, this`page, this`internalUpdate, this`snapshot,
        this`deferredRestoreQueued, this`pageToRestoreDeferred, vm`slots
      ensures Valid()
      ensures !active && stateTransition == deferredRestoreQueued
      ensures old(active) ==>
        !active && page == -1 && snapshot == map[] && !deferredRestoreQueued && pageToRestoreDeferred == -1 &&
        vm.slots == (if h.barPresent then Restored(old(vm.slots), vm.count, old(snapshot)) else old(vm.slots))
      ensures !old(active) ==>
        page == old(page) && snapshot == old(snapshot) && vm.slots == old(vm.slots) &&
        deferredRestoreQueued == old(deferredRestoreQueued) && pageToRestoreDeferred == old(pageToRestoreDeferred)
    {
      stateTransition := true;
      if active {
        TryDeactivate(true, vm, h);
        deferredRestoreQueued := false;
        pageToRestoreDeferred := -1;
      }
      if !deferredRestoreQueued {
        stateTransition := false;
      }
    }

    /**
     * The per-frame step: runs a queued deferred restore (closing the session
     * when the selection or the spellbook does not allow the page, validating
     * and reopening it otherwise) and then clears the request and the
     * transition flag. Without a queued restore nothing changes.
     */
    method Update(vm: ActionBarVM, h: Host)
      requires Valid()
      modifies this, vm`slots, vm`currentSpellLevel, store
      ensures Valid()
      ensures !old(deferredRestoreQueued) ==> unchanged(this, vm, store)
      ensures old(deferredRestoreQueued) ==> !deferredRestoreQueued && pageToRestoreDeferred == -1 && !stateTransition
      ensures old(deferredRestoreQueued) && old(active) && (h.selected.None? || !h.singleSelection) ==> !active && page == -1
    {
      var ranDeferred := false;
      if deferredRestoreQueued {
        if h.selected.None? || !h.singleSelection {
          if active {
            TryDeactivate(true, vm, h);
          }
        } else {
          var owner := OwnerId(h.selected);
          var pages := store.GetCurrentCharacterBindings(owner, false);
          if pages.Some? {
            var changed := store.ValidateAndCleanupBindings(true, owner, ValidFor(h.selected, h.catalog), h.canSave);
          }
          var book := FirstBook(h.selected);
          if book.None? || pageToRestoreDeferred > book.value.maxSpellLevel {
            if active {
              TryDeactivate(true, vm, h);
            }
          } else {
            var ok := TryActivate(pageToRestoreDeferred, vm, h);
          }
        }
        deferredRestoreQueued := false;
        pageToRestoreDeferred := -1;
        ranDeferred := true;
      }
      if ranDeferred {
        if stateTransition {
          stateTransition := false;
        }
      }
    }

    /** The slot loop of a refresh: every managed slot with a binding on the page gets its new content. */
    method WriteBoundSlots(vm: ActionBarVM, h: Host, b: Option<map<int, SpellId>>, unit: Unit)
      requires internalUpdate
      modifies vm`slots, this`recentlyBound
      ensures vm.slots == Refreshed(old(vm.slots), vm.count, h.keys, b, unit, h.catalog, generation)
      ensures recentlyBound == old(recentlyBound) + NewlyBound(old(vm.slots), vm.count, h.keys, b, unit, h.catalog, generation)
    {
      ghost var bar, before := vm.slots, recentlyBound;
      var n := Min(vm.count, |h.keys|);
      var i := 0;
      while i < n
        invariant 0 <= i <= n && internalUpdate
        invariant vm.slots == Refreshed(bar, i, h.keys, b, unit, h.catalog, generation)
        invariant recentlyBound == before + NewlyBound(bar, i, h.keys, b, unit, h.catalog, generation)
      {
        RefreshSlot(i, bar, before, vm, h, b, unit);
        i := i + 1;
      }
      RefreshBound(bar, n, vm.count, h.keys, b, unit, h.catalog, generation);
    }

    /** One step of the slot loop: managed slot `i`, when bound, gets its QuickCast slot (or is emptied when the binding does not resolve). */
    method RefreshSlot(i: int, ghost bar: map<int, Content>, ghost before: set<ObjId>, vm: ActionBarVM, h: Host,
                       b: Option<map<int, SpellId>>, unit: Unit)
      requires internalUpdate && 0 <= i < |h.keys|
      requires vm.slots == Refreshed(bar, i, h.keys, b, unit, h.catalog, generation)
      requires recentlyBound == before + NewlyBound(bar, i, h.keys, b, unit, h.catalog, generation)
      modifies vm`slots, this`recentlyBound
      ensures vm.slots == Refreshed(bar, i + 1, h.keys, b, unit, h.catalog, generation)
      ensures recentlyBound == before + NewlyBound(bar, i + 1, h.keys, b, unit, h.catalog, generation)
    {
      if h.keys[i] != NoKey && i in vm.slots && b.Some? && i in b.value {
        var a := GetBoundAbilityData(Some(unit), h.catalog, b.value[i]);
        if a.Some? {
          var slot := QC(QuickCastSlot(Some(a.value), Some(unit)), ObjId(generation, i));
          WriteSlot(i, slot, vm, h);
          recentlyBound := recentlyBound + {slot.id};
        } else {
          WriteSlot(i, Empty, vm, h);
        }
      }
      RefreshStep(bar, i, h.keys, b, unit, h.catalog, generation);
    }

    /**
     * One write of the manager into slot `i` of the bar. The host's slot-write
     * postfix observes it, and with the internal-update flag raised its guard
     * never asks for an unbind, whatever the host's bulk-refresh flag says.
     */
    method WriteSlot(i: int, c: Content, vm: ActionBarVM, h: Host)
      requires internalUpdate
      modifies vm`slots
      ensures vm.slots == old(vm.slots)[i := c]
      ensures forall refreshing: bool ::
        !RequestsUnbind(Provenance(internalUpdate, stateTransition, refreshing, h.ignoreUntilFrame, h.frame), SlotWrite(i, true, c), h.barPresent)
    {
      vm.slots := vm.slots[i := c];
    }
  }

  /** Whether unbinding (owner, page, slot) finds a binding to remove. */
  predicate UnbindFinds(pc: AllBindings<SpellId>, owner: Option<string>, page: int, slot: int)
  {
    PageBindings(pc, owner, page).Some? && slot in PageBindings(pc, owner, page).value
  }

  /** Restoring with nothing saved leaves the bar as it is. */
  lemma RestoreNothing(bar: map<int, Content>, count: int)
    ensures Restored(bar, count, map[]) == bar
  {
  }

  /** Restoring a snapshot of the bar onto the same bar changes nothing. */
  lemma RestoreOwnSnapshot(bar: map<int, Content>, count: int, keys: seq<KeyCode>)
    ensures Restored(bar, count, SnapshotOf(bar, count, keys)) == bar
  {
  }

  /**
   * Restoring the snapshot taken before a refresh gives back every slot of the
   * bar, except a managed slot that already held a QuickCast slot (which the
   * snapshot does not save).
   */
  lemma RestoreUndoesRefresh(bar: map<int, Content>, count: int, keys: seq<KeyCode>, b: Option<map<int, SpellId>>,
                             unit: Unit, cat: Catalog, gen: nat)
    ensures var after := Restored(Refreshed(bar, count, keys, b, unit, cat, gen), count, SnapshotOf(bar, count, keys));
      after.Keys == bar.Keys &&
      forall i :: i in bar && !(Managed(keys, count, i) && bar[i].QC?) ==> after[i] == bar[i]
  {
  }

  /**
   * Opening the same page again with the same bindings rewrites the bar the
   * first opening wrote (`bar1`): activation gives back the first opening's
   * slots and refreshes again, so every slot ends as it was after the first
   * opening, except that a QuickCast slot is a new object of the same spell
   * and unit, carrying the second refresh's identity.
   */
  lemma ReactivationIsIdempotent(bar: map<int, Content>, count: int, keys: seq<KeyCode>, b: Option<map<int, SpellId>>,
                                 unit: Unit, cat: Catalog, g1: nat, g2: nat)
    ensures var bar1 := Refreshed(bar, count, keys, b, unit, cat, g1);
      var bar2 := Refreshed(Restored(bar1, count, SnapshotOf(bar, count, keys)), count, keys, b, unit, cat, g2);
      bar2.Keys == bar1.Keys &&
      (forall i :: i in bar1 ==>
         bar2[i] == bar1[i] || (Managed(keys, count, i) && bar1[i].QC? && bar2[i] == QC(bar1[i].slot, ObjId(g2, i)))) &&
      (g1 == g2 ==> bar2 == bar1)
  {
  }

  /**
   * Validating the bindings the previous validation left finds nothing
   * invalid, so a second opening neither changes nor saves them and reads
   * the same page bindings as the first.
   */
  lemma RevalidationChangesNothing(pc: AllBindings<SpellId>, owner: string, unit: Option<Unit>, cat: Catalog)
    requires owner in pc
    ensures var pc1 := pc[owner := Cleaned(pc[owner], ValidFor(unit, cat))];
      InvalidEntries(pc1[owner], ValidFor(unit, cat)) == {} &&
      pc1[owner := Cleaned(pc1[owner], ValidFor(unit, cat))] == pc1
  {
    CleanedIsIdempotent(pc[owner], ValidFor(unit, cat));
  }

  /** One iteration of the refresh loop, on the specification. */
  lemma RefreshStep(bar: map<int, Content>, i: int, keys: seq<KeyCode>, b: Option<map<int, SpellId>>,
                    unit: Unit, cat: Catalog, gen: nat)
    requires 0 <= i < |keys|
    ensures var writes := i in bar && keys[i] != NoKey && Rewrite(b, unit, cat, gen, i).Some?;
      Refreshed(bar, i + 1, keys, b, unit, cat, gen) ==
        (if writes then Refreshed(bar, i, keys, b, unit, cat, gen)[i := Rewrite(b, unit, cat, gen, i).value]
         else Refreshed(bar, i, keys, b, unit, cat, gen)) &&
      NewlyBound(bar, i + 1, keys, b, unit, cat, gen) ==
        NewlyBound(bar, i, keys, b, unit, cat, gen) +
        (if writes && Rewrite(b, unit, cat, gen, i).value.QC? then {ObjId(gen, i)} else {})
  {
    var writes := i in bar && keys[i] != NoKey && Rewrite(b, unit, cat, gen, i).Some?;
    var extra: set<ObjId> := if writes && Rewrite(b, unit, cat, gen, i).value.QC? then {ObjId(gen, i)} else {};
    forall o | o in NewlyBound(bar, i + 1, keys, b, unit, cat, gen)
      ensures o in NewlyBound(bar, i, keys, b, unit, cat, gen) + extra
    {
      var j :| j in bar && Managed(keys, i + 1, j) && Rewrite(b, unit, cat, gen, j).Some? &&
        Rewrite(b, unit, cat, gen, j).value.QC? && o == ObjId(gen, j);
      if j < i {
        assert Managed(keys, i, j);
      }
    }
    forall o | o in NewlyBound(bar, i, keys, b, unit, cat, gen)
      ensures o in NewlyBound(bar, i + 1, keys, b, unit, cat, gen)
    {
      var j :| j in bar && Managed(keys, i, j) && Rewrite(b, unit, cat, gen, j).Some? &&
        Rewrite(b, unit, cat, gen, j).value.QC? && o == ObjId(gen, j);
      assert Managed(keys, i + 1, j);
    }
  }

  /** The loop bound `min(count, |keys|)` manages the same slots as `count` does. */
  lemma RefreshBound(bar: map<int, Content>, n: int, count: int, keys: seq<KeyCode>, b: Option<map<int, SpellId>>,
                     unit: Unit, cat: Catalog, gen: nat)
    requires n == Min(count, |keys|)
    ensures Refreshed(bar, n, keys, b, unit, cat, gen) == Refreshed(bar, count, keys, b, unit, cat, gen)
    ensures NewlyBound(bar, n, keys, b, unit, cat, gen) == NewlyBound(bar, count, keys, b, unit, cat, gen)
  {
    assert forall j :: Managed(keys, n, j) <==> Managed(keys, count, j);
  }

  /** A memorized entry matching the identity at level `at` is found by the level scan started at or below `at`. */
  lemma {:induction false} MemorizedSearchFinds(book: Spellbook, id: SpellId, level: int, at: int, k: int)
    requires level <= at <= book.maxSpellLevel
    requires 0 <= k < |MemorizedAt(book, at)| && ShellMatches(MemorizedAt(book, at)[k], id)
    ensures MemorizedSearch(book, id, level).Some?
    decreases at - level
  {
    if level < at && FindFirst(MemorizedAt(book, level), s => ShellMatches(s, id)).None? {
      MemorizedSearchFinds(book, id, level + 1, at, k);
    }
  }

  /**
   * Binding round trip: the identity stored for a spell memorized in the
   * unit's first (prepared) spellbook resolves again, to an entry with the
   * same guid, metamagic mask and decoration.
   */
  lemma BoundMemorizedSpellResolves(unit: Unit, cat: Catalog, a: AbilityData, heightenFlag: Mask, at: int, k: int)
    requires a.blueprint.Some? && a.blueprint.value.guid != "" && a.blueprint.value.guid in cat.library
    requires unit.spellbooks.Some? && |unit.spellbooks.value| > 0 && unit.spellbooks.value[0].memorizeSpells
    requires 0 <= at <= unit.spellbooks.value[0].maxSpellLevel
    requires 0 <= k < |MemorizedAt(unit.spellbooks.value[0], at)| && MemorizedAt(unit.spellbooks.value[0], at)[k] == Some(a)
    ensures var r := GetBoundAbilityData(Some(unit), cat, IdOf(a, heightenFlag));
      r.Some? && MatchesStored(r.value, IdOf(a, heightenFlag))
  {
    var id := IdOf(a, heightenFlag);
    var book := unit.spellbooks.value[0];
    MemorizedSearchFinds(book, id, 0, at, k);
    PreparedMatchesStored(book, id);
  }
}
