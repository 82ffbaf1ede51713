/**
 * The earlier revision of the overlay manager. It takes over a fixed list of
 * main-bar slots (0 to 5), keeps one global table of bindings from page and
 * slot to the spell entry itself, and on a refresh writes the placeholder
 * into every managed slot that has no binding on the page. It has no
 * validation, no saving, no internal-update flag and no spellbook checks
 * before opening a page.
 */
module Legacy {
  import opened Common
  import opened Config
  import opened Catalog
  import opened SlotSpell
  import opened Surface
  import opened BindingData
  import opened Overlay

  /** The main-bar slots this revision manages. */
  const LegacyManagedSlots: seq<int> := [0, 1, 2, 3, 4, 5]

  /**
   * What the host answers during one call: whether the cached bar view and
   * the reflected spells-group field are available, whether the main bar's
   * view model (with its slot list) can be reached, whether the spells group
   * view exists, the game mode, where the guarded part of activation throws,
   * and the frame counter.
   */
  datatype LegacyHost = LegacyHost(
    viewReady: bool,
    barPresent: bool,
    spellsGroupPresent: bool,
    mode: GameMode,
    fault: Fault,
    frame: int)

  /** Slot `i` is among the first `limit` managed slots. */
  predicate ManagedBelow(limit: int, i: int)
  {
    0 <= i < limit && i < |LegacyManagedSlots|
  }

  /** How many managed slots a bar of `count` slots reaches. */
  function ManagedLimit(count: int): (n: int)
    ensures 0 <= n <= |LegacyManagedSlots|
    ensures forall i :: ManagedBelow(n, i) <==> ManagedBelow(count, i)
  {
    if count < 0 then 0 else Min(count, |LegacyManagedSlots|)
  }

  /** What activation saves: every reachable managed slot that does not hold a QuickCast slot. */
  function LegacySnapshotOf(bar: map<int, Content>, count: int): map<int, Content>
  {
    map i | i in bar && ManagedBelow(count, i) && !bar[i].QC? :: bar[i]
  }

  /** What a refresh writes into managed slot `i`: the bound spell as a new QuickCast slot, the placeholder when unbound. */
  function LegacyRewrite(b: Option<map<int, AbilityData>>, unit: Unit, gen: nat, i: int): (c: Content)
    ensures c.QC? <==> b.Some? && i in b.value
    ensures c.QC? ==> c.slot == QuickCastSlot(Some(b.value[i]), Some(unit)) && c.id == ObjId(gen, i)
    ensures !c.QC? ==> c == Empty
  {
    if b.Some? && i in b.value then QC(QuickCastSlot(Some(b.value[i]), Some(unit)), ObjId(gen, i)) else Empty
  }

  /** The bar after a refresh reaching the first `limit` managed slots. */
  function LegacyRefreshed(bar: map<int, Content>, limit: int, b: Option<map<int, AbilityData>>, unit: Unit, gen: nat): map<int, Content>
  {
    map i | i in bar :: if ManagedBelow(limit, i) then LegacyRewrite(b, unit, gen, i) else bar[i]
  }

  /** The identities of the QuickCast slots such a refresh creates. */
  function LegacyNewlyBound(bar: map<int, Content>, limit: int, b: Option<map<int, AbilityData>>, gen: nat): set<ObjId>
  {
    set i | i in bar && ManagedBelow(limit, i) && b.Some? && i in b.value :: ObjId(gen, i)
  }

  /** The bindings of page `page`, when it has any. */
  function LegacyPage(bindings: map<int, map<int, AbilityData>>, page: int): (r: Option<map<int, AbilityData>>)
    ensures r.Some? <==> page in bindings
  {
    if page in bindings then Some(bindings[page]) else None
  }

  /**
   * The earlier manager. `bindings` is the global table page -> slot ->
   * spell entry; the other fields are those of the current manager.
   */
  class LegacyActionBarManager {
    var active: bool
    var page: int
    var snapshot: map<int, Content>
    var bindings: map<int, map<int, AbilityData>>
    var recentlyBound: set<ObjId>
    var frameOfLastRefresh: int
    var generation: nat

    /** Between calls: an inactive session has no page and no saved content. */
    ghost predicate Valid()
      reads this
    {
      !active ==> page == -1 && snapshot == map[]
    }

    constructor (bindings: map<int, map<int, AbilityData>>)
      ensures Valid() && !active && this.bindings == bindings
      ensures recentlyBound == {} && frameOfLastRefresh == -1
    {
      active := false;
      page := -1;
      snapshot := map[];
      this.bindings := bindings;
      recentlyBound := {};
      frameOfLastRefresh := -1;
      generation := 0;
    }

    /** Writes every saved content back into its slot (skipping indices out of range and missing slots) and forgets it. */
    method Restore(vm: ActionBarVM, h: LegacyHost)
      modifies this`snapshot, vm`slots
      ensures snapshot == map[]
      ensures vm.slots == (if h.barPresent then Restored(old(vm.slots), vm.count, old(snapshot)) else old(vm.slots))
    {
      if !h.barPresent {
        snapshot := map[];
        return;
      }
      ghost var bar := vm.slots;
      var left := snapshot.Keys;
      while left != {}
        invariant snapshot == old(snapshot) && left <= snapshot.Keys
        invariant vm.slots == map i | i in bar :: if i in snapshot && i !in left && 0 <= i < vm.count then snapshot[i] else bar[i]
        decreases left
      {
        var e := Pick(left);
        if 0 <= e < vm.count && e in vm.slots {
          vm.slots := vm.slots[e := snapshot[e]];
        }
        left := left - {e};
      }
      assert vm.slots == Restored(bar, vm.count, snapshot);
      snapshot := map[];
    }

    /**
     * Rewrites the managed slots for the active page: bound slots get a new
     * QuickCast slot, unbound ones the placeholder. A no-op unless the session
     * is active on a page and the bar and its unit are there.
     */
    method Refresh(vm: ActionBarVM, h: LegacyHost)
      modifies this`recentlyBound, this`frameOfLastRefresh, this`generation, vm`slots
      ensures !(active && page != -1 && h.barPresent && vm.selectedUnit.Some?) ==> unchanged(this, vm)
      ensures active && page != -1 && h.barPresent && vm.selectedUnit.Some? ==>
        var b := LegacyPage(bindings, page);
        vm.slots == LegacyRefreshed(old(vm.slots), vm.count, b, vm.selectedUnit.value, old(generation)) &&
        recentlyBound == (if h.frame != old(frameOfLastRefresh) then {} else old(recentlyBound)) +
          LegacyNewlyBound(old(vm.slots), vm.count, b, old(generation)) &&
        frameOfLastRefresh == h.frame && generation == old(generation) + 1
    {
      if !active || page == -1 {
        return;
      }
      if !h.barPresent || vm.selectedUnit.None? {
        return;
      }
      if h.frame != frameOfLastRefresh {
        recentlyBound := {};
      }
      frameOfLastRefresh := h.frame;
      var b := LegacyPage(bindings, page);
      WriteManagedSlots(vm, b, vm.selectedUnit.value);
      generation := generation + 1;
    }

    /** The slot loop of a refresh, over the managed slot list. */
    method WriteManagedSlots(vm: ActionBarVM, b: Option<map<int, AbilityData>>, unit: Unit)
      modifies vm`slots, this`recentlyBound
      ensures vm.slots == LegacyRefreshed(old(vm.slots), vm.count, b, unit, generation)
      ensures recentlyBound == old(recentlyBound) + LegacyNewlyBound(old(vm.slots), vm.count, b, generation)
    {
      ghost var bar := vm.slots;
      var n := ManagedLimit(vm.count);
      var i := 0;
      while i < n
        invariant 0 <= i <= n
        invariant vm.slots == LegacyRefreshed(bar, i, b, unit, generation)
        invariant recentlyBound == old(recentlyBound) + LegacyNewlyBound(bar, i, b, generation)
      {
        var index := LegacyManagedSlots[i];
        LegacyRefreshStep(bar, i, b, unit, generation);
        if index in vm.slots {
          if b.Some? && index in b.value {
            var slot := QC(QuickCastSlot(Some(b.value[index]), Some(unit)), ObjId(generation, index));
            vm.slots := vm.slots[index := slot];
            recentlyBound := recentlyBound + {slot.id};
          } else {
            vm.slots := vm.slots[index := Empty];
          }
        }
        i := i + 1;
      }
      LegacyRefreshBound(bar, n, vm.count, b, unit, generation);
    }

    /**
     * Binds `data` to (page, slot), creating the page when missing, and
     * rewrites the bar when the session is active on that page. A missing
     * spell or a slot outside 0..11 changes nothing.
     */
    method Bind(spellLevel: int, slot: int, data: Option<AbilityData>, vm: ActionBarVM, h: LegacyHost)
      modifies this`bindings, this`recentlyBound, this`frameOfLastRefresh, this`generation, vm`slots
      ensures data.None? || !IsLogicalSlot(slot) ==> unchanged(this, vm)
      ensures data.Some? && IsLogicalSlot(slot) ==>
        bindings == old(bindings)[spellLevel := (if spellLevel in old(bindings) then old(bindings)[spellLevel] else map[])[slot := data.value]]
      ensures data.Some? && IsLogicalSlot(slot) && !(active && page == spellLevel && page != -1 && h.barPresent && vm.selectedUnit.Some?) ==>
        recentlyBound == old(recentlyBound) && frameOfLastRefresh == old(frameOfLastRefresh) &&
        generation == old(generation) && vm.slots == old(vm.slots)
      ensures data.Some? && IsLogicalSlot(slot) && active && page == spellLevel && page != -1 && h.barPresent && vm.selectedUnit.Some? ==>
        vm.slots == LegacyRefreshed(old(vm.slots), vm.count, Some(bindings[spellLevel]), vm.selectedUnit.value, old(generation)) &&
        recentlyBound == (if h.frame != old(frameOfLastRefresh) then {} else old(recentlyBound)) +
          LegacyNewlyBound(old(vm.slots), vm.count, Some(bindings[spellLevel]), old(generation)) &&
        frameOfLastRefresh == h.frame && generation == old(generation) + 1
    {
      if data.None? {
        return;
      }
      if slot < 0 || slot >= 12 {
        return;
      }
      var pageBindings := if spellLevel in bindings then bindings[spellLevel] else map[];
      bindings := bindings[spellLevel := pageBindings[slot := data.value]];
      if active && page == spellLevel {
        Refresh(vm, h);
      }
    }

    /** The recurring bail-out: the bar gets its saved content back and the session ends with no page. */
    method Abandon(vm: ActionBarVM, h: LegacyHost)
      modifies this`snapshot, this`active, this`page, vm`slots
      ensures Valid() && !active && page == -1 && snapshot == map[]
      ensures vm.slots == (if h.barPresent then Restored(old(vm.slots), vm.count, old(snapshot)) else old(vm.slots))
    {
      Restore(vm, h);
      page := -1;
      active := false;
    }

    /** Ends the session; without `force` an inactive session is left alone. */
    method TryDeactivate(force: bool, vm: ActionBarVM, h: LegacyHost)
      requires Valid()
      modifies this`snapshot, this`active, this`page, vm`slots
      ensures Valid()
      ensures !old(active) && !force ==> unchanged(this) && vm.slots == old(vm.slots)
      ensures old(active) || force ==>
        !active && page == -1 && snapshot == map[] &&
        vm.slots == (if h.barPresent then Restored(old(vm.slots), vm.count, old(snapshot)) else old(vm.slots))
    {
      if !active && !force {
        return;
      }
      Restore(vm, h);
      active := false;
      page := -1;
    }

    /** Saves the content of every reachable managed slot that is not a QuickCast slot. */
    method TakeSnapshot(vm: ActionBarVM)
      modifies this`snapshot
      ensures snapshot == old(snapshot) + LegacySnapshotOf(vm.slots, vm.count)
    {
      var bar := vm.slots;
      var n := ManagedLimit(vm.count);
      var i := 0;
      while i < n
        invariant 0 <= i <= n
        invariant snapshot == old(snapshot) + LegacySnapshotOf(bar, i)
      {
        var index := LegacyManagedSlots[i];
        LegacySnapshotStep(bar, i);
        if index in bar && !bar[index].QC? {
          snapshot := snapshot[index := bar[index]];
        }
        i := i + 1;
      }
      LegacySnapshotBound(bar, n, vm.count);
    }

    /** Activation's hand-over: an active session first gets its slots back, then the managed slots are saved afresh. */
    method SaveOriginal(vm: ActionBarVM, h: LegacyHost)
      requires Valid() && h.barPresent
      modifies this`snapshot, vm`slots
      ensures vm.slots == Restored(old(vm.slots), vm.count, old(snapshot))
      ensures snapshot == LegacySnapshotOf(vm.slots, vm.count)
    {
      if active {
        Restore(vm, h);
      } else {
        RestoreNothing(vm.slots, vm.count);
      }
      snapshot := map[];
      TakeSnapshot(vm);
    }

    /**
     * The guarded part of activation: without the spells group the bar is
     * restored and the session ends; otherwise the page becomes active and is
     * written into the bar, and a fault restores the bar and ends the session.
     */
    method ShowPage(target: int, vm: ActionBarVM, h: LegacyHost)
      requires h.barPresent && vm.selectedUnit.Some?
      requires snapshot == LegacySnapshotOf(vm.slots, vm.count)
      modifies this`active, this`page, this`snapshot, this`recentlyBound, this`frameOfLastRefresh, this`generation,
        vm`slots, vm`currentSpellLevel
      ensures Valid() && bindings == old(bindings)
      ensures vm.currentSpellLevel ==
        (if h.spellsGroupPresent && !h.fault.FaultBeforeRefresh? && SyncsSpellLevel(h.mode) then target else old(vm.currentSpellLevel))
      ensures h.spellsGroupPresent && h.fault.NoFault? ==>
        active && page == target && snapshot == old(snapshot) &&
        vm.slots == (if target != -1 then LegacyRefreshed(old(vm.slots), vm.count, LegacyPage(bindings, target), vm.selectedUnit.value, old(generation))
                     else old(vm.slots))
      ensures !(h.spellsGroupPresent && h.fault.NoFault?) ==>
        !active && page == -1 && snapshot == map[] && vm.slots.Keys == old(vm.slots).Keys &&
        forall i :: i in old(vm.slots) && !(ManagedBelow(vm.count, i) && old(vm.slots)[i].QC?) ==> vm.slots[i] == old(vm.slots)[i]
      ensures h.spellsGroupPresent && !h.fault.FaultBeforeRefresh? && target != -1 ==>
        recentlyBound == (if h.frame != old(frameOfLastRefresh) then {} else old(recentlyBound)) +
          LegacyNewlyBound(old(vm.slots), vm.count, LegacyPage(bindings, target), old(generation)) &&
        frameOfLastRefresh == h.frame && generation == old(generation) + 1
      ensures !(h.spellsGroupPresent && !h.fault.FaultBeforeRefresh? && target != -1) ==>
        recentlyBound == old(recentlyBound) && frameOfLastRefresh == old(frameOfLastRefresh) && generation == old(generation)
    {
      ghost var original := vm.slots;
      LegacyRestoreOwnSnapshot(original, vm.count);
      if !h.spellsGroupPresent || h.fault.FaultBeforeRefresh? {
        Abandon(vm, h);
        return;
      }
      if SyncsSpellLevel(h.mode) {
        vm.currentSpellLevel := target;
      }
      active := true;
      page := target;
      Refresh(vm, h);
      if h.fault.FaultAfterRefresh? {
        LegacyRestoreUndoesRefresh(original, vm.count, LegacyPage(bindings, target), vm.selectedUnit.value, old(generation));
        Abandon(vm, h);
      }
    }

    /**
     * Opens page `target`. Without the cached bar view, the spells-group field
     * or the bar it restores the bar and ends the session; without a unit on
     * the bar it ends the session. Otherwise it gives back the previous page's
     * slots, saves the managed slots and shows the page.
     */
    method TryActivate(target: int, vm: ActionBarVM, h: LegacyHost)
      requires Valid()
      modifies this`active, this`page, this`snapshot, this`recentlyBound, this`frameOfLastRefresh, this`generation,
        vm`slots, vm`currentSpellLevel
      ensures Valid() && bindings == old(bindings)
      ensures !h.viewReady || !h.barPresent ==>
        !active && page == -1 && snapshot == map[] && vm.currentSpellLevel == old(vm.currentSpellLevel) &&
        vm.slots == (if h.barPresent then Restored(old(vm.slots), vm.count, old(snapshot)) else old(vm.slots))
      ensures h.viewReady && h.barPresent && vm.selectedUnit.None? ==>
        !active && page == -1 && snapshot == map[] && vm.currentSpellLevel == old(vm.currentSpellLevel) &&
        vm.slots == Restored(old(vm.slots), vm.count, old(snapshot))
      ensures h.viewReady && h.barPresent && vm.selectedUnit.Some? && h.spellsGroupPresent && h.fault.NoFault? ==>
        var original := Restored(old(vm.slots), vm.count, old(snapshot));
        active && page == target && snapshot == LegacySnapshotOf(original, vm.count) &&
        vm.slots == (if target != -1 then LegacyRefreshed(original, vm.count, LegacyPage(bindings, target), vm.selectedUnit.value, old(generation))
                     else original)
      ensures h.viewReady && h.barPresent && vm.selectedUnit.Some? && !(h.spellsGroupPresent && h.fault.NoFault?) ==>
        var original := Restored(old(vm.slots), vm.count, old(snapshot));
        !active && page == -1 && snapshot == map[] && vm.slots.Keys == original.Keys &&
        forall i :: i in original && !(ManagedBelow(vm.count, i) && original[i].QC?) ==> vm.slots[i] == original[i]
      ensures h.viewReady && h.barPresent && vm.selectedUnit.Some? && h.spellsGroupPresent && !h.fault.FaultBeforeRefresh? && target != -1 ==>
        var original := Restored(old(vm.slots), vm.count, old(snapshot));
        recentlyBound == (if h.frame != old(frameOfLastRefresh) then {} else old(recentlyBound)) +
          LegacyNewlyBound(original, vm.count, LegacyPage(bindings, target), old(generation)) &&
        frameOfLastRefresh == h.frame && generation == old(generation) + 1
      ensures !(h.viewReady && h.barPresent && vm.selectedUnit.Some? && h.spellsGroupPresent && !h.fault.FaultBeforeRefresh? && target != -1) ==>
        recentlyBound == old(recentlyBound) && frameOfLastRefresh == old(frameOfLastRefresh) && generation == old(generation)
    {
      if !h.viewReady || !h.barPresent {
        Abandon(vm, h);
        return;
      }
      if vm.selectedUnit.None? {
        if active {
          TryDeactivate(true, vm, h);
        } else {
          RestoreNothing(vm.slots, vm.count);
          page := -1;
          active := false;
        }
        return;
      }
      SaveOriginal(vm, h);
      ShowPage(target, vm, h);
    }
  }

  /** One iteration of the snapshot loop, on the specification. */
  lemma LegacySnapshotStep(bar: map<int, Content>, i: int)
    requires 0 <= i < |LegacyManagedSlots|
    ensures LegacyManagedSlots[i] == i
    ensures LegacySnapshotOf(bar, i + 1) ==
      if i in bar && !bar[i].QC? then LegacySnapshotOf(bar, i)[i := bar[i]] else LegacySnapshotOf(bar, i)
  {
  }

  /** The snapshot loop's bound reaches exactly the managed slots of the bar. */
  lemma LegacySnapshotBound(bar: map<int, Content>, n: int, count: int)
    requires n == ManagedLimit(count)
    ensures LegacySnapshotOf(bar, n) == LegacySnapshotOf(bar, count)
  {
  }

  /** Restoring a snapshot of the bar onto the same bar changes nothing. */
  lemma LegacyRestoreOwnSnapshot(bar: map<int, Content>, count: int)
    ensures Restored(bar, count, LegacySnapshotOf(bar, count)) == bar
  {
  }

  /**
   * Restoring the snapshot taken before a refresh gives back every slot,
   * except a managed slot that already held a QuickCast slot.
   */
  lemma LegacyRestoreUndoesRefresh(bar: map<int, Content>, count: int, b: Option<map<int, AbilityData>>, unit: Unit, gen: nat)
    ensures var after := Restored(LegacyRefreshed(bar, count, b, unit, gen), count, LegacySnapshotOf(bar, count));
      after.Keys == bar.Keys &&
      forall i :: i in bar && !(ManagedBelow(count, i) && bar[i].QC?) ==> after[i] == bar[i]
  {
  }

  /** One iteration of the refresh loop, on the specification. */
  lemma LegacyRefreshStep(bar: map<int, Content>, i: int, b: Option<map<int, AbilityData>>, unit: Unit, gen: nat)
    requires 0 <= i < |LegacyManagedSlots|
    ensures LegacyManagedSlots[i] == i
    ensures LegacyRefreshed(bar, i + 1, b, unit, gen) ==
      (if i in bar then LegacyRefreshed(bar, i, b, unit, gen)[i := LegacyRewrite(b, unit, gen, i)]
       else LegacyRefreshed(bar, i, b, unit, gen))
    ensures LegacyNewlyBound(bar, i + 1, b, gen) ==
      LegacyNewlyBound(bar, i, b, gen) + (if i in bar && b.Some? && i in b.value then {ObjId(gen, i)} else {})
  {
    var extra: set<ObjId> := if i in bar && b.Some? && i in b.value then {ObjId(gen, i)} else {};
    forall o | o in LegacyNewlyBound(bar, i + 1, b, gen)
      ensures o in LegacyNewlyBound(bar, i, b, gen) + extra
    {
      var j :| j in bar && ManagedBelow(i + 1, j) && b.Some? && j in b.value && o == ObjId(gen, j);
      if j < i {
        assert ManagedBelow(i, j);
      }
    }
    forall o | o in LegacyNewlyBound(bar, i, b, gen)
      ensures o in LegacyNewlyBound(bar, i + 1, b, gen)
    {
      var j :| j in bar && ManagedBelow(i, j) && b.Some? && j in b.value && o == ObjId(gen, j);
      assert ManagedBelow(i + 1, j);
    }
  }

  /** The loop bound manages the same slots as the slot count does. */
  lemma LegacyRefreshBound(bar: map<int, Content>, n: int, count: int, b: Option<map<int, AbilityData>>, unit: Unit, gen: nat)
    requires n == ManagedLimit(count)
    ensures LegacyRefreshed(bar, n, b, unit, gen) == LegacyRefreshed(bar, count, b, unit, gen)
    ensures LegacyNewlyBound(bar, n, b, gen) == LegacyNewlyBound(bar, count, b, gen)
  {
  }

  /**
   * The two revisions differ on unbound slots: on a managed slot without a
   * binding the earlier refresh writes the placeholder, the current one
   * leaves the slot's content in place.
   */
  lemma UnboundSlotDiffers(bar: map<int, Content>, count: int, keys: seq<KeyCode>, b: Option<map<int, SpellId>>,
                           lb: Option<map<int, AbilityData>>, unit: Unit, cat: Catalog, gen: nat, i: int)
    requires i in bar && ManagedBelow(count, i) && Managed(keys, count, i)
    requires b.None? || i !in b.value
    requires lb.None? || i !in lb.value
    ensures LegacyRefreshed(bar, count, lb, unit, gen)[i] == Empty
    ensures Refreshed(bar, count, keys, b, unit, cat, gen)[i] == bar[i]
  {
  }

  // ---------------------------------------------------------------------------
  // The earlier per-character store keeps guid-only identities: it is a
  // `BindingStore<Guid>` validated with the guid-only resolution.

  /** The validity test of the earlier store: some spellbook of the unit carries the guid. */
  function GuidValidFor(unit: Option<Unit>): Guid -> bool
  {
    g => GetAbilityDataFromSpellGuid(unit, g).Some?
  }

  /**
   * The earlier validation keeps exactly the bindings whose guid some
   * spellbook of the unit still carries, and each kept binding resolves to an
   * entry of that guid.
   */
  lemma EarlierValidationKeepsResolvableGuids(pages: Pages<Guid>, unit: Option<Unit>, p: int, s: int)
    ensures var c := Cleaned(pages, GuidValidFor(unit));
      (p in c && s in c[p]) <==> (p in pages && s in pages[p] && GetAbilityDataFromSpellGuid(unit, pages[p][s]).Some?)
    ensures var c := Cleaned(pages, GuidValidFor(unit));
      p in c && s in c[p] ==> c[p][s] == pages[p][s] && HasGuid(GetAbilityDataFromSpellGuid(unit, c[p][s]).value, c[p][s])
  {
    CleanedKeepsExactlyValid(pages, GuidValidFor(unit), p, s);
    var c := Cleaned(pages, GuidValidFor(unit));
    if p in c && s in c[p] && unit.Some? && unit.value.spellbooks.Some? {
      GuidSearchFirst(unit.value.spellbooks.value, c[p][s]);
    }
  }
}
