/**
 * The hooks the overlay attaches to the host's action bar: hover tracking of
 * spellbook slots, the click prefixes that swallow a click landing on a slot
 * the overlay wrote in the same frame, the slot-write postfix that turns a
 * user's clear of a bound slot into an unbind, and the prefix/postfix pair
 * that marks the host's own bulk rewrite of the bar.
 */
module Patches {
  import opened Common
  import opened Config
  import opened Catalog
  import opened Surface
  import opened Guard
  import opened Overlay
  import opened Legacy

  /** A slot view model as the hover hook sees it: its identity, its spell level (-1 off the spellbook) and whether it holds a spell slot. */
  datatype SlotView = SlotView(ref: nat, spellLevel: int, holdsSpell: bool)

  /** The hooks' shared state: the spellbook slot under the mouse, and whether the host is rewriting the bar in bulk. */
  class PatchState {
    var hovered: Option<nat>
    var gameRefreshing: bool

    constructor ()
      ensures hovered.None? && !gameRefreshing
    {
      hovered := None;
      gameRefreshing := false;
    }
  }

  /**
   * The hover postfix, alike in both revisions (`sessionActive` is the
   * manager's active flag). While the mod runs, the session is active and the
   * spellbook is shown, entering a spellbook spell slot records it and
   * leaving the recorded slot forgets it; any other view model is ignored.
   * Otherwise the record is dropped.
   */
  method OnHover(ps: PatchState, sessionActive: bool, modReady: bool, spellbookShown: bool, v: SlotView, entering: bool)
    modifies ps`hovered
    ensures !(modReady && sessionActive && spellbookShown) ==> ps.hovered.None?
    ensures modReady && sessionActive && spellbookShown && !(v.spellLevel >= 0 && v.holdsSpell) ==> ps.hovered == old(ps.hovered)
    ensures modReady && sessionActive && spellbookShown && v.spellLevel >= 0 && v.holdsSpell ==>
      ps.hovered ==
        (if entering then Some(v.ref)
         else if old(ps.hovered) == Some(v.ref) then None
         else old(ps.hovered))
  {
    if modReady && sessionActive && spellbookShown {
      if v.spellLevel >= 0 && v.holdsSpell {
        if entering {
          ps.hovered := Some(v.ref);
        } else if ps.hovered == Some(v.ref) {
          ps.hovered := None;
        }
      }
    } else if ps.hovered.Some? {
      ps.hovered := None;
    }
  }

  /** The slot object was written by the refresh of the current frame. */
  predicate RecentlyBound(id: ObjId, recent: set<ObjId>, frameOfLast: int, frame: int)
  {
    id in recent && frame == frameOfLast
  }

  /**
   * The prefix on a spell slot object's click: the click goes through unless
   * the object was written by a refresh in this very frame.
   */
  function OnClickPrefix(id: ObjId, recent: set<ObjId>, frameOfLast: int, frame: int): (proceed: bool)
    ensures frame != frameOfLast ==> proceed
    ensures id !in recent ==> proceed
    ensures !proceed <==> id in recent && frame == frameOfLast
  {
    !RecentlyBound(id, recent, frameOfLast, frame)
  }

  /**
   * The prefix on a slot view model's main click: only a QuickCast slot that
   * a refresh wrote in this frame is swallowed; every other content goes
   * through.
   */
  function OnMainClickPrefix(c: Content, recent: set<ObjId>, frameOfLast: int, frame: int): (proceed: bool)
    ensures !c.QC? ==> proceed
    ensures c.QC? ==> proceed == OnClickPrefix(c.id, recent, frameOfLast, frame)
  {
    if c.QC? then !RecentlyBound(c.id, recent, frameOfLast, frame) else true
  }

  /**
   * A QuickCast slot a refresh writes into the bar swallows clicks in the
   * refresh's own frame and in no other frame, whatever was recorded before.
   */
  lemma RefreshedSlotSwallowsOnlyItsFrame(bar: map<int, Content>, count: int, keys: seq<KeyCode>,
                                          b: Option<map<int, SpellId>>, unit: Unit, cat: Catalog, gen: nat,
                                          before: set<ObjId>, frame: int, later: int, i: int)
    requires i in bar && Managed(keys, count, i)
    requires Rewrite(b, unit, cat, gen, i).Some? && Rewrite(b, unit, cat, gen, i).value.QC?
    ensures var c := Refreshed(bar, count, keys, b, unit, cat, gen)[i];
      var recent := before + NewlyBound(bar, count, keys, b, unit, cat, gen);
      c.QC? && !OnMainClickPrefix(c, recent, frame, frame) && !OnClickPrefix(c.id, recent, frame, frame) &&
      (later != frame ==> OnMainClickPrefix(c, recent, frame, later))
  {
    assert ObjId(gen, i) in NewlyBound(bar, count, keys, b, unit, cat, gen);
  }

  /**
   * The same for the earlier revision: a slot its refresh writes for a bound
   * entry swallows clicks in the refresh's own frame and in no other frame.
   */
  lemma LegacyRefreshedSlotSwallowsOnlyItsFrame(bar: map<int, Content>, count: int, b: Option<map<int, AbilityData>>,
                                                unit: Unit, gen: nat, before: set<ObjId>, frame: int, later: int, i: int)
    requires i in bar && ManagedBelow(count, i) && b.Some? && i in b.value
    ensures var c := LegacyRefreshed(bar, count, b, unit, gen)[i];
      var recent := before + LegacyNewlyBound(bar, count, b, gen);
      c.QC? && !OnMainClickPrefix(c, recent, frame, frame) && !OnClickPrefix(c.id, recent, frame, frame) &&
      (later != frame ==> OnMainClickPrefix(c, recent, frame, later))
  {
    assert ObjId(gen, i) in LegacyNewlyBound(bar, count, b, gen);
  }

  /** The provenance the slot-write postfix reads from the manager, the hooks' state and the host. */
  function ProvenanceOf(m: ActionBarManager, ps: PatchState, h: Host): Provenance
    reads m, ps
  {
    Provenance(m.internalUpdate, m.stateTransition, ps.gameRefreshing, h.ignoreUntilFrame, h.frame)
  }

  /**
   * The slot-write postfix, run after the host stored `w.content` into slot
   * `w.index`. While the mod runs and the session is active, a write that the
   * guard classifies as the user clearing a slot unbinds that slot; every
   * other write changes nothing.
   */
  method OnSetMechanicSlot(ps: PatchState, m: ActionBarManager, modReady: bool, w: SlotWrite, vm: ActionBarVM, h: Host)
    requires m.Valid()
    modifies m`internalUpdate, m`recentlyBound, m`frameOfLastRefresh, m`generation, vm`slots, m.store
    ensures m.Valid()
    ensures !(modReady && old(m.active) && RequestsUnbind(old(ProvenanceOf(m, ps, h)), w, h.barPresent)) ==>
      unchanged(m, vm, m.store)
    ensures modReady && old(m.active) && RequestsUnbind(old(ProvenanceOf(m, ps, h)), w, h.barPresent) &&
            !(old(m.page) != -1 && UnbindFinds(old(m.store.perCharacter), OwnerId(h.selected), old(m.page), w.index)) ==>
      unchanged(m, vm, m.store)
    ensures modReady && old(m.active) && RequestsUnbind(old(ProvenanceOf(m, ps, h)), w, h.barPresent) &&
            old(m.page) != -1 && UnbindFinds(old(m.store.perCharacter), OwnerId(h.selected), old(m.page), w.index) ==>
      m.store.perCharacter == WithoutBinding(old(m.store.perCharacter), OwnerId(h.selected).value, m.page, w.index) &&
      m.store.written == (if h.canSave then old(m.store.written) + [m.store.perCharacter] else old(m.store.written))
  {
    if modReady && m.active {
      var p := ProvenanceOf(m, ps, h);
      if RequestsUnbind(p, w, h.barPresent) {
        m.Unbind(w.index, vm, h);
      }
    }
  }

  /** The bar after a sequence of slot writes; a write to an index without a slot view model is lost. */
  function ApplyWrites(bar: map<int, Content>, writes: seq<(int, Content)>): (r: map<int, Content>)
    ensures r.Keys == bar.Keys
  {
    if writes == [] then bar
    else
      var prev := ApplyWrites(bar, writes[..|writes| - 1]);
      var w := writes[|writes| - 1];
      if w.0 in prev then prev[w.0 := w.1] else prev
  }

  /**
   * The host's bulk rewrite of the bar, bracketed by the prefix that raises
   * the bulk-refresh flag and the postfix that lowers it: every write goes
   * through the slot-write postfix, and none of them touches the session or
   * the bindings.
   */
  method SetMechanicSlots(ps: PatchState, m: ActionBarManager, modReady: bool, writes: seq<(int, Content)>,
                          vm: ActionBarVM, h: Host)
    requires m.Valid()
    modifies ps`gameRefreshing, m`internalUpdate, m`recentlyBound, m`frameOfLastRefresh, m`generation, vm`slots, m.store
    ensures !ps.gameRefreshing && m.Valid()
    ensures unchanged(m, m.store)
    ensures vm.slots == ApplyWrites(old(vm.slots), writes)
  {
    ps.gameRefreshing := true;
    var j := 0;
    while j < |writes|
      invariant 0 <= j <= |writes|
      invariant ps.gameRefreshing && unchanged(m, m.store)
      invariant vm.slots == ApplyWrites(old(vm.slots), writes[..j])
    {
      var (index, content) := writes[j];
      assert writes[..j + 1][..j] == writes[..j];
      if index in vm.slots {
        vm.slots := vm.slots[index := content];
      }
      OnSetMechanicSlot(ps, m, modReady, SlotWrite(index, index in vm.slots, content), vm, h);
      j := j + 1;
    }
    assert writes[..|writes|] == writes;
    ps.gameRefreshing := false;
  }
}
