# QuickCast overlay — a Dafny model

QuickCast is a mod for Pathfinder: Wrath of the Righteous. It adds quick-cast pages on top of the game's main action bar:

- Each page belongs to one spell level. Pressing that level's page key opens the page.
- An open page takes over the *managed* slots of the bar. A slot is managed when a bind key is set for it.
- The manager saves what the managed slots held, then writes the page's bound spells into them as QuickCast slot objects.
- Closing the page writes the saved content back.

Bindings are kept per character (by the unit's `UniqueId`), per page and per logical slot (0..11). The current revision stores an identity tuple for each binding:

- the spell's guid;
- the metamagic mask;
- the heighten level;
- the decoration colour and border.

Each time the bindings are used, this identity is resolved again against the character's spellbooks. A binding that no longer resolves is dropped and the file is saved.

A postfix on the host's slot writes watches for the user clearing a bound slot. Such a write unbinds the spell, unless a provenance flag marks the write as the overlay's own or the game's. The overlay raises its internal-update flag around its own writes, so the guard never turns one of them into an unbind. A per-frame record of freshly written slots keeps a click that lands in the same frame from casting.

The repository also holds an earlier revision, with these differences:

- a fixed list of six managed slots;
- a global table from page and slot to the spell entry itself;
- guid-only identities in the per-character store.

The model covers both revisions.

Modules:

| module | file | models |
|---|---|---|
| `Common` | common.dfy | `Option`; the 12 logical slots |
| `Config` | settings.dfy | the mod settings and their constructor |
| `Catalog` | catalog.dfy | the spell entries and spellbooks the overlay queries; both identity resolutions |
| `SlotSpell` | slot_spell.dfy | the QuickCast slot object's getters and `IsBad` |
| `BindingData` | binding_store.dfy | the per-character binding store: get, save, load, validate (generic in the stored value) |
| `Surface` | surface.dfy | the host bar's view model: slot contents, object identities |
| `Guard` | guard.dfy | the rule that turns an observed slot write into an unbind |
| `Overlay` | overlay.dfy | the current `ActionBarManager` |
| `Patches` | patches.dfy | hover tracking, click suppression, the slot-write postfix, the bulk-rewrite bracket |
| `AutoReturn` | auto_return.dfy | the auto-return mark a click leaves, and the cast-ended hook that closes the page |
| `SpellbookView` | spellbook_view.dfy | the spellbook panel's visible rows while a page is open |
| `Legacy` | legacy.dfy | the earlier `ActionBarManager`; the earlier store's validation |

The host is a value of type `Overlay.Host` (or `Legacy.LegacyHost` for the earlier revision), passed to each call. It holds everything the host would answer during that call:

- the selected unit and the catalog;
- the key table and the frame counter;
- whether the views exist;
- the game mode;
- whether and where the guarded part of activation throws;
- whether the bindings file can be written.

The session's effect on the bar is specified by three functions on the bar's content map:

- `SnapshotOf`: what activation saves;
- `Refreshed`: what a refresh writes;
- `Restored`: what closing writes back.

Every state-changing method states its new state through these functions. The lemmas then relate the functions to each other, for example that restoring undoes a refresh.

## Model

| member | source | states |
|---|---|---|
| Config.DefaultPageKeys | Settings.cs:38-52 | The fallback page-key table has one key per spell level 0..10, and every one of them is set. |
| Config.NormalizeBindKeys | Settings.cs:29-36 | A bind-key array of length 12 is kept. A missing or wrongly sized one is replaced by a fresh array of 12 unset keys. |
| Config.NormalizePageKeys | Settings.cs:38-52 | A page-key array of length 11 is kept. A missing or wrongly sized one is replaced by the default table. |
| Config.Settings.constructor | Settings.cs:13-54 | As written: the field initialisers already give both arrays the right length. So no slot is managed, every page key is unset, and the default table is not installed. Return key X, both switches off. |
| Config.Settings.Intended | Settings.cs:26-54 | Corrected construction: every slot unbound and the default page-key table installed. |
| Catalog.OwnerId | Managers/BindingDataManager.cs:33-42 | There is an owner key exactly when there is a unit with a `UniqueId`. |
| Catalog.FindFirst | Managers/BindingDataManager.cs:94-98 | `FirstOrDefault`: the index found is the first element satisfying the predicate; absence means no element does. |
| Catalog.MemorizedSearch | Managers/BindingDataManager.cs:78-92 | The level-by-level scan of memorized slots only returns an entry matching the stored guid, mask and decoration. |
| Catalog.RuleHeightenArgument | Managers/BindingDataManager.cs:148-154 | The heighten level passed to the rule is non-zero exactly when Heighten is among the applied flags and the stored level is positive. It is then the stored level. |
| Catalog.GetBoundAbilityData | Managers/BindingDataManager.cs:60-72 | Nothing resolves for a missing unit or descriptor, an empty guid, or a guid the library does not know. |
| Catalog.MemorizedGuidSearch | BindingDataManager.cs:56-94 | The earlier memorized scan only returns an entry carrying the guid. |
| Catalog.GetAbilityDataFromSpellGuid | BindingDataManager.cs:56-94 | The earlier resolution returns nothing for a missing unit, an empty guid or a missing descriptor. |
| Catalog.DecomposeExact | Managers/BindingDataManager.cs:132-141 | A flag is in the applied list exactly when it is a non-zero enum value that the stored mask holds completely. |
| Catalog.DecomposeWithinMask | Managers/BindingDataManager.cs:132-141 | The union of the applied flags never asks for a bit that the stored mask lacks. |
| Catalog.EmptyDecompositionSkipsBook | Managers/BindingDataManager.cs:143-146 | A non-zero mask with no complete enum flag holds none, and a spontaneous book then does not resolve. |
| Catalog.SearchBooksFirst | Managers/BindingDataManager.cs:74-204 | Nothing resolves exactly when no book resolves. Otherwise the answer is that of the first book, in order, that resolves. |
| Catalog.PreparedMatchesStored | Managers/BindingDataManager.cs:76-102 | A prepared book (memorized slots, then cantrips) only answers with an entry equal to the stored identity on guid, mask and decoration. |
| Catalog.SpontaneousBaseHasNoMetamagic | Managers/BindingDataManager.cs:106-122 | With a zero stored mask, a spontaneous book answers with its known base spell, and only when that spell carries no metamagic (mask 0, heighten 0). |
| Catalog.SpontaneousDerivedIsExact | Managers/BindingDataManager.cs:124-200 | With a non-zero mask, the re-derived spell reproduces the stored mask exactly, and the stored heighten level when Heighten is applied. It carries the stored decoration, the blueprint, and the book's lowest level for that blueprint. |
| Catalog.BookResolveIdentity | Managers/BindingDataManager.cs:74-201 | Any book's answer carries the stored guid and exactly the stored mask. |
| Catalog.GetBoundAbilityDataIsFaithful | Managers/BindingDataManager.cs:60-205 | Whatever the resolution returns carries the stored guid and exactly the stored metamagic mask. It never accepts a near match. |
| Catalog.GuidSearchFirst | BindingDataManager.cs:56-94 | The earlier search returns nothing exactly when no book has an entry of the guid. Whatever it returns carries the guid. |
| Catalog.MemorizedBeforeCantrips | BindingDataManager.cs:65-83 | In a prepared book, a memorized entry of the guid wins over the known cantrips. |
| SlotSpell.UsableSlotIsComplete | Core/QuickCastMechanicActionBarSlotSpell.cs:135-138 | A slot that is not bad has its spell, blueprint, caster and unit. Its blueprint is not hidden and its level is not negative. |
| SlotSpell.IsCasting | Core/QuickCastMechanicActionBarSlotSpell.cs:121-133 | The slot is casting exactly when it is usable and its unit's current command uses an ability of the slot's blueprint. |
| SlotSpell.CanUseIfTurnBasedInternal | Core/QuickCastMechanicActionBarSlotSpell.cs:50-56 | Never usable without a spell. Otherwise the host's action-type check decides. |
| SlotSpell.GetResource | Core/QuickCastMechanicActionBarSlotSpell.cs:58-61 | 0 without a spell, otherwise the spell's remaining casts. |
| SlotSpell.TextOrEmpty | Core/QuickCastMechanicActionBarSlotSpell.cs:96-104 | The host's text of the spell, or "" when the spell or its text is missing. |
| SlotSpell.GetTitle | Core/QuickCastMechanicActionBarSlotSpell.cs:96-99 | "" without a spell (the rest through `TextOrEmpty`). |
| SlotSpell.GetDescription | Core/QuickCastMechanicActionBarSlotSpell.cs:101-104 | "" without a spell (the rest through `TextOrEmpty`). |
| SlotSpell.GetLevel | Core/QuickCastMechanicActionBarSlotSpell.cs:106-117 | -1 without a spell. Otherwise the spellbook's level computation when the spell has a book, else the spell's own level. |
| BindingData.CleanedKeepsExactlyValid | Managers/BindingDataManager.cs:267-337 | Validation keeps an entry exactly when it was present and valid, and keeps it unchanged. |
| BindingData.CleanedDropsOnlyEmptiedPages | Managers/BindingDataManager.cs:315-325 | A page disappears exactly when it had bindings and all of them were invalid. A page that was empty to begin with stays. |
| BindingData.CleanedWithoutInvalidIsIdentity | Managers/BindingDataManager.cs:267-337 | With nothing invalid, validation leaves the bindings as they are. |
| BindingData.CleanedIsIdempotent | Managers/BindingDataManager.cs:267-337 | After validation nothing is invalid, so validating again changes nothing. |
| BindingData.CollectInvalid | Managers/BindingDataManager.cs:275-313 | The collect pass finds exactly the invalid (page, slot) entries and reports whether there were any. |
| BindingData.RemoveEntries | Managers/BindingDataManager.cs:315-325 | The remove pass removes exactly the collected entries, dropping a page that a removal empties. |
| BindingData.BindingStore.constructor | Managers/BindingDataManager.cs:19-20 | The store starts with no bindings and nothing written. |
| BindingData.BindingStore.GetCurrentCharacterBindings | Managers/BindingDataManager.cs:33-58 | There is nothing without an owner id. A known owner gets their pages. An unknown owner gets an empty map, created and stored only when asked. The earlier store (BindingDataManager.cs:29-54) answers alike. |
| BindingData.BindingStore.SaveBindings | Managers/BindingDataManager.cs:207-226 | With a known mod directory, the whole map is handed to the file. Otherwise nothing happens. The earlier save (BindingDataManager.cs:96-115) is the same. |
| BindingData.BindingStore.LoadBindings | Managers/BindingDataManager.cs:228-265 | The parsed document replaces the map. A missing file, a null document or a parse failure installs an empty map. Without a directory nothing changes. The earlier load (BindingDataManager.cs:117-154) is the same. |
| BindingData.BindingStore.ValidateAndCleanupBindings | Managers/BindingDataManager.cs:267-337 | The owner's pages become their cleaned version. It reports a change exactly when something was invalid, and saves then. Without a unit or without bindings nothing changes. |
| Guard.RequestsUnbind | Core/QuickCastPatches.cs:167-192 | A write asks for an unbind only when all of these hold: no provenance flag is set, the immunity window has passed, the content is null or empty, the index is a logical slot, and the bar is present and holds the slot view. The converse also holds. |
| Overlay.FirstBook | Managers/ActionBarManager.cs:354-360 | The unit's first spellbook exactly when the unit has a non-empty book list. |
| Overlay.PageBindings | Managers/ActionBarManager.cs:192-203 | A page's bindings exist exactly when the owner and the page are in the store. |
| Overlay.Rewrite | Managers/ActionBarManager.cs:206-251 | A slot without a binding is not written. A resolving binding becomes a new QuickCast slot of the resolved spell for the bar's unit. A binding that does not resolve becomes the empty placeholder. |
| Overlay.IdOf | Managers/ActionBarManager.cs:287-301 | The stored identity has the spell's guid, mask and decoration. Its heighten level is non-zero only when the mask holds Heighten, and is then the spell's heighten level. |
| Overlay.ActionBarManager.constructor | Managers/ActionBarManager.cs:28-59 | A fresh manager is inactive with no page, no snapshot, no pending restore and no flags. |
| Overlay.ActionBarManager.ClearRecentlyBoundSlotsIfNewFrame | Managers/ActionBarManager.cs:94-101 | The recently-bound record is forgotten on any frame other than the last refresh's. |
| Overlay.ActionBarManager.Restore | Managers/ActionBarManager.cs:124-162 | The bar becomes `Restored(bar, snapshot)` and the snapshot is forgotten, also without a bar. |
| Overlay.ActionBarManager.Refresh | Managers/ActionBarManager.cs:168-253 | On an active page with a bar and a unit, the bar becomes `Refreshed`. The frame is stamped, and the record is cleared on a new frame and extended with the new QuickCast slots. Otherwise nothing changes. |
| Overlay.ActionBarManager.TakeSnapshot | Managers/ActionBarManager.cs:408-456 | The snapshot gains exactly the managed slots that do not hold a QuickCast slot. |
| Overlay.ActionBarManager.TryDeactivate | Managers/ActionBarManager.cs:643-724 | Without `force`, an inactive session is untouched. Otherwise the bar is restored and the session is inactive with no page and no snapshot. |
| Overlay.ActionBarManager.ValidateSelected | Managers/ActionBarManager.cs:396-405 | The selected character's bindings, when it has any, become their cleaned version. They are saved when anything was dropped. |
| Overlay.ActionBarManager.SaveOriginal | Managers/ActionBarManager.cs:408-456 | The previous page's slots are given back, then the snapshot is exactly `SnapshotOf` the restored bar. |
| Overlay.ActionBarManager.ShowPage | Managers/ActionBarManager.cs:462-550 | Without a fault: active on the page, the snapshot kept, and the bar `Refreshed`. With a fault: inactive with no snapshot, and every slot except a managed QuickCast one is back as it was. Whenever the refresh ran (no fault before it, a real page), the record, frame stamp and refresh number change as `Refresh` states, also when a fault follows. Otherwise they are unchanged. The spellbook group follows the page in the default, combat and pause modes. |
| Overlay.ActionBarManager.TryActivate | Managers/ActionBarManager.cs:345-551 | It succeeds exactly when the page can be opened, the views, bar and unit are there, and nothing throws. Its whole outcome is `Activated`. Three refusals change nothing: no character, no spellbook, or a level above the book's highest. Missing views, bar or unit restore the bar and end the session, with the store, the record and the refresh number untouched. Otherwise the bindings are validated (and saved when something was dropped), the previous slots are given back and saved, and the page is written. The record and refresh number change exactly when the refresh ran. |
| Overlay.ActionBarManager.StoreBinding | Managers/ActionBarManager.cs:276-301 | With an owner, the identity of the spell is stored under (page, slot), creating the page. A spell without a blueprint only creates the page. |
| Overlay.ActionBarManager.Bind | Managers/ActionBarManager.cs:262-321 | Refusals change nothing: no spell, a slot outside 0..11, or no character. A spell without a blueprint only creates the page. Otherwise the binding is stored. When the page is the active one, and there are a bar and a unit, the bar is `Refreshed` and the record, frame stamp and refresh number move on. In every other case the bar, the record and the refresh number are unchanged. |
| Overlay.ActionBarManager.Unbind | Managers/ActionBarManager.cs:911-944 | On an active page, a bound logical slot loses its binding (the page stays), and the bindings are saved. With a bar and a unit, the bar is `Refreshed` and the record, frame stamp and refresh number move on. Without them, the bar, record and refresh number are unchanged. Anything else changes nothing. |
| Overlay.ActionBarManager.OnGameModeStart | Managers/ActionBarManager.cs:736-770 | A suspending mode records the active page (or -1) and raises the transition flag, leaving the session as it is. Other modes clear the flag. |
| Overlay.ActionBarManager.OnGameModeStop | Managers/ActionBarManager.cs:772-797 | The end of a suspending mode clears the flag and the record. A recorded page is opened again with exactly the outcome `Activated` describes for `TryActivate`, including a refused or faulted reopen. Without a recorded page the session, bar and store are untouched. Other modes change nothing. |
| Overlay.ActionBarManager.HandleSwitchSelectionUnitInGroup | Managers/ActionBarManager.cs:800-827 | Afterwards the session is never active. An active session is ended by force (bar restored) and its deferred restore dropped. An inactive one keeps its page, snapshot, bar and deferred restore. The transition flag stays raised only while a deferred restore is queued. |
| Overlay.ActionBarManager.Update | Managers/ActionBarManager.cs:834-902 | Without a queued deferred restore nothing changes. With one, it runs, then the request and the transition flag are cleared. Without a single selected character the session is closed. |
| Overlay.ActionBarManager.WriteBoundSlots | Managers/ActionBarManager.cs:206-251 | The slot loop, run under the internal-update flag, produces exactly `Refreshed` and adds exactly `NewlyBound` to the record. |
| Overlay.ActionBarManager.RefreshSlot | Managers/ActionBarManager.cs:212-248 | One pass of the slot loop moves the bar and the record from the first `i` managed slots to the first `i + 1`. |
| Overlay.ActionBarManager.WriteSlot | Core/QuickCastPatches.cs:164-177 | Each write the manager makes happens under its internal-update flag, so the slot-write postfix's guard declines to unbind it, whatever the host's bulk-refresh flag. |
| Overlay.RestoreNothing | Managers/ActionBarManager.cs:124-162 | Restoring an empty snapshot leaves the bar as it is. |
| Overlay.RestoreOwnSnapshot | Managers/ActionBarManager.cs:408-456 | Restoring a snapshot of the bar onto the same bar changes nothing. |
| Overlay.RestoreUndoesRefresh | Managers/ActionBarManager.cs:124-253 | Restoring the snapshot taken before a refresh gives back every slot, except a managed slot that already held a QuickCast slot. |
| Overlay.RefreshStep | Managers/ActionBarManager.cs:206-251 | One iteration of the slot loop, stated on `Refreshed` and `NewlyBound`. |
| Overlay.RefreshBound | Managers/ActionBarManager.cs:206 | The loop bound (the smaller of slot count and key count) manages the same slots as the slot count. |
| Overlay.MemorizedSearchFinds | Managers/BindingDataManager.cs:78-92 | A memorized entry that matches the identity at some level is found by the scan started at or below that level. |
| Overlay.BoundMemorizedSpellResolves | Managers/ActionBarManager.cs:287-301 | Binding round trip: the identity stored for a spell memorized in a prepared first book resolves again, to an entry with the same guid, mask and decoration. |
| Overlay.ReactivationIsIdempotent | Managers/ActionBarManager.cs:408-456 | Opening the same page again with the same bindings writes back the bar of the first opening, slot for slot. The one difference is that a QuickCast slot is a new object of the same spell and unit, with the new refresh's identity. With the same refresh number the bars are equal. |
| Overlay.RevalidationChangesNothing | Managers/ActionBarManager.cs:396-405 | After one validation nothing is invalid, so a second opening's validation changes nothing and saves nothing. |
| Patches.PatchState.constructor | Core/QuickCastPatches.cs:20-22 | No hovered slot and no bulk rewrite in progress. |
| Patches.OnHover | Core/QuickCastPatches.cs:29-65 | With the mod running, the session active and the spellbook shown, entering a spellbook spell slot records it. Leaving forgets it only if it is the recorded one, and other views are ignored. Otherwise the record is dropped. The earlier hover postfix (QuickCastPatches.cs:19-55) is the same. |
| Patches.OnClickPrefix | Core/QuickCastPatches.cs:103-122 | A click is swallowed exactly when the slot object was written by the refresh of the current frame. The earlier click prefix (QuickCastPatches.cs:62-81) is the same. |
| Patches.OnMainClickPrefix | Core/QuickCastPatches.cs:72-94 | Only a QuickCast slot can be swallowed, and exactly as `OnClickPrefix` decides. Any other content goes through. The earlier main-click prefix (QuickCastPatches.cs:88-110) is the same. |
| Patches.RefreshedSlotSwallowsOnlyItsFrame | Core/QuickCastPatches.cs:72-122 | A QuickCast slot written by a refresh swallows clicks in that refresh's frame and in no other frame. |
| Patches.LegacyRefreshedSlotSwallowsOnlyItsFrame | QuickCastPatches.cs:62-110 | In the earlier revision too, a slot its refresh writes for a bound entry swallows clicks in that refresh's frame and in no other frame. |
| Patches.OnSetMechanicSlot | Core/QuickCastPatches.cs:165-205 | A write the guard classifies as a clear of a bound slot removes that binding and saves. Every other write changes nothing. |
| Patches.ApplyWrites | Core/QuickCastPatches.cs:213-223 | A sequence of host slot writes keeps the bar's set of slot views. |
| Patches.SetMechanicSlots | Core/QuickCastPatches.cs:213-223 | The host's bulk rewrite leaves the bar as the writes say, and leaves the session and the bindings untouched. The flag is lowered afterwards. |
| AutoReturn.MarkFor | Core/QuickCastMechanicActionBarSlotSpell.cs:151-161 | A usable slot leaves a mark exactly when auto-return is on, namely (its unit, its blueprint). |
| AutoReturn.SlotOnClick | Core/QuickCastMechanicActionBarSlotSpell.cs:140-165 | A bad slot, or one the host will not let the unit use, leaves the mark alone. Otherwise the mark becomes `MarkFor`. |
| AutoReturn.OnEnded | Core/QuickCastPatches.cs:130-156 | A successful marked cast ends an active session (bar restored) and consumes the mark. Any other success consumes the mark only. A failed marked cast drops the mark. Nothing else changes. |
| AutoReturn.MarkRecognisesItsCast | Core/QuickCastPatches.cs:130-156 | The mark a click leaves recognises that slot's cast, and not a command of another unit. |
| SpellbookView.RowsNeeded | Managers/ActionBarManager.cs:570-583 | At least one row, enough rows of five for every known spell, and no spare row when there are spells. |
| SpellbookView.AdaptSpellbookSlots | Managers/ActionBarManager.cs:554-595 | Exactly the slot views below `rows × 5` are shown. Missing views stay missing. |
| SpellbookView.RestoreSpellbookSlots | Managers/ActionBarManager.cs:598-636 | Every present slot view is shown again. The result says whether any was hidden. |
| SpellbookView.AdaptIsIdempotent | Managers/ActionBarManager.cs:554-595 | Adapting twice for the same count changes nothing the second time. |
| SpellbookView.RestoreUndoesAdapt | Managers/ActionBarManager.cs:554-636 | Restoring after an adaptation shows every present slot view. |
| Legacy.ManagedLimit | ActionBarManager.cs:57 | The loop reaches exactly the managed slots below the bar's slot count. |
| Legacy.LegacyRewrite | ActionBarManager.cs:173-202 | A bound managed slot gets a new QuickCast slot of the bound entry. An unbound one gets the empty placeholder. |
| Legacy.LegacyPage | ActionBarManager.cs:156-170 | A page's bindings exist exactly when the table has the page. |
| Legacy.LegacyActionBarManager.constructor | ActionBarManager.cs:24-65 | A fresh manager is inactive with no page and no saved content, and keeps the existing global table (the caller passes an empty one when there was none). |
| Legacy.LegacyActionBarManager.Restore | ActionBarManager.cs:96-131 | The bar becomes `Restored(bar, snapshot)` and the snapshot is forgotten. |
| Legacy.LegacyActionBarManager.Refresh | ActionBarManager.cs:137-203 | On an active page with bar and unit, the bar becomes `LegacyRefreshed`, and the record is updated as in the current revision. Otherwise nothing changes. |
| Legacy.LegacyActionBarManager.WriteManagedSlots | ActionBarManager.cs:173-202 | The slot loop produces exactly `LegacyRefreshed` and `LegacyNewlyBound`. |
| Legacy.LegacyActionBarManager.Bind | ActionBarManager.cs:212-252 | A spell bound to a logical slot goes into the global table (the page created when missing). On the active page, with a bar and a unit, the bar is `LegacyRefreshed` and the record, frame stamp and refresh number move on. Otherwise the bar, record, frame stamp and refresh number are unchanged. A missing spell or a bad slot changes nothing. |
| Legacy.LegacyActionBarManager.TryDeactivate | ActionBarManager.cs:414-472 | Without `force`, an inactive session is untouched. Otherwise the bar is restored and the session ends. |
| Legacy.LegacyActionBarManager.Abandon | ActionBarManager.cs:349-402 | The recurring bail-out restores the bar, forgets the snapshot and ends the session with no page. |
| Legacy.LegacyActionBarManager.TakeSnapshot | ActionBarManager.cs:294-338 | The snapshot gains exactly the reachable managed slots without a QuickCast slot. |
| Legacy.LegacyActionBarManager.SaveOriginal | ActionBarManager.cs:294-338 | The previous slots are given back, then the snapshot is `LegacySnapshotOf` the restored bar. |
| Legacy.LegacyActionBarManager.ShowPage | ActionBarManager.cs:344-406 | Without the spells group, or with a fault, the bar is restored (except managed QuickCast slots) and the session ends. Otherwise the session is active on the page, with the bar refreshed. The record, frame stamp and refresh number change exactly when the refresh ran, also when a fault follows it. |
| Legacy.LegacyActionBarManager.TryActivate | ActionBarManager.cs:260-407 | A missing view or bar restores the bar and ends the session. A missing unit ends it. Otherwise the previous slots are given back and saved, and the page is shown. The record, frame stamp and refresh number change exactly when the page's refresh ran, and are unchanged on every other path. There is no spellbook check and no validation. |
| Legacy.LegacyRestoreOwnSnapshot | ActionBarManager.cs:294-338 | Restoring a snapshot of the bar onto the same bar changes nothing. |
| Legacy.LegacyRestoreUndoesRefresh | ActionBarManager.cs:96-203 | Restoring the snapshot taken before a refresh gives back every slot except managed QuickCast ones. |
| Legacy.LegacyRefreshStep | ActionBarManager.cs:173-202 | One iteration of the loop over the managed list, stated on the specification. |
| Legacy.LegacyRefreshBound | ActionBarManager.cs:173-176 | The loop bound manages the same slots as the slot count. |
| Legacy.LegacySnapshotStep | ActionBarManager.cs:294-338 | One iteration of the snapshot loop, stated on `LegacySnapshotOf`. |
| Legacy.LegacySnapshotBound | ActionBarManager.cs:294-338 | The snapshot loop's bound reaches exactly the managed slots of the bar. |
| Legacy.UnboundSlotDiffers | ActionBarManager.cs:173-202 | On a managed slot without a binding, the earlier refresh writes the placeholder, while the current one leaves the slot's content in place. |
| Legacy.EarlierValidationKeepsResolvableGuids | BindingDataManager.cs:156-212 | The earlier validation keeps exactly the bindings whose guid some spellbook still carries, and each kept guid resolves to an entry of that guid. |

## Left out

- Rendering has no model. The visibility toggles, the title label, sounds, on-screen messages and layout calls are no-ops, and so is the call that syncs the spellbook panel to the page. The idle spellbook sync in `Update` is therefore not modelled.
- JSON serialisation and file I/O are not modelled. Saving appends the whole map to `written`; loading receives a `LoadResult` (missing file, parsed document, or parse failure).
- Host catalog queries are fields of a `Spellbook` record: memorized slots per level, cantrips, known spells, lowest level.
- The `RuleApplyMetamagic` rule is an uninterpreted function in `Catalog.rule`. The blueprint library is a map.
- The deferred-restore path (the queued restore run by `Update` and `OnGameModeStart`) is modelled. Nothing in the source ever queues it, so the methods only promise never to queue one.
- `IgnoreExternalSlotClearingUntilFrame` is read by the slot-write postfix but not declared in the manager. It is the host value `ignoreUntilFrame`.
- The rechecks of the selection and the spellbook inside activation's guarded part (Managers/ActionBarManager.cs:466-467) cannot fail while the host answers the same within one call, so they are not modelled.
- A missing slot list of the bar is folded into `barPresent`.
- Exceptions are modelled only in two places. One is activation's guarded part, which catches them (`Fault`). The other is `Bind` for a spell without a blueprint, which nothing catches. The model ends `Bind` in the state at the throw: the page is created, nothing is stored and there is no refresh. The exception then propagates to the caller, which skips its own save of the bindings; the caller's save is not part of this model. Everywhere else the host is assumed not to throw.
- The provenance flags are not restored if an exception escapes.
- Slot object identity (and the hash code used for click suppression) is `ObjId(refresh number, slot)`. Hash collisions between different objects are not modelled.
- Null identity tuples in the store can only come from a hand-edited file and are not modelled. Validation's null-entry branch is therefore absent.
- `Catalog.MemorizedSearch`: a memorized shell without a blueprint counts as non-matching, where the source would throw.
- Static fields are fields of the one manager object, and the manager always exists.
- The spellbook panel's slot views are an array of their own. They are not linked to the manager's session state.
- `Mathf.CeilToInt` over a float division is integer ceiling. The two agree for the counts involved.
- The host's `SetMechanicSlots` body is a sequence of slot writes passed in.
- Legacy.LegacyActionBarManager.TryActivate: the earlier code dereferences the slot list without a null check after the first guard (ActionBarManager.cs:308). The model folds the missing list into `barPresent`, which the first guard already rejects.
- Patches.ApplyWrites: states only that the slot set is kept. The write-by-write content is stated through `SetMechanicSlots`' loop.
- Overlay.ActionBarManager.Update: the outcome of the deferred restore itself (a validation followed by `TryActivate`) is stated only for the no-selection case.
- QuickCastMechanicActionBarSlotSpell.cs (the earlier copy), Main.cs, Core/Main.cs, GameUIManager.cs, Managers/GameUIManager.cs, InputManager.cs, SettingsUIManager.cs and LocalizationManager.cs are not part of this model. They hold the input loop, the settings screen, localisation and mod entry points.

## Findings

| source | as written | input that shows it | evidently intended | confidence | as-written member | corrected member |
|---|---|---|---|---|---|---|
| Settings.cs:13-15, 38-52 | The field initialisers allocate `new KeyCode[12]` and `new KeyCode[11]`. The constructor's guards (`null` or wrong length) can then never fire, so the default page-key table is dead code. | A fresh `Settings()`: every page key is `KeyCode.None`, so no page key works until the user sets one. | A fresh `Settings()` installs the default page keys (backquote, 1-6, Q, W, E, R). | medium, not executed | Config.Settings.constructor | Config.Settings.Intended |
