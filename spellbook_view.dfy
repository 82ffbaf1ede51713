/**
 * The spellbook panel's slot views while a page is open: activation shows
 * just enough rows of five for the spells known at the page's level, and
 * deactivation shows every slot again. A slot view is `None` when the view
 * or its game object is missing, `Some(shown)` otherwise.
 */
module SpellbookView {
  import opened Common

  /** Slots per row of the spellbook panel. */
  const RowWidth := 5

  /** The rows needed for `knownCount` spells: the ceiling of knownCount / 5, and one row for none. */
  function RowsNeeded(knownCount: nat): (rows: nat)
    ensures rows >= 1
    ensures knownCount <= rows * RowWidth
    ensures knownCount > 0 ==> (rows - 1) * RowWidth < knownCount
  {
    if knownCount == 0 then 1 else (knownCount + RowWidth - 1) / RowWidth
  }

  /** The panel shows exactly the slot views below `shownCount`; missing views stay missing. */
  predicate ShowsPrefix(after: seq<Option<bool>>, before: seq<Option<bool>>, shownCount: int)
  {
    |after| == |before| &&
    forall i :: 0 <= i < |after| ==> after[i] == (if before[i].None? then None else Some(i < shownCount))
  }

  /** Shows the first `RowsNeeded(knownCount)` rows of slot views and hides the rest. */
  method AdaptSpellbookSlots(views: array<Option<bool>>, knownCount: nat)
    modifies views
    ensures ShowsPrefix(views[..], old(views[..]), RowsNeeded(knownCount) * RowWidth)
  {
    var shown := RowsNeeded(knownCount) * RowWidth;
    for i := 0 to views.Length
      invariant ShowsPrefix(views[..i], old(views[..i]), shown)
      invariant views[i..] == old(views[i..])
    {
      if views[i].Some? && views[i].value != (i < shown) {
        views[i] := Some(i < shown);
      }
      assert views[..i + 1] == views[..i] + [views[i]];
      assert old(views[..i + 1]) == old(views[..i]) + [old(views[i])];
    }
    assert views[..] == views[..views.Length];
    assert old(views[..]) == old(views[..views.Length]);
  }

  /** Shows every slot view again; `changed` says whether any present view was hidden. */
  method RestoreSpellbookSlots(views: array<Option<bool>>) returns (changed: bool)
    modifies views
    ensures forall i :: 0 <= i < views.Length ==> views[i] == (if old(views[i]).None? then None else Some(true))
    ensures changed <==> exists i :: 0 <= i < views.Length && old(views[i]) == Some(false)
  {
    changed := false;
    for i := 0 to views.Length
      invariant forall j :: 0 <= j < i ==> views[j] == (if old(views[j]).None? then None else Some(true))
      invariant forall j :: i <= j < views.Length ==> views[j] == old(views[j])
      invariant changed <==> exists j :: 0 <= j < i && old(views[j]) == Some(false)
    {
      if views[i].Some? && !views[i].value {
        views[i] := Some(true);
        changed := true;
      }
    }
  }

  /** Adapting for the same count twice changes nothing the second time. */
  lemma AdaptIsIdempotent(before: seq<Option<bool>>, once: seq<Option<bool>>, twice: seq<Option<bool>>, shownCount: int)
    requires ShowsPrefix(once, before, shownCount) && ShowsPrefix(twice, once, shownCount)
    ensures twice == once
  {
  }

  /** Restoring after an adaptation shows every present slot view, whatever the page hid. */
  lemma RestoreUndoesAdapt(before: seq<Option<bool>>, adapted: seq<Option<bool>>, shownCount: int, restored: seq<Option<bool>>)
    requires ShowsPrefix(adapted, before, shownCount)
    requires ShowsPrefix(restored, adapted, |adapted|)
    ensures ShowsPrefix(restored, before, |before|)
  {
  }
}
