/**
 * The persistent per-character bindings: owner id -> page (spell level) ->
 * logical slot -> stored identity. The current revision stores identity
 * tuples (`Catalog.SpellId`), the earlier one bare guids; the store is generic
 * in the stored value `V` and both revisions use it.
 *
 * The bindings file is abstract: `written` records every document handed to
 * it, and loading receives the parse outcome.
 */
module BindingData {
  import opened Common

  type Pages<V> = map<int, map<int, V>>
  type AllBindings<V> = map<string, Pages<V>>

  /** What reading the bindings file produced. */
  datatype LoadResult<V> = FileMissing | Parsed(doc: Option<AllBindings<V>>) | ParseFailed

  /** The (page, slot) keys of every binding whose value fails `valid`. */
  function InvalidEntries<V>(pages: Pages<V>, valid: V -> bool): set<(int, int)>
  {
    set p, s | p in pages && s in pages[p] && !valid(pages[p][s]) :: (p, s)
  }

  /** The slots of `page` that survive removing `removed`. */
  function Rest<V>(slots: map<int, V>, page: int, removed: set<(int, int)>): map<int, V>
  {
    map s | s in slots && (page, s) !in removed :: slots[s]
  }

  /**
   * Removing a set of entries one at a time, dropping a page when a removal
   * leaves it empty: a page that was empty to begin with stays.
   */
  function WithoutEntries<V>(pages: Pages<V>, removed: set<(int, int)>): Pages<V>
  {
    map p | p in pages && (Rest(pages[p], p, removed) != map[] || pages[p] == map[]) :: Rest(pages[p], p, removed)
  }

  /** The bindings after validation: every invalid entry removed, pages emptied by that removal dropped. */
  function Cleaned<V>(pages: Pages<V>, valid: V -> bool): Pages<V>
  {
    WithoutEntries(pages, InvalidEntries(pages, valid))
  }

  predicate EntriesOf<V>(pages: Pages<V>, removed: set<(int, int)>)
  {
    forall e :: e in removed ==> e.0 in pages && e.1 in pages[e.0]
  }

  /** One removal step of the validation loop, stated on `WithoutEntries`. */
  lemma WithoutEntriesStep<V>(pages: Pages<V>, done: set<(int, int)>, e: (int, int))
    requires e.0 in pages && e.1 in pages[e.0] && e !in done
    ensures var current := WithoutEntries(pages, done);
      e.0 in current &&
      var slots := current[e.0] - {e.1};
      WithoutEntries(pages, done + {e}) == if slots == map[] then current - {e.0} else current[e.0 := slots]
  {
    var current := WithoutEntries(pages, done);
    assert e.1 in Rest(pages[e.0], e.0, done);
    var slots := current[e.0] - {e.1};
    assert Rest(pages[e.0], e.0, done + {e}) == slots;
    forall q | q in pages && q != e.0
      ensures Rest(pages[q], q, done + {e}) == Rest(pages[q], q, done)
    {
    }
  }

  /** Validation keeps exactly the valid entries, unchanged. */
  lemma CleanedKeepsExactlyValid<V>(pages: Pages<V>, valid: V -> bool, p: int, s: int)
    ensures (p in Cleaned(pages, valid) && s in Cleaned(pages, valid)[p]) <==>
      (p in pages && s in pages[p] && valid(pages[p][s]))
    ensures p in Cleaned(pages, valid) && s in Cleaned(pages, valid)[p] ==>
      Cleaned(pages, valid)[p][s] == pages[p][s]
  {
    if p in pages && s in pages[p] && valid(pages[p][s]) {
      assert s in Rest(pages[p], p, InvalidEntries(pages, valid));
    }
  }

  /** A page disappears only when it had bindings and every one of them was invalid. */
  lemma CleanedDropsOnlyEmptiedPages<V>(pages: Pages<V>, valid: V -> bool, p: int)
    requires p in pages
    ensures p !in Cleaned(pages, valid) <==>
      pages[p] != map[] && forall s :: s in pages[p] ==> !valid(pages[p][s])
  {
    var r := Rest(pages[p], p, InvalidEntries(pages, valid));
    if r == map[] {
      forall s | s in pages[p] ensures !valid(pages[p][s]) {
        assert s !in r;
      }
    }
    if forall s :: s in pages[p] ==> !valid(pages[p][s]) {
      forall s | s in pages[p] ensures (p, s) in InvalidEntries(pages, valid) {
      }
      assert r.Keys == {};
    }
  }

  /** With nothing invalid, validation leaves the bindings as they are. */
  lemma CleanedWithoutInvalidIsIdentity<V>(pages: Pages<V>, valid: V -> bool)
    requires InvalidEntries(pages, valid) == {}
    ensures Cleaned(pages, valid) == pages
  {
    forall p | p in pages ensures Rest(pages[p], p, {}) == pages[p] {
    }
  }

  /** Validating twice changes nothing the first validation left. */
  lemma CleanedIsIdempotent<V>(pages: Pages<V>, valid: V -> bool)
    ensures InvalidEntries(Cleaned(pages, valid), valid) == {}
    ensures Cleaned(Cleaned(pages, valid), valid) == Cleaned(pages, valid)
  {
    var c := Cleaned(pages, valid);
    forall e | e in InvalidEntries(c, valid) ensures false {
      CleanedKeepsExactlyValid(pages, valid, e.0, e.1);
    }
    CleanedWithoutInvalidIsIdentity(c, valid);
  }

  /** The collect pass of validation: every (page, slot) whose value fails `valid`. */
  method CollectInvalid<V>(pages: Pages<V>, valid: V -> bool) returns (toRemove: set<(int, int)>, found: bool)
    ensures toRemove == InvalidEntries(pages, valid)
    ensures found == (toRemove != {})
  {
    toRemove := {};
    found := false;
    var pagesLeft := pages.Keys;
    while pagesLeft != {}
      invariant pagesLeft <= pages.Keys
      invariant toRemove == set p, s | p in pages && p !in pagesLeft && s in pages[p] && !valid(pages[p][s]) :: (p, s)
      invariant found == (toRemove != {})
      decreases pagesLeft
    {
      var p := Pick(pagesLeft);
      var slotsLeft := pages[p].Keys;
      ghost var before := toRemove;
      while slotsLeft != {}
        invariant slotsLeft <= pages[p].Keys
        invariant toRemove == before + set s | s in pages[p] && s !in slotsLeft && !valid(pages[p][s]) :: (p, s)
        invariant found == (toRemove != {})
        decreases slotsLeft
      {
        var s := Pick(slotsLeft);
        if !valid(pages[p][s]) {
          toRemove := toRemove + {(p, s)};
          found := true;
        }
        slotsLeft := slotsLeft - {s};
      }
      pagesLeft := pagesLeft - {p};
    }
  }

  /** The remove pass of validation: entries removed one by one, a page dropped when a removal empties it. */
  method RemoveEntries<V>(pages: Pages<V>, toRemove: set<(int, int)>) returns (current: Pages<V>)
    requires EntriesOf(pages, toRemove)
    ensures current == WithoutEntries(pages, toRemove)
  {
    current := pages;
    var left := toRemove;
    forall p | p in pages ensures Rest(pages[p], p, {}) == pages[p] {
    }
    assert toRemove - left == {};
    assert WithoutEntries(pages, {}) == pages;
    while left != {}
      invariant left <= toRemove
      invariant current == WithoutEntries(pages, toRemove - left)
      decreases left
    {
      var e := Pick(left);
      WithoutEntriesStep(pages, toRemove - left, e);
      assert toRemove - (left - {e}) == (toRemove - left) + {e};
      if e.0 in current {
        var slots := current[e.0] - {e.1};
        if slots == map[] {
          current := current - {e.0};
        } else {
          current := current[e.0 := slots];
        }
      }
      left := left - {e};
    }
    assert toRemove - left == toRemove;
  }

  class BindingStore<V> {
    var perCharacter: AllBindings<V>
    var written: seq<AllBindings<V>>

    constructor ()
      ensures perCharacter == map[] && written == []
    {
      perCharacter := map[];
      written := [];
    }

    /**
     * The bindings of the selected character: nothing without an owner id; an
     * unknown owner gets a fresh empty map only when asked to create one.
     */
    method GetCurrentCharacterBindings(owner: Option<string>, createIfMissing: bool) returns (r: Option<Pages<V>>)
      modifies this`perCharacter
      ensures owner.None? ==> r.None? && perCharacter == old(perCharacter)
      ensures owner.Some? && owner.value in old(perCharacter) ==>
        r == Some(old(perCharacter)[owner.value]) && perCharacter == old(perCharacter)
      ensures owner.Some? && owner.value !in old(perCharacter) && createIfMissing ==>
        r == Some(map[]) && perCharacter == old(perCharacter)[owner.value := map[]]
      ensures owner.Some? && owner.value !in old(perCharacter) && !createIfMissing ==>
        r.None? && perCharacter == old(perCharacter)
      ensures r.Some? ==> owner.Some? && owner.value in perCharacter && r.value == perCharacter[owner.value]
    {
      if owner.None? {
        return None;
      }
      var id := owner.value;
      if id !in perCharacter {
        if createIfMissing {
          perCharacter := perCharacter[id := map[]];
        } else {
          return None;
        }
      }
      r := Some(perCharacter[id]);
    }

    /** Hands the whole map to the bindings file, when the mod knows its directory. */
    method SaveBindings(canSave: bool)
      modifies this`written
      ensures written == if canSave then old(written) + [perCharacter] else old(written)
    {
      if canSave {
        written := written + [perCharacter];
      }
    }

    /**
     * Replaces the whole map with the file's content; a missing file, a null
     * document or a parse failure installs an empty map; without a known
     * directory nothing changes.
     */
    method LoadBindings(canLoad: bool, file: LoadResult<V>)
      modifies this`perCharacter
      ensures !canLoad ==> perCharacter == old(perCharacter)
      ensures canLoad && file.Parsed? && file.doc.Some? ==> perCharacter == file.doc.value
      ensures canLoad && !(file.Parsed? && file.doc.Some?) ==> perCharacter == map[]
    {
      if !canLoad {
        return;
      }
      match file {
        case FileMissing =>
          perCharacter := map[];
        case Parsed(doc) =>
          if doc.Some? {
            perCharacter := doc.value;
          } else {
            perCharacter := map[];
          }
        case ParseFailed =>
          perCharacter := map[];
      }
    }

    /**
     * Drops the owner's bindings that no longer resolve (collect first, then
     * remove, deleting a page a removal empties) and saves when anything was
     * dropped. Without a unit, or when the owner has no bindings (the null
     * dictionary), it does nothing.
     */
    method ValidateAndCleanupBindings(unitPresent: bool, owner: Option<string>, valid: V -> bool, canSave: bool)
      returns (changed: bool)
      modifies this
      ensures !unitPresent || owner.None? || owner.value !in old(perCharacter) ==>
        !changed && perCharacter == old(perCharacter) && written == old(written)
      ensures unitPresent && owner.Some? && owner.value in old(perCharacter) ==>
        changed == (InvalidEntries(old(perCharacter)[owner.value], valid) != {}) &&
        perCharacter == old(perCharacter)[owner.value := Cleaned(old(perCharacter)[owner.value], valid)] &&
        written == if changed && canSave then old(written) + [perCharacter] else old(written)
    {
      if !unitPresent || owner.None? || owner.value !in perCharacter {
        return false;
      }
      var id := owner.value;
      var pages := perCharacter[id];
      var toRemove;
      toRemove, changed := CollectInvalid(pages, valid);
      var current := RemoveEntries(pages, toRemove);
      perCharacter := perCharacter[id := current];

      if changed {
        SaveBindings(canSave);
      }
    }
  }
}
