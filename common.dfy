/** Shared helpers: an optional value, and the few constants of the overlay. */
module Common {
  datatype Option<T> = None | Some(value: T)

  /** Number of logical quick-cast slots a page can bind (indices 0..11). */
  const LogicalSlotCount: int := 12

  /** A slot index the overlay accepts for binding and unbinding. */
  predicate IsLogicalSlot(slot: int)
  {
    0 <= slot < LogicalSlotCount
  }

  function Min(a: int, b: int): int
  {
    if a <= b then a else b
  }

  lemma NonEmptyHasMember<T>(s: set<T>)
    requires s != {}
    ensures exists x :: x in s
  {
  }

  /** Some element of a non-empty set: one step of iterating over a dictionary's entries. */
  method Pick<T>(s: set<T>) returns (x: T)
    requires s != {}
    ensures x in s
  {
    NonEmptyHasMember(s);
    x :| x in s;
  }
}
