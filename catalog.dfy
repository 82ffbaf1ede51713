/**
 * The game's spell catalog as the overlay sees it, and the two resolution
 * searches that turn a stored identity back into a castable spell entry:
 * `GetBoundAbilityData` (current revision: guid + metamagic mask + heighten
 * level + decoration) and `GetAbilityDataFromSpellGuid` (earlier revision:
 * guid only).
 *
 * The host's data are values here: a unit's spellbooks are a sequence of
 * `Spellbook` records holding what the host queries would answer, and the
 * blueprint library, the metamagic enum and the `RuleApplyMetamagic` rule are
 * the fields of a `Catalog`.
 */
module Catalog {
  import opened Common

  type Guid = string

  /** A metamagic mask: the 32 bits of the game's `Metamagic` flags enum. */
  type Mask = bv32

  datatype Blueprint = Blueprint(guid: Guid, hidden: bool)

  datatype MetamagicData = MetamagicData(mask: Mask, heightenLevel: int)

  /** A castable spell entry (the host's `AbilityData`); units are referred to by identity. */
  datatype AbilityData = AbilityData(
    blueprint: Option<Blueprint>,
    caster: Option<nat>,
    spellbook: Option<nat>,
    spellLevel: int,
    metamagic: Option<MetamagicData>,
    color: int,
    border: int)

  /**
   * What the overlay asks of one spellbook: its kind, its highest level, the
   * spell in each memorized slot per level (`None` for an empty slot), the known
   * cantrips, the known spell per blueprint guid, all known spells, and the
   * lowest level each known blueprint is castable at.
   */
  datatype Spellbook = Spellbook(
    id: nat,
    owner: nat,
    memorizeSpells: bool,
    spontaneous: bool,
    maxSpellLevel: int,
    memorized: seq<seq<Option<AbilityData>>>,
    cantrips: seq<AbilityData>,
    known: map<Guid, AbilityData>,
    allKnown: seq<AbilityData>,
    minLevel: map<Guid, int>)

  /** A unit: its identity, its persistent `UniqueId` and its spellbooks (`None` when it has no descriptor). */
  datatype Unit = Unit(ref: nat, uniqueId: Option<string>, spellbooks: Option<seq<Spellbook>>)

  /** The game rule that applies a list of metamagic flags to a base spell. */
  type MetamagicRule = (Spellbook, Blueprint, seq<Mask>, int, int) -> Option<MetamagicData>

  /**
   * The blueprint library, the values of the `Metamagic` enum in the order
   * `Enum.GetValues` returns them, the value of its `Heighten` member, and the
   * metamagic rule.
   */
  datatype Catalog = Catalog(
    library: map<Guid, Blueprint>,
    metamagicFlags: seq<Mask>,
    heighten: Mask,
    rule: MetamagicRule)

  /** The identity a binding stores: (guid, metamagic mask, heighten level, decoration colour, decoration border). */
  datatype SpellId = SpellId(guid: Guid, mask: Mask, heighten: int, color: int, border: int)

  /** The owner key of a unit's bindings, absent without a unit or without a `UniqueId`. */
  function OwnerId(unit: Option<Unit>): (r: Option<string>)
    ensures r.Some? <==> unit.Some? && unit.value.uniqueId.Some?
  {
    if unit.Some? then unit.value.uniqueId else None
  }

  /** The mask of a spell entry, 0 when it carries no metamagic data. */
  function MaskOf(a: AbilityData): Mask
  {
    if a.metamagic.Some? then a.metamagic.value.mask else 0
  }

  predicate HasGuid(a: AbilityData, guid: Guid)
  {
    a.blueprint.Some? && a.blueprint.value.guid == guid
  }

  /** A prepared entry matches a stored identity on guid, mask and decoration; heighten is not compared. */
  predicate MatchesStored(a: AbilityData, id: SpellId)
  {
    HasGuid(a, id.guid) && MaskOf(a) == id.mask && a.color == id.color && a.border == id.border
  }

  predicate ShellMatches(shell: Option<AbilityData>, id: SpellId)
  {
    shell.Some? && MatchesStored(shell.value, id)
  }

  /** The index of the first element satisfying `p` (the host's `FirstOrDefault` and first-hit loops). */
  function FindFirst<T>(s: seq<T>, p: T -> bool): (r: Option<nat>)
    ensures r.Some? ==> r.value < |s| && p(s[r.value]) && forall j :: 0 <= j < r.value ==> !p(s[j])
    ensures r.None? ==> forall j :: 0 <= j < |s| ==> !p(s[j])
  {
    if s == [] then None
    else if p(s[0]) then Some(0)
    else match FindFirst(s[1..], p)
      case None => None
      case Some(k) => Some(k + 1)
  }

  /** The memorized slots of one level; a level the book does not list has none. */
  function MemorizedAt(book: Spellbook, level: int): seq<Option<AbilityData>>
  {
    if 0 <= level < |book.memorized| then book.memorized[level] else []
  }

  /** The first memorized spell matching `id`, scanning levels `level..maxSpellLevel` in order. */
  function MemorizedSearch(book: Spellbook, id: SpellId, level: int): (r: Option<AbilityData>)
    ensures r.Some? ==> MatchesStored(r.value, id)
    decreases book.maxSpellLevel + 1 - level
  {
    if level > book.maxSpellLevel then None
    else
      var slots := MemorizedAt(book, level);
      match FindFirst(slots, s => ShellMatches(s, id))
      case Some(k) => slots[k]
      case None => MemorizedSearch(book, id, level + 1)
  }

  /** A prepared book: memorized slots of every level first, then the known cantrips. */
  function PreparedResolve(book: Spellbook, id: SpellId): Option<AbilityData>
  {
    match MemorizedSearch(book, id, 0)
    case Some(a) => Some(a)
    case None =>
      match FindFirst(book.cantrips, a => MatchesStored(a, id))
      case Some(k) => Some(book.cantrips[k])
      case None => None
  }

  /** The flags of the enum that the mask holds completely, in the order of `metamagicFlags`, zero excluded. */
  function Decompose(mask: Mask, flags: seq<Mask>): seq<Mask>
  {
    if flags == [] then []
    else if Applies(mask, flags[0]) then [flags[0]] + Decompose(mask, flags[1..])
    else Decompose(mask, flags[1..])
  }

  /** A non-zero flag the mask holds completely (`(mask & f) == f`). */
  predicate Applies(mask: Mask, f: Mask)
  {
    mask & f == f && f != 0
  }

  /** The heighten level handed to the metamagic rule. */
  function RuleHeightenArgument(applied: seq<Mask>, heightenFlag: Mask, storedHeighten: int): (h: int)
    ensures h != 0 <==> heightenFlag in applied && storedHeighten > 0
    ensures h != 0 ==> h == storedHeighten
  {
    if heightenFlag in applied && storedHeighten > 0 then storedHeighten else 0
  }

  function MinSpellLevel(book: Spellbook, guid: Guid): int
  {
    if guid in book.minLevel then book.minLevel[guid] else -1
  }

  /**
   * A spontaneous book: with no stored metamagic the known base spell, if it
   * carries none itself; otherwise the spell re-derived through the metamagic
   * rule, accepted only when the rule reproduces the stored mask (and the
   * stored heighten level when Heighten is applied).
   */
  function SpontaneousResolve(book: Spellbook, bp: Blueprint, id: SpellId, cat: Catalog): Option<AbilityData>
  {
    if bp.guid !in book.known then None
    else
      var base := book.known[bp.guid];
      if id.mask == 0 then
        if base.metamagic.None? || (base.metamagic.value.mask == 0 && base.metamagic.value.heightenLevel == 0)
        then Some(base) else None
      else
        var level := MinSpellLevel(book, bp.guid);
        if level < 0 then None
        else
          var applied := Decompose(id.mask, cat.metamagicFlags);
          if |applied| == 0 && id.mask != 0 then None
          else
            var h := RuleHeightenArgument(applied, cat.heighten, id.heighten);
            match cat.rule(book, bp, applied, level, h)
            case None => None
            case Some(md) =>
              var heightenMatches := cat.heighten in applied ==> md.heightenLevel == id.heighten;
              if md.mask == id.mask && heightenMatches then
                Some(AbilityData(Some(bp), Some(book.owner), Some(book.id), level, Some(md), id.color, id.border))
              else None
  }

  /** One book's answer: prepared and spontaneous books are searched, any other kind is skipped. */
  function BookResolve(book: Spellbook, bp: Blueprint, id: SpellId, cat: Catalog): Option<AbilityData>
  {
    if book.memorizeSpells then PreparedResolve(book, id)
    else if book.spontaneous then SpontaneousResolve(book, bp, id, cat)
    else None
  }

  /** The first book, in order, that resolves the identity. */
  function SearchBooks(books: seq<Spellbook>, bp: Blueprint, id: SpellId, cat: Catalog): Option<AbilityData>
  {
    if books == [] then None
    else
      var r := BookResolve(books[0], bp, id, cat);
      if r.Some? then r else SearchBooks(books[1..], bp, id, cat)
  }

  /**
   * Resolves a stored identity against a unit's spellbooks: nothing for a
   * missing unit or descriptor, an empty guid or a blueprint the library does
   * not know.
   */
  function GetBoundAbilityData(unit: Option<Unit>, cat: Catalog, id: SpellId): (r: Option<AbilityData>)
    ensures unit.None? || id.guid == "" || unit.value.spellbooks.None? || id.guid !in cat.library ==> r.None?
  {
    if unit.None? || id.guid == "" || unit.value.spellbooks.None? then None
    else if id.guid !in cat.library then None
    else SearchBooks(unit.value.spellbooks.value, cat.library[id.guid], id, cat)
  }

  /** Whether a binding still resolves for this unit; validation drops those that do not. */
  predicate Resolves(unit: Option<Unit>, cat: Catalog, id: SpellId)
  {
    GetBoundAbilityData(unit, cat, id).Some?
  }

  // ---------------------------------------------------------------------------
  // Earlier revision: guid-only identities.

  predicate ShellHasGuid(shell: Option<AbilityData>, guid: Guid)
  {
    shell.Some? && HasGuid(shell.value, guid)
  }

  function MemorizedGuidSearch(book: Spellbook, guid: Guid, level: int): (r: Option<AbilityData>)
    ensures r.Some? ==> HasGuid(r.value, guid)
    decreases book.maxSpellLevel + 1 - level
  {
    if level > book.maxSpellLevel then None
    else
      var slots := MemorizedAt(book, level);
      match FindFirst(slots, s => ShellHasGuid(s, guid))
      case Some(k) => slots[k]
      case None => MemorizedGuidSearch(book, guid, level + 1)
  }

  function BookGuidResolve(book: Spellbook, guid: Guid): Option<AbilityData>
  {
    if book.memorizeSpells then
      match MemorizedGuidSearch(book, guid, 0)
      case Some(a) => Some(a)
      case None =>
        match FindFirst(book.cantrips, a => HasGuid(a, guid))
        case Some(k) => Some(book.cantrips[k])
        case None => None
    else if book.spontaneous then
      match FindFirst(book.allKnown, a => HasGuid(a, guid))
      case Some(k) => Some(book.allKnown[k])
      case None => None
    else None
  }

  function GuidSearchBooks(books: seq<Spellbook>, guid: Guid): Option<AbilityData>
  {
    if books == [] then None
    else
      var r := BookGuidResolve(books[0], guid);
      if r.Some? then r else GuidSearchBooks(books[1..], guid)
  }

  /** The earlier resolution: the first entry of any book carrying the guid. */
  function GetAbilityDataFromSpellGuid(unit: Option<Unit>, guid: Guid): (r: Option<AbilityData>)
    ensures unit.None? || guid == "" || unit.value.spellbooks.None? ==> r.None?
  {
    if unit.None? || guid == "" || unit.value.spellbooks.None? then None
    else GuidSearchBooks(unit.value.spellbooks.value, guid)
  }

  // ---------------------------------------------------------------------------
  // Properties of the resolution rules.

  /** The decomposed list holds exactly the non-zero enum flags the mask contains completely. */
  lemma {:induction false} DecomposeExact(mask: Mask, flags: seq<Mask>, f: Mask)
    ensures f in Decompose(mask, flags) <==> f in flags && Applies(mask, f)
  {
    if flags != [] {
      DecomposeExact(mask, flags[1..], f);
      assert f in flags <==> f == flags[0] || f in flags[1..];
    }
  }

  /** The bitwise union of a list of flags. */
  function UnionOf(flags: seq<Mask>): Mask
  {
    if flags == [] then 0 else flags[0] | UnionOf(flags[1..])
  }

  /** Every bit of `x` is set in `mask`. */
  predicate Within(x: Mask, mask: Mask)
  {
    x | mask == mask
  }

  lemma OrAbsorbs(x: Mask, y: Mask, mask: Mask)
    requires Applies(mask, x) && Within(y, mask)
    ensures Within(x | y, mask)
  {
  }

  lemma UnionOfDecomposeStep(mask: Mask, flags: seq<Mask>)
    requires flags != []
    ensures UnionOf(Decompose(mask, flags)) ==
      if Applies(mask, flags[0]) then flags[0] | UnionOf(Decompose(mask, flags[1..]))
      else UnionOf(Decompose(mask, flags[1..]))
  {
    var rest := Decompose(mask, flags[1..]);
    if Applies(mask, flags[0]) {
      assert ([flags[0]] + rest)[1..] == rest;
    }
  }

  /** The flags handed to the rule never ask for metamagic the stored mask lacks. */
  lemma {:induction false} DecomposeWithinMask(mask: Mask, flags: seq<Mask>)
    ensures Within(UnionOf(Decompose(mask, flags)), mask)
  {
    if flags != [] {
      DecomposeWithinMask(mask, flags[1..]);
      UnionOfDecomposeStep(mask, flags);
      if Applies(mask, flags[0]) {
        OrAbsorbs(flags[0], UnionOf(Decompose(mask, flags[1..])), mask);
      }
    }
  }

  /** A non-zero mask that decomposes to nothing holds no complete enum flag, and its book is skipped. */
  lemma EmptyDecompositionSkipsBook(book: Spellbook, bp: Blueprint, id: SpellId, cat: Catalog)
    requires !book.memorizeSpells && book.spontaneous && id.mask != 0
    requires Decompose(id.mask, cat.metamagicFlags) == []
    ensures forall f :: f in cat.metamagicFlags && f != 0 ==> !Applies(id.mask, f)
    ensures BookResolve(book, bp, id, cat).None?
  {
    forall f | f in cat.metamagicFlags && f != 0 ensures !Applies(id.mask, f) {
      DecomposeExact(id.mask, cat.metamagicFlags, f);
    }
  }

  /** The books are tried in order and the first one that resolves gives the answer. */
  lemma {:induction false} SearchBooksFirst(books: seq<Spellbook>, bp: Blueprint, id: SpellId, cat: Catalog)
    ensures SearchBooks(books, bp, id, cat).None? <==>
      forall j :: 0 <= j < |books| ==> BookResolve(books[j], bp, id, cat).None?
    ensures SearchBooks(books, bp, id, cat).Some? ==>
      exists k :: 0 <= k < |books| && BookResolve(books[k], bp, id, cat) == SearchBooks(books, bp, id, cat) &&
        forall j :: 0 <= j < k ==> BookResolve(books[j], bp, id, cat).None?
  {
    if books != [] {
      SearchBooksFirst(books[1..], bp, id, cat);
      if BookResolve(books[0], bp, id, cat).None? && SearchBooks(books, bp, id, cat).Some? {
        var k :| 0 <= k < |books[1..]| && BookResolve(books[1..][k], bp, id, cat) == SearchBooks(books[1..], bp, id, cat) &&
          forall j :: 0 <= j < k ==> BookResolve(books[1..][j], bp, id, cat).None?;
        assert BookResolve(books[k + 1], bp, id, cat) == SearchBooks(books, bp, id, cat);
      }
    }
  }

  /** A prepared book only ever answers with an entry equal to the stored identity on guid, mask and decoration. */
  lemma PreparedMatchesStored(book: Spellbook, id: SpellId)
    ensures PreparedResolve(book, id).Some? ==> MatchesStored(PreparedResolve(book, id).value, id)
  {
  }

  /** With no stored metamagic, a spontaneous book answers with its known base spell, and only when that spell carries no metamagic. */
  lemma SpontaneousBaseHasNoMetamagic(book: Spellbook, bp: Blueprint, id: SpellId, cat: Catalog)
    requires id.mask == 0
    requires SpontaneousResolve(book, bp, id, cat).Some?
    ensures bp.guid in book.known && SpontaneousResolve(book, bp, id, cat).value == book.known[bp.guid]
    ensures MaskOf(book.known[bp.guid]) == 0
    ensures book.known[bp.guid].metamagic.Some? ==> book.known[bp.guid].metamagic.value.heightenLevel == 0
  {
  }

  /**
   * With stored metamagic, a spontaneous book answers only with a re-derived
   * spell whose rule result reproduces the stored mask exactly, and the stored
   * heighten level when Heighten is among the applied flags; its decoration is
   * the stored one and its level the blueprint's lowest level in the book.
   */
  lemma SpontaneousDerivedIsExact(book: Spellbook, bp: Blueprint, id: SpellId, cat: Catalog)
    requires id.mask != 0
    requires SpontaneousResolve(book, bp, id, cat).Some?
    ensures var a := SpontaneousResolve(book, bp, id, cat).value;
      a.metamagic.Some? && a.metamagic.value.mask == id.mask &&
      (cat.heighten in Decompose(id.mask, cat.metamagicFlags) ==> a.metamagic.value.heightenLevel == id.heighten) &&
      a.color == id.color && a.border == id.border && a.blueprint == Some(bp) &&
      a.spellLevel == MinSpellLevel(book, bp.guid) >= 0
  {
  }

  /** The library maps each guid to the blueprint of that guid. */
  predicate LibraryConsistent(cat: Catalog)
  {
    forall g :: g in cat.library ==> cat.library[g].guid == g
  }

  /** Each book's known spell for a guid carries that guid. */
  predicate KnownConsistent(books: seq<Spellbook>)
  {
    forall j, g :: 0 <= j < |books| && g in books[j].known ==> HasGuid(books[j].known[g], g)
  }

  lemma BookResolveIdentity(book: Spellbook, bp: Blueprint, id: SpellId, cat: Catalog)
    requires bp.guid == id.guid
    requires bp.guid in book.known ==> HasGuid(book.known[bp.guid], bp.guid)
    requires BookResolve(book, bp, id, cat).Some?
    ensures HasGuid(BookResolve(book, bp, id, cat).value, id.guid)
    ensures MaskOf(BookResolve(book, bp, id, cat).value) == id.mask
  {
    if !book.memorizeSpells && book.spontaneous && id.mask == 0 {
      SpontaneousBaseHasNoMetamagic(book, bp, id, cat);
    }
  }

  /**
   * Whatever `GetBoundAbilityData` returns carries the stored guid and exactly
   * the stored metamagic mask: no near match is ever accepted.
   */
  lemma GetBoundAbilityDataIsFaithful(unit: Option<Unit>, cat: Catalog, id: SpellId)
    requires LibraryConsistent(cat)
    requires unit.Some? && unit.value.spellbooks.Some? ==> KnownConsistent(unit.value.spellbooks.value)
    requires GetBoundAbilityData(unit, cat, id).Some?
    ensures HasGuid(GetBoundAbilityData(unit, cat, id).value, id.guid)
    ensures MaskOf(GetBoundAbilityData(unit, cat, id).value) == id.mask
  {
    var books := unit.value.spellbooks.value;
    var bp := cat.library[id.guid];
    SearchBooksFirst(books, bp, id, cat);
    var k :| 0 <= k < |books| && BookResolve(books[k], bp, id, cat) == SearchBooks(books, bp, id, cat) &&
      forall j :: 0 <= j < k ==> BookResolve(books[j], bp, id, cat).None?;
    BookResolveIdentity(books[k], bp, id, cat);
  }

  /** The earlier search answers with the first book, in order, holding an entry of that guid, and only with such an entry. */
  lemma {:induction false} GuidSearchFirst(books: seq<Spellbook>, guid: Guid)
    ensures GuidSearchBooks(books, guid).Some? ==> HasGuid(GuidSearchBooks(books, guid).value, guid)
    ensures GuidSearchBooks(books, guid).None? <==>
      forall j :: 0 <= j < |books| ==> BookGuidResolve(books[j], guid).None?
  {
    if books != [] {
      GuidSearchFirst(books[1..], guid);
      var r := BookGuidResolve(books[0], guid);
      if r.Some? && !books[0].memorizeSpells {
        var k := FindFirst(books[0].allKnown, a => HasGuid(a, guid));
        assert HasGuid(books[0].allKnown[k.value], guid);
      }
      if r.None? {
        assert forall j :: 1 <= j < |books| ==> books[j] == books[1..][j - 1];
      }
    }
  }

  /** A cantrip is found by the earlier search only when no memorized slot of that book holds the guid. */
  lemma MemorizedBeforeCantrips(book: Spellbook, guid: Guid)
    requires book.memorizeSpells
    requires MemorizedGuidSearch(book, guid, 0).Some?
    ensures BookGuidResolve(book, guid) == MemorizedGuidSearch(book, guid, 0)
  {
  }
}
