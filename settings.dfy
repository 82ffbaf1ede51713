/**
 * The mod's user settings: which key binds each of the 12 logical quick-cast
 * slots, which key opens each spell-level page, and two behaviour switches.
 * A logical slot is managed by the overlay exactly when its bind key is not
 * `NoKey` (`KeyCode.None`).
 */
module Config {
  /** The keyboard keys the settings refer to; `NoKey` is the enum's default value `KeyCode.None`. */
  datatype KeyCode = NoKey | BackQuote | Alpha(digit: nat) | Q | W | E | R | X | Other(code: int)

  const BindKeyCount: int := 12
  const PageKeyCount: int := 11

  /** A slot whose bind key is set is taken over by the overlay. */
  predicate IsManagedKey(k: KeyCode)
  {
    k != NoKey
  }

  /** The page keys the constructor's fallback branch would install: ` 1 2 3 4 5 6 Q W E R. */
  function DefaultPageKeys(): (keys: seq<KeyCode>)
    ensures |keys| == PageKeyCount
    ensures forall i :: 0 <= i < |keys| ==> IsManagedKey(keys[i])
  {
    [BackQuote, Alpha(1), Alpha(2), Alpha(3), Alpha(4), Alpha(5), Alpha(6), Q, W, E, R]
  }

  /**
   * The bind-key guard of the constructor: an array that is missing or of the
   * wrong length is replaced by 12 unset keys, filled one by one.
   */
  method NormalizeBindKeys(keys: array?<KeyCode>) returns (r: array<KeyCode>)
    ensures keys != null && keys.Length == BindKeyCount ==> r == keys
    ensures keys == null || keys.Length != BindKeyCount ==>
      fresh(r) && r.Length == BindKeyCount && forall i :: 0 <= i < r.Length ==> r[i] == NoKey
  {
    if keys == null || keys.Length != BindKeyCount {
      r := new KeyCode[BindKeyCount](_ => Other(0));
      var i := 0;
      while i < r.Length
        invariant 0 <= i <= r.Length
        invariant forall j :: 0 <= j < i ==> r[j] == NoKey
      {
        r[i] := NoKey;
        i := i + 1;
      }
    } else {
      r := keys;
    }
  }

  /**
   * The page-key guard of the constructor: an array that is missing or of the
   * wrong length is replaced by the default table, entry by entry.
   */
  method NormalizePageKeys(keys: array?<KeyCode>) returns (r: array<KeyCode>)
    ensures keys != null && keys.Length == PageKeyCount ==> r == keys
    ensures keys == null || keys.Length != PageKeyCount ==>
      fresh(r) && r[..] == DefaultPageKeys()
  {
    if keys == null || keys.Length != PageKeyCount {
      r := new KeyCode[PageKeyCount](_ => NoKey);
      r[0] := BackQuote;
      r[1] := Alpha(1);
      r[2] := Alpha(2);
      r[3] := Alpha(3);
      r[4] := Alpha(4);
      r[5] := Alpha(5);
      r[6] := Alpha(6);
      r[7] := Q;
      r[8] := W;
      r[9] := E;
      r[10] := R;
    } else {
      r := keys;
    }
  }

  class Settings {
    var bindKeysForLogicalSlots: array<KeyCode>
    var pageActivationKeys: array<KeyCode>
    var returnToMainKey: KeyCode
    var enableDoubleTapToReturn: bool
    var autoReturnAfterCast: bool

    /**
     * The field initialisers allocate arrays of the right lengths holding the
     * enum default `NoKey`, so both guards keep the initialised arrays: no slot
     * is managed and no page key is set after construction.
     */
    constructor ()
      ensures bindKeysForLogicalSlots.Length == BindKeyCount
      ensures forall i :: 0 <= i < BindKeyCount ==> bindKeysForLogicalSlots[i] == NoKey
      ensures pageActivationKeys.Length == PageKeyCount
      ensures forall i :: 0 <= i < PageKeyCount ==> pageActivationKeys[i] == NoKey
      ensures pageActivationKeys[..] != DefaultPageKeys()
      ensures returnToMainKey == X && !enableDoubleTapToReturn && !autoReturnAfterCast
      ensures fresh(bindKeysForLogicalSlots) && fresh(pageActivationKeys)
    {
      var bind := new KeyCode[BindKeyCount](_ => NoKey);
      var pages := new KeyCode[PageKeyCount](_ => NoKey);
      bind := NormalizeBindKeys(bind);
      pages := NormalizePageKeys(pages);
      assert pages[0] == NoKey;
      bindKeysForLogicalSlots := bind;
      pageActivationKeys := pages;
      returnToMainKey := X;
      enableDoubleTapToReturn := false;
      autoReturnAfterCast := false;
    }

    /**
     * Construction as the guards' comments describe it: every slot unbound and
     * the default page-key table installed.
     */
    constructor Intended()
      ensures bindKeysForLogicalSlots.Length == BindKeyCount
      ensures forall i :: 0 <= i < BindKeyCount ==> bindKeysForLogicalSlots[i] == NoKey
      ensures pageActivationKeys[..] == DefaultPageKeys()
      ensures returnToMainKey == X && !enableDoubleTapToReturn && !autoReturnAfterCast
      ensures fresh(bindKeysForLogicalSlots) && fresh(pageActivationKeys)
    {
      var bind := NormalizeBindKeys(null);
      var pages := NormalizePageKeys(null);
      bindKeysForLogicalSlots := bind;
      pageActivationKeys := pages;
      returnToMainKey := X;
      enableDoubleTapToReturn := false;
      autoReturnAfterCast := false;
    }
  }
}
