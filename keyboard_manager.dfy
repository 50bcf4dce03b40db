/**
 * Keyboard state tracking of the Spooker game framework (namespace Spooker.Input).
 *
 * A KeyboardManager keeps two key -> bool tables: the state of every key in
 * the current frame and in the previous frame. Once per frame, Update copies
 * the current table into the previous one and refills the current table from
 * a fresh sample of the keyboard. Level queries (is a key down or up, now or
 * last frame) read one table; edge queries (pressed or released this frame)
 * compare the two.
 */
module Input {

  /**
   * The number of members of the keyboard-key enumeration. The enumeration
   * itself belongs to the windowing library and is not part of this model;
   * this value is a stand-in, and no proof below depends on it.
   */
  const KeyCount: nat := 101

  /** A keyboard key, identified by its position in the key enumeration. */
  type Key = k: nat | k < KeyCount

  /** No element of `s` occurs twice. */
  predicate Distinct<T(==)>(s: seq<T>) {
    forall i, j :: 0 <= i < j < |s| ==> s[i] != s[j]
  }

  /** Every key has an entry in `table`, so looking a key up cannot fail. */
  ghost predicate Total(table: map<Key, bool>) {
    forall k: Key :: k in table
  }

  /** The members of the key enumeration: every key, each exactly once. */
  function AllKeys(): (keys: seq<Key>)
    ensures forall k: Key :: k in keys
    ensures Distinct(keys)
  {
    var keys := seq(KeyCount, i requires 0 <= i < KeyCount => i as Key);
    assert forall k: Key :: k in keys by {
      forall k: Key ensures k in keys {
        assert keys[k] == k;
      }
    }
    keys
  }

  /**
   * The keys of `keys`, in order, whose entry in `table` is true: the
   * "where key.Value select key.Key" query, walked over one enumeration of
   * the table's keys.
   */
  function PressedAmong(keys: seq<Key>, table: map<Key, bool>): (pressed: seq<Key>)
    requires forall k :: k in keys ==> k in table
    ensures forall k :: k in pressed <==> k in keys && table[k]
    ensures Distinct(keys) ==> Distinct(pressed)
  {
    if keys == [] then []
    else
      var rest := PressedAmong(keys[1..], table);
      if table[keys[0]] then
        assert Distinct(keys) ==> keys[0] !in keys[1..];
        [keys[0]] + rest
      else
        rest
  }

  class KeyboardManager {
    /** The state of every key in the current frame (true = down). */
    var keyStates: map<Key, bool>
    /** The state of every key in the previous frame (true = down). */
    var previousKeyStates: map<Key, bool>

    /** Both tables have exactly the full key set as their domain. */
    ghost predicate Valid()
      reads this
    {
      Total(keyStates) && Total(previousKeyStates)
    }

    /** Enters every key, released, into both tables. */
    constructor ()
      ensures Valid()
      ensures forall k: Key :: !keyStates[k] && !previousKeyStates[k]
    {
      keyStates := map[];
      previousKeyStates := map[];
      new;
      var keys := AllKeys();
      for i := 0 to |keys|
        invariant forall k: Key :: k in keyStates <==> k in keys[..i]
        invariant forall k: Key :: k in previousKeyStates <==> k in keys[..i]
        invariant forall k :: k in keyStates ==> !keyStates[k]
        invariant forall k :: k in previousKeyStates ==> !previousKeyStates[k]
      {
        var key := keys[i];
        // Adding a key twice would throw; the enumeration lists each key once.
        assert key !in keyStates && key !in previousKeyStates by {
          assert forall j :: 0 <= j < i ==> keys[j] != key;
        }
        keyStates := keyStates[key := false];
        previousKeyStates := previousKeyStates[key := false];
      }
      assert keys[..|keys|] == keys;
    }

    /**
     * Advances one frame: the current table becomes the previous one and the
     * current table is refilled from `sample`, the state of every key as the
     * keyboard reports it now.
     */
    method Update(sample: Key -> bool)
      requires Valid()
      modifies this
      ensures Valid()
      ensures previousKeyStates == old(keyStates)
      ensures forall k: Key :: keyStates[k] == sample(k)
      ensures forall k: Key :: WasKeyDown(k) == old(IsKeyDown(k))
      ensures forall k: Key :: IsKeyDown(k) == sample(k)
    {
      // Copy the current table, in the table's own (unspecified) order.
      previousKeyStates := map[];
      var pending := keyStates.Keys;
      while pending != {}
        invariant keyStates == old(keyStates)
        invariant pending <= keyStates.Keys
        invariant previousKeyStates.Keys == keyStates.Keys - pending
        invariant forall k :: k in previousKeyStates ==> previousKeyStates[k] == keyStates[k]
        decreases pending
      {
        var key :| key in pending;
        assert key !in previousKeyStates;
        previousKeyStates := previousKeyStates[key := keyStates[key]];
        pending := pending - {key};
      }
      assert previousKeyStates == old(keyStates);

      // Refill the current table from the sample, key by key.
      keyStates := map[];
      var keys := AllKeys();
      for i := 0 to |keys|
        invariant previousKeyStates == old(keyStates)
        invariant forall k: Key :: k in keyStates <==> k in keys[..i]
        invariant forall k :: k in keyStates ==> keyStates[k] == sample(k)
      {
        var key := keys[i];
        assert key !in keyStates by {
          assert forall j :: 0 <= j < i ==> keys[j] != key;
        }
        keyStates := keyStates[key := sample(key)];
      }
      assert keys[..|keys|] == keys;
    }

    /** The keys that are down in the current frame, each listed once. */
    function GetPressedKeys(): (pressed: seq<Key>)
      reads this
      requires Valid()
      ensures forall k: Key :: k in pressed <==> keyStates[k]
      ensures Distinct(pressed)
    {
      PressedAmong(AllKeys(), keyStates)
    }

    /** The keys that were down in the previous frame, each listed once. */
    function GetLastFramePressedKeys(): (pressed: seq<Key>)
      reads this
      requires Valid()
      ensures forall k: Key :: k in pressed <==> previousKeyStates[k]
      ensures Distinct(pressed)
    {
      PressedAmong(AllKeys(), previousKeyStates)
    }

    /** Whether `key` is down in the current frame. */
    function IsKeyDown(key: Key): (down: bool)
      reads this
      requires Valid()
      ensures down <==> key in GetPressedKeys()
    {
      keyStates[key]
    }

    /** Whether `key` was down in the previous frame. */
    function WasKeyDown(key: Key): (down: bool)
      reads this
      requires Valid()
      ensures down <==> key in GetLastFramePressedKeys()
    {
      previousKeyStates[key]
    }

    /** Whether `key` is up in the current frame. */
    function IsKeyUp(key: Key): (up: bool)
      reads this
      requires Valid()
      ensures up <==> !keyStates[key]
      ensures up <==> key !in GetPressedKeys()
    {
      !IsKeyDown(key)
    }

    /** Whether `key` was up in the previous frame. */
    function WasKeyUp(key: Key): (up: bool)
      reads this
      requires Valid()
      ensures up <==> !previousKeyStates[key]
      ensures up <==> key !in GetLastFramePressedKeys()
    {
      !WasKeyDown(key)
    }

    /** Whether `key` went down this frame: up last frame and down now. */
    function IsKeyPressed(key: Key): (pressed: bool)
      reads this
      requires Valid()
      ensures pressed <==> keyStates[key] && !previousKeyStates[key]
      ensures pressed <==> key in GetPressedKeys() && key !in GetLastFramePressedKeys()
    {
      IsKeyDown(key) && WasKeyUp(key)
    }

    /** Whether `key` went up this frame: down last frame and up now. */
    function IsKeyReleased(key: Key): (released: bool)
      reads this
      requires Valid()
      ensures released <==> previousKeyStates[key] && !keyStates[key]
      ensures released <==> key in GetLastFramePressedKeys() && key !in GetPressedKeys()
      ensures released ==> !IsKeyPressed(key)
    {
      WasKeyDown(key) && IsKeyUp(key)
    }
  }

  /**
   * Two frames with the same keyboard sample leave every key steady: down
   * exactly where the sample says so, and neither pressed nor released.
   */
  method UpdateTwiceWithSameSample(m: KeyboardManager, sample: Key -> bool)
    requires m.Valid()
    modifies m
    ensures m.Valid()
    ensures forall k: Key :: m.IsKeyDown(k) == sample(k) && m.WasKeyDown(k) == sample(k)
    ensures forall k: Key :: !m.IsKeyPressed(k) && !m.IsKeyReleased(k)
  {
    m.Update(sample);
    m.Update(sample);
  }

  /** The first frame after construction sees every down key as newly pressed. */
  method FirstFrame(sample: Key -> bool) returns (m: KeyboardManager)
    ensures fresh(m) && m.Valid()
    ensures forall k: Key :: m.IsKeyPressed(k) == sample(k) && !m.IsKeyReleased(k)
  {
    m := new KeyboardManager();
    m.Update(sample);
  }
}
