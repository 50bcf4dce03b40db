# Keyboard state tracking (Spooker.Input.KeyboardManager)

This project is a Dafny model of the keyboard manager of the Spooker game
framework. The manager is a per-frame state machine over the fixed set of
keyboard keys. It keeps two key -> bool tables: the state of every key in the
current frame and its state in the previous frame. Once per frame, `Update`
copies the current table into the previous one and then refills the current
table from a fresh sample of the keyboard. The queries answer level questions
(is a key down or up now, was it down or up last frame) and edge questions (was
it pressed or released this frame), and list the keys that are down now or
were down last frame.

All of it is in `keyboard_manager.dfy`, module `Input`:

- `Key` is a key of the windowing library's key enumeration, identified by its
  position in that enumeration (`0 <= k < KeyCount`). `AllKeys()` stands for
  the enumeration's member list: every key, each once.
- `KeyboardManager` is a class with the two tables as `map<Key, bool>` fields
  (`keyStates`, `previousKeyStates`). `Valid()` is the invariant that both
  tables have every key in their domain, so no lookup can fail. The constructor
  establishes it and `Update` keeps it.
- The constructor and `Update` are methods with loops, as in the source. The
  constructor adds every key to both tables. `Update` first copies the current
  table entry by entry, in an order the model leaves open, because the source
  walks a dictionary whose enumeration order is unspecified. It then refills
  the current table key by key. Both loops assert that each added key is not
  yet in the table, so the dictionary's `Add` can never throw.
- The queries are functions that read the object and change nothing. Their
  contracts relate each one to the tables and to the two key listings.
- `UpdateTwiceWithSameSample` and `FirstFrame` are client methods. They show
  what a caller can conclude from the contracts alone: two frames with the same
  sample make every edge query false, and the first frame after construction
  reports exactly the down keys as pressed.

## Model

| member | source | states |
|---|---|---|
| `Input.AllKeys` | Source/Input/KeyboardManager.cs:26 | The key enumeration lists every key, and none twice. |
| `Input.PressedAmong` | Source/Input/KeyboardManager.cs:65 | The query "where the value is true, select the key" over an enumeration of a table's keys yields exactly the enumerated keys whose entry is true. If the enumeration has no repeats, neither has the result. |
| `Input.KeyboardManager.constructor` | Source/Input/KeyboardManager.cs:31-38 | After construction both tables are total over the key set and map every key to false. No `Add` meets a key that is already present. |
| `Input.KeyboardManager.Update` | Source/Input/KeyboardManager.cs:44-57 | Keeps both tables total. The new previous table is the old current table. The new current table maps each key to its sampled state. In query terms, `WasKeyDown(k)` afterwards equals `IsKeyDown(k)` before, and `IsKeyDown(k)` afterwards equals the sample for `k`. No `Add` meets a key that is already present. |
| `Input.KeyboardManager.GetPressedKeys` | Source/Input/KeyboardManager.cs:63-66 | Lists exactly the keys whose current state is down, each at most once (the order is not specified). |
| `Input.KeyboardManager.GetLastFramePressedKeys` | Source/Input/KeyboardManager.cs:72-75 | Lists exactly the keys whose previous-frame state is down, each at most once (the order is not specified). |
| `Input.KeyboardManager.IsKeyDown` | Source/Input/KeyboardManager.cs:132-135 | A key is down now exactly when `GetPressedKeys` lists it. |
| `Input.KeyboardManager.WasKeyDown` | Source/Input/KeyboardManager.cs:112-115 | A key was down last frame exactly when `GetLastFramePressedKeys` lists it. |
| `Input.KeyboardManager.IsKeyUp` | Source/Input/KeyboardManager.cs:122-125 | A key is up now exactly when its current state is false, that is, when `GetPressedKeys` does not list it. |
| `Input.KeyboardManager.WasKeyUp` | Source/Input/KeyboardManager.cs:102-105 | A key was up last frame exactly when its previous state is false, that is, when `GetLastFramePressedKeys` does not list it. |
| `Input.KeyboardManager.IsKeyPressed` | Source/Input/KeyboardManager.cs:92-95 | A key is pressed exactly when it is down now and was up last frame, that is, when `GetPressedKeys` lists it and `GetLastFramePressedKeys` does not. |
| `Input.KeyboardManager.IsKeyReleased` | Source/Input/KeyboardManager.cs:82-85 | A key is released exactly when it was down last frame and is up now, that is, when `GetLastFramePressedKeys` lists it and `GetPressedKeys` does not. A key is never both pressed and released. |
| `Input.UpdateTwiceWithSameSample` | Source/Input/KeyboardManager.cs:44-57 | After two updates with the same sample, every key is down now and was down last frame exactly as the sample says, and no key is pressed or released. |
| `Input.FirstFrame` | Source/Input/KeyboardManager.cs:31-57 | In the first frame after construction, a key is pressed exactly when the sample has it down, and no key is released. |

## Left out

- The keyboard sample: `Keyboard.IsKeyPressed` polls the hardware. The model passes the sample to `Update` as a total function `sample: Key -> bool`.
- The key enumeration: the key type belongs to the windowing library and is not part of this model. The reflection call that lists its members becomes `AllKeys()` over the positions `0 .. KeyCount - 1`. `KeyCount` is a stand-in for the number of members, and no proof depends on its value. Values of the key type outside the enumeration's members (such as a cast from an out-of-range integer) are not modelled; the source throws a key-not-found exception on them in the lookups of `WasKeyDown` and `IsKeyDown`. The model assumes the enumeration has no duplicate members. A duplicate would make the constructor's `Add` throw.
- `Input.KeyboardManager.GetPressedKeys`: the contract states the set of listed keys and that none repeats, not their order. The order follows the dictionary's enumeration order, which is unspecified. The model returns a sequence rather than a freshly allocated array.
- `Input.KeyboardManager.GetLastFramePressedKeys`: the same as for `GetPressedKeys`.
- The `GameTime` argument of `Update` and the `IUpdateable` interface: the logic does not use them.
- Spooker/Core/GameComponent.cs: it only forwards four properties to a game window whose types are not part of this model. There is no logic to state.
- The query methods are read-only by construction. They are Dafny functions that read the object and cannot change it, so no separate statement says that they leave the tables unchanged.
