# useLocalStorageState, modelled in Dafny

This project models the `useLocalStorageState` React hook of
`src/exercise/02.js`. The hook keeps a state value in sync with
`window.localStorage` under a key that may change between renders. The
serialiser and deserialiser are pluggable and default to
`JSON.stringify` / `JSON.parse`.

The hook has two parts:

- **The lazy initialiser** runs once, at mount. It reads the entry under the
  key. A truthy (non-empty) stored string is deserialised. Otherwise the
  default is used, and a function default is called.
- **The effect** runs after a commit. It removes the entry under the previous
  key if the key changed. It then records the current key as the previous one
  and writes `serialize(state)` under the current key.

Files and modules:

- `storage.dfy`, module `Storage`: the store as an immutable
  `map<string, string>`, with `getItem`, `setItem` and `removeItem`.
- `local_storage_state.dfy`, module `LocalStorageState`:
  - the default as `Literal(v) | Factory(make)`;
  - the binding `{prevKey, key, value}`;
  - `Init` and `Mount` (the initialiser), with `Evaluate` for the
    function-or-literal choice of line 24;
  - `MigrateKey`, `Persist` and `Cycle` (the effect);
  - lemmas about one cycle.
- `lifecycle.dfy`, module `Lifecycle`: a mounted hook driven by a sequence of
  events, with invariants proved by induction over any such run. The events
  are `SetValue` (`setState` with a plain value), `ChangeKey` (the owner
  renders with another key) and `Commit(serialize)` (the effect runs with that
  render's serialiser).
- `scenarios.dfy`, module `Scenarios`: two concrete runs as `Greeting` uses
  the hook. `Quote` and `Unquote` stand in for `JSON.stringify` and
  `JSON.parse` on strings without quotes, backslashes or control characters
  (which `JSON.stringify` would escape).

`Mount` is the render-phase part of mounting (lines 18-28), which writes
nothing. In the program the effect also runs after the mount's own commit and
writes the initial value at once; the scenarios include that commit.
`MountCommitAbsorbed` shows that a run may leave it out without changing the
state after the next commit.

The initialiser tests the stored string for truthiness (line 20), so an empty
stored string also falls back to the default; `Init` models this.
`ReloadAfterCycle` states what it means: a value whose serialised form is `""`
is not recovered by the next mount. `JSON.stringify` of a string, number,
object or array never produces `""`; for its `undefined` result see "Left
out".

## Model

| member | source | states |
|---|---|---|
| Storage.GetItem | src/exercise/02.js:19 | `getItem` answers the stored string exactly when the key is present, and `null` (None) otherwise |
| Storage.SetItem | src/exercise/02.js:43 | `setItem` makes the key hold the item, adds only that key, and leaves every other key's membership and value alone |
| Storage.RemoveItem | src/exercise/02.js:37 | `removeItem` drops the key and nothing else; removing an absent key leaves the store unchanged |
| LocalStorageState.Init | src/exercise/02.js:18-25 | a non-empty stored string yields `deserialize` of it; a missing entry or an empty stored string yields the literal default unchanged, or the factory's result from one call (the choice `Evaluate` makes at line 24) |
| LocalStorageState.Mount | src/exercise/02.js:18-28 | the initialiser and `useRef` leave the store unchanged, start the previous key equal to the mount key, and hold the initialiser's value |
| LocalStorageState.MigrateKey | src/exercise/02.js:33-41 | with a changed key the old key's entry is gone; with the same key the store is untouched; no key other than the previous key changes; afterwards the previous key is the current key |
| LocalStorageState.Persist | src/exercise/02.js:43 | the current key holds `serialize(value)` and no other key changes |
| LocalStorageState.Cycle | src/exercise/02.js:32-44 | after the effect the current key holds `serialize(value)`; a changed previous key is absent, and the later write cannot bring it back; the previous key becomes the current key; key and value are kept; every key outside {previous, current} keeps its membership and value |
| LocalStorageState.CycleSettles | src/exercise/02.js:32-44 | the effect always leaves a settled state, and on a settled state it is the identity |
| LocalStorageState.CycleIdempotent | src/exercise/02.js:36-43 | two cycles with the same key and value give the same result as one; with an unchanged key the store is the old store with only the live key overwritten, so the live key is never removed |
| LocalStorageState.ReloadAfterCycle | src/exercise/02.js:19-43 | a new mount at the key after a cycle yields `deserialize(serialize(value))` when the serialised form is non-empty, and the default when it is empty |
| Lifecycle.Step | src/exercise/02.js:7-46 | `setState` and a key change alter only the binding, never the store or the previous key; a commit runs exactly one cycle |
| Lifecycle.AtMostOneLiveEntry | src/exercise/02.js:33-43 | over any run, of the keys the hook has written, the store holds at most one: the one it recorded as previous key |
| Lifecycle.SettledAfterCommit | src/exercise/02.js:18-44 | after any run from a mount that ends with a commit, the previous key is the current key, the store holds the serialised value there, and that is the only written key still live |
| Lifecycle.KeysStayNamed | src/exercise/02.js:28-41 | the previous and current keys of any run are the starting keys or keys the owner rendered the hook with |
| Lifecycle.OtherKeysUntouched | src/exercise/02.js:36-43 | over any run, a key that is neither a starting key nor one the hook was rendered with keeps its membership and value |
| Lifecycle.NoWriteBeforeCommit | src/exercise/02.js:18-32 | value and key changes without a commit leave the store and the previous key unchanged |
| Lifecycle.CommitFreeBinding | src/exercise/02.js:7-18 | value and key changes without a commit move the binding's key and value the same way from any two states that start with the same key and value |
| Lifecycle.CycleAbsorbsWrite | src/exercise/02.js:36-43 | an earlier write under the previous key does not change the effect's result: it is removed when the key changed and overwritten when it did not |
| Lifecycle.MountCommitAbsorbed | src/exercise/02.js:18-44 | after a mount, the commit that follows the mount itself can be left out of a run: with only value and key changes before the next commit, the state after that commit is the same |
| Lifecycle.SkipWhenDepsUnchanged | src/exercise/02.js:32-44 | after a cycle and commit-free events that leave the key and value as that cycle saw them, running the effect again changes nothing, so skipping it when no dependency changed (line 44) is the same as running it; this presumes nothing else wrote the store and the state was not mutated in place |
| Lifecycle.KeyMigration | src/exercise/02.js:36-43 | a hook whose previous key is its current key (freshly mounted or after any cycle) rendered with a new key and committed holds the value under the new key, has nothing under the old one, and records the new key as previous |
| Scenarios.Quote | src/exercise/02.js:9 | stand-in for `JSON.stringify` on strings without quotes, backslashes or control characters: the string wrapped in double quotes, two characters longer |
| Scenarios.QuoteRoundTrip | src/exercise/02.js:9 | the `JSON.parse` stand-in `Unquote` undoes the `JSON.stringify` stand-in, and a quoted string is never empty, so it is never falsy on reload |
| Scenarios.PersistsAcrossMounts | src/exercise/02.js:18-43 | at key "name" on an empty store the value starts as "" and the mount's own commit stores {"name": "\"\""}; after setting "Kent" and committing, the store is exactly {"name": "\"Kent\""}, and a new mount reads back "Kent" |
| Scenarios.KeyAndValueChangeInOneCycle | src/exercise/02.js:18-43 | with "Kent" persisted at "name", the mount's own commit rewrites the same entry; changing the key to "alias" and the value to "K" before one commit leaves exactly {"alias": "\"K\""} |

## Left out

- `Greeting` and `App` (lines 49-70): JSX rendering and input wiring, with no state of their own. The scenarios use the hook the way `Greeting` does.
- Real `window.localStorage` I/O: the store is a map passed in and returned.
- React scheduling (`useState`, `useRef`, `useEffect` and its dependency array): each effect run is an explicit `Commit` event. The program's first `Commit` follows `Mount` immediately (the effect runs after every mount); runs in the lifecycle lemmas may leave it out, which `MountCommitAbsorbed` justifies. The dependency array's skipping of the effect when nothing changed is not modelled as a skip; `CycleSettles` shows that running it then changes nothing. Re-render timing and the batching of several changes into one commit are not modelled beyond this: events before a commit are applied in order, and the commit's cycle sees only their final state.
- Scenarios.Quote: agrees with `JSON.stringify` only on strings without `"`, `\` or control characters, which `JSON.stringify` escapes; the scenario strings "", "Kent" and "K" are within that limit.
- SkipWhenDepsUnchanged, CycleSettles: the equivalence of skipping and running the effect rests on two assumptions the model does not check. First, nothing but this hook writes the store between cycles; other code, another instance or another tab is not modelled. Second, the state is never mutated in place: React compares dependencies with `Object.is`, so `setState` with the same, mutated object skips the effect although `serialize(state)` changed. The model has values, not references, and cannot express this case.
- AtMostOneLiveEntry, OtherKeysUntouched: these hold for this hook's own writes; other writers of the store are not modelled.
- Non-string serialiser results: `serialize` is assumed to return a string. `JSON.stringify(undefined)` (or of a function) returns `undefined`, which `setItem` converts to the string "undefined"; the next mount then finds a truthy string and `JSON.parse` throws. Neither `setItem`'s string conversion nor that result is modelled.
- The omitted default argument (`defaultValue = ''`, line 8): callers of `Init` always pass a `Default`; omitting it corresponds to passing `Literal("")`, as the scenarios do.
- Unmount: the effect has no cleanup, so unmounting does nothing to the store and needs no model.
- `JSON.stringify` / `JSON.parse`: `serialize` and `deserialize` are abstract function parameters. The code does not promise `deserialize(serialize(v)) == v`, so no round trip is proved.
- Exceptions from `deserialize`, `serialize` or the store (quota errors): the code does not catch them, and the model has no error path for them.
- The functional-update form of `setState` (`setState(prev => ...)`): that is React's behaviour, not this file's. `SetValue` replaces the value.
- Counting calls of a function default: `Init` calls it once in its body, and `State` holds no default, so later events cannot call it again. This "at most once" is structural and has no lemma.
