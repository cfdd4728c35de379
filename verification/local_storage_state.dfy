/**
 The `useLocalStorageState` hook: a value kept in sync with the store under a
 key that may change between renders, with pluggable (de)serialisers.

 The hook has two parts. The lazy initialiser runs once, at mount, and only
 reads the store. The synchronisation cycle (the effect) runs after a commit:
 it evicts the entry under the previous key when the key changed, records the
 current key as the previous one, and writes the serialised value under the
 current key.
 */
module LocalStorageState {
  import opened Storage

  /** The default value: a plain value, or a zero-argument producer called lazily. */
  datatype Default<V> = Literal(v: V) | Factory(make: () -> V)

  /** What the hook remembers between renders: the key seen by the last cycle
      (`prevKeyRef.current`), the key of the current render, and the state value. */
  datatype Binding<V> = Binding(prevKey: string, key: string, value: V)

  /** The store together with one hook's binding. */
  datatype State<V> = State(store: Store, binding: Binding<V>)

  /** JavaScript truthiness of `getItem`'s answer: `null` and `""` are both falsy. */
  predicate Truthy(item: Option<string>) {
    item.Some? && item.value != ""
  }

  /** The default's value: a literal as given, a factory called exactly once. */
  function Evaluate<V>(default: Default<V>): (r: V)
    ensures default.Literal? ==> r == default.v
    ensures default.Factory? ==> r == default.make()
  {
    match default
    case Literal(v) => v
    case Factory(make) => make()
  }

  /** The lazy initialiser. A non-empty stored string is deserialised; a missing
      entry and an empty stored string both fall back to the default. */
  function Init<V>(store: Store, key: string, default: Default<V>, deserialize: string -> V): (r: V)
    ensures key in store && store[key] != "" ==> r == deserialize(store[key])
    ensures (key !in store || store[key] == "") && default.Literal? ==> r == default.v
    ensures (key !in store || store[key] == "") && default.Factory? ==> r == default.make()
  {
    var item := GetItem(store, key);
    if Truthy(item) then deserialize(item.value) else Evaluate(default)
  }

  /** Mounting the hook: the initial value comes from `Init`, the store is left
      as it was, and the previous key starts equal to the mount key. */
  function Mount<V>(store: Store, key: string, default: Default<V>, deserialize: string -> V): (s: State<V>)
    ensures s.store == store
    ensures s.binding.prevKey == key && s.binding.key == key
    ensures key in store && store[key] != "" ==> s.binding.value == deserialize(store[key])
    ensures (key !in store || store[key] == "") && default.Literal? ==> s.binding.value == default.v
    ensures (key !in store || store[key] == "") && default.Factory? ==> s.binding.value == default.make()
  {
    State(store, Binding(key, key, Init(store, key, default, deserialize)))
  }

  /** First half of the cycle: evict the entry under a stale previous key, then
      record the current key as the previous one. */
  function MigrateKey<V>(store: Store, b: Binding<V>): (s: State<V>)
    ensures s.binding.prevKey == b.key && s.binding.key == b.key && s.binding.value == b.value
    ensures b.prevKey != b.key ==> b.prevKey !in s.store
    ensures b.prevKey == b.key ==> s.store == store
    ensures forall k :: k != b.prevKey ==> SameAt(store, s.store, k)
  {
    var store' := if b.prevKey != b.key then RemoveItem(store, b.prevKey) else store;
    State(store', b.(prevKey := b.key))
  }

  /** Second half of the cycle: write the serialised value under the current key. */
  function Persist<V>(store: Store, b: Binding<V>, serialize: V -> string): (r: Store)
    ensures b.key in r && r[b.key] == serialize(b.value)
    ensures forall k :: k != b.key ==> SameAt(store, r, k)
  {
    SetItem(store, b.key, serialize(b.value))
  }

  /** One run of the effect: key migration, then persistence, in that order. */
  function Cycle<V>(s: State<V>, serialize: V -> string): (r: State<V>)
    ensures r.binding.prevKey == s.binding.key
    ensures r.binding.key == s.binding.key && r.binding.value == s.binding.value
    ensures s.binding.key in r.store && r.store[s.binding.key] == serialize(s.binding.value)
    ensures s.binding.prevKey != s.binding.key ==> s.binding.prevKey !in r.store
    ensures forall k :: k != s.binding.prevKey && k != s.binding.key ==> SameAt(s.store, r.store, k)
  {
    var m := MigrateKey(s.store, s.binding);
    State(Persist(m.store, m.binding, serialize), m.binding)
  }

  /** A state the effect has nothing left to do for: the previous key is the
      current one and the store already holds the serialised value under it. */
  predicate Settled<V>(s: State<V>, serialize: V -> string) {
    && s.binding.prevKey == s.binding.key
    && s.binding.key in s.store
    && s.store[s.binding.key] == serialize(s.binding.value)
  }

  /** A cycle always ends settled, and on a settled state it changes nothing:
      so skipping the effect when none of its dependencies changed, and running
      it again, are indistinguishable. */
  lemma CycleSettles<V>(s: State<V>, serialize: V -> string)
    ensures Settled(Cycle(s, serialize), serialize)
    ensures Settled(s, serialize) ==> Cycle(s, serialize) == s
  {
  }

  /** Running the cycle twice with the same key and value gives the same store
      as running it once; with an unchanged key the live key is never removed
      and only it is written. */
  lemma CycleIdempotent<V>(s: State<V>, serialize: V -> string)
    ensures Cycle(Cycle(s, serialize), serialize) == Cycle(s, serialize)
    ensures s.binding.prevKey == s.binding.key ==>
              Cycle(s, serialize).store == s.store[s.binding.key := serialize(s.binding.value)]
  {
  }

  /** What a fresh mount reads back after a cycle: the deserialised form of the
      written string, unless that string is empty, in which case the default. */
  lemma ReloadAfterCycle<V>(s: State<V>, serialize: V -> string, default: Default<V>, deserialize: string -> V)
    ensures var r := Cycle(s, serialize);
            var reloaded := Mount(r.store, r.binding.key, default, deserialize);
            && reloaded.binding.key == s.binding.key
            && (serialize(s.binding.value) != "" ==>
                  reloaded.binding.value == deserialize(serialize(s.binding.value)))
            && (serialize(s.binding.value) == "" ==> reloaded.binding.value == Evaluate(default))
  {
  }
}
