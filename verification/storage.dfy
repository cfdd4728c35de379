/**
 The browser's synchronous string key-value store (`window.localStorage`),
 modelled as an immutable map that operations take and return. Only the three
 calls the hook makes are modelled: `getItem`, `setItem` and `removeItem`.
 */
module Storage {

  /** Keys and stored items are both strings. */
  type Store = map<string, string>

  /** `getItem` answers a string or `null`; `None` stands for `null`. */
  datatype Option<+T> = None | Some(value: T)

  /** `getItem(key)`: the stored string, or `None` when nothing is stored under `key`. */
  function GetItem(store: Store, key: string): (r: Option<string>)
    ensures r.Some? <==> key in store
    ensures r.Some? ==> r.value == store[key]
  {
    if key in store then Some(store[key]) else None
  }

  /** `setItem(key, item)`: overwrites (or creates) the entry under `key`. */
  function SetItem(store: Store, key: string, item: string): (r: Store)
    ensures key in r && r[key] == item
    ensures r.Keys == store.Keys + {key}
    ensures forall k :: k != key ==> SameAt(store, r, k)
  {
    store[key := item]
  }

  /** `removeItem(key)`: drops the entry under `key`; removing an absent key is a no-op. */
  function RemoveItem(store: Store, key: string): (r: Store)
    ensures key !in r
    ensures r.Keys == store.Keys - {key}
    ensures key !in store ==> r == store
    ensures forall k :: k != key ==> SameAt(store, r, k)
  {
    store - {key}
  }

  /** Two stores agree at `k`: both lack it, or both hold the same string there. */
  predicate SameAt(s: Store, t: Store, k: string) {
    (k in s <==> k in t) && (k in s ==> s[k] == t[k])
  }
}
