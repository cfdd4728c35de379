/**
 The life of one mounted hook as a sequence of events. Between commits the
 owner may replace the value (`setState`) or render with a different key;
 after a commit the effect runs one `Cycle`, with whichever `serialize` that
 render passed. Changes made before a commit are seen by that commit's cycle
 only in their final form, so they produce no intermediate writes.
 */
module Lifecycle {
  import opened Storage
  import opened LocalStorageState

  datatype Event<!V> =
    | SetValue(next: V)
    | ChangeKey(newKey: string)
    | Commit(serialize: V -> string)

  /** One event. A value or key change touches only the binding; a commit runs the effect. */
  function Step<V>(s: State<V>, e: Event<V>): (r: State<V>)
    ensures !e.Commit? ==> r.store == s.store && r.binding.prevKey == s.binding.prevKey
    ensures e.SetValue? ==> r.binding.key == s.binding.key && r.binding.value == e.next
    ensures e.ChangeKey? ==> r.binding.key == e.newKey && r.binding.value == s.binding.value
    ensures e.Commit? ==> r == Cycle(s, e.serialize)
  {
    match e
    case SetValue(v) => s.(binding := s.binding.(value := v))
    case ChangeKey(k) => s.(binding := s.binding.(key := k))
    case Commit(serialize) => Cycle(s, serialize)
  }

  /** The state after a sequence of events, applied left to right. */
  function Run<V>(s: State<V>, events: seq<Event<V>>): (r: State<V>)
    decreases |events|
  {
    if events == [] then s else Run(Step(s, events[0]), events[1..])
  }

  /** The keys this hook writes during `events`: the current key at each commit. */
  function WrittenKeys<V>(s: State<V>, events: seq<Event<V>>): (written: set<string>)
    decreases |events|
  {
    if events == [] then {}
    else (if events[0].Commit? then {s.binding.key} else {})
         + WrittenKeys(Step(s, events[0]), events[1..])
  }

  /** The keys the owner renders the hook with during `events`. */
  function NamedKeys<V>(events: seq<Event<V>>): (named: set<string>)
    ensures forall i :: 0 <= i < |events| && events[i].ChangeKey? ==> events[i].newKey in named
    decreases |events|
  {
    if events == [] then {}
    else (if events[0].ChangeKey? then {events[0].newKey} else {}) + NamedKeys(events[1..])
  }

  lemma {:induction false} RunAppend<V>(s: State<V>, a: seq<Event<V>>, b: seq<Event<V>>)
    ensures Run(s, a + b) == Run(Run(s, a), b)
    decreases |a|
  {
    if a == [] {
      assert a + b == b;
    } else {
      assert (a + b)[0] == a[0];
      assert (a + b)[1..] == a[1..] + b;
      RunAppend(Step(s, a[0]), a[1..], b);
      calc {
        Run(s, a + b);
        Run(Step(s, a[0]), a[1..] + b);
        Run(Run(Step(s, a[0]), a[1..]), b);
        Run(Run(s, a), b);
      }
    }
  }

  /** At most one live entry per hook: of the keys the hook has written, the
      store holds at most the one it last wrote (its previous key). Holds for
      any run from a state where the owned keys already satisfy it. */
  lemma {:induction false} AtMostOneLiveEntry<V>(s: State<V>, owned: set<string>, events: seq<Event<V>>)
    requires owned * s.store.Keys <= {s.binding.prevKey}
    ensures var r := Run(s, events);
            (owned + WrittenKeys(s, events)) * r.store.Keys <= {r.binding.prevKey}
    decreases |events|
  {
    if events != [] {
      var e := events[0];
      var s' := Step(s, e);
      var owned' := owned + (if e.Commit? then {s.binding.key} else {});
      forall k | k in owned' && k != s'.binding.prevKey
        ensures k !in s'.store
      {
        if !e.Commit? {
          assert k in owned && k != s.binding.prevKey;
          assert k !in owned * s.store.Keys;
        } else {
          assert s' == Cycle(s, e.serialize);
          assert k in owned && k != s.binding.key;
          assert SameAt(s.store, s'.store, k) || k == s.binding.prevKey;
          assert k == s.binding.prevKey || k !in owned * s.store.Keys;
        }
      }
      AtMostOneLiveEntry(s', owned', events[1..]);
      assert owned' + WrittenKeys(s', events[1..]) == owned + WrittenKeys(s, events);
    }
  }

  /** The settled-state invariants after any run from a mount that ends with a
      commit: the previous key is the current key, the store holds the
      serialised value there, and it is the only key the hook wrote that is
      still live. */
  lemma SettledAfterCommit<V>(
    store: Store, key: string, default: Default<V>, deserialize: string -> V,
    events: seq<Event<V>>, serialize: V -> string)
    ensures var s := Mount(store, key, default, deserialize);
            var r := Run(s, events + [Commit(serialize)]);
            && r.binding.prevKey == r.binding.key
            && r.binding.key in r.store
            && r.store[r.binding.key] == serialize(r.binding.value)
            && WrittenKeys(s, events + [Commit(serialize)]) * r.store.Keys == {r.binding.key}
  {
    var s := Mount(store, key, default, deserialize);
    var events' := events + [Commit(serialize)];
    var mid := Run(s, events);
    RunAppend(s, events, [Commit(serialize)]);
    assert Run(mid, [Commit(serialize)]) == Cycle(mid, serialize);
    var r := Run(s, events');
    AtMostOneLiveEntry(s, {}, events');
    WrittenAppend(s, events, [Commit(serialize)]);
    assert mid.binding.key in WrittenKeys(mid, [Commit(serialize)]);
  }

  lemma {:induction false} WrittenAppend<V>(s: State<V>, a: seq<Event<V>>, b: seq<Event<V>>)
    ensures WrittenKeys(s, a + b) == WrittenKeys(s, a) + WrittenKeys(Run(s, a), b)
    decreases |a|
  {
    if a == [] {
      assert a + b == b;
    } else {
      assert (a + b)[0] == a[0];
      assert (a + b)[1..] == a[1..] + b;
      WrittenAppend(Step(s, a[0]), a[1..], b);
    }
  }

  /** The keys a run can hold as previous or current key: those it started with
      and those the owner renders it with. */
  lemma {:induction false} KeysStayNamed<V>(s: State<V>, events: seq<Event<V>>)
    ensures var r := Run(s, events);
            var used := {s.binding.prevKey, s.binding.key} + NamedKeys(events);
            r.binding.prevKey in used && r.binding.key in used
    decreases |events|
  {
    if events != [] {
      KeysStayNamed(Step(s, events[0]), events[1..]);
    }
  }

  /** The hook writes only within its own key range: any key that is neither
      its starting previous or current key nor one it is rendered with keeps its
      membership and value through the whole run. */
  lemma {:induction false} OtherKeysUntouched<V>(s: State<V>, events: seq<Event<V>>, k: string)
    requires k != s.binding.prevKey && k != s.binding.key && k !in NamedKeys(events)
    ensures SameAt(s.store, Run(s, events).store, k)
    decreases |events|
  {
    if events != [] {
      var s' := Step(s, events[0]);
      assert SameAt(s.store, s'.store, k);
      OtherKeysUntouched(s', events[1..], k);
    }
  }

  /** Nothing is written between commits: any number of value or key changes
      leave the store and the previous key as they were. */
  lemma {:induction false} NoWriteBeforeCommit<V>(s: State<V>, events: seq<Event<V>>)
    requires forall i :: 0 <= i < |events| ==> !events[i].Commit?
    ensures Run(s, events).store == s.store
    ensures Run(s, events).binding.prevKey == s.binding.prevKey
    decreases |events|
  {
    if events != [] {
      NoWriteBeforeCommit(Step(s, events[0]), events[1..]);
    }
  }

  /** Key migration: a hook whose previous key is its current key (freshly
      mounted, or after any cycle), rendered with another key and committed,
      leaves the value under the new key and nothing under the old. */
  lemma KeyMigration<V>(s: State<V>, newKey: string, serialize: V -> string)
    requires s.binding.prevKey == s.binding.key && newKey != s.binding.key
    ensures var r := Run(s, [ChangeKey(newKey), Commit(serialize)]);
            && s.binding.key !in r.store
            && newKey in r.store && r.store[newKey] == serialize(s.binding.value)
            && r.binding.prevKey == newKey
  {
    var s1 := Step(s, ChangeKey(newKey));
    var events := [ChangeKey(newKey), Commit(serialize)];
    assert events[1..] == [Commit(serialize)];
    assert events[1..][1..] == [];
    assert Run(s, events) == Run(s1, [Commit(serialize)]);
    assert Run(s1, [Commit(serialize)]) == Cycle(s1, serialize);
  }

  /** Commit-free events change only the binding's key and value, and how they
      change them depends on nothing but the starting key and value. */
  lemma {:induction false} CommitFreeBinding<V>(s: State<V>, t: State<V>, events: seq<Event<V>>)
    requires forall i :: 0 <= i < |events| ==> !events[i].Commit?
    requires s.binding.key == t.binding.key && s.binding.value == t.binding.value
    ensures Run(s, events).binding.key == Run(t, events).binding.key
    ensures Run(s, events).binding.value == Run(t, events).binding.value
    decreases |events|
  {
    if events != [] {
      CommitFreeBinding(Step(s, events[0]), Step(t, events[0]), events[1..]);
    }
  }

  /** A cycle over a store that differs only by an earlier write under the
      previous key gives the same result: the earlier write is either removed
      (key changed) or overwritten (key unchanged). */
  lemma CycleAbsorbsWrite<V>(a: State<V>, b: State<V>, item: string, serialize: V -> string)
    requires a.binding == b.binding
    requires a.store == b.store[b.binding.prevKey := item]
    ensures Cycle(a, serialize) == Cycle(b, serialize)
  {
  }

  /** The effect also runs after the mount's own commit, writing the initial
      value. Leaving that first commit out of a run changes nothing once the
      next commit has happened: its write is removed or overwritten there. */
  lemma {:induction false} MountCommitAbsorbed<V>(
    store: Store, key: string, default: Default<V>, deserialize: string -> V,
    first: V -> string, events: seq<Event<V>>, serialize: V -> string)
    requires forall i :: 0 <= i < |events| ==> !events[i].Commit?
    ensures var s := Mount(store, key, default, deserialize);
            Run(s, [Commit(first)] + events + [Commit(serialize)]) == Run(s, events + [Commit(serialize)])
  {
    var s := Mount(store, key, default, deserialize);
    var c := Cycle(s, first);
    assert ([Commit(first)] + events + [Commit(serialize)])[0] == Commit(first);
    assert ([Commit(first)] + events + [Commit(serialize)])[1..] == events + [Commit(serialize)];
    assert Run(s, [Commit(first)] + events + [Commit(serialize)]) == Run(c, events + [Commit(serialize)]);
    RunAppend(c, events, [Commit(serialize)]);
    RunAppend(s, events, [Commit(serialize)]);
    var a := Run(c, events);
    var b := Run(s, events);
    NoWriteBeforeCommit(c, events);
    NoWriteBeforeCommit(s, events);
    CommitFreeBinding(c, s, events);
    assert a.binding == b.binding;
    assert c.store == s.store[key := first(s.binding.value)] by {
      CycleIdempotent(s, first);
    }
    CycleAbsorbsWrite(a, b, first(s.binding.value), serialize);
    assert Run(a, [Commit(serialize)]) == Cycle(a, serialize);
    assert Run(b, [Commit(serialize)]) == Cycle(b, serialize);
  }

  /** Skipping the effect when none of its dependencies changed: after a cycle
      and commit-free events that bring the key and value back to what that
      cycle saw, running the effect again changes nothing. */
  lemma SkipWhenDepsUnchanged<V>(s: State<V>, serialize: V -> string, events: seq<Event<V>>)
    requires forall i :: 0 <= i < |events| ==> !events[i].Commit?
    ensures var c := Cycle(s, serialize);
            var m := Run(c, events);
            m.binding.key == c.binding.key && m.binding.value == c.binding.value ==>
              Cycle(m, serialize) == m
  {
    var c := Cycle(s, serialize);
    var m := Run(c, events);
    NoWriteBeforeCommit(c, events);
    CycleSettles(s, serialize);
    CycleSettles(m, serialize);
  }
}
