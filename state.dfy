/** The view-state cache of app/_utils/state.tsx: one record shared by the
    whole client, keyed by string, and the `usePersistedState` hook that
    starts from the cached value and writes every update back. A value of
    `None` stands for JavaScript's `undefined`. */
module ViewState {
  import opened Strings

  /** What the hook starts from: the cached value unless it is missing or
      `undefined`, otherwise the default (itself possibly `undefined`). */
  function Lookup<V>(entries: map<string, Option<V>>, key: string, default: Option<V>): (r: Option<V>)
    ensures r == default || (key in entries && r == entries[key] && r.Some?)
  {
    if key in entries && entries[key].Some? then entries[key] else default
  }

  /** A key read after it was set gives back the value set. */
  lemma ReadAfterSet<V>(entries: map<string, Option<V>>, key: string, value: V, default: Option<V>)
    ensures Lookup(entries[key := Some(value)], key, default) == Some(value)
  {
  }

  /** Setting one key changes what no other key reads. */
  lemma SetLeavesOthers<V>(entries: map<string, Option<V>>, key: string, value: Option<V>,
                           other: string, default: Option<V>)
    requires other != key
    ensures Lookup(entries[key := value], other, default) == Lookup(entries, other, default)
  {
  }

  /** A key never set, or set to `undefined`, reads as the default. */
  lemma UnsetReadsDefault<V>(entries: map<string, Option<V>>, key: string, default: Option<V>)
    requires key !in entries || entries[key].None?
    ensures Lookup(entries, key, default) == default
  {
  }

  /** The module-level `cache` record. */
  class ViewCache<V> {
    var entries: map<string, Option<V>>

    /** `const cache = {}`. */
    constructor ()
      ensures entries == map[]
    {
      entries := map[];
    }

    /** `cache[key] = newState`. */
    method Store(key: string, value: Option<V>)
      modifies this
      ensures entries == old(entries)[key := value]
    {
      entries := entries[key := value];
    }
  }

  /** One mounted `usePersistedState(key, defaultValue)`. */
  class PersistedState<V> {
    const key: string
    const cache: ViewCache<V>
    var state: Option<V>

    /** Mounting: the lazy initialiser of `useState` reads the cache. */
    constructor (cache: ViewCache<V>, key: string, default: Option<V>)
      ensures this.cache == cache && this.key == key
      ensures state == Lookup(cache.entries, key, default)
    {
      this.cache := cache;
      this.key := key;
      state := Lookup(cache.entries, key, default);
    }

    /** The setter: the cache first, then the component's own state. */
    method Set(newState: Option<V>)
      modifies this, cache
      ensures cache.entries == old(cache.entries)[key := newState]
      ensures state == newState
    {
      cache.Store(key, newState);
      state := newState;
    }
  }

  /** A component that sets its state and is later mounted again, with any
      default, starts from what it set. */
  method Remount<V>(cache: ViewCache<V>, key: string, value: V, default: Option<V>)
    returns (again: PersistedState<V>)
    modifies cache
    ensures again.state == Some(value)
    ensures forall k :: k != key ==> Lookup(cache.entries, k, default) == Lookup(old(cache.entries), k, default)
  {
    var first := new PersistedState(cache, key, default);
    first.Set(Some(value));
    again := new PersistedState(cache, key, default);
  }
}
