/**
 * geecache/cache.go: the group's local cache, a wrapper that forwards to
 * an eviction store made without an eviction callback. Its mutex is not
 * part of this model: every call is one atomic step.
 */
module LocalCache {
  import opened Wrappers
  import opened Bytes
  import opened Algorithm

  class Cache {
    /** The store; nil in a zero `cache`, which `newCache` never makes. */
    const store: Option<Store>
    const cacheBytes: int

    /** The objects the store's state lives in. */
    function Objs(): set<object>
    {
      if store.Some? then {store.value.Obj()} else {}
    }

    ghost predicate Valid()
      reads Objs()
    {
      store.Some? ==> store.value.Valid()
    }

    /** What the store holds, if there is one. */
    ghost function Contents(): Option<StoreState>
      reads Objs()
    {
      if store.Some? then Some(store.value.State()) else None
    }

    /** `newCache(algo, maxBytes)`: a store of the policy `algo` names, made
        with maxBytes and no eviction callback. */
    constructor (algo: string, maxBytes: int)
      ensures Valid() && store.Some? && fresh(store.value.Obj())
      ensures cacheBytes == maxBytes
      ensures Contents() == Some(Empty(PolicyOf(algo), maxBytes, false))
    {
      var s := NewCache(algo, maxBytes, false);
      cacheBytes, store := maxBytes, Some(s);
    }

    /** `add(key, value)`: forwarded to the store when there is one. */
    method Add(key: string, value: ByteView) returns (panicked: bool)
      requires Valid()
      modifies Objs()
      ensures Valid()
      ensures old(Contents()).None? ==> !panicked && Contents().None?
      ensures old(Contents()).Some? ==>
        Good(old(Contents()).value) &&
        Contents() == Some(AfterAdd(old(Contents()).value, key, value).st) &&
        panicked == AfterAdd(old(Contents()).value, key, value).panicked
    {
      panicked := false;
      if store.Some? {
        panicked := store.value.Add(key, value);
      }
    }

    /** `get(key)`: the stored value and true on a hit; the empty view and
        false on a miss or without a store. */
    method Get(key: string) returns (value: ByteView, ok: bool)
      requires Valid()
      modifies Objs()
      ensures Valid()
      ensures old(Contents()).None? ==> !ok && value == ByteView([]) && Contents().None?
      ensures old(Contents()).Some? ==>
        && Good(old(Contents()).value)
        && (ok <==> Lookup(old(Contents()).value, key).Some?)
        && (ok ==> value == Lookup(old(Contents()).value, key).value)
        && (!ok ==> value == ByteView([]))
        && Contents() == Some(AfterGet(old(Contents()).value, key))
    {
      value, ok := ByteView([]), false;
      if store.Some? {
        var v := store.value.Get(key);
        if v.Some? {
          value, ok := v.value, true;
        }
      }
    }
  }
}
