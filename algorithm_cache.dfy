/**
 * geecache/algorithm/cache.go: the `Cache` interface both eviction stores
 * implement, and the `NewCache` factory that picks one by name.
 */
module Algorithm {
  import opened Wrappers
  import opened Bytes
  import Lru
  import Lfu

  /** The two eviction policies. */
  datatype Policy = LruPolicy | LfuPolicy

  /** The switch of `NewCache`: "LFU" picks the LFU store, "LRU" and every
      other name the LRU store. */
  function PolicyOf(algo: string): (p: Policy)
    ensures p == LfuPolicy <==> algo == "LFU"
    ensures algo == "LRU" ==> p == LruPolicy
  {
    if algo == "LRU" then LruPolicy
    else if algo == "LFU" then LfuPolicy
    else LruPolicy
  }

  /** What a store holds, with the `maxBytes` and callback it was made with. */
  datatype StoreState =
    | LruState(lru: Lru.Snapshot, maxBytes: int, notify: bool)
    | LfuState(lfu: Lfu.Snapshot, maxBytes: int, notify: bool)


  /** The structural invariant of whichever store it is. */
  ghost predicate Good(st: StoreState)
  {
    match st
    case LruState(s, _, _) => Lru.Good(s)
    case LfuState(s, _, _) => Lfu.Indexed(s.mFre, s.mKey)
  }

  /** A store just made: nothing stored, nothing counted, nothing evicted. */
  function Empty(p: Policy, maxBytes: int, notify: bool): StoreState
  {
    if p == LruPolicy then LruState(Lru.Snapshot([], map[], 0, []), maxBytes, notify)
    else LfuState(Lfu.Snapshot(map[], map[], 0, 0, []), maxBytes, notify)
  }

  /** The value a store holds for key, if any. */
  ghost function Lookup(st: StoreState, key: string): Option<ByteView>
  {
    match st
    case LruState(s, _, _) => if key in s.m then Some(s.m[key].value) else None
    case LfuState(s, _, _) => if key in s.mKey then Some(s.mKey[key].value) else None
  }

  /** The store after `Get(key)`. */
  ghost function AfterGet(st: StoreState, key: string): StoreState
    requires Good(st)
  {
    match st
    case LruState(s, maxBytes, notify) => LruState(Lru.Touched(s, key), maxBytes, notify)
    case LfuState(s, maxBytes, notify) =>
      Lfu.TouchedIndexed(s, key);
      LfuState(Lfu.Touched(s, key), maxBytes, notify)
  }

  /** What `Add` ends in: whether it panicked, and the new store. */
  datatype Stored = Stored(panicked: bool, st: StoreState)

  /** The store after `Add(key, value)`. */
  ghost function AfterAdd(st: StoreState, key: string, value: ByteView): Stored
    requires Good(st)
  {
    match st
    case LruState(s, maxBytes, notify) =>
      var o := Lru.Added(s, notify, maxBytes, key, value);
      Stored(o.panicked, LruState(o.s, maxBytes, notify))
    case LfuState(s, maxBytes, notify) =>
      Lfu.AddedIndexed(s, notify, maxBytes, key, value);
      var o := Lfu.Added(s, notify, maxBytes, key, value);
      Stored(o.panicked, LfuState(o.s, maxBytes, notify))
  }

  /** `Get` changes no key's value: it only reorders (and, for LFU, counts
      a use). */
  lemma GetKeepsLookups(st: StoreState, key: string, k: string)
    requires Good(st)
    ensures Lookup(AfterGet(st, key), k) == Lookup(st, k)
    ensures Good(AfterGet(st, key))
  {
    match st
    case LruState(s, _, _) =>
      Lru.TouchedGood(s, key);
    case LfuState(s, _, _) =>
      Lfu.TouchedIndexed(s, key);
      if key in s.mKey {
        Lfu.TouchedHit(s, key);
      }
  }

  /** A `Get` that misses changes nothing. */
  lemma GetMissKeeps(st: StoreState, key: string)
    requires Good(st) && Lookup(st, key).None?
    ensures AfterGet(st, key) == st
  {
  }

  /** An `Add` that neither panics nor is dropped for size leaves the key
      holding the new value, whichever the store; the LRU store drops a
      value larger than maxBytes and leaves the store as it was. */
  lemma AddThenLookup(st: StoreState, key: string, value: ByteView)
    requires Good(st)
    ensures var r := AfterAdd(st, key, value);
      && Good(r.st)
      && (st.LruState? && value.Len() > st.maxBytes ==> !r.panicked && r.st == st)
      && (!r.panicked && (st.LfuState? || value.Len() <= st.maxBytes) ==> Lookup(r.st, key) == Some(value))
  {
    match st
    case LruState(s, maxBytes, notify) =>
      Lru.AddedGood(s, notify, maxBytes, key, value);
    case LfuState(s, maxBytes, notify) =>
      Lfu.AddedIndexed(s, notify, maxBytes, key, value);
      if key in s.mKey {
        Lfu.AddedExistingKey(s, notify, maxBytes, key, value);
      } else {
        Lfu.AddedNewKey(s, notify, maxBytes, key, value);
      }
  }

  /** The `Cache` interface: a store of either kind. */
  datatype Store = LruStore(lru: Lru.LRUCache) | LfuStore(lfu: Lfu.LFUCache)
  {
    /** The object the store's state lives in. */
    function Obj(): object
    {
      if LruStore? then lru else lfu
    }

    ghost function State(): StoreState
      reads Obj()
    {
      match this
      case LruStore(c) => LruState(c.State(), c.maxBytes, c.notify)
      case LfuStore(c) => LfuState(c.State(), c.maxBytes, c.notify)
    }

    ghost predicate Valid()
      reads Obj()
    {
      match this
      case LruStore(c) => c.Valid()
      case LfuStore(c) => c.Valid()
    }

    /** `Cache.Get`: the value the key holds, if any. */
    method Get(key: string) returns (v: Option<ByteView>)
      requires Valid()
      modifies Obj()
      ensures Valid() && Good(old(State()))
      ensures v == Lookup(old(State()), key)
      ensures State() == AfterGet(old(State()), key)
    {
      match this
      case LruStore(c) =>
        v := c.Get(key);
      case LfuStore(c) =>
        v := c.Get(key);
    }

    /** `Cache.Add`. */
    method Add(key: string, value: ByteView) returns (panicked: bool)
      requires Valid()
      modifies Obj()
      ensures Valid() && Good(old(State()))
      ensures AfterAdd(old(State()), key, value) == Stored(panicked, State())
    {
      match this
      case LruStore(c) =>
        panicked := c.Add(key, value);
      case LfuStore(c) =>
        panicked := c.Add(key, value);
    }
  }

  /** `NewCache(algo, maxBytes, onEvicted)`: a new, empty store of the
      policy the name picks, made with maxBytes and the callback as given. */
  method NewCache(algo: string, maxBytes: int, notify: bool) returns (store: Store)
    ensures fresh(store.Obj()) && store.Valid()
    ensures store.State() == Empty(PolicyOf(algo), maxBytes, notify)
  {
    if algo == "LRU" {
      var c := new Lru.LRUCache(maxBytes, notify);
      store := LruStore(c);
    } else if algo == "LFU" {
      var c := new Lfu.LFUCache(maxBytes, notify);
      store := LfuStore(c);
    } else {
      var c := new Lru.LRUCache(maxBytes, notify);
      store := LruStore(c);
    }
  }
}
