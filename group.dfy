/**
 * geecache/geecache.go: a named cache group that answers a key from its
 * local cache, else from the peer owning the key, else from its data
 * source, and the process-wide registry of groups. `singleflight.Do(key,
 * fn)` is one call of fn, the locks are not part of this model, and the
 * data source, the peer picker and the network are functions given to the
 * group.
 */
module Groups {
  import opened Wrappers
  import opened Bytes
  import opened Algorithm
  import opened LocalCache
  import opened Peers

  /** `Getter`: the data source misses are loaded from. */
  type Getter = string -> Result<seq<byte>, string>

  /** A `PeerPicker`, as the answers it gives. */
  type PeerPicker = string -> Pick

  /** What `Group.Get` ends in: a value, an error, or a panic. */
  datatype Reply = Value(v: ByteView) | Error(err: string) | Panicked

  /** Where `load` found its answer. */
  datatype Load = FromPeer(b: seq<byte>) | FromGetter(b: seq<byte>) | LoadFailed(err: string) | LoadPanicked

  /** `getLocally` before it caches anything: the data source's bytes or
      its error. */
  function Local(getter: Getter, key: string): Load
  {
    match getter(key)
    case Ok(b) => FromGetter(b)
    case Err(e) => LoadFailed(e)
  }

  /** The decision of `load`: with a picker that picks a peer, ask that peer
      (a nil getter panics), and fall back to the data source when there is
      no picker, it declines, or the peer fails. */
  function Loaded(name: string, peers: Option<PeerPicker>, getter: Getter, escape: Escape, fetch: Fetch, key: string): Load
  {
    if peers.None? then Local(getter, key)
    else match peers.value(key)
      case Declined => Local(getter, key)
      case PickPanicked => LoadPanicked
      case Picked(g) =>
        if g.None? then LoadPanicked
        else match PeerGet(g.value, escape, fetch, name, key)
          case Ok(b) => FromPeer(b)
          case Err(_) => Local(getter, key)
  }

  /** `load` goes to the data source exactly when there is no picker, the
      picker declines, or the picked peer answers with an error. */
  lemma LoadedFallsBack(name: string, peers: Option<PeerPicker>, getter: Getter, escape: Escape, fetch: Fetch, key: string)
    ensures Loaded(name, peers, getter, escape, fetch, key) == Local(getter, key) <==>
      || peers.None?
      || peers.value(key) == Declined
      || (peers.value(key).Picked? && peers.value(key).getter.Some? &&
          PeerGet(peers.value(key).getter.value, escape, fetch, name, key).Err?)
  {
  }

  /** A peer's bytes are the answer exactly when a peer is picked and
      answers; its URL names this group and the key. */
  lemma LoadedFromPeer(name: string, peers: Option<PeerPicker>, getter: Getter, escape: Escape, fetch: Fetch, key: string, b: seq<byte>)
    ensures Loaded(name, peers, getter, escape, fetch, key) == FromPeer(b) <==>
      && peers.Some? && peers.value(key).Picked? && peers.value(key).getter.Some?
      && fetch(Url(peers.value(key).getter.value, escape, name, key)) == Ok(b)
  {
  }

  /** The answer of a group and its cache afterwards. */
  datatype Answer = Answer(reply: Reply, cache: Option<StoreState>)

  /** What `load` and the caching in `getLocally` do after a miss: a peer's
      bytes are returned and not cached; the data source's bytes are cached
      and returned (unless the store panics); errors and panics cache
      nothing. */
  ghost function Finished(st: Option<StoreState>, key: string, load: Load): Answer
    requires st.Some? ==> Good(st.value)
  {
    match load
    case FromPeer(b) => Answer(Value(ByteView(b)), st)
    case LoadFailed(e) => Answer(Error(e), st)
    case LoadPanicked => Answer(Panicked, st)
    case FromGetter(b) =>
      if st.None? then Answer(Value(ByteView(b)), st)
      else
        var r := AfterAdd(st.value, key, ByteView(b));
        Answer(if r.panicked then Panicked else Value(ByteView(b)), Some(r.st))
  }

  /** `Group.Get(key)` on a cache holding st, with `load` what loading the
      key would give: the empty key is refused, a hit is answered from the
      cache, a miss is loaded. */
  ghost function Served(st: Option<StoreState>, key: string, load: Load): Answer
    requires st.Some? ==> Good(st.value)
  {
    if key == "" then Answer(Error("key is required"), st)
    else if st.Some? && Lookup(st.value, key).Some? then
      Answer(Value(Lookup(st.value, key).value), Some(AfterGet(st.value, key)))
    else
      Finished(st, key, load)
  }

  /** The empty key is refused without touching the cache, and whatever
      loading would give. */
  lemma ServedEmptyKey(st: Option<StoreState>, load: Load)
    requires st.Some? ==> Good(st.value)
    ensures Served(st, "", load) == Answer(Error("key is required"), st)
  {
  }

  /** A hit returns the cached value and never loads: the answer is the same
      whatever loading would give. */
  lemma ServedHit(st: Option<StoreState>, key: string, load1: Load, load2: Load)
    requires st.Some? ==> Good(st.value)
    requires key != "" && st.Some? && Lookup(st.value, key).Some?
    ensures Served(st, key, load1) == Served(st, key, load2)
    ensures Served(st, key, load1).reply == Value(Lookup(st.value, key).value)
  {
  }

  /** On a miss, a peer's answer is returned but not cached, and an error
      is returned with nothing cached: the cache is as it was. */
  lemma ServedUncached(st: Option<StoreState>, key: string, load: Load)
    requires st.Some? ==> Good(st.value)
    requires key != "" && (st.Some? ==> Lookup(st.value, key).None?)
    requires !load.FromGetter?
    ensures var a := Served(st, key, load);
      && a.cache == st
      && (load.FromPeer? ==> a.reply == Value(ByteView(load.b)))
      && (load.LoadFailed? ==> a.reply == Error(load.err))
  {
  }

  /** On a miss loaded from the data source, the value returned is the
      source's bytes, and, unless the store panics or (LRU) drops it for
      size, the cache then holds that same value under the key. */
  lemma ServedLoaded(st: Option<StoreState>, key: string, b: seq<byte>)
    requires st.Some? ==> Good(st.value)
    requires key != "" && (st.Some? ==> Lookup(st.value, key).None?)
    ensures var a := Served(st, key, FromGetter(b));
      && (a.reply == Panicked || a.reply == Value(ByteView(b)))
      && (st.Some? && a.reply != Panicked && (st.value.LfuState? || |b| <= st.value.maxBytes) ==>
            a.cache.Some? && Lookup(a.cache.value, key) == Some(ByteView(b)))
  {
    if st.Some? {
      AddThenLookup(st.value, key, ByteView(b));
    }
  }

  /** `ByteView{b: cloneBytes(bytes)}`: a view over a copy of the bytes,
      holding the same bytes. */
  method CopyView(bytes: seq<byte>) returns (v: ByteView)
    ensures v == ByteView(bytes)
  {
    var src := new byte[|bytes|](i requires 0 <= i < |bytes| => bytes[i]);
    var copy := CloneBytes(src);
    v := ByteView(copy[..]);
  }

  class Group {
    const name: string
    const getter: Getter
    const mainCache: Cache
    /** nil until `RegisterPeers`. */
    var peers: Option<PeerPicker>

    ghost predicate Valid()
      reads mainCache.Objs()
    {
      mainCache.Valid()
    }

    /** The group `NewGroup` makes, before it is registered. */
    constructor (name: string, algo: string, getter: Getter, maxBytes: int)
      ensures Valid() && fresh(mainCache) && fresh(mainCache.Objs())
      ensures this.name == name && this.getter == getter && peers.None?
      ensures mainCache.Contents() == Some(Empty(PolicyOf(algo), maxBytes, false))
    {
      this.name, this.getter := name, getter;
      mainCache := new Cache(algo, maxBytes);
      peers := None;
    }

    /** `RegisterPeers(peers)`: only the first call takes effect. */
    method RegisterPeers(p: PeerPicker)
      modifies this
      ensures peers == if old(peers).Some? then old(peers) else Some(p)
    {
      if peers.Some? {
        return;
      }
      peers := Some(p);
    }

    /** `Get(key)`. */
    method Get(key: string, escape: Escape, fetch: Fetch) returns (r: Reply)
      requires Valid()
      modifies mainCache.Objs()
      ensures Valid()
      ensures old(mainCache.Contents()).Some? ==> Good(old(mainCache.Contents()).value)
      ensures Answer(r, mainCache.Contents()) ==
        Served(old(mainCache.Contents()), key, Loaded(name, peers, getter, escape, fetch, key))
    {
      if key == "" {
        return Error("key is required");
      }
      var v, ok := mainCache.Get(key);
      if ok {
        return Value(v);
      }
      if mainCache.Contents().Some? {
        GetMissKeeps(old(mainCache.Contents()).value, key);
      }
      r := Load(key, escape, fetch);
    }

    /** `load(key)`: through the picked peer, else locally. */
    method Load(key: string, escape: Escape, fetch: Fetch) returns (r: Reply)
      requires Valid()
      modifies mainCache.Objs()
      ensures Valid()
      ensures old(mainCache.Contents()).Some? ==> Good(old(mainCache.Contents()).value)
      ensures Answer(r, mainCache.Contents()) ==
        Finished(old(mainCache.Contents()), key, Loaded(name, peers, getter, escape, fetch, key))
    {
      ghost var load := Loaded(name, peers, getter, escape, fetch, key);
      if peers.Some? {
        var pick := peers.value(key);
        match pick
        case PickPanicked =>
          assert load == LoadPanicked;
          return Panicked;
        case Picked(g) =>
          var value, err, panicked := GetFromPeer(g, key, escape, fetch);
          if panicked {
            assert load == LoadPanicked;
            return Panicked;
          }
          if err.None? {
            assert load == FromPeer(value.b);
            return Value(value);
          }
          assert load == Local(getter, key);
        case Declined =>
          assert load == Local(getter, key);
      }
      r := GetLocally(key);
    }

    /** `getFromPeer(peer, key)`: the peer's bytes, not copied. Calling a
        nil getter panics. */
    method GetFromPeer(g: Option<PeerGetter>, key: string, escape: Escape, fetch: Fetch)
      returns (value: ByteView, err: Option<string>, panicked: bool)
      ensures panicked <==> g.None?
      ensures !panicked ==> match PeerGet(g.value, escape, fetch, name, key)
        case Ok(b) => value == ByteView(b) && err.None?
        case Err(e) => value == ByteView([]) && err == Some(e)
    {
      if g.None? {
        return ByteView([]), None, true;
      }
      panicked := false;
      var res := PeerGet(g.value, escape, fetch, name, key);
      match res
      case Ok(b) =>
        value, err := ByteView(b), None;
      case Err(e) =>
        value, err := ByteView([]), Some(e);
    }

    /** `getLocally(key)`: load from the data source, copy the bytes into a
        new view and cache it. */
    method GetLocally(key: string) returns (r: Reply)
      requires Valid()
      modifies mainCache.Objs()
      ensures Valid()
      ensures old(mainCache.Contents()).Some? ==> Good(old(mainCache.Contents()).value)
      ensures Answer(r, mainCache.Contents()) == Finished(old(mainCache.Contents()), key, Local(getter, key))
    {
      var res := getter(key);
      if res.Err? {
        return Error(res.error);
      }
      assert Local(getter, key) == FromGetter(res.value);
      var value := CopyView(res.value);
      var panicked := PopulateCache(key, value);
      r := if panicked then Panicked else Value(value);
    }

    /** `populateCache(key, value)`: add to the local cache. */
    method PopulateCache(key: string, value: ByteView) returns (panicked: bool)
      requires Valid()
      modifies mainCache.Objs()
      ensures Valid()
      ensures old(mainCache.Contents()).None? ==> !panicked && mainCache.Contents().None?
      ensures old(mainCache.Contents()).Some? ==>
        Good(old(mainCache.Contents()).value) &&
        mainCache.Contents() == Some(AfterAdd(old(mainCache.Contents()).value, key, value).st) &&
        panicked == AfterAdd(old(mainCache.Contents()).value, key, value).panicked
    {
      panicked := mainCache.Add(key, value);
    }
  }

  /** The `groups` map, name -> group. */
  class Registry {
    var groups: map<string, Group>

    /** The objects the registered groups' caches live in. */
    ghost function Objs(): set<object>
      reads this
    {
      set n, o | n in groups && o in groups[n].mainCache.Objs() :: o
    }

    /** Every registered group is sound, and no two share a store. */
    ghost predicate Valid()
      reads this, Objs()
    {
      && (forall n | n in groups :: groups[n].Valid())
      && (forall n1, n2 | n1 in groups && n2 in groups && groups[n1] != groups[n2] ::
            groups[n1].mainCache.Objs() !! groups[n2].mainCache.Objs())
    }

    constructor ()
      ensures Valid() && groups == map[]
    {
      groups := map[];
    }

    /** `NewGroup(name, algo, getter, maxBytes)`: a nil getter panics;
        otherwise a new group is registered under its name, replacing any
        group registered there before. */
    method NewGroup(name: string, algo: string, getter: Option<Getter>, maxBytes: int) returns (g: Option<Group>)
      requires Valid()
      modifies this
      ensures Valid()
      ensures getter.None? ==> g.None? && groups == old(groups)
      ensures getter.Some? ==>
        && g.Some? && fresh(g.value) && groups == old(groups)[name := g.value]
        && g.value.name == name && g.value.getter == getter.value && g.value.peers.None?
        && g.value.mainCache.Contents() == Some(Empty(PolicyOf(algo), maxBytes, false))
    {
      if getter.None? {
        return None;
      }
      var group := new Group(name, algo, getter.value, maxBytes);
      ghost var before := groups;
      groups := groups[name := group];
      forall n | n in groups && n != name
        ensures groups[n] == before[n] && groups[n].Valid()
        ensures groups[n] != group && groups[n].mainCache.Objs() !! group.mainCache.Objs()
      {
        assert before[n].Valid();
      }
      g := Some(group);
    }

    /** `GetGroup(name)`: the group registered under the name, or nil. */
    function GetGroup(name: string): (g: Option<Group>)
      reads this
      ensures g.Some? <==> name in groups
      ensures g.Some? ==> g.value == groups[name]
    {
      if name in groups then Some(groups[name]) else None
    }
  }
}
