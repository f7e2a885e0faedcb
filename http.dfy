/**
 * geecache/http.go: `HttpPool`, which owns the ring of peers and a getter
 * per peer, picks the peer that owns a key, and serves
 * `<basePath><group>/<key>` requests out of the registered groups.
 * Logging and the pool's lock are not part of this model; the HTTP request
 * is its URL path and the response its status, message or body.
 */
module Http {
  import opened Wrappers
  import opened Bytes
  import opened ConsistentHash
  import opened Peers
  import opened Groups

  const DefaultBasePath: string := "/geecache/"
  const DefaultReplicas: int := 50

  const StatusBadRequest: int := 400
  const StatusNotFound: int := 404
  const StatusInternalServerError: int := 500

  /** `strings.Split(s, "/")`: the pieces between the slashes, in order;
      "" splits into [""]. */
  function Split(s: string): (parts: seq<string>)
    ensures parts != []
  {
    if s == [] then [""]
    else
      var t := Split(s[1..]);
      if s[0] == '/' then [""] + t else [[s[0]] + t[0]] + t[1..]
  }

  /** `strings.Join(parts, "/")`. */
  function Join(parts: seq<string>): string
    requires parts != []
  {
    if |parts| == 1 then parts[0] else parts[0] + "/" + Join(parts[1..])
  }

  predicate NoSlash(s: string)
  {
    '/' !in s
  }

  /** Splitting loses nothing: joining the pieces gives the string back. */
  lemma {:induction false} JoinSplit(s: string)
    ensures Join(Split(s)) == s
  {
    if s != [] {
      var t := Split(s[1..]);
      JoinSplit(s[1..]);
      assert s == [s[0]] + s[1..];
      var p := Split(s);
      if s[0] != '/' {
        assert p[0] == [s[0]] + t[0];
        if |t| > 1 {
          assert p[1..] == t[1..];
          assert Join(t) == t[0] + "/" + Join(t[1..]);
        }
      } else {
        assert p[1..] == t;
      }
    }
  }

  /** No piece of a split holds a slash. */
  lemma {:induction false} SplitPieces(s: string)
    ensures forall i :: 0 <= i < |Split(s)| ==> NoSlash(Split(s)[i])
  {
    if s != [] {
      var t := Split(s[1..]);
      SplitPieces(s[1..]);
      var p := Split(s);
      forall i | 0 <= i < |p| ensures NoSlash(p[i]) {
        if i > 0 {
          assert p[i] == if s[0] == '/' then t[i - 1] else t[i];
        }
      }
    }
  }

  /** A piece without a slash, then a slash: the piece is split off first. */
  lemma {:induction false} SplitAppend(a: string, r: string)
    requires NoSlash(a)
    ensures Split(a + "/" + r) == [a] + Split(r)
  {
    if a == [] {
      assert a + "/" + r == ['/'] + r;
      assert (['/'] + r)[1..] == r;
    } else {
      var s := a + "/" + r;
      assert s[0] == a[0] && s[1..] == a[1..] + "/" + r;
      SplitAppend(a[1..], r);
      assert [a[0]] + a[1..] == a;
    }
  }

  /** A string without a slash is one piece. */
  lemma {:induction false} SplitNoSlash(a: string)
    requires NoSlash(a)
    ensures Split(a) == [a]
  {
    if a != [] {
      SplitNoSlash(a[1..]);
      assert [a[0]] + a[1..] == a;
    }
  }

  /** Splitting undoes joining pieces that hold no slash. */
  lemma {:induction false} SplitJoin(parts: seq<string>)
    requires parts != []
    requires forall i :: 0 <= i < |parts| ==> NoSlash(parts[i])
    ensures Split(Join(parts)) == parts
  {
    if |parts| == 1 {
      SplitNoSlash(parts[0]);
    } else {
      SplitJoin(parts[1..]);
      SplitAppend(parts[0], Join(parts[1..]));
      assert [parts[0]] + parts[1..] == parts;
    }
  }

  /** How `ServeHTTP` reads a path: outside the base path, malformed, or a
      group name and a key. */
  datatype Route = Unexpected | BadRequest | Request(group: string, key: string)

  function RouteOf(basePath: string, path: string): Route
  {
    if !(basePath <= path) then Unexpected
    else
      var parts := Split(path[|basePath|..]);
      if |parts| != 2 then BadRequest else Request(parts[0], parts[1])
  }

  /** A path routes to a group and key exactly when it is the base path,
      the group name, "/" and the key, neither of which holds a slash. */
  lemma RouteIff(basePath: string, path: string, group: string, key: string)
    ensures RouteOf(basePath, path) == Request(group, key) <==>
      path == basePath + group + "/" + key && NoSlash(group) && NoSlash(key)
  {
    if RouteOf(basePath, path) == Request(group, key) {
      var rest := path[|basePath|..];
      JoinSplit(rest);
      SplitPieces(rest);
      assert Split(rest) == [group, key];
      assert Join([group, key]) == group + "/" + key;
      assert path == basePath + rest;
      assert NoSlash(Split(rest)[0]) && NoSlash(Split(rest)[1]);
    }
    if path == basePath + group + "/" + key && NoSlash(group) && NoSlash(key) {
      assert basePath <= path;
      assert path[|basePath|..] == group + "/" + key;
      SplitAppend(group, key);
      SplitNoSlash(key);
    }
  }

  /** The peer `PickPeer(key)` answers with: none on an empty ring (the
      lookup panics), else the key's owner unless it is empty or this
      server itself, with the owner's getter, nil when there is none. */
  function PickFor(keys: seq<int>, hashMap: map<int, string>, hash: Hash, selfHost: string,
                   getters: map<string, PeerGetter>, key: string): Pick
  {
    if keys == [] then PickPanicked
    else
      var ip := Owner(keys, hashMap, hash(ToBytes(key)) as int);
      if ip != "" && ip != selfHost then Picked(if ip in getters then Some(getters[ip]) else None)
      else Declined
  }

  /** A pool never picks itself (which would loop a request back to the
      server asking): it picks exactly when the key's owner is a peer other
      than this server, and hands out the getter registered for it. */
  lemma PickNeverSelf(keys: seq<int>, hashMap: map<int, string>, hash: Hash, selfHost: string,
                      getters: map<string, PeerGetter>, key: string)
    requires keys != []
    ensures var ip, p := Owner(keys, hashMap, hash(ToBytes(key)) as int),
                         PickFor(keys, hashMap, hash, selfHost, getters, key);
      && (p.Picked? <==> ip != "" && ip != selfHost)
      && !p.PickPanicked?
      && (p.Picked? ==> (p.getter.Some? <==> ip in getters) && (ip in getters ==> p.getter.value == getters[ip]))
  {
  }

  /** The getters `Register(urls...)` makes: one per address, with the
      base path appended. */
  function GettersFor(urls: seq<string>, basePath: string): map<string, PeerGetter>
  {
    if urls == [] then map[]
    else GettersFor(urls[..|urls| - 1], basePath)[urls[|urls| - 1] := HttpGetter(urls[|urls| - 1] + basePath)]
  }

  /** Exactly the registered addresses have getters, and each getter asks
      its own address under the base path. */
  lemma {:induction false} GettersForExactly(urls: seq<string>, basePath: string, p: string)
    ensures p in GettersFor(urls, basePath) <==> p in urls
    ensures p in urls ==> GettersFor(urls, basePath)[p] == HttpGetter(p + basePath)
  {
    if urls != [] {
      var init := urls[..|urls| - 1];
      GettersForExactly(init, basePath, p);
      assert urls == init + [urls[|urls| - 1]];
    }
  }

  /** After `Register(urls...)`, a picked owner gets its getter when it was
      among the urls of that last call, and a nil one when it joined the
      ring in an earlier call only (the ring keeps earlier peers, the
      getter map does not). */
  lemma PickAfterRegister(keys: seq<int>, hashMap: map<int, string>, hash: Hash, selfHost: string,
                          urls: seq<string>, basePath: string, key: string)
    requires keys != []
    ensures var ip := Owner(keys, hashMap, hash(ToBytes(key)) as int);
      ip != "" && ip != selfHost ==>
        PickFor(keys, hashMap, hash, selfHost, GettersFor(urls, basePath), key) ==
          Picked(if ip in urls then Some(HttpGetter(ip + basePath)) else None)
  {
    GettersForExactly(urls, basePath, Owner(keys, hashMap, hash(ToBytes(key)) as int));
  }

  /** The request a peer's getter sends for (group, key) is the peer's
      address followed by a path that routes, at a pool with the same base
      path, to the escaped group and key (when the escaping leaves no
      slash; turning the escapes back is not part of this model). */
  lemma UrlRoutes(peer: string, basePath: string, escape: Escape, group: string, key: string)
    ensures Url(HttpGetter(peer + basePath), escape, group, key) == peer + (basePath + escape(group) + "/" + escape(key))
    ensures NoSlash(escape(group)) && NoSlash(escape(key)) ==>
      RouteOf(basePath, basePath + escape(group) + "/" + escape(key)) == Request(escape(group), escape(key))
  {
    RouteIff(basePath, basePath + escape(group) + "/" + escape(key), escape(group), escape(key));
  }

  /** What `ServeHTTP` writes for the reply of `group.Get`: the bytes as an
      octet stream, a 500 with the error's text, or, when the group
      panicked, nothing (the server aborts the request). */
  datatype Response = Aborted | Failure(status: int, msg: string) | Success(contentType: string, body: seq<byte>)

  function Respond(reply: Reply): (resp: Response)
    ensures reply.Value? <==> resp.Success?
    ensures reply.Value? ==> resp.body == reply.v.b && resp.contentType == "application/octet-stream"
    ensures reply.Error? <==> resp.Failure?
    ensures reply.Error? ==> resp == Failure(StatusInternalServerError, reply.err)
    ensures reply.Panicked? <==> resp.Aborted?
  {
    match reply
    case Value(v) => Success("application/octet-stream", v.b)
    case Error(e) => Failure(StatusInternalServerError, e)
    case Panicked => Aborted
  }

  class HttpPool {
    const selfHost: string
    const basePath: string
    const peer: Map
    var httpGetters: map<string, PeerGetter>

    ghost predicate Valid()
      reads peer
    {
      peer.Valid()
    }

    /** `NewHttpPool(selfUrl)`: the default base path and an empty ring of
        50 virtual nodes per peer, hashed with CRC-32. */
    constructor (selfUrl: string)
      ensures Valid() && fresh(peer)
      ensures selfHost == selfUrl && basePath == DefaultBasePath
      ensures peer.replicas == DefaultReplicas && peer.hash == Crc32
      ensures peer.keys == [] && peer.hashMap == map[] && httpGetters == map[]
    {
      selfHost, basePath := selfUrl, DefaultBasePath;
      peer := new Map(DefaultReplicas, None);
      httpGetters := map[];
    }

    /** `Register(urls...)`: the peers join the ring (which keeps the
        peers of earlier calls), and the getters are replaced by one per
        peer of this call. */
    method Register(urls: seq<string>)
      requires Valid()
      modifies this, peer
      ensures Valid()
      ensures multiset(peer.keys) == multiset(old(peer.keys) + Virtuals(peer.hash, peer.replicas, urls))
      ensures peer.hashMap == Placed(old(peer.hashMap), peer.hash, peer.replicas, urls)
      ensures httpGetters == GettersFor(urls, basePath)
    {
      peer.Add(urls);
      httpGetters := NewGetters(urls);
    }

    /** The loop of `Register` that makes a getter per address. */
    method NewGetters(urls: seq<string>) returns (getters: map<string, PeerGetter>)
      ensures getters == GettersFor(urls, basePath)
    {
      getters := map[];
      for i := 0 to |urls|
        invariant getters == GettersFor(urls[..i], basePath)
      {
        assert urls[..i + 1][..i] == urls[..i];
        getters := getters[urls[i] := HttpGetter(urls[i] + basePath)];
      }
      assert urls[..|urls|] == urls;
    }

    /** `PickPeer(key)`. */
    method PickPeer(key: string) returns (p: Pick)
      ensures p == PickFor(peer.keys, peer.hashMap, peer.hash, selfHost, httpGetters, key)
    {
      var ip, panicked := peer.Get(key);
      if panicked {
        return PickPanicked;
      }
      if ip != "" && ip != selfHost {
        return Picked(if ip in httpGetters then Some(httpGetters[ip]) else None);
      }
      return Declined;
    }

    /** `ServeHTTP(w, r)` for a request with URL path `path`: a path
        outside the base path aborts, one that is not `<group>/<key>` is a
        400, an unknown group a 404, and otherwise the group answers the
        key as `Group.Get` does, and no other group's cache changes. */
    method ServeHTTP(registry: Registry, path: string, escape: Escape, fetch: Fetch) returns (resp: Response)
      requires registry.Valid()
      modifies registry.Objs()
      ensures registry.Valid() && registry.groups == old(registry.groups)
      ensures RouteOf(basePath, path).Unexpected? ==> resp == Aborted
      ensures RouteOf(basePath, path).BadRequest? ==> resp == Failure(StatusBadRequest, "bad request")
      ensures RouteOf(basePath, path).Request? && RouteOf(basePath, path).group !in registry.groups ==>
        resp == Failure(StatusNotFound, "no such group: " + RouteOf(basePath, path).group)
      ensures RouteOf(basePath, path).Request? && RouteOf(basePath, path).group in registry.groups ==>
        var g, key := registry.groups[RouteOf(basePath, path).group], RouteOf(basePath, path).key;
        && (old(g.mainCache.Contents()).Some? ==> Algorithm.Good(old(g.mainCache.Contents()).value))
        && var a := Served(old(g.mainCache.Contents()), key, Loaded(g.name, g.peers, g.getter, escape, fetch, key));
        && resp == Respond(a.reply)
        && g.mainCache.Contents() == a.cache
      ensures forall n | n in registry.groups &&
          !(RouteOf(basePath, path).Request? && RouteOf(basePath, path).group in registry.groups &&
            registry.groups[n] == registry.groups[RouteOf(basePath, path).group]) ::
        registry.groups[n].mainCache.Contents() == old(registry.groups[n].mainCache.Contents())
    {
      if !(basePath <= path) {
        return Aborted;
      }
      var parts := Split(path[|basePath|..]);
      if |parts| != 2 {
        return Failure(StatusBadRequest, "bad request");
      }
      var groupName, key := parts[0], parts[1];
      assert RouteOf(basePath, path) == Request(groupName, key);
      var group := registry.GetGroup(groupName);
      if group.None? {
        return Failure(StatusNotFound, "no such group: " + groupName);
      }
      var g := group.value;
      var reply := Serve(registry, g, key, escape, fetch);
      assert registry.groups[groupName] == g;
      // The body written is `view.ByteSlice()`, a copy of the view's bytes.
      resp := Respond(reply);
    }

    /** `group.Get(key)` for a registered group, which leaves the other
        groups' caches alone. */
    method Serve(registry: Registry, g: Group, key: string, escape: Escape, fetch: Fetch) returns (reply: Reply)
      requires registry.Valid() && exists n :: n in registry.groups && registry.groups[n] == g
      modifies registry.Objs()
      ensures registry.Valid() && registry.groups == old(registry.groups)
      ensures old(g.mainCache.Contents()).Some? ==> Algorithm.Good(old(g.mainCache.Contents()).value)
      ensures Answer(reply, g.mainCache.Contents()) ==
        Served(old(g.mainCache.Contents()), key, Loaded(g.name, g.peers, g.getter, escape, fetch, key))
      ensures forall n | n in registry.groups && registry.groups[n] != g ::
        registry.groups[n].mainCache.Contents() == old(registry.groups[n].mainCache.Contents())
    {
      reply := g.Get(key, escape, fetch);
      forall n | n in registry.groups && registry.groups[n] != g
        ensures registry.groups[n].Valid()
        ensures registry.groups[n].mainCache.Contents() == old(registry.groups[n].mainCache.Contents())
      {
        assert old(registry.groups[n].Valid());
      }
    }
  }
}
