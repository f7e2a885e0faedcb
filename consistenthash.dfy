/**
 * geecache/consistenhash/consistenhash.go: the consistent-hash ring that
 * maps a key to the peer owning it. Every peer is placed on the ring
 * `replicas` times, at the hashes of "0" + peer, "1" + peer, ...; a key
 * goes to the first of those virtual nodes at or after its own hash.
 */
module ConsistentHash {
  import opened Wrappers
  import opened Bytes

  /** A Go `uint32`. */
  newtype uint32 = x: int | 0 <= x < 0x1_0000_0000

  /** `Hash`: a function from bytes to a 32-bit hash. */
  type Hash = seq<byte> -> uint32

  /** `crc32.ChecksumIEEE`: the CRC-32 of ISO-HDLC / IEEE 802.3, with the
      reflected polynomial 0xEDB88320, all-ones start and final inversion. */
  function Crc32(data: seq<byte>): uint32
  {
    (Crc32Update(0xFFFF_FFFF, data) ^ 0xFFFF_FFFF) as int as uint32
  }

  function Crc32Update(crc: bv32, data: seq<byte>): bv32
    decreases |data|
  {
    if data == [] then crc
    else Crc32Update(Crc32Shift(crc ^ (data[0] as int as bv32), 8), data[1..])
  }

  /** n steps of the bitwise division by the reflected polynomial. */
  function Crc32Shift(c: bv32, n: nat): bv32
    decreases n
  {
    if n == 0 then c
    else Crc32Shift(if c & 1 == 1 then (c >> 1) ^ 0xEDB8_8320 else c >> 1, n - 1)
  }

  /** `strconv.Itoa` on a non-negative number: its decimal digits. */
  function Itoa(i: nat): (s: string)
    ensures |s| >= 1 && forall j :: 0 <= j < |s| ==> '0' <= s[j] <= '9'
  {
    if i < 10 then [Digit(i)] else Itoa(i / 10) + [Digit(i % 10)]
  }

  function Digit(d: nat): (c: char)
    requires d < 10
    ensures '0' <= c <= '9' && (c as int - '0' as int) == d
  {
    ('0' as int + d) as char
  }

  /** The value of a string of decimal digits: the inverse of Itoa. */
  function Atoi(s: string): nat
    requires forall j :: 0 <= j < |s| ==> '0' <= s[j] <= '9'
  {
    if s == [] then 0 else 10 * Atoi(s[..|s| - 1]) + (s[|s| - 1] as int - '0' as int)
  }

  /** Itoa loses nothing: distinct replica numbers give distinct names. */
  lemma {:induction false} ItoaRoundTrip(i: nat)
    ensures Atoi(Itoa(i)) == i
  {
    if i >= 10 {
      ItoaRoundTrip(i / 10);
      var s := Itoa(i);
      assert s[..|s| - 1] == Itoa(i / 10);
    }
  }

  /** Where replica i of peer v sits on the ring: the hash of the decimal
      replica number followed by the peer's name. */
  function VirtualHash(hash: Hash, v: string, i: nat): int
  {
    hash(ToBytes(Itoa(i) + v)) as int
  }

  /** The hashes of the first n replicas of peer v, in the order the inner
      loop of `Add` appends them. */
  function Replicas(hash: Hash, v: string, n: nat): (hs: seq<int>)
    ensures |hs| == n
    ensures forall i :: 0 <= i < n ==> hs[i] == VirtualHash(hash, v, i)
  {
    if n == 0 then [] else Replicas(hash, v, n - 1) + [VirtualHash(hash, v, n - 1)]
  }

  /** How many replicas `Add` places per peer: `replicas`, or none when it
      is not positive. */
  function Copies(replicas: int): nat
  {
    if replicas > 0 then replicas else 0
  }

  /** The hashes `Add(nodes...)` appends, peer after peer. */
  function Virtuals(hash: Hash, replicas: int, nodes: seq<string>): (hs: seq<int>)
  {
    if nodes == [] then []
    else Virtuals(hash, replicas, nodes[..|nodes| - 1]) + Replicas(hash, nodes[|nodes| - 1], Copies(replicas))
  }

  /** `Add(nodes...)` appends exactly |nodes| * replicas hashes. */
  lemma {:induction false} VirtualsLength(hash: Hash, replicas: int, nodes: seq<string>)
    ensures |Virtuals(hash, replicas, nodes)| == |nodes| * Copies(replicas)
  {
    if nodes != [] {
      var c, n := Copies(replicas), |nodes|;
      VirtualsLength(hash, replicas, nodes[..n - 1]);
      MulStep(n, c);
    }
  }

  lemma MulStep(n: nat, c: nat)
    requires n > 0
    ensures (n - 1) * c + c == n * c
  {
  }

  /** `hashMap[hash] = v` for the first n replicas of peer v, in order. */
  function Place(m: map<int, string>, hash: Hash, v: string, n: nat): map<int, string>
  {
    if n == 0 then m else Place(m, hash, v, n - 1)[VirtualHash(hash, v, n - 1) := v]
  }

  /** The `hashMap` that `Add(nodes...)` leaves, starting from m. */
  function Placed(m: map<int, string>, hash: Hash, replicas: int, nodes: seq<string>): map<int, string>
  {
    if nodes == [] then m
    else Place(Placed(m, hash, replicas, nodes[..|nodes| - 1]), hash, nodes[|nodes| - 1], Copies(replicas))
  }

  /** After placing the replicas of v, each of their hashes names v; every
      other hash keeps what it named. */
  lemma {:induction false} PlaceAt(m: map<int, string>, hash: Hash, v: string, n: nat, h: int)
    ensures var p := Place(m, hash, v, n);
      && ((exists i :: 0 <= i < n && VirtualHash(hash, v, i) == h) ==> h in p && p[h] == v)
      && ((forall i :: 0 <= i < n ==> VirtualHash(hash, v, i) != h) ==>
            (h in p <==> h in m) && (h in m ==> p[h] == m[h]))
  {
    if n > 0 {
      PlaceAt(m, hash, v, n - 1, h);
    }
  }

  /** Every hash `Add` appends is mapped to a peer it registered, one of
      whose replicas sits there; the last peer registered wins a hash its
      replicas share with an earlier one. */
  lemma {:induction false} PlacedMaps(m: map<int, string>, hash: Hash, replicas: int, nodes: seq<string>, h: int)
    requires h in Virtuals(hash, replicas, nodes)
    ensures var p := Placed(m, hash, replicas, nodes);
      && h in p && p[h] in nodes
      && exists i :: 0 <= i < Copies(replicas) && VirtualHash(hash, p[h], i) == h
    decreases |nodes|
  {
    var init, v := nodes[..|nodes| - 1], nodes[|nodes| - 1];
    var n := Copies(replicas);
    var p0 := Placed(m, hash, replicas, init);
    PlaceAt(p0, hash, v, n, h);
    if exists i :: 0 <= i < n && VirtualHash(hash, v, i) == h {
    } else {
      assert h !in Replicas(hash, v, n);
      PlacedMaps(m, hash, replicas, init, h);
      assert p0[h] in init;
    }
  }

  /** The last peer of an `Add` keeps every hash one of its replicas sits at. */
  lemma PlacedLastWins(m: map<int, string>, hash: Hash, replicas: int, nodes: seq<string>, i: nat)
    requires nodes != [] && i < Copies(replicas)
    ensures var v, p := nodes[|nodes| - 1], Placed(m, hash, replicas, nodes);
      VirtualHash(hash, v, i) in p && p[VirtualHash(hash, v, i)] == v
  {
    var init, v := nodes[..|nodes| - 1], nodes[|nodes| - 1];
    PlaceAt(Placed(m, hash, replicas, init), hash, v, Copies(replicas), VirtualHash(hash, v, i));
  }

  /** Ascending order, as `sort.Ints` leaves a slice. */
  ghost predicate Sorted(s: seq<int>)
  {
    forall i, j :: 0 <= i < j < |s| ==> s[i] <= s[j]
  }

  /** x put into its place in a sorted sequence. */
  function InsertSorted(x: int, s: seq<int>): (r: seq<int>)
    requires Sorted(s)
    ensures Sorted(r) && multiset(r) == multiset(s) + multiset{x}
  {
    if s == [] then [x]
    else if x <= s[0] then [x] + s
    else
      var t := InsertSorted(x, s[1..]);
      InsertedAfter(x, s, t);
      [s[0]] + t
  }

  /** The step of InsertSorted past a smaller head. */
  lemma InsertedAfter(x: int, s: seq<int>, t: seq<int>)
    requires Sorted(s) && s != [] && s[0] < x
    requires Sorted(t) && multiset(t) == multiset(s[1..]) + multiset{x}
    ensures Sorted([s[0]] + t) && multiset([s[0]] + t) == multiset(s) + multiset{x}
  {
    forall k | 0 <= k < |t| ensures s[0] <= t[k] {
      assert t[k] in multiset(t);
      if t[k] != x {
        assert t[k] in s[1..];
      }
    }
    var r := [s[0]] + t;
    forall i, j | 0 <= i < j < |r| ensures r[i] <= r[j] {
      if i > 0 {
        assert r[i] == t[i - 1] && r[j] == t[j - 1];
      }
    }
    assert s == [s[0]] + s[1..];
  }

  /** `sort.Ints`: the same numbers in ascending order. */
  function SortInts(s: seq<int>): (r: seq<int>)
    ensures Sorted(r) && multiset(r) == multiset(s)
  {
    if s == [] then []
    else
      assert s == s[..|s| - 1] + [s[|s| - 1]];
      InsertSorted(s[|s| - 1], SortInts(s[..|s| - 1]))
  }

  /** The index of the virtual node `Get` settles on after looking at the
      first n gaps of `keys`: the one after the last key below the key's
      hash, or the first key when there is none. */
  function Scan(keys: seq<int>, node: int, n: nat): (j: nat)
    requires n < |keys|
    ensures j <= n
  {
    if n == 0 then 0 else if node > keys[n - 1] then n else Scan(keys, node, n - 1)
  }

  /** Over sorted keys, the scan stops exactly at the first key at or above
      the hash, among those it looks at. */
  lemma {:induction false} ScanSplits(keys: seq<int>, node: int, n: nat)
    requires Sorted(keys) && n < |keys|
    ensures forall i :: 0 <= i < Scan(keys, node, n) ==> keys[i] < node
    ensures forall i :: Scan(keys, node, n) <= i < n ==> keys[i] >= node
  {
    if n > 0 {
      ScanSplits(keys, node, n - 1);
    }
  }

  /** So when some key is at or above the hash, `Get` picks the smallest
      such key (the first key when the hash is at or below it). */
  lemma RingCeiling(keys: seq<int>, node: int)
    requires Sorted(keys) && keys != [] && node <= keys[|keys| - 1]
    ensures var j := Scan(keys, node, |keys| - 1);
      && keys[j] >= node
      && (forall i :: 0 <= i < |keys| && keys[i] >= node ==> keys[j] <= keys[i])
      && (node <= keys[0] ==> j == 0)
  {
    ScanSplits(keys, node, |keys| - 1);
  }

  /** And when the hash is above every key, `Get` does not wrap round to
      the first key: it picks the last, largest one. */
  lemma RingNoWrap(keys: seq<int>, node: int)
    requires Sorted(keys) && keys != [] && node > keys[|keys| - 1]
    ensures Scan(keys, node, |keys| - 1) == |keys| - 1
  {
    ScanSplits(keys, node, |keys| - 1);
  }

  /** The peer `Get` answers for a key hashing to node: whatever hashMap
      names at the chosen virtual node ("" if nothing). */
  function Owner(keys: seq<int>, hashMap: map<int, string>, node: int): string
    requires keys != []
  {
    var v := keys[Scan(keys, node, |keys| - 1)];
    if v in hashMap then hashMap[v] else ""
  }

  /** `Map`: the ring. */
  class Map {
    const hash: Hash
    const replicas: int
    /** The virtual nodes' hashes, ascending after every `Add`. */
    var keys: seq<int>
    /** virtual node hash -> the peer placed there. */
    var hashMap: map<int, string>

    /** Every virtual node names a peer, and the ring is in order. */
    ghost predicate Valid()
      reads this
    {
      Sorted(keys) && forall k :: k in keys ==> k in hashMap
    }

    /** `NewMap(replicas, hash)`: an empty ring; a nil hash means CRC-32. */
    constructor (replicas: int, hash: Option<Hash>)
      ensures Valid()
      ensures this.hash == (if hash.None? then Crc32 else hash.value)
      ensures this.replicas == replicas && keys == [] && hashMap == map[]
    {
      this.replicas := replicas;
      var h: Hash := if hash.None? then Crc32 else hash.value;
      this.hash := h;
      keys, hashMap := [], map[];
    }

    /** `Add(nodes...)`: place `replicas` replicas of every peer, then sort. */
    method Add(nodes: seq<string>)
      requires Valid()
      modifies this
      ensures Valid()
      ensures multiset(keys) == multiset(old(keys) + Virtuals(hash, replicas, nodes))
      ensures |keys| == |old(keys)| + |nodes| * Copies(replicas)
      ensures hashMap == Placed(old(hashMap), hash, replicas, nodes)
    {
      ghost var keys0, map0 := keys, hashMap;
      VirtualsLength(hash, replicas, nodes);
      AddPeers(nodes);
      ghost var added := keys;
      PlacedCovers(keys0, map0, hash, replicas, nodes);
      keys := SortInts(keys);
      forall k | k in keys ensures k in hashMap {
        assert k in multiset(added);
      }
    }

    /** The outer loop of `Add`: the replicas of each peer in turn. */
    method AddPeers(nodes: seq<string>)
      modifies this
      ensures keys == old(keys) + Virtuals(hash, replicas, nodes)
      ensures hashMap == Placed(old(hashMap), hash, replicas, nodes)
    {
      for j := 0 to |nodes|
        invariant keys == old(keys) + Virtuals(hash, replicas, nodes[..j])
        invariant hashMap == Placed(old(hashMap), hash, replicas, nodes[..j])
      {
        assert nodes[..j + 1][..j] == nodes[..j];
        AddReplicas(nodes[j]);
      }
      assert nodes[..|nodes|] == nodes;
    }

    /** The inner loop of `Add`: the replicas of peer v, appended and mapped. */
    method AddReplicas(v: string)
      modifies this
      ensures keys == old(keys) + Replicas(hash, v, Copies(replicas))
      ensures hashMap == Place(old(hashMap), hash, v, Copies(replicas))
    {
      var i := 0;
      while i < replicas
        invariant 0 <= i <= Copies(replicas)
        invariant keys == old(keys) + Replicas(hash, v, i)
        invariant hashMap == Place(old(hashMap), hash, v, i)
      {
        var h := hash(ToBytes(Itoa(i) + v)) as int;
        hashMap := hashMap[h := v];
        keys := keys + [h];
        i := i + 1;
      }
    }

    /** `Get(key)`: the peer at the first virtual node at or after the key's
        hash. On an empty ring `keys[0]` is out of range and the call
        panics. The ring is not changed, so asking again gives the same
        peer. */
    method Get(key: string) returns (owner: string, panicked: bool)
      ensures panicked <==> keys == []
      ensures !panicked ==> owner == Owner(keys, hashMap, hash(ToBytes(key)) as int)
    {
      if |keys| == 0 {
        return "", true;
      }
      var node := hash(ToBytes(key)) as int;
      var virtual := keys[0];
      for i := 0 to |keys| - 1
        invariant virtual == keys[Scan(keys, node, i)]
      {
        if node > keys[i] {
          virtual := keys[i + 1];
        }
      }
      owner := if virtual in hashMap then hashMap[virtual] else "";
      panicked := false;
    }
  }

  /** A hash mapped before `Add` stays mapped, and keeps its peer unless
      a replica of the new peers lands on it: a peer of an earlier `Add`
      keeps its place on the ring. */
  lemma {:induction false} PlacedKeeps(m: map<int, string>, hash: Hash, replicas: int, nodes: seq<string>, h: int)
    requires h in m
    ensures h in Placed(m, hash, replicas, nodes)
    ensures h !in Virtuals(hash, replicas, nodes) ==> Placed(m, hash, replicas, nodes)[h] == m[h]
    decreases |nodes|
  {
    if nodes != [] {
      var init, v := nodes[..|nodes| - 1], nodes[|nodes| - 1];
      var n := Copies(replicas);
      PlacedKeeps(m, hash, replicas, init, h);
      PlaceAt(Placed(m, hash, replicas, init), hash, v, n, h);
      if h !in Virtuals(hash, replicas, nodes) {
        assert Virtuals(hash, replicas, nodes) == Virtuals(hash, replicas, init) + Replicas(hash, v, n);
        forall i | 0 <= i < n ensures VirtualHash(hash, v, i) != h {
          assert Replicas(hash, v, n)[i] in Virtuals(hash, replicas, nodes);
        }
      }
    }
  }

  /** After `Add`, every hash on the ring, old or new, names a peer. */
  lemma PlacedCovers(keys0: seq<int>, m: map<int, string>, hash: Hash, replicas: int, nodes: seq<string>)
    requires forall k :: k in keys0 ==> k in m
    ensures forall k :: k in keys0 + Virtuals(hash, replicas, nodes) ==> k in Placed(m, hash, replicas, nodes)
  {
    forall k | k in keys0 + Virtuals(hash, replicas, nodes) ensures k in Placed(m, hash, replicas, nodes) {
      if k in keys0 {
        PlacedKeeps(m, hash, replicas, nodes, k);
      } else {
        PlacedMaps(m, hash, replicas, nodes, k);
      }
    }
  }
}
