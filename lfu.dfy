/**
 * The LFU store of geecache/algorithm/lfu.go: one recency list per access
 * frequency (`mFre`, front = most recent), a key -> element map (`mKey`),
 * a `minFre` cursor naming the bucket eviction takes from, and an optional
 * eviction callback.
 */
module Lfu {
  import opened Wrappers
  import opened Lists
  import opened Bytes
  import opened Entries

  /** `eValue`: what a list element holds. A bucket node carries the key and
      the value; its frequency is the bucket it sits in, and the element the
      key is mapped to records that frequency too. */
  datatype EValue = EValue(key: string, value: ByteView, fre: int)
  {
    /** The payload of the bucket node. */
    function Node(): Entry
    {
      Entry(key, value)
    }
  }

  /** The fields of an LFU store that its operations change. */
  datatype Snapshot = Snapshot(mFre: map<int, seq<Entry>>, mKey: map<string, EValue>,
                               nowBytes: int, minFre: int, evicted: seq<Entry>)

  /** `mFre[f]`, with a missing bucket read as an empty list. */
  function Bucket(mFre: map<int, seq<Entry>>, f: int): seq<Entry>
  {
    if f in mFre then mFre[f] else []
  }

  /** The element key k is mapped to sits, under that key and with that
      value, in the bucket of its frequency, which is at least 1. */
  ghost predicate Holds(mFre: map<int, seq<Entry>>, mKey: map<string, EValue>, k: string)
    requires k in mKey
  {
    var n := mKey[k];
    && n.key == k && n.fre >= 1 && n.fre in mFre
    && k in MapOf(mFre[n.fre]) && MapOf(mFre[n.fre])[k] == n.Node()
  }

  /** The structural invariant: no bucket carries a key twice, every mapped
      key sits in the bucket of its frequency, and every key a bucket
      carries is mapped with that bucket's frequency (so no key is in two
      buckets). */
  ghost predicate Indexed(mFre: map<int, seq<Entry>>, mKey: map<string, EValue>)
  {
    BucketsUnique(mFre) && KeysHeld(mFre, mKey) && NodesMapped(mFre, mKey)
  }

  ghost predicate BucketsUnique(mFre: map<int, seq<Entry>>)
  {
    forall f | f in mFre :: UniqueKeys(mFre[f])
  }

  ghost predicate KeysHeld(mFre: map<int, seq<Entry>>, mKey: map<string, EValue>)
  {
    forall k | k in mKey :: Holds(mFre, mKey, k)
  }

  ghost predicate NodesMapped(mFre: map<int, seq<Entry>>, mKey: map<string, EValue>)
  {
    forall f, k | f in mFre && k in MapOf(mFre[f]) :: k in mKey && mKey[k].fre == f
  }

  /** `minFre` is the lowest frequency of a stored key, and its bucket is
      not empty, whenever anything is stored. */
  ghost predicate MinFreOk(s: Snapshot)
  {
    s.mKey != map[] ==>
      && s.minFre in s.mFre && s.mFre[s.minFre] != []
      && forall k | k in s.mKey :: s.minFre <= s.mKey[k].fre
  }

  /** `listFre.PushFront(n)` on bucket `n.fre`, created if missing. */
  function PushNode(mFre: map<int, seq<Entry>>, n: EValue): map<int, seq<Entry>>
  {
    mFre[n.fre := [n.Node()] + Bucket(mFre, n.fre)]
  }

  /** `listFre.Remove(element)` on bucket `n.fre`. */
  function PullNode(mFre: map<int, seq<Entry>>, n: EValue): map<int, seq<Entry>>
    requires n.fre in mFre
  {
    mFre[n.fre := Remove(mFre[n.fre], n.Node())]
  }

  /** `addTwoMap(key, n)`: the node goes to the front of bucket `n.fre`
      (created if missing), the key is mapped to it and its bytes counted. */
  ghost function Linked(s: Snapshot, key: string, n: EValue): Snapshot
  {
    Snapshot(PushNode(s.mFre, n), s.mKey[key := n], s.nowBytes + n.value.Len(), s.minFre, s.evicted)
  }

  /** The first half of `addFre`: the element leaves the bucket of its
      frequency, its bytes are uncounted, and `minFre` moves up when that
      bucket is the minimum one and held only this element. */
  ghost function Unlinked(s: Snapshot, key: string): Snapshot
    requires key in s.mKey && s.mKey[key].fre in s.mFre
  {
    var n := s.mKey[key];
    Snapshot(PullNode(s.mFre, n), s.mKey, s.nowBytes - n.value.Len(),
             if s.minFre == n.fre && |s.mFre[n.fre]| == 1 then s.minFre + 1 else s.minFre, s.evicted)
  }

  /** `addFre(key, element)`: the element moves to the front of the next
      bucket up, with its frequency raised by one. */
  ghost function Bumped(s: Snapshot, key: string): Snapshot
    requires key in s.mKey && s.mKey[key].fre in s.mFre
  {
    var n := s.mKey[key];
    Linked(Unlinked(s, key), key, EValue(n.key, n.value, n.fre + 1))
  }

  /** `Get(key)` on the state s: a hit bumps the key's frequency, a miss
      changes nothing. */
  ghost function Touched(s: Snapshot, key: string): Snapshot
    requires key in s.mKey ==> s.mKey[key].fre in s.mFre
  {
    if key in s.mKey then Bumped(s, key) else s
  }

  /** `element.Value = eValue{value, key, fre}`: the element the key is
      mapped to takes the new value, in its bucket as well. */
  ghost function Relabelled(s: Snapshot, key: string, value: ByteView): Snapshot
    requires key in s.mKey && s.mKey[key].fre in s.mFre
  {
    var n := s.mKey[key];
    s.(mFre := s.mFre[n.fre := Replace(s.mFre[n.fre], n.Node(), Entry(key, value))],
       mKey := s.mKey[key := EValue(key, value, n.fre)])
  }

  /** The existing-key branch of `Add`: relabel, then `addFre`. */
  ghost function Updated(s: Snapshot, key: string, value: ByteView): Snapshot
    requires key in s.mKey && s.mKey[key].fre in s.mFre
  {
    Bumped(Relabelled(s, key, value), key)
  }

  /** `removeOldest` when bucket `minFre` exists and is not empty: its back
      node is unlinked, its key unmapped, its bytes uncounted and, with a
      callback, reported. `minFre` is left as it is. */
  ghost function DropOldest(s: Snapshot, notify: bool): Snapshot
    requires s.minFre in s.mFre && s.mFre[s.minFre] != []
  {
    var b := s.mFre[s.minFre];
    var e := b[|b| - 1];
    Snapshot(s.mFre[s.minFre := b[..|b| - 1]], s.mKey - {e.key}, s.nowBytes - e.value.Len(),
             s.minFre, s.evicted + (if notify then [e] else []))
  }

  /** The state the flush loop reaches from s0 once the nodes of bucket
      `minFre` from k on have been evicted. */
  ghost function Flushed(s0: Snapshot, notify: bool, k: nat): (s: Snapshot)
    requires k <= |Bucket(s0.mFre, s0.minFre)|
    ensures s.minFre == s0.minFre
    ensures Bucket(s.mFre, s.minFre) == Bucket(s0.mFre, s0.minFre)[..k]
    decreases |Bucket(s0.mFre, s0.minFre)| - k
  {
    if k == |Bucket(s0.mFre, s0.minFre)| then s0 else DropOldest(Flushed(s0, notify, k + 1), notify)
  }

  /** What `Add` ends in: whether it panicked, and the new state. */
  datatype Outcome = Outcome(panicked: bool, s: Snapshot)

  /** The new-key branch of `Add`: flush evicts from bucket `minFre` what the
      free bytes do not cover (panicking if that bucket runs dry or does not
      exist), then the node is linked with frequency 1 and `minFre` is 1. */
  ghost function Inserted(s0: Snapshot, notify: bool, maxBytes: int, key: string, value: ByteView): Outcome
  {
    var p := FlushPlan(Bucket(s0.mFre, s0.minFre), value.Len() - (maxBytes - s0.nowBytes));
    var s := Flushed(s0, notify, p.kept);
    if p.panicked then Outcome(true, s)
    else Outcome(false, Linked(s, key, EValue(key, value, 1)).(minFre := 1))
  }

  /** `Add(key, value)` on the state s0. There is no guard against a value
      larger than `maxBytes`. */
  ghost function Added(s0: Snapshot, notify: bool, maxBytes: int, key: string, value: ByteView): Outcome
    requires key in s0.mKey ==> s0.mKey[key].fre in s0.mFre
  {
    if key in s0.mKey then Outcome(false, Updated(s0, key, value))
    else Inserted(s0, notify, maxBytes, key, value)
  }


  /** Setting one bucket to a list with unique keys keeps every bucket's
      keys unique. */
  lemma UniqueSet(mFre: map<int, seq<Entry>>, f: int, r: seq<Entry>)
    requires BucketsUnique(mFre) && UniqueKeys(r)
    ensures BucketsUnique(mFre[f := r])
  {
    var mFre' := mFre[f := r];
    forall g | g in mFre' ensures UniqueKeys(mFre'[g]) {
      if g != f {
        assert UniqueKeys(mFre[g]);
      }
    }
  }

  /** Bucket f loses the node of key x, which is unmapped: every other
      mapped key is still held where it was. */
  lemma HeldWithout(mFre: map<int, seq<Entry>>, mKey: map<string, EValue>, f: int, r: seq<Entry>, x: string)
    requires KeysHeld(mFre, mKey) && f in mFre && MapOf(r) == MapOf(mFre[f]) - {x}
    ensures KeysHeld(mFre[f := r], mKey - {x})
  {
    var mFre', mKey' := mFre[f := r], mKey - {x};
    forall k | k in mKey' ensures Holds(mFre', mKey', k) {
      assert Holds(mFre, mKey, k);
    }
  }

  /** ... and every key a bucket still carries is still mapped with that
      bucket's frequency. */
  lemma MappedWithout(mFre: map<int, seq<Entry>>, mKey: map<string, EValue>, f: int, r: seq<Entry>, x: string)
    requires NodesMapped(mFre, mKey) && f in mFre && MapOf(r) == MapOf(mFre[f]) - {x}
    requires x in mKey && mKey[x].fre == f
    ensures NodesMapped(mFre[f := r], mKey - {x})
  {
    var mFre', mKey' := mFre[f := r], mKey - {x};
    forall g, k | g in mFre' && k in MapOf(mFre'[g]) ensures k in mKey' && mKey'[k].fre == g {
      if g != f {
        assert k in MapOf(mFre[g]);
      } else {
        assert k in MapOf(mFre[f]);
      }
    }
  }

  /** Bucket f gets the node of n, and n.key is mapped to n (a key that was
      mapped already was mapped with frequency f): every mapped key is held
      in the bucket of its frequency. */
  lemma HeldWith(mFre: map<int, seq<Entry>>, mKey: map<string, EValue>, f: int, r: seq<Entry>, n: EValue)
    requires KeysHeld(mFre, mKey) && n.fre == f && n.fre >= 1
    requires n.key in mKey ==> mKey[n.key].fre == f
    requires MapOf(r) == MapOf(Bucket(mFre, f))[n.key := n.Node()]
    ensures KeysHeld(mFre[f := r], mKey[n.key := n])
  {
    var mFre', mKey' := mFre[f := r], mKey[n.key := n];
    forall k | k in mKey' ensures Holds(mFre', mKey', k) {
      if k != n.key {
        assert Holds(mFre, mKey, k);
      }
    }
  }

  /** ... and every key a bucket carries is mapped with that bucket's
      frequency. */
  lemma MappedWith(mFre: map<int, seq<Entry>>, mKey: map<string, EValue>, f: int, r: seq<Entry>, n: EValue)
    requires NodesMapped(mFre, mKey) && n.fre == f
    requires n.key in mKey ==> mKey[n.key].fre == f
    requires MapOf(r) == MapOf(Bucket(mFre, f))[n.key := n.Node()]
    ensures NodesMapped(mFre[f := r], mKey[n.key := n])
  {
    var mFre', mKey' := mFre[f := r], mKey[n.key := n];
    forall g, k | g in mFre' && k in MapOf(mFre'[g]) ensures k in mKey' && mKey'[k].fre == g {
      if g != f {
        assert k in MapOf(mFre[g]);
      } else if k != n.key {
        assert f in mFre && k in MapOf(mFre[f]);
      }
    }
  }

  /** The bucket a node is linked into keeps unique keys and maps the key
      to the node. */
  lemma LinkedBucket(mFre: map<int, seq<Entry>>, mKey: map<string, EValue>, key: string, n: EValue)
    requires BucketsUnique(mFre) && NodesMapped(mFre, mKey) && key !in mKey && n.key == key
    ensures var b := Bucket(mFre, n.fre);
      UniqueKeys([n.Node()] + b) && MapOf([n.Node()] + b) == MapOf(b)[key := n.Node()]
  {
    var b := Bucket(mFre, n.fre);
    if n.fre in mFre {
      assert UniqueKeys(b);
    } else {
      assert b == [];
    }
    PushFrontKeeps(b, n.Node());
  }

  /** Linking a node under a key not yet mapped keeps the invariant. */
  lemma LinkedIndexed(mFre: map<int, seq<Entry>>, mKey: map<string, EValue>, key: string, n: EValue)
    requires Indexed(mFre, mKey) && key !in mKey && n.key == key && n.fre >= 1
    ensures Indexed(PushNode(mFre, n), mKey[key := n])
  {
    var r := [n.Node()] + Bucket(mFre, n.fre);
    LinkedBucket(mFre, mKey, key, n);
    UniqueSet(mFre, n.fre, r);
    HeldWith(mFre, mKey, n.fre, r, n);
    MappedWith(mFre, mKey, n.fre, r, n);
  }

  /** Unlinking the element a key is mapped to, and unmapping the key,
      keeps the invariant. */
  lemma UnlinkedIndexed(mFre: map<int, seq<Entry>>, mKey: map<string, EValue>, key: string)
    requires Indexed(mFre, mKey) && key in mKey
    ensures mKey[key].fre in mFre
    ensures Indexed(PullNode(mFre, mKey[key]), mKey - {key})
  {
    var n := mKey[key];
    assert Holds(mFre, mKey, key);
    var f, b := n.fre, mFre[n.fre];
    assert UniqueKeys(b);
    RemoveKeeps(b, n.Node());
    var r := Remove(b, n.Node());
    UniqueSet(mFre, f, r);
    HeldWithout(mFre, mKey, f, r, key);
    MappedWithout(mFre, mKey, f, r, key);
  }

  /** `addFre` keeps the invariant. */
  lemma BumpedIndexed(s: Snapshot, key: string)
    requires Indexed(s.mFre, s.mKey) && key in s.mKey
    ensures s.mKey[key].fre in s.mFre
    ensures Indexed(Bumped(s, key).mFre, Bumped(s, key).mKey)
  {
    var n := s.mKey[key];
    assert Holds(s.mFre, s.mKey, key);
    UnlinkedIndexed(s.mFre, s.mKey, key);
    var u := Unlinked(s, key);
    var n' := EValue(n.key, n.value, n.fre + 1);
    LinkedIndexed(u.mFre, s.mKey - {key}, key, n');
    var t := Bumped(s, key);
    assert t.mFre == PushNode(u.mFre, n');
    assert t.mKey == (s.mKey - {key})[key := n'];
  }

  /** The relabelling `Add` does on an existing key keeps the invariant. */
  lemma RelabelledIndexed(s: Snapshot, key: string, value: ByteView)
    requires Indexed(s.mFre, s.mKey) && key in s.mKey
    ensures s.mKey[key].fre in s.mFre
    ensures Indexed(Relabelled(s, key, value).mFre, Relabelled(s, key, value).mKey)
  {
    var n := s.mKey[key];
    assert Holds(s.mFre, s.mKey, key);
    var f, b := n.fre, s.mFre[n.fre];
    assert UniqueKeys(b);
    var n' := EValue(key, value, f);
    RelabelKeeps(b, n.Node(), n'.Node());
    var r := Replace(b, n.Node(), n'.Node());
    UniqueSet(s.mFre, f, r);
    HeldWith(s.mFre, s.mKey, f, r, n');
    MappedWith(s.mFre, s.mKey, f, r, n');
    var t := Relabelled(s, key, value);
    assert t.mFre == s.mFre[f := r];
    assert t.mKey == s.mKey[n'.key := n'];
  }

  /** `removeOldest` keeps the invariant. */
  lemma DropIndexed(s: Snapshot, notify: bool)
    requires Indexed(s.mFre, s.mKey) && s.minFre in s.mFre && s.mFre[s.minFre] != []
    ensures Indexed(DropOldest(s, notify).mFre, DropOldest(s, notify).mKey)
  {
    var f, b := s.minFre, s.mFre[s.minFre];
    var e := b[|b| - 1];
    assert UniqueKeys(b);
    MapOfAt(b, |b| - 1);
    assert e.key in s.mKey && s.mKey[e.key].fre == f;
    DropBackKeeps(b);
    var r := b[..|b| - 1];
    UniqueSet(s.mFre, f, r);
    HeldWithout(s.mFre, s.mKey, f, r, e.key);
    MappedWithout(s.mFre, s.mKey, f, r, e.key);
    var t := DropOldest(s, notify);
    assert t.mFre == s.mFre[f := r];
    assert t.mKey == s.mKey - {e.key};
  }

  /** Evicting nothing leaves the state as it is. */
  lemma FlushedNone(s0: Snapshot, notify: bool)
    ensures Flushed(s0, notify, |Bucket(s0.mFre, s0.minFre)|) == s0
  {
  }

  /** One iteration of the flush loop: `removeOldest` on the state the loop
      has reached at k evicts node k - 1 of the original bucket `minFre`. */
  lemma FlushedStep(s0: Snapshot, notify: bool, k: nat)
    requires 0 < k <= |Bucket(s0.mFre, s0.minFre)|
    ensures var sp := Flushed(s0, notify, k);
      && sp.minFre in sp.mFre && sp.mFre[sp.minFre] != []
      && DropOldest(sp, notify) == Flushed(s0, notify, k - 1)
  {
  }

  /** Wherever the flush loop stops, the invariant holds. */
  lemma {:induction false} FlushedIndexed(s0: Snapshot, notify: bool, k: nat)
    requires Indexed(s0.mFre, s0.mKey) && k <= |Bucket(s0.mFre, s0.minFre)|
    ensures Indexed(Flushed(s0, notify, k).mFre, Flushed(s0, notify, k).mKey)
    decreases |Bucket(s0.mFre, s0.minFre)| - k
  {
    if k < |Bucket(s0.mFre, s0.minFre)| {
      FlushedIndexed(s0, notify, k + 1);
      DropIndexed(Flushed(s0, notify, k + 1), notify);
    }
  }

  /** The flush loop evicts from bucket `minFre` only: every other bucket
      is left as it was. */
  lemma {:induction false} FlushedOthers(s0: Snapshot, notify: bool, k: nat, f: int)
    requires k <= |Bucket(s0.mFre, s0.minFre)| && f != s0.minFre
    ensures Bucket(Flushed(s0, notify, k).mFre, f) == Bucket(s0.mFre, f)
    decreases |Bucket(s0.mFre, s0.minFre)| - k
  {
    if k < |Bucket(s0.mFre, s0.minFre)| {
      FlushedOthers(s0, notify, k + 1, f);
    }
  }

  /** Once the flush loop has evicted the nodes of bucket `minFre` from k
      on, the keys of exactly those nodes are unmapped. */
  lemma {:induction false} FlushedKeys(s0: Snapshot, notify: bool, k: nat)
    requires k <= |Bucket(s0.mFre, s0.minFre)|
    ensures var b := Bucket(s0.mFre, s0.minFre);
      Flushed(s0, notify, k).mKey == s0.mKey - MapOf(b[k..]).Keys
    decreases |Bucket(s0.mFre, s0.minFre)| - k
  {
    var b := Bucket(s0.mFre, s0.minFre);
    if k == |b| {
      assert b[k..] == [];
      assert s0.mKey - {} == s0.mKey;
    } else {
      FlushedKeys(s0, notify, k + 1);
      EvictedGrows(b, k);
      var sp := Flushed(s0, notify, k + 1);
      assert sp.mFre[sp.minFre][|sp.mFre[sp.minFre]| - 1] == b[k];
      MinusMinus(s0.mKey, MapOf(b[k + 1..]).Keys, b[k].key);
    }
  }

  /** ... and the bytes of exactly those nodes are uncounted. */
  lemma {:induction false} FlushedBytes(s0: Snapshot, notify: bool, k: nat)
    requires k <= |Bucket(s0.mFre, s0.minFre)|
    ensures var b := Bucket(s0.mFre, s0.minFre);
      Flushed(s0, notify, k).nowBytes == s0.nowBytes - Sum(b[k..])
    decreases |Bucket(s0.mFre, s0.minFre)| - k
  {
    var b := Bucket(s0.mFre, s0.minFre);
    if k == |b| {
      assert b[k..] == [];
    } else {
      FlushedBytes(s0, notify, k + 1);
      EvictedGrows(b, k);
      var sp := Flushed(s0, notify, k + 1);
      assert sp.mFre[sp.minFre][|sp.mFre[sp.minFre]| - 1] == b[k];
    }
  }

  /** ... and, with a callback, those nodes are reported to it from the
      back of the bucket to the front, the least recently used first. */
  lemma {:induction false} FlushedEvicted(s0: Snapshot, notify: bool, k: nat)
    requires k <= |Bucket(s0.mFre, s0.minFre)|
    ensures var b := Bucket(s0.mFre, s0.minFre);
      Flushed(s0, notify, k).evicted == s0.evicted + (if notify then Reversed(b[k..]) else [])
    decreases |Bucket(s0.mFre, s0.minFre)| - k
  {
    var b := Bucket(s0.mFre, s0.minFre);
    if k == |b| {
      assert b[k..] == [];
      assert s0.evicted + [] == s0.evicted;
    } else {
      FlushedEvicted(s0, notify, k + 1);
      EvictedGrows(b, k);
      var sp := Flushed(s0, notify, k + 1);
      assert sp.mFre[sp.minFre][|sp.mFre[sp.minFre]| - 1] == b[k];
      if notify {
        assert s0.evicted + Reversed(b[k + 1..]) + [b[k]] == s0.evicted + Reversed(b[k..]);
      } else {
        assert s0.evicted + [] == s0.evicted;
      }
    }
  }

  /** `Get` keeps the invariant. */
  lemma TouchedIndexed(s: Snapshot, key: string)
    requires Indexed(s.mFre, s.mKey)
    ensures key in s.mKey ==> s.mKey[key].fre in s.mFre
    ensures Indexed(Touched(s, key).mFre, Touched(s, key).mKey)
  {
    if key in s.mKey {
      BumpedIndexed(s, key);
    }
  }

  /** Flushing from bucket `minFre`, then linking a key that was not
      mapped, keeps the invariant. */
  lemma FlushedLinkedIndexed(s0: Snapshot, notify: bool, k: nat, key: string, n: EValue)
    requires Indexed(s0.mFre, s0.mKey) && key !in s0.mKey && n.key == key && n.fre >= 1
    requires k <= |Bucket(s0.mFre, s0.minFre)|
    ensures var sf := Flushed(s0, notify, k);
      Indexed(PushNode(sf.mFre, n), sf.mKey[key := n])
  {
    var sf := Flushed(s0, notify, k);
    FlushedIndexed(s0, notify, k);
    FlushedKeys(s0, notify, k);
    LinkedIndexed(sf.mFre, sf.mKey, key, n);
  }

  /** The new-key branch of `Add` keeps the invariant, whether or not its
      flush panics. */
  lemma InsertedIndexed(s0: Snapshot, notify: bool, maxBytes: int, key: string, value: ByteView)
    requires Indexed(s0.mFre, s0.mKey) && key !in s0.mKey
    ensures var o := Inserted(s0, notify, maxBytes, key, value);
      Indexed(o.s.mFre, o.s.mKey)
  {
    var p := FlushPlan(Bucket(s0.mFre, s0.minFre), value.Len() - (maxBytes - s0.nowBytes));
    if p.panicked {
      FlushedIndexed(s0, notify, p.kept);
    } else {
      FlushedLinkedIndexed(s0, notify, p.kept, key, EValue(key, value, 1));
    }
  }

  /** `Add` keeps the invariant, on every path, the panicking one included. */
  lemma AddedIndexed(s0: Snapshot, notify: bool, maxBytes: int, key: string, value: ByteView)
    requires Indexed(s0.mFre, s0.mKey)
    ensures key in s0.mKey ==> s0.mKey[key].fre in s0.mFre
    ensures var o := Added(s0, notify, maxBytes, key, value);
      Indexed(o.s.mFre, o.s.mKey)
  {
    if key in s0.mKey {
      RelabelledIndexed(s0, key, value);
      BumpedIndexed(Relabelled(s0, key, value), key);
    } else {
      InsertedIndexed(s0, notify, maxBytes, key, value);
    }
  }

  /** A `Get` hit raises the key's frequency by exactly one: the node leaves
      its bucket and goes to the front of the next one up, with its value;
      no key is mapped or unmapped, and `nowBytes` is unchanged (the length
      is uncounted and counted again). */
  lemma TouchedHit(s: Snapshot, key: string)
    requires Indexed(s.mFre, s.mKey) && key in s.mKey
    ensures s.mKey[key].fre in s.mFre
    ensures var n, t := s.mKey[key], Touched(s, key);
      && t.mKey[key] == EValue(key, n.value, n.fre + 1)
      && t.mFre[n.fre + 1][0] == Entry(key, n.value)
      && t.mFre[n.fre] == Remove(s.mFre[n.fre], n.Node())
      && t.mKey.Keys == s.mKey.Keys
      && t.nowBytes == s.nowBytes && t.evicted == s.evicted
  {
    assert Holds(s.mFre, s.mKey, key);
  }

  /** `Add` on an existing key never panics and never evicts: the key takes
      the new value and one more use, its node moves to the front of the
      next bucket up, and `nowBytes` is unchanged whatever the two lengths
      (`addFre` uncounts and recounts the new length; the old one stays
      counted), while the bytes the buckets hold move by the new length
      minus the old. */
  lemma AddedExistingKey(s0: Snapshot, notify: bool, maxBytes: int, key: string, value: ByteView)
    requires Indexed(s0.mFre, s0.mKey) && key in s0.mKey
    ensures s0.mKey[key].fre in s0.mFre
    ensures var n, o := s0.mKey[key], Added(s0, notify, maxBytes, key, value);
      && !o.panicked
      && o.s.mKey[key] == EValue(key, value, n.fre + 1)
      && o.s.mFre[n.fre + 1][0] == Entry(key, value)
      && o.s.mFre[n.fre] == Remove(s0.mFre[n.fre], n.Node())
      && o.s.mKey.Keys == s0.mKey.Keys
      && o.s.nowBytes == s0.nowBytes && o.s.evicted == s0.evicted
      && Total(o.s.mFre) == Total(s0.mFre) - n.value.Len() + value.Len()
  {
    var n := s0.mKey[key];
    assert Holds(s0.mFre, s0.mKey, key);
    assert UniqueKeys(s0.mFre[n.fre]);
    RelabelRemove(s0.mFre[n.fre], n.Node(), Entry(key, value));
    UpdatedTotal(s0, key, value);
  }

  /** `Add` on a new key panics exactly when bucket `minFre` holds fewer
      bytes than the free bytes fall short by: the flush never moves on to
      another bucket, however many bytes the others hold. It then leaves
      that bucket empty with `minFre` still naming it. */
  lemma AddedNewKeyPanics(s0: Snapshot, notify: bool, maxBytes: int, key: string, value: ByteView)
    requires key !in s0.mKey
    ensures var b, o := Bucket(s0.mFre, s0.minFre), Added(s0, notify, maxBytes, key, value);
      && (o.panicked <==> Sum(b) < value.Len() - (maxBytes - s0.nowBytes))
      && (o.panicked ==> o.s.minFre == s0.minFre && Bucket(o.s.mFre, o.s.minFre) == [])
  {
    FlushPanicsIff(Bucket(s0.mFre, s0.minFre), value.Len() - (maxBytes - s0.nowBytes));
  }

  /** `Add` on a new key that does not panic: the key is mapped with
      frequency 1 to the node at the front of bucket 1, `minFre` is 1, and
      `nowBytes` loses the bytes of the evicted nodes and gains the new
      length, which leaves it within maxBytes. */
  lemma AddedNewKey(s0: Snapshot, notify: bool, maxBytes: int, key: string, value: ByteView)
    requires key !in s0.mKey
    ensures var b, o := Bucket(s0.mFre, s0.minFre), Added(s0, notify, maxBytes, key, value);
      var p := FlushPlan(b, value.Len() - (maxBytes - s0.nowBytes));
      !o.panicked ==>
        && o.s.mKey[key] == EValue(key, value, 1)
        && o.s.mFre[1][0] == Entry(key, value)
        && o.s.minFre == 1
        && o.s.nowBytes == s0.nowBytes - Sum(b[p.kept..]) + value.Len()
        && o.s.nowBytes <= maxBytes
  {
    var b := Bucket(s0.mFre, s0.minFre);
    var need := value.Len() - (maxBytes - s0.nowBytes);
    var p := FlushPlan(b, need);
    var sf := Flushed(s0, notify, p.kept);
    var o := Added(s0, notify, maxBytes, key, value);
    assert o == Inserted(s0, notify, maxBytes, key, value);
    if !p.panicked {
      var n := EValue(key, value, 1);
      assert o.s == Linked(sf, key, n).(minFre := 1);
      assert o.s.mFre[1] == [n.Node()] + Bucket(sf.mFre, 1);
      FlushedBytes(s0, notify, p.kept);
      assert sf.nowBytes == s0.nowBytes - Sum(b[p.kept..]);
      FlushEvictsEnough(b, need);
      if need <= 0 {
        NothingToFlush(b, need);
        assert b[p.kept..] == [];
      }
    }
  }

  /** Whether or not `Add` on a new key panics, the nodes it evicts are the
      back nodes of bucket `minFre`: their keys, and no others, are
      unmapped. */
  lemma AddedNewKeyEvicts(s0: Snapshot, notify: bool, maxBytes: int, key: string, value: ByteView)
    requires key !in s0.mKey
    ensures var b, o := Bucket(s0.mFre, s0.minFre), Added(s0, notify, maxBytes, key, value);
      var gone := b[FlushPlan(b, value.Len() - (maxBytes - s0.nowBytes)).kept..];
      o.s.mKey - {key} == s0.mKey - MapOf(gone).Keys
  {
    var b := Bucket(s0.mFre, s0.minFre);
    var p := FlushPlan(b, value.Len() - (maxBytes - s0.nowBytes));
    var sf := Flushed(s0, notify, p.kept);
    FlushedKeys(s0, notify, p.kept);
    var o := Added(s0, notify, maxBytes, key, value);
    assert o == Inserted(s0, notify, maxBytes, key, value);
    assert key !in sf.mKey;
    assert sf.mKey - {key} == sf.mKey;
    if !p.panicked {
      assert o.s == Linked(sf, key, EValue(key, value, 1)).(minFre := 1);
      assert o.s.mKey == sf.mKey[key := EValue(key, value, 1)];
      assert o.s.mKey - {key} == sf.mKey;
    } else {
      assert o.s == sf;
    }
  }

  /** With a callback, the evicted nodes are reported oldest first. */
  lemma AddedNewKeyReports(s0: Snapshot, notify: bool, maxBytes: int, key: string, value: ByteView)
    requires key !in s0.mKey
    ensures var b, o := Bucket(s0.mFre, s0.minFre), Added(s0, notify, maxBytes, key, value);
      var gone := b[FlushPlan(b, value.Len() - (maxBytes - s0.nowBytes)).kept..];
      o.s.evicted == s0.evicted + (if notify then Reversed(gone) else [])
  {
    var b := Bucket(s0.mFre, s0.minFre);
    var p := FlushPlan(b, value.Len() - (maxBytes - s0.nowBytes));
    var sf := Flushed(s0, notify, p.kept);
    FlushedEvicted(s0, notify, p.kept);
    var o := Added(s0, notify, maxBytes, key, value);
    assert o == Inserted(s0, notify, maxBytes, key, value);
    if !p.panicked {
      assert o.s == Linked(sf, key, EValue(key, value, 1)).(minFre := 1);
    } else {
      assert o.s == sf;
    }
    assert o.s.evicted == sf.evicted;
  }

  /** Relabelling keeps `minFre` right: no bucket changes length and no
      frequency changes. */
  lemma RelabelledMinFre(s: Snapshot, key: string, value: ByteView)
    requires Indexed(s.mFre, s.mKey) && MinFreOk(s) && key in s.mKey
    ensures s.mKey[key].fre in s.mFre
    ensures MinFreOk(Relabelled(s, key, value))
  {
    assert Holds(s.mFre, s.mKey, key);
  }

  /** `addFre` keeps `minFre` the lowest frequency of a stored key with a
      non-empty bucket: it moves up only when the bumped node was alone in
      bucket `minFre`, and then the node is now in the bucket above. */
  lemma BumpedMinFre(s: Snapshot, key: string)
    requires Indexed(s.mFre, s.mKey) && MinFreOk(s) && key in s.mKey
    ensures s.mKey[key].fre in s.mFre
    ensures MinFreOk(Bumped(s, key))
  {
    var n := s.mKey[key];
    assert Holds(s.mFre, s.mKey, key);
    var f, b := n.fre, s.mFre[n.fre];
    assert UniqueKeys(b);
    RemoveKeeps(b, n.Node());
    var t := Bumped(s, key);
    if s.minFre == f && |b| == 1 {
      forall k | k in t.mKey ensures t.minFre <= t.mKey[k].fre {
        if k != key {
          assert Holds(s.mFre, s.mKey, k);
        }
      }
    } else {
      assert t.minFre == s.minFre;
      assert s.minFre in t.mFre && t.mFre[s.minFre] != [];
    }
  }

  /** So `Get` keeps `minFre` right. */
  lemma TouchedMinFre(s: Snapshot, key: string)
    requires Indexed(s.mFre, s.mKey) && MinFreOk(s)
    ensures key in s.mKey ==> s.mKey[key].fre in s.mFre
    ensures MinFreOk(Touched(s, key))
  {
    if key in s.mKey {
      BumpedMinFre(s, key);
    }
  }

  /** And so does every `Add` that does not panic (a new key resets
      `minFre` to 1, the lowest frequency there is). A panicking one can
      leave bucket `minFre` empty while keys remain. */
  lemma AddedMinFre(s0: Snapshot, notify: bool, maxBytes: int, key: string, value: ByteView)
    requires Indexed(s0.mFre, s0.mKey) && MinFreOk(s0)
    ensures key in s0.mKey ==> s0.mKey[key].fre in s0.mFre
    ensures var o := Added(s0, notify, maxBytes, key, value);
      !o.panicked ==> MinFreOk(o.s)
  {
    if key in s0.mKey {
      RelabelledMinFre(s0, key, value);
      RelabelledIndexed(s0, key, value);
      BumpedMinFre(Relabelled(s0, key, value), key);
    } else {
      var b := Bucket(s0.mFre, s0.minFre);
      var p := FlushPlan(b, value.Len() - (maxBytes - s0.nowBytes));
      var sf := Flushed(s0, notify, p.kept);
      FlushedIndexed(s0, notify, p.kept);
      if !p.panicked {
        var t := Added(s0, notify, maxBytes, key, value).s;
        forall k | k in t.mKey ensures 1 <= t.mKey[k].fre {
          if k != key {
            assert Holds(sf.mFre, sf.mKey, k);
          }
        }
      }
    }
  }

  /** No key is stored exactly when every bucket is empty. */
  lemma EmptyIff(mFre: map<int, seq<Entry>>, mKey: map<string, EValue>)
    requires Indexed(mFre, mKey)
    ensures |mKey| == 0 <==> forall f | f in mFre :: mFre[f] == []
  {
    if |mKey| != 0 {
      var k :| k in mKey;
      assert Holds(mFre, mKey, k);
    }
    if f :| f in mFre && mFre[f] != [] {
      MapOfAt(mFre[f], 0);
      assert mFre[f][0].key in mKey;
    }
  }

  /** The bytes the buckets actually hold: the lengths of the values of
      every node of every bucket, added up. */
  ghost function Total(mFre: map<int, seq<Entry>>): nat
    decreases |mFre|
  {
    if exists f :: f in mFre then var f :| f in mFre; Sum(mFre[f]) + Total(mFre - {f})
    else 0
  }

  /** `nowBytes` counts exactly the bytes the buckets hold. */
  ghost predicate Exact(s: Snapshot)
  {
    s.nowBytes == Total(s.mFre)
  }

  /** Any one bucket can be taken out of the total first. */
  lemma {:induction false} TotalPick(m: map<int, seq<Entry>>, f: int)
    requires f in m
    ensures Total(m) == Sum(m[f]) + Total(m - {f})
    decreases |m|
  {
    var g :| g in m && Total(m) == Sum(m[g]) + Total(m - {g});
    if g != f {
      TotalPick(m - {g}, f);
      TotalPick(m - {f}, g);
      assert m - {g} - {f} == m - {f} - {g};
    }
  }

  /** Setting one bucket changes the total by the new bucket's bytes minus
      the old one's. */
  lemma TotalSet(m: map<int, seq<Entry>>, f: int, r: seq<Entry>)
    ensures Total(m[f := r]) == Total(m) - Sum(Bucket(m, f)) + Sum(r)
  {
    TotalPick(m[f := r], f);
    if f in m {
      TotalPick(m, f);
      assert m[f := r] - {f} == m - {f};
    } else {
      assert m[f := r] - {f} == m;
    }
  }

  /** `addTwoMap` adds the node's length to the buckets and to `nowBytes`
      alike. */
  lemma LinkedTotal(s: Snapshot, key: string, n: EValue)
    ensures Total(Linked(s, key, n).mFre) == Total(s.mFre) + n.value.Len()
  {
    var b := Bucket(s.mFre, n.fre);
    TotalSet(s.mFre, n.fre, [n.Node()] + b);
    SumAppend([n.Node()], b);
    assert [n.Node()][..0] == [];
  }

  /** The first half of `addFre` takes the element's length off the buckets
      and off `nowBytes` alike. */
  lemma UnlinkedTotal(s: Snapshot, key: string)
    requires Indexed(s.mFre, s.mKey) && key in s.mKey
    ensures s.mKey[key].fre in s.mFre
    ensures Total(Unlinked(s, key).mFre) == Total(s.mFre) - s.mKey[key].value.Len()
  {
    var n := s.mKey[key];
    assert Holds(s.mFre, s.mKey, key);
    assert UniqueKeys(s.mFre[n.fre]);
    RemoveSum(s.mFre[n.fre], n.Node());
    TotalSet(s.mFre, n.fre, Remove(s.mFre[n.fre], n.Node()));
  }

  /** So `addFre` leaves both the bytes the buckets hold and `nowBytes` as
      they were. */
  lemma BumpedTotal(s: Snapshot, key: string)
    requires Indexed(s.mFre, s.mKey) && key in s.mKey
    ensures s.mKey[key].fre in s.mFre
    ensures Total(Bumped(s, key).mFre) == Total(s.mFre)
    ensures Bumped(s, key).nowBytes == s.nowBytes
  {
    var n := s.mKey[key];
    UnlinkedTotal(s, key);
    LinkedTotal(Unlinked(s, key), key, EValue(n.key, n.value, n.fre + 1));
  }

  /** Relabelling changes the bytes the buckets hold by the new length minus
      the old, and leaves `nowBytes` as it was. */
  lemma RelabelledTotal(s: Snapshot, key: string, value: ByteView)
    requires Indexed(s.mFre, s.mKey) && key in s.mKey
    ensures s.mKey[key].fre in s.mFre
    ensures Total(Relabelled(s, key, value).mFre) == Total(s.mFre) - s.mKey[key].value.Len() + value.Len()
    ensures Relabelled(s, key, value).nowBytes == s.nowBytes
  {
    var n := s.mKey[key];
    assert Holds(s.mFre, s.mKey, key);
    assert UniqueKeys(s.mFre[n.fre]);
    RelabelSum(s.mFre[n.fre], n.Node(), Entry(key, value));
    TotalSet(s.mFre, n.fre, Replace(s.mFre[n.fre], n.Node(), Entry(key, value)));
  }

  /** The existing-key branch of `Add` changes the bytes the buckets hold
      by the new length minus the old, while `nowBytes` stays put. */
  lemma UpdatedTotal(s: Snapshot, key: string, value: ByteView)
    requires Indexed(s.mFre, s.mKey) && key in s.mKey
    ensures s.mKey[key].fre in s.mFre
    ensures Total(Updated(s, key, value).mFre) == Total(s.mFre) - s.mKey[key].value.Len() + value.Len()
    ensures Updated(s, key, value).nowBytes == s.nowBytes
  {
    RelabelledTotal(s, key, value);
    RelabelledIndexed(s, key, value);
    BumpedTotal(Relabelled(s, key, value), key);
  }

  /** `removeOldest` takes the back node's length off the buckets and off
      `nowBytes` alike. */
  lemma DropTotal(s: Snapshot, notify: bool)
    requires s.minFre in s.mFre && s.mFre[s.minFre] != []
    ensures var b := s.mFre[s.minFre];
      Total(DropOldest(s, notify).mFre) == Total(s.mFre) - b[|b| - 1].value.Len()
  {
    var b := s.mFre[s.minFre];
    TotalSet(s.mFre, s.minFre, b[..|b| - 1]);
  }

  /** The flush loop takes the bytes of the nodes it evicts off the buckets,
      as it does off `nowBytes`. */
  lemma {:induction false} FlushedTotal(s0: Snapshot, notify: bool, k: nat)
    requires k <= |Bucket(s0.mFre, s0.minFre)|
    ensures var b := Bucket(s0.mFre, s0.minFre);
      Total(Flushed(s0, notify, k).mFre) == Total(s0.mFre) - Sum(b[k..])
    decreases |Bucket(s0.mFre, s0.minFre)| - k
  {
    var b := Bucket(s0.mFre, s0.minFre);
    if k == |b| {
      assert b[k..] == [];
    } else {
      FlushedTotal(s0, notify, k + 1);
      EvictedGrows(b, k);
      var sp := Flushed(s0, notify, k + 1);
      assert sp.mFre[sp.minFre][|sp.mFre[sp.minFre]| - 1] == b[k];
      DropTotal(sp, notify);
    }
  }

  /** A `Get` leaves the bytes the buckets hold and `nowBytes` as they were,
      so a count that was exact stays exact. */
  lemma TouchedExact(s: Snapshot, key: string)
    requires Indexed(s.mFre, s.mKey)
    ensures key in s.mKey ==> s.mKey[key].fre in s.mFre
    ensures Total(Touched(s, key).mFre) == Total(s.mFre)
    ensures Touched(s, key).nowBytes == s.nowBytes
  {
    if key in s.mKey {
      BumpedTotal(s, key);
    }
  }

  /** `Add` on a new key moves `nowBytes` and the bytes the buckets hold by
      the same amount, whether or not it panics, so a count that was exact
      stays exact; and when it does not panic, the buckets then hold no more
      than maxBytes plus whatever the count already missed. */
  lemma AddedNewKeyExact(s0: Snapshot, notify: bool, maxBytes: int, key: string, value: ByteView)
    requires key !in s0.mKey
    ensures var o := Added(s0, notify, maxBytes, key, value);
      && Total(o.s.mFre) - o.s.nowBytes == Total(s0.mFre) - s0.nowBytes
      && (!o.panicked ==> Total(o.s.mFre) <= maxBytes + (Total(s0.mFre) - s0.nowBytes))
  {
    var b := Bucket(s0.mFre, s0.minFre);
    var p := FlushPlan(b, value.Len() - (maxBytes - s0.nowBytes));
    var sf := Flushed(s0, notify, p.kept);
    var o := Added(s0, notify, maxBytes, key, value);
    assert o == Inserted(s0, notify, maxBytes, key, value);
    FlushedTotal(s0, notify, p.kept);
    FlushedBytes(s0, notify, p.kept);
    if !p.panicked {
      LinkedTotal(sf, key, EValue(key, value, 1));
      AddedNewKey(s0, notify, maxBytes, key, value);
    }
  }

  /** The count drifts away from the bytes held, and past maxBytes: with
      maxBytes 10, adding "a" with 1 byte, then "a" again with 10 bytes, then
      "b" with 9 bytes evicts nothing and never panics, yet leaves the
      buckets holding 19 bytes while `nowBytes` reads 10. */
  lemma OverfillExample()
    ensures var s0 := Snapshot(map[], map[], 0, 0, []);
      var o1 := Added(s0, false, 10, "a", ByteView(seq(1, _ => 0)));
      && "a" in o1.s.mKey && o1.s.mKey["a"].fre in o1.s.mFre
      && var o2 := Added(o1.s, false, 10, "a", ByteView(seq(10, _ => 0)));
      && "b" !in o2.s.mKey
      && var o3 := Added(o2.s, false, 10, "b", ByteView(seq(9, _ => 0)));
      && !o1.panicked && !o3.panicked
      && o3.s.nowBytes == 10 && Total(o3.s.mFre) == 19
  {
    var v1, v10, v9 := ByteView(seq(1, _ => 0)), ByteView(seq(10, _ => 0)), ByteView(seq(9, _ => 0));
    var s0 := Snapshot(map[], map[], 0, 0, []);
    assert Total(s0.mFre) == 0;
    assert Indexed(s0.mFre, s0.mKey);
    var o1 := Added(s0, false, 10, "a", v1);
    AddedNewKeyPanics(s0, false, 10, "a", v1);
    AddedNewKey(s0, false, 10, "a", v1);
    AddedNewKeyEvicts(s0, false, 10, "a", v1);
    AddedNewKeyExact(s0, false, 10, "a", v1);
    AddedIndexed(s0, false, 10, "a", v1);
    assert o1.s.mKey.Keys == {"a"};
    var o2 := Added(o1.s, false, 10, "a", v10);
    AddedExistingKey(o1.s, false, 10, "a", v10);
    var o3 := Added(o2.s, false, 10, "b", v9);
    AddedNewKeyPanics(o2.s, false, 10, "b", v9);
    AddedNewKey(o2.s, false, 10, "b", v9);
    AddedNewKeyExact(o2.s, false, 10, "b", v9);
  }

  class LFUCache {
    /** frequency -> the recency list of the nodes used that often, front =
        most recently used. A list, once made, is never deleted. */
    var mFre: map<int, seq<Entry>>
    /** key -> the element it is mapped to. */
    var mKey: map<string, EValue>
    /** The bytes the store believes it holds. */
    var nowBytes: int
    const maxBytes: int
    /** The bucket `removeOldest` takes from. */
    var minFre: int
    /** Whether `onEvicted` is non-nil. */
    const notify: bool
    /** The calls `onEvicted` has received, in order: the evicted nodes. */
    var evicted: seq<Entry>

    ghost function State(): Snapshot
      reads this
    {
      Snapshot(mFre, mKey, nowBytes, minFre, evicted)
    }

    /** The structural invariant; it holds after every operation, even one
        that panicked. */
    ghost predicate Valid()
      reads this
    {
      Indexed(mFre, mKey)
    }

    /** `newLFU(maxBytes, onEvicted)`; `notify` says whether onEvicted is
        set. `minFre` starts at 0, a bucket that does not exist. */
    constructor (maxBytes: int, notify: bool)
      ensures Valid() && MinFreOk(State()) && Exact(State())
      ensures this.maxBytes == maxBytes && this.notify == notify
      ensures mFre == map[] && mKey == map[] && nowBytes == 0 && minFre == 0 && evicted == []
    {
      this.maxBytes, this.notify := maxBytes, notify;
      mFre, mKey, nowBytes, minFre, evicted := map[], map[], 0, 0, [];
      assert Total(map[]) == 0;
    }

    /** `Len()`: the number of keys mapped, which is 0 exactly when every
        bucket is empty. */
    function Len(): (n: nat)
      reads this
      requires Valid()
      ensures n == 0 <==> forall f | f in mFre :: mFre[f] == []
    {
      EmptyIff(mFre, mKey);
      |mKey|
    }

    /** `Get`: a hit raises the key's frequency and returns its value. */
    method Get(key: string) returns (v: Option<ByteView>)
      requires Valid()
      modifies this
      ensures Valid()
      ensures v == if key in old(mKey) then Some(old(mKey)[key].value) else None
      ensures State() == Touched(old(State()), key)
    {
      TouchedIndexed(State(), key);
      if key in mKey {
        var value := AddFre(key);
        v := Some(value);
      } else {
        v := None;
      }
    }

    /** `Add`: an existing key is relabelled and bumped, a new key is
        inserted. */
    method Add(key: string, value: ByteView) returns (panicked: bool)
      requires Valid()
      modifies this
      ensures Valid()
      ensures var o := Added(old(State()), notify, maxBytes, key, value);
        panicked == o.panicked && State() == o.s
    {
      AddedIndexed(State(), notify, maxBytes, key, value);
      if key in mKey {
        Update(key, value);
        panicked := false;
      } else {
        panicked := Insert(key, value);
      }
    }

    /** The existing-key branch of `Add`. Its flush call asks for a negative
        amount (the new length exceeds the old one whenever it is made), so
        it evicts nothing. The element takes the new value, in its bucket
        too, and is then bumped. */
    method Update(key: string, value: ByteView)
      requires Valid() && key in mKey
      modifies this
      ensures old(mKey[key].fre in mFre)
      ensures State() == Updated(old(State()), key, value)
    {
      RelabelledIndexed(State(), key, value);
      var n := mKey[key];
      if value.Len() > n.value.Len() && maxBytes < nowBytes - n.value.Len() + value.Len() {
        var _ := FlushNothing(n.value.Len() - value.Len());
      }
      // element.Value = eValue{value, key, fre}: one element, seen from the bucket and from the map
      mFre := mFre[n.fre := Replace(mFre[n.fre], n.Node(), Entry(key, value))];
      mKey := mKey[key := EValue(key, value, n.fre)];
      var _ := AddFre(key);
    }

    /** The new-key branch of `Add`: when the free bytes do not cover the new
        length, flush evicts what is missing from bucket `minFre`; then the
        node is linked with frequency 1 and `minFre` becomes 1. */
    method Insert(key: string, value: ByteView) returns (panicked: bool)
      modifies this
      ensures var o := Inserted(old(State()), notify, maxBytes, key, value);
        panicked == o.panicked && State() == o.s
    {
      var need := value.Len() - (maxBytes - nowBytes);
      ghost var s0 := State();
      ghost var sf := Flushed(s0, notify, FlushPlan(Bucket(mFre, minFre), need).kept);
      panicked := false;
      if maxBytes - nowBytes < value.Len() {
        panicked := Flush(need);
      } else {
        NothingToFlush(Bucket(mFre, minFre), need);
        FlushedNone(s0, notify);
      }
      assert State() == sf;
      if panicked {
        return;
      }
      AddTwoMap(key, EValue(key, value, 1));
      minFre := 1;
    }

    /** `addFre(key, element)`: the element leaves the bucket of its
        frequency (moving `minFre` up when it was alone in bucket `minFre`),
        its bytes are uncounted, and it is linked again one frequency up.
        Returns its value. */
    method AddFre(key: string) returns (value: ByteView)
      requires key in mKey && mKey[key].fre in mFre
      modifies this
      ensures value == old(mKey)[key].value
      ensures State() == Bumped(old(State()), key)
    {
      var n := mKey[key];
      var oldFre := n.fre;
      var listFre := mFre[oldFre];
      if minFre == oldFre && |listFre| == 1 {
        minFre := minFre + 1;
      }
      mFre := mFre[oldFre := Remove(listFre, n.Node())];
      nowBytes := nowBytes - n.value.Len();
      AddTwoMap(key, EValue(n.key, n.value, oldFre + 1));
      value := n.value;
    }

    /** `addTwoMap(key, n)`: bucket `n.fre` is created if missing, the node
        is pushed to its front, its bytes are counted and the key is mapped
        to it. */
    method AddTwoMap(key: string, n: EValue)
      modifies this
      ensures State() == Linked(old(State()), key, n)
    {
      if n.fre !in mFre {
        mFre := mFre[n.fre := []];
      }
      mFre := mFre[n.fre := [n.Node()] + mFre[n.fre]];
      nowBytes := nowBytes + n.value.Len();
      mKey := mKey[key := n];
    }

    /** `flush(need)` with nothing to free: the loop does not run. */
    method FlushNothing(need: int) returns (panicked: bool)
      requires need <= 0
      modifies this
      ensures !panicked && State() == old(State())
    {
      NothingToFlush(Bucket(mFre, minFre), need);
      FlushedNone(State(), notify);
      panicked := Flush(need);
    }

    /** `flush(need)`: remove the oldest node of bucket `minFre` until `need`
        bytes are freed; the loop panics when that bucket runs dry first. */
    method Flush(need: int) returns (panicked: bool)
      modifies this
      ensures var p := FlushPlan(Bucket(old(mFre), old(minFre)), need);
        panicked == p.panicked && State() == Flushed(old(State()), notify, p.kept)
    {
      ghost var s0 := State();
      FlushedNone(s0, notify);
      var rest := need;
      panicked := false;
      ghost var k := |Bucket(mFre, minFre)|;
      while rest > 0 && !panicked
        invariant k == |Bucket(mFre, minFre)| <= |Bucket(s0.mFre, s0.minFre)|
        invariant State() == Flushed(s0, notify, k)
        invariant FlushPlan(Bucket(mFre, minFre), rest) == FlushPlan(Bucket(s0.mFre, s0.minFre), need)
        invariant panicked ==> k == 0 && rest > 0
        decreases k, !panicked
      {
        rest, panicked := FlushTurn(s0, k, rest);
        if !panicked {
          k := k - 1;
        }
      }
    }

    /** One turn of the flush loop, `need -= removeOldest()`, from the state
        reached once the nodes of bucket `minFre` from k on are gone. */
    method FlushTurn(ghost s0: Snapshot, ghost k: nat, need: int) returns (rest: int, panicked: bool)
      requires k == |Bucket(mFre, minFre)| <= |Bucket(s0.mFre, s0.minFre)|
      requires State() == Flushed(s0, notify, k) && need > 0
      modifies this
      ensures panicked <==> k == 0
      ensures panicked ==> State() == old(State()) && rest == need
      ensures !panicked ==>
        && State() == Flushed(s0, notify, k - 1)
        && FlushPlan(Bucket(mFre, minFre), rest) == FlushPlan(Bucket(old(mFre), old(minFre)), need)
    {
      if k > 0 {
        FlushedStep(s0, notify, k);
        FlushPlanStep(Bucket(mFre, minFre), need);
      }
      var freed;
      freed, panicked := RemoveOldest();
      rest := if panicked then need else need - freed;
    }

    /** `removeOldest`: unlink the back node of bucket `minFre`, delete its
        key, uncount its bytes and report it to the callback; `minFre` is
        left as it is. A missing bucket is a nil list and an empty one has a
        nil back element: either way the call panics. */
    method RemoveOldest() returns (freed: nat, panicked: bool)
      modifies this
      ensures panicked <==> Bucket(old(mFre), old(minFre)) == []
      ensures panicked ==> State() == old(State())
      ensures !panicked ==>
        && freed == old(mFre)[old(minFre)][|old(mFre)[old(minFre)]| - 1].value.Len()
        && State() == DropOldest(old(State()), notify)
    {
      if minFre !in mFre || mFre[minFre] == [] {
        return 0, true;
      }
      var b := mFre[minFre];
      var e := b[|b| - 1];
      mFre := mFre[minFre := b[..|b| - 1]];
      mKey := mKey - {e.key};
      freed := e.value.Len();
      nowBytes := nowBytes - freed;
      if notify {
        evicted := evicted + [e];
      }
      panicked := false;
    }
  }
}
