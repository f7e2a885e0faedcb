/**
 * The nodes the eviction stores keep, the key -> node map they determine,
 * their byte accounting, and the outcome of the stores' `flush` loop
 * (geecache/algorithm/lru.go:81-86, geecache/algorithm/lfu.go:127-132).
 */
module Entries {
  import opened Bytes
  import opened Lists

  /** The payload of a list node. The key is kept so that eviction, which
      starts from the list, can delete the map entry too. */
  datatype Entry = Entry(key: string, value: ByteView)

  /** The map a list of nodes determines: each key to the node carrying it
      (built from the back, so for a repeated key the back node wins). */
  function MapOf(l: seq<Entry>): map<string, Entry>
  {
    if l == [] then map[] else MapOf(l[..|l| - 1])[l[|l| - 1].key := l[|l| - 1]]
  }

  /** No key is carried by two nodes; checked from the back, one node at a
      time. */
  ghost predicate UniqueKeys(l: seq<Entry>)
  {
    l == [] || (l[|l| - 1].key !in MapOf(l[..|l| - 1]) && UniqueKeys(l[..|l| - 1]))
  }

  /** The map of a concatenation is the map of the first part overridden by
      the map of the second. */
  lemma {:induction false} MapOfAppend(a: seq<Entry>, b: seq<Entry>)
    ensures MapOf(a + b) == MapOf(a) + MapOf(b)
    decreases |b|
  {
    if b == [] {
      assert a + b == a;
    } else {
      var n := |b|;
      MapOfAppend(a, b[..n - 1]);
      assert (a + b)[..|a + b| - 1] == a + b[..n - 1];
      assert (a + b)[|a + b| - 1] == b[n - 1];
    }
  }

  /** A concatenation has unique keys exactly when both parts have and no
      key is carried by both. */
  lemma {:induction false} UniqueAppend(a: seq<Entry>, b: seq<Entry>)
    ensures UniqueKeys(a + b) <==>
      UniqueKeys(a) && UniqueKeys(b) && MapOf(a).Keys !! MapOf(b).Keys
    decreases |b|
  {
    if b == [] {
      assert a + b == a;
    } else {
      var n := |b|;
      var e := b[n - 1];
      UniqueAppend(a, b[..n - 1]);
      MapOfAppend(a, b[..n - 1]);
      assert (a + b)[..|a + b| - 1] == a + b[..n - 1];
      assert (a + b)[|a + b| - 1] == e;
    }
  }

  /** Every node's key is mapped, and with unique keys it is mapped to that
      node. */
  lemma {:induction false} MapOfAt(l: seq<Entry>, i: nat)
    requires i < |l|
    ensures l[i].key in MapOf(l)
    ensures UniqueKeys(l) ==> MapOf(l)[l[i].key] == l[i]
    decreases |l|
  {
    var front := l[..|l| - 1];
    if i < |l| - 1 {
      assert front[i] == l[i];
      MapOfAt(front, i);
    }
  }

  /** Every mapped key is carried by the node it is mapped to, and that
      node is in the list. */
  lemma {:induction false} MapOfFind(l: seq<Entry>, key: string)
    requires key in MapOf(l)
    ensures MapOf(l)[key].key == key
    ensures exists i :: 0 <= i < |l| && l[i] == MapOf(l)[key]
    decreases |l|
  {
    var n := |l|;
    if l[n - 1].key != key {
      var front := l[..n - 1];
      MapOfFind(front, key);
      var i :| 0 <= i < |front| && front[i] == MapOf(front)[key];
      assert l[i] == front[i];
    }
  }

  /** Two different nodes of a list with unique keys carry different keys. */
  lemma {:induction false} UniqueKeysAt(l: seq<Entry>, i: nat, j: nat)
    requires UniqueKeys(l) && i < j < |l|
    ensures l[i].key != l[j].key
    decreases |l|
  {
    var front := l[..|l| - 1];
    assert front[i] == l[i];
    if j < |l| - 1 {
      assert front[j] == l[j];
      UniqueKeysAt(front, i, j);
    } else {
      MapOfAt(front, i);
    }
  }

  /** With unique keys the map holds exactly one key per node. */
  lemma {:induction false} MapOfSize(l: seq<Entry>)
    requires UniqueKeys(l)
    ensures |MapOf(l)| == |l|
    decreases |l|
  {
    if l != [] {
      MapOfSize(l[..|l| - 1]);
    }
  }

  lemma MapOfSingle(e: Entry)
    ensures MapOf([e]) == map[e.key := e]
  {
    assert [e][..0] == [];
  }

  /** Merging maps with disjoint keys does not depend on their order. */
  lemma MergeSwap(ma: map<string, Entry>, mx: map<string, Entry>, mb: map<string, Entry>)
    requires ma.Keys !! mx.Keys
    ensures ma + (mx + mb) == mx + (ma + mb)
  {
  }

  /** Moving a node to the front keeps the keys unique and the map. */
  lemma MoveToFrontMap(l: seq<Entry>, i: nat)
    requires UniqueKeys(l) && i < |l|
    ensures UniqueKeys(MoveToFront(l, i)) && MapOf(MoveToFront(l, i)) == MapOf(l)
  {
    var a, x, b := l[..i], [l[i]], l[i + 1..];
    Split(l, i);
    assert l == a + (x + b) && MoveToFront(l, i) == x + (a + b);
    UniqueAppend(a, x + b);
    UniqueAppend(x, b);
    UniqueAppend(a, b);
    UniqueAppend(x, a + b);
    MapOfAppend(a, x + b);
    MapOfAppend(x, b);
    MapOfAppend(a, b);
    MapOfAppend(x, a + b);
    MergeSwap(MapOf(a), MapOf(x), MapOf(b));
  }

  /** Moving a node to the front keeps the keys unique, the map and the
      total size, and is the node followed by the list without it. */
  lemma MoveToFrontKeeps(l: seq<Entry>, i: nat)
    requires UniqueKeys(l) && i < |l|
    ensures var r := MoveToFront(l, i);
      && UniqueKeys(r) && MapOf(r) == MapOf(l) && Sum(r) == Sum(l)
      && r == [l[i]] + Remove(l, l[i]) && r[1..] == Remove(l, l[i])
  {
    MoveToFrontMap(l, i);
    MoveToFrontSum(l, i);
    MoveToFrontRemove(l, i);
  }

  /** With unique keys, the nodes behind the moved node are the list
      without it. */
  lemma MoveToFrontRemove(l: seq<Entry>, i: nat)
    requires UniqueKeys(l) && i < |l|
    ensures MoveToFront(l, i) == [l[i]] + Remove(l, l[i])
    ensures MoveToFront(l, i)[1..] == Remove(l, l[i])
  {
    UniqueNode(l, i);
    RemoveAt(l, i);
    Split(l, i);
    var t := l[..i] + l[i + 1..];
    assert ([l[i]] + t)[1..] == t;
  }

  /** In a list with unique keys no other node equals the node at i. */
  lemma UniqueNode(l: seq<Entry>, i: nat)
    requires UniqueKeys(l) && i < |l|
    ensures forall j :: 0 <= j < |l| && j != i ==> l[j] != l[i]
  {
    forall j | 0 <= j < |l| && j != i ensures l[j] != l[i] {
      if j < i { UniqueKeysAt(l, j, i); } else { UniqueKeysAt(l, i, j); }
    }
  }

  /** Giving the front node a new value under the same key keeps the keys
      unique and maps the key to the new node. */
  lemma ReplaceFrontKeeps(l: seq<Entry>, e: Entry)
    requires UniqueKeys(l) && l != [] && e.key == l[0].key
    ensures UniqueKeys([e] + l[1..])
    ensures MapOf([e] + l[1..]) == MapOf(l)[e.key := e]
    ensures Sum([e] + l[1..]) == Sum(l) - l[0].value.Len() + e.value.Len()
  {
    var t := l[1..];
    assert l == [l[0]] + t;
    UniqueAppend([l[0]], t);
    UniqueAppend([e], t);
    MapOfAppend([l[0]], t);
    MapOfAppend([e], t);
    MapOfSingle(l[0]);
    MapOfSingle(e);
    SumAppend([l[0]], t);
    SumAppend([e], t);
  }

  /** Unlinking the node a key is mapped to keeps the keys unique, unmaps
      that key and shortens the list by one. */
  lemma RemoveKeeps(l: seq<Entry>, e: Entry)
    requires UniqueKeys(l) && e.key in MapOf(l) && MapOf(l)[e.key] == e
    ensures UniqueKeys(Remove(l, e))
    ensures MapOf(Remove(l, e)) == MapOf(l) - {e.key}
    ensures |Remove(l, e)| == |l| - 1
  {
    MapOfFind(l, e.key);
    var i :| 0 <= i < |l| && l[i] == e;
    MoveToFrontMap(l, i);
    MoveToFrontRemove(l, i);
    var t := Remove(l, e);
    assert MoveToFront(l, i) == [e] + t;
    UniqueAppend([e], t);
    MapOfAppend([e], t);
    MapOfSingle(e);
    FrontMinus(e, MapOf(t));
  }

  /** Unmapping the key of a node put in front of a map without that key
      gives back the map. */
  lemma FrontMinus(e: Entry, m: map<string, Entry>)
    requires e.key !in m
    ensures (map[e.key := e] + m) - {e.key} == m
  {
  }

  /** Writing a new payload under the same key into the node a key is
      mapped to keeps the keys unique and maps the key to the new node. */
  lemma RelabelKeeps(l: seq<Entry>, x: Entry, y: Entry)
    requires UniqueKeys(l) && x.key in MapOf(l) && MapOf(l)[x.key] == x && y.key == x.key
    ensures UniqueKeys(Replace(l, x, y))
    ensures MapOf(Replace(l, x, y)) == MapOf(l)[y.key := y]
  {
    MapOfFind(l, x.key);
    var i :| 0 <= i < |l| && l[i] == x;
    UniqueNode(l, i);
    ReplaceAt(l, i, y);
    Split(l, i);
    var a, b := l[..i], l[i + 1..];
    MiddleUnique(a, x, y, b);
    MiddleMap(a, x, y, b);
  }

  /** A node in the middle of a list with unique keys can take a new
      payload under the same key: the keys stay unique. */
  lemma MiddleUnique(a: seq<Entry>, x: Entry, y: Entry, b: seq<Entry>)
    requires UniqueKeys(a + ([x] + b)) && y.key == x.key
    ensures UniqueKeys(a + ([y] + b)) && x.key !in MapOf(b)
  {
    UniqueAppend(a, [x] + b);
    UniqueAppend([x], b);
    UniqueAppend([y], b);
    UniqueAppend(a, [y] + b);
    MapOfAppend([x], b);
    MapOfAppend([y], b);
    MapOfSingle(x);
    MapOfSingle(y);
    assert [y][..0] == [];
  }

  /** ... and the key is then mapped to the new payload. */
  lemma MiddleMap(a: seq<Entry>, x: Entry, y: Entry, b: seq<Entry>)
    requires x.key !in MapOf(b) && y.key == x.key
    ensures MapOf(a + ([y] + b)) == MapOf(a + ([x] + b))[y.key := y]
  {
    var ma, mb := MapOf(a), MapOf(b);
    MapOfAppend([x], b);
    MapOfSingle(x);
    assert MapOf([x] + b) == map[x.key := x] + mb;
    MapOfAppend([y], b);
    MapOfSingle(y);
    assert MapOf([y] + b) == map[y.key := y] + mb;
    MapOfAppend(a, [x] + b);
    MapOfAppend(a, [y] + b);
    InsideSwap(ma, x, y, mb);
  }

  /** Overriding one key's node in the middle layer of a merge. */
  lemma InsideSwap(ma: map<string, Entry>, x: Entry, y: Entry, mb: map<string, Entry>)
    requires x.key == y.key && x.key !in mb
    ensures ma + (map[y.key := y] + mb) == (ma + (map[x.key := x] + mb))[y.key := y]
  {
  }

  /** ... and unlinking the relabelled node leaves what unlinking the old
      one would have. */
  lemma RelabelRemove(l: seq<Entry>, x: Entry, y: Entry)
    requires UniqueKeys(l) && x.key in MapOf(l) && MapOf(l)[x.key] == x && y.key == x.key
    ensures Remove(Replace(l, x, y), y) == Remove(l, x)
  {
    MapOfFind(l, x.key);
    var i :| 0 <= i < |l| && l[i] == x;
    UniqueNode(l, i);
    ReplaceAt(l, i, y);
    RemoveAt(l, i);
    var r := Replace(l, x, y);
    RelabelKeeps(l, x, y);
    assert r[i] == y;
    UniqueNode(r, i);
    RemoveAt(r, i);
    assert r[..i] == l[..i];
    assert r[i + 1..] == l[i + 1..];
  }

  /** Pushing a node with a key not yet mapped keeps the keys unique, maps
      the key to it and adds its size. */
  lemma PushFrontKeeps(l: seq<Entry>, e: Entry)
    requires UniqueKeys(l) && e.key !in MapOf(l)
    ensures UniqueKeys([e] + l)
    ensures MapOf([e] + l) == MapOf(l)[e.key := e]
    ensures Sum([e] + l) == Sum(l) + e.value.Len()
  {
    UniqueAppend([e], l);
    MapOfAppend([e], l);
    MapOfSingle(e);
    SumAppend([e], l);
  }

  /** Cutting a list with unique keys after k nodes keeps its keys unique
      and unmaps exactly the keys of the nodes cut off. */
  lemma PrefixKeeps(l: seq<Entry>, k: nat)
    requires UniqueKeys(l) && k <= |l|
    ensures UniqueKeys(l[..k])
    ensures MapOf(l[..k]) == MapOf(l) - MapOf(l[k..]).Keys
  {
    assert l == l[..k] + l[k..];
    UniqueAppend(l[..k], l[k..]);
    MapOfAppend(l[..k], l[k..]);
    MergeMinus(MapOf(l[..k]), MapOf(l[k..]));
  }

  /** Unmapping a set of keys and then one more key unmaps them all. */
  lemma MinusMinus<V>(m: map<string, V>, a: set<string>, x: string)
    ensures (m - a) - {x} == m - ({x} + a)
  {
  }

  /** Unlinking the back node of a list with unique keys keeps its keys
      unique and unmaps exactly that node's key. */
  lemma DropBackKeeps(l: seq<Entry>)
    requires UniqueKeys(l) && l != []
    ensures UniqueKeys(l[..|l| - 1])
    ensures MapOf(l[..|l| - 1]) == MapOf(l) - {l[|l| - 1].key}
  {
    var init, e := l[..|l| - 1], l[|l| - 1];
    assert MapOf(l) == MapOf(init)[e.key := e];
    assert e.key !in MapOf(init);
  }

  /** Taking the keys of a disjoint map out of a merge gives back the other. */
  lemma MergeMinus(ma: map<string, Entry>, mb: map<string, Entry>)
    requires ma.Keys !! mb.Keys
    ensures (ma + mb) - mb.Keys == ma
  {
  }

  /** Total size of the nodes of a list, added up from the back. */
  function Sum(l: seq<Entry>): nat
  {
    if l == [] then 0 else Sum(l[..|l| - 1]) + l[|l| - 1].value.Len()
  }

  lemma {:induction false} SumAppend(a: seq<Entry>, b: seq<Entry>)
    ensures Sum(a + b) == Sum(a) + Sum(b)
    decreases |b|
  {
    if b == [] {
      assert a + b == a;
    } else {
      SumAppend(a, b[..|b| - 1]);
      assert (a + b)[..|a + b| - 1] == a + b[..|b| - 1];
    }
  }

  /** The outcome of `flush(need)`: the first `kept` nodes survive; `panicked`
      when the list runs dry while bytes are still needed (`removeOldest` on
      an empty list dereferences a nil element). */
  datatype Plan = Plan(kept: nat, panicked: bool)

  /** `for need > 0 { need -= removeOldest() }`: evict from the back of l. */
  function FlushPlan(l: seq<Entry>, need: int): (p: Plan)
    ensures p.kept <= |l|
    ensures p.panicked ==> p.kept == 0
    ensures need > 0 && l != [] ==> p.kept < |l|
    decreases |l|
  {
    if need <= 0 then Plan(|l|, false)
    else if l == [] then Plan(0, true)
    else FlushPlan(l[..|l| - 1], need - l[|l| - 1].value.Len())
  }

  /** One turn of the flush loop: the back node goes and its bytes count
      towards `need`. */
  lemma FlushPlanStep(l: seq<Entry>, need: int)
    requires l != [] && need > 0
    ensures FlushPlan(l, need) == FlushPlan(l[..|l| - 1], need - l[|l| - 1].value.Len())
  {
  }

  /** The bytes of the nodes after position k, split off the last one. */
  lemma SumSuffixSnoc(l: seq<Entry>, k: nat)
    requires k < |l|
    ensures Sum(l[k..]) == Sum(l[..|l| - 1][k..]) + l[|l| - 1].value.Len()
  {
    assert l[k..][..|l[k..]| - 1] == l[..|l| - 1][k..];
  }

  /** What flush evicts, unless it runs dry, frees at least `need` bytes. */
  lemma {:induction false} FlushEvictsEnough(l: seq<Entry>, need: int)
    ensures !FlushPlan(l, need).panicked ==> Sum(l[FlushPlan(l, need).kept..]) >= need
    decreases |l|
  {
    var p := FlushPlan(l, need);
    if need <= 0 {
      assert l[p.kept..] == [];
    } else if l != [] {
      var n := |l|;
      var front, s := l[..n - 1], l[n - 1].value.Len();
      FlushEvictsEnough(front, need - s);
      assert p == FlushPlan(front, need - s);
      SumSuffixSnoc(l, p.kept);
    }
  }

  /** flush evicts no node it did not need: keeping one more node back
      would have left it short of `need` bytes. */
  lemma FlushEvictsNoMore(l: seq<Entry>, need: int)
    ensures FlushPlan(l, need).kept < |l| ==> Sum(l[FlushPlan(l, need).kept + 1..]) < need
  {
    var k := FlushPlan(l, need).kept;
    if k < |l| {
      FlushKeepsNoLess(l, need);
      assert l == l[..k + 1] + l[k + 1..];
      SumAppend(l[..k + 1], l[k + 1..]);
    }
  }

  /** The same, on what is kept: the kept nodes plus the next one hold more
      than the whole list less `need`. */
  lemma {:induction false} FlushKeepsNoLess(l: seq<Entry>, need: int)
    ensures var k := FlushPlan(l, need).kept;
      k < |l| ==> Sum(l[..k + 1]) + need > Sum(l)
    decreases |l|
  {
    if need > 0 && l != [] {
      var n := |l|;
      var front, s := l[..n - 1], l[n - 1].value.Len();
      var k := FlushPlan(front, need - s).kept;
      assert FlushPlan(l, need).kept == k;
      FlushKeepsNoLess(front, need - s);
      if k + 1 < n {
        assert l[..k + 1] == front[..k + 1];
      } else {
        assert l[..k + 1] == l;
      }
    }
  }

  /** flush panics exactly when the whole list holds fewer than `need` bytes. */
  lemma {:induction false} FlushPanicsIff(l: seq<Entry>, need: int)
    ensures FlushPlan(l, need).panicked <==> Sum(l) < need
    decreases |l|
  {
    if need > 0 && l != [] {
      FlushPanicsIff(l[..|l| - 1], need - l[|l| - 1].value.Len());
    }
  }

  /** Moving a node to the front keeps the total size of the list. */
  lemma MoveToFrontSum(l: seq<Entry>, i: nat)
    requires i < |l|
    ensures Sum(MoveToFront(l, i)) == Sum(l)
  {
    Split(l, i);
    SumSwap(l[..i], [l[i]], l[i + 1..]);
  }

  /** Unlinking the node a key is mapped to takes its size off the total. */
  lemma RemoveSum(l: seq<Entry>, e: Entry)
    requires UniqueKeys(l) && e.key in MapOf(l) && MapOf(l)[e.key] == e
    ensures Sum(Remove(l, e)) == Sum(l) - e.value.Len()
  {
    MapOfFind(l, e.key);
    var i :| 0 <= i < |l| && l[i] == e;
    MoveToFrontKeeps(l, i);
    SumAppend([e], Remove(l, e));
    assert Sum([e]) == e.value.Len() by {
      assert [e][..0] == [];
    }
  }

  /** Giving the node a key is mapped to a new payload changes the total by
      the new size minus the old. */
  lemma RelabelSum(l: seq<Entry>, x: Entry, y: Entry)
    requires UniqueKeys(l) && x.key in MapOf(l) && MapOf(l)[x.key] == x
    ensures Sum(Replace(l, x, y)) == Sum(l) - x.value.Len() + y.value.Len()
  {
    MapOfFind(l, x.key);
    var i :| 0 <= i < |l| && l[i] == x;
    UniqueNode(l, i);
    ReplaceAt(l, i, y);
    Split(l, i);
    var a, b := l[..i], l[i + 1..];
    SumAppend(a, [x] + b);
    SumAppend(a, [y] + b);
    SumAppend([x], b);
    SumAppend([y], b);
    assert [x][..0] == [] && [y][..0] == [];
  }

  lemma SumSwap(a: seq<Entry>, x: seq<Entry>, b: seq<Entry>)
    ensures Sum(x + a + b) == Sum(a + (x + b))
  {
    SumAppend(x + a, b);
    SumAppend(x, a);
    SumAppend(a, x + b);
    SumAppend(x, b);
  }

  /** The accounting argument of a new-key `Add`: when `nowBytes` is the
      exact total and the value fits at all, flush cannot run dry, and after
      the insertion the total is within `maxBytes`. */
  lemma NewKeyFits(l: seq<Entry>, nowBytes: int, maxBytes: int, len: nat, need: int)
    requires nowBytes == Sum(l) && len <= maxBytes && need == len - (maxBytes - nowBytes)
    ensures var p := FlushPlan(l, need);
      && !p.panicked
      && Sum(l[..p.kept]) == nowBytes - Sum(l[p.kept..])
      && Sum(l[..p.kept]) + len <= maxBytes
  {
    var p := FlushPlan(l, need);
    FlushPanicsIff(l, need);
    FlushEvictsEnough(l, need);
    assert l == l[..p.kept] + l[p.kept..];
    SumAppend(l[..p.kept], l[p.kept..]);
  }

  /** A flush that needs nothing evicts nothing. */
  lemma NothingToFlush(l: seq<Entry>, need: int)
    requires need <= 0
    ensures FlushPlan(l, need) == Plan(|l|, false)
  {
  }

  /** One iteration of the flush loop, when the first k nodes of l are
      left: the node at k - 1 goes. */
  lemma EvictedStep(l: seq<Entry>, k: nat)
    requires 0 < k <= |l|
    ensures l[..k][..k - 1] == l[..k - 1] && l[..k][k - 1] == l[k - 1]
    ensures MapOf(l[k - 1..]).Keys == {l[k - 1].key} + MapOf(l[k..]).Keys
    ensures Sum(l[k - 1..]) == l[k - 1].value.Len() + Sum(l[k..])
    ensures Reversed(l[k - 1..]) == Reversed(l[k..]) + [l[k - 1]]
  {
    EvictedGrows(l, k - 1);
    assert l[..k][k - 1] == l[k - 1];
    assert l[..k][..k - 1] == l[..k - 1];
  }

  /** One more node evicted from the back: how the evicted suffix `l[k..]`
      of the original list grows, in keys, bytes and callback order. */
  lemma EvictedGrows(l: seq<Entry>, k: nat)
    requires k < |l|
    ensures l[k..] == [l[k]] + l[k + 1..]
    ensures MapOf(l[k..]).Keys == {l[k].key} + MapOf(l[k + 1..]).Keys
    ensures Sum(l[k..]) == l[k].value.Len() + Sum(l[k + 1..])
    ensures Reversed(l[k..]) == Reversed(l[k + 1..]) + [l[k]]
  {
    assert l[k..] == [l[k]] + l[k + 1..];
    MapOfAppend([l[k]], l[k + 1..]);
    assert MapOf([l[k]]) == map[l[k].key := l[k]] by {
      assert [l[k]][..0] == [];
    }
    SumAppend([l[k]], l[k + 1..]);
    assert l[k..][1..] == l[k + 1..];
  }
}
