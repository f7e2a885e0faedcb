/**
 * The LRU store of geecache/algorithm/lru.go: a recency list (front = most
 * recently used) and a key -> node map, bounded by `maxBytes`, with an
 * optional eviction callback.
 */
module Lru {
  import opened Wrappers
  import opened Lists
  import opened Bytes
  import opened Entries

  /** The fields of an LRU store that its operations change. */
  datatype Snapshot = Snapshot(l: seq<Entry>, m: map<string, Entry>, nowBytes: int, evicted: seq<Entry>)

  /** `removeOldest` on a non-empty list: the back node is unlinked, its key
      unmapped, its bytes uncounted and, with a callback, reported. */
  ghost function DropOldest(s: Snapshot, notify: bool): Snapshot
    requires s.l != []
  {
    var e := s.l[|s.l| - 1];
    Snapshot(s.l[..|s.l| - 1], s.m - {e.key}, s.nowBytes - e.value.Len(),
             s.evicted + (if notify then [e] else []))
  }

  /** The state the flush loop reaches from `s0` once the nodes of `s0.l`
      from k on have been evicted: the first k nodes are left, the keys of
      the others are unmapped, their bytes uncounted and, with a callback,
      reported back to front. */
  ghost function Flushed(s0: Snapshot, notify: bool, k: nat): (s: Snapshot)
    requires k <= |s0.l|
    ensures s.l == s0.l[..k]
    decreases |s0.l| - k
  {
    if k == |s0.l| then s0 else DropOldest(Flushed(s0, notify, k + 1), notify)
  }

  /** The new-key branch of `Add` after its flush: the node goes to the
      front, its key is mapped to it and its bytes are counted. */
  ghost function Pushed(s: Snapshot, e: Entry): Snapshot
  {
    Snapshot([e] + s.l, s.m[e.key := e], s.nowBytes + e.value.Len(), s.evicted)
  }

  /** The existing-key branch of `Add`: the node carrying the key moves to
      the front with the new value, and the new length is counted while the
      old one stays counted too. */
  ghost function Updated(s: Snapshot, key: string, value: ByteView): Snapshot
    requires key in s.m
  {
    var e := Entry(key, value);
    Snapshot([e] + Remove(s.l, s.m[key]), s.m[key := e], s.nowBytes + value.Len(), s.evicted)
  }

  /** Evicting nothing leaves the state as it is. */
  lemma FlushedNone(s0: Snapshot, notify: bool)
    ensures Flushed(s0, notify, |s0.l|) == s0
  {
  }

  /** The structural invariant of an LRU store: the map is the one the
      list determines, no key is carried twice, and `nowBytes` never
      undercounts (an update adds the new length without subtracting the
      old one, so it can overcount). */
  ghost predicate Good(s: Snapshot)
  {
    s.m == MapOf(s.l) && UniqueKeys(s.l) && Sum(s.l) <= s.nowBytes
  }

  /** Whatever point the flush loop stops at, the invariant holds of the
      list that is left, and the byte count is off from the true total by
      exactly what it was off before. */
  lemma FlushedGood(s0: Snapshot, notify: bool, k: nat)
    requires Good(s0) && k <= |s0.l|
    ensures var s := Flushed(s0, notify, k);
      && Good(s)
      && s.m.Keys <= s0.m.Keys
      && s.nowBytes - Sum(s.l) == s0.nowBytes - Sum(s0.l)
  {
    FlushedIndex(s0, notify, k);
    FlushedSlack(s0, notify, k);
  }

  /** The map the flush loop leaves is the one its list determines, a part
      of the map it started from. */
  lemma FlushedIndex(s0: Snapshot, notify: bool, k: nat)
    requires s0.m == MapOf(s0.l) && UniqueKeys(s0.l) && k <= |s0.l|
    ensures var s := Flushed(s0, notify, k);
      s.m == MapOf(s.l) && UniqueKeys(s.l) && s.m.Keys <= s0.m.Keys
  {
    FlushedMap(s0, notify, k);
    PrefixKeeps(s0.l, k);
  }

  /** The flush loop uncounts exactly the bytes of the nodes it evicts. */
  lemma FlushedSlack(s0: Snapshot, notify: bool, k: nat)
    requires k <= |s0.l|
    ensures var s := Flushed(s0, notify, k);
      s.nowBytes - Sum(s.l) == s0.nowBytes - Sum(s0.l)
  {
    var left, gone := s0.l[..k], s0.l[k..];
    FlushedBytes(s0, notify, k);
    assert s0.l == left + gone;
    SumAppend(left, gone);
  }

  /** One iteration of the flush loop: `removeOldest` on the state the
      loop has reached at k evicts node k - 1 of the original list. */
  lemma FlushedStep(s0: Snapshot, notify: bool, k: nat)
    requires 0 < k <= |s0.l|
    ensures var sp := Flushed(s0, notify, k);
      sp.l != [] && DropOldest(sp, notify) == Flushed(s0, notify, k - 1)
  {
  }

  /** Once the flush loop has evicted the nodes of `s0.l` from k on, the
      keys of exactly those nodes are unmapped. */
  lemma {:induction false} FlushedMap(s0: Snapshot, notify: bool, k: nat)
    requires k <= |s0.l|
    ensures Flushed(s0, notify, k).m == s0.m - MapOf(s0.l[k..]).Keys
    decreases |s0.l| - k
  {
    if k == |s0.l| {
      assert s0.l[k..] == [];
      assert s0.m - {} == s0.m;
    } else {
      FlushedMap(s0, notify, k + 1);
      EvictedGrows(s0.l, k);
      var sp := Flushed(s0, notify, k + 1);
      assert sp.l[|sp.l| - 1] == s0.l[k];
      MinusMinus(s0.m, MapOf(s0.l[k + 1..]).Keys, s0.l[k].key);
    }
  }

  /** ... and the bytes of exactly those nodes are uncounted. */
  lemma {:induction false} FlushedBytes(s0: Snapshot, notify: bool, k: nat)
    requires k <= |s0.l|
    ensures Flushed(s0, notify, k).nowBytes == s0.nowBytes - Sum(s0.l[k..])
    decreases |s0.l| - k
  {
    if k == |s0.l| {
      assert s0.l[k..] == [];
    } else {
      FlushedBytes(s0, notify, k + 1);
      EvictedGrows(s0.l, k);
      var sp := Flushed(s0, notify, k + 1);
      assert sp.l[|sp.l| - 1] == s0.l[k];
    }
  }

  /** ... and, with a callback, those nodes are reported to it from the
      back of the list to the front, the oldest first. */
  lemma {:induction false} FlushedEvicted(s0: Snapshot, notify: bool, k: nat)
    requires k <= |s0.l|
    ensures Flushed(s0, notify, k).evicted == s0.evicted + (if notify then Reversed(s0.l[k..]) else [])
    decreases |s0.l| - k
  {
    if k == |s0.l| {
      assert s0.l[k..] == [];
      assert s0.evicted + [] == s0.evicted;
    } else {
      FlushedEvicted(s0, notify, k + 1);
      EvictedGrows(s0.l, k);
      var sp := Flushed(s0, notify, k + 1);
      assert sp.l[|sp.l| - 1] == s0.l[k];
      if notify {
        assert s0.evicted + Reversed(s0.l[k + 1..]) + [s0.l[k]] == s0.evicted + Reversed(s0.l[k..]);
      } else {
        assert s0.evicted + [] == s0.evicted;
      }
    }
  }

  /** The new-key branch of `Add` keeps the invariant, whether its flush
      panics or not. */
  lemma InsertedGood(s0: Snapshot, notify: bool, need: int, e: Entry)
    requires Good(s0) && e.key !in s0.m
    ensures var s := Flushed(s0, notify, FlushPlan(s0.l, need).kept);
      Good(s) && (!FlushPlan(s0.l, need).panicked ==> Good(Pushed(s, e)))
  {
    var p := FlushPlan(s0.l, need);
    var s := Flushed(s0, notify, p.kept);
    FlushedGood(s0, notify, p.kept);
    if !p.panicked {
      PushFrontKeeps(s.l, e);
    }
  }

  /** From an exact count, the new-key branch of `Add` never panics, stays
      exact and ends within maxBytes, wherever the count started. */
  lemma InsertedExact(s0: Snapshot, notify: bool, maxBytes: int, need: int, e: Entry)
    requires s0.nowBytes == Sum(s0.l) && e.value.Len() <= maxBytes
    requires need == e.value.Len() - (maxBytes - s0.nowBytes)
    ensures var p := FlushPlan(s0.l, need);
      var s := Pushed(Flushed(s0, notify, p.kept), e);
      && !p.panicked
      && s.nowBytes == Sum(s.l)
      && s.nowBytes <= maxBytes
  {
    var p := FlushPlan(s0.l, need);
    NewKeyFits(s0.l, s0.nowBytes, maxBytes, e.value.Len(), need);
    FlushedBytes(s0, notify, p.kept);
    var sf := Flushed(s0, notify, p.kept);
    var left, gone := s0.l[..p.kept], s0.l[p.kept..];
    assert sf.l == left;
    assert sf.nowBytes == s0.nowBytes - Sum(gone);
    assert Sum(left) == s0.nowBytes - Sum(gone);
    var s := Pushed(sf, e);
    assert s.nowBytes == sf.nowBytes + e.value.Len();
    SumAppend([e], sf.l);
  }

  /** The existing-key branch of `Add` replaces the old value's length by
      the new one in the true total. */
  lemma UpdatedSum(s0: Snapshot, key: string, value: ByteView, i: nat)
    requires Good(s0) && key in s0.m && i < |s0.l| && s0.l[i] == s0.m[key]
    ensures Sum(Updated(s0, key, value).l) == Sum(s0.l) - s0.m[key].value.Len() + value.Len()
  {
    MapOfFind(s0.l, key);
    MoveToFrontKeeps(s0.l, i);
    var r := MoveToFront(s0.l, i);
    ReplaceFrontKeeps(r, Entry(key, value));
    UpdatedGood(s0, key, value, i);
  }

  /** The existing-key branch of `Add` keeps the invariant; the list it
      leaves is the one `MoveToFront` gives with the front node replaced. */
  lemma UpdatedGood(s0: Snapshot, key: string, value: ByteView, i: nat)
    requires Good(s0) && key in s0.m && i < |s0.l| && s0.l[i] == s0.m[key]
    ensures Good(Updated(s0, key, value))
    ensures Updated(s0, key, value).l == [Entry(key, value)] + MoveToFront(s0.l, i)[1..]
  {
    MapOfFind(s0.l, key);
    MoveToFrontKeeps(s0.l, i);
    var r := MoveToFront(s0.l, i);
    ReplaceFrontKeeps(r, Entry(key, value));
  }

  /** A `Get` hit on the state s: the node carrying the key moves to the
      front; a miss changes nothing. */
  ghost function Touched(s: Snapshot, key: string): Snapshot
  {
    if key in s.m then s.(l := [s.m[key]] + Remove(s.l, s.m[key])) else s
  }

  /** `Get` keeps the invariant and the true total, so an exact count stays
      exact; it changes neither the map nor the count. */
  lemma TouchedGood(s: Snapshot, key: string)
    requires Good(s)
    ensures var t := Touched(s, key);
      && Good(t) && Sum(t.l) == Sum(s.l)
      && t.m == s.m && t.nowBytes == s.nowBytes && t.evicted == s.evicted
  {
    if key in s.m {
      MapOfFind(s.l, key);
      var i :| 0 <= i < |s.l| && s.l[i] == s.m[key];
      MoveToFrontKeeps(s.l, i);
    }
  }

  /** What `Add` ends in: whether it panicked, and the new state. */
  datatype Outcome = Outcome(panicked: bool, s: Snapshot)

  /** `Add(key, value)` on the state s0: a value larger than maxBytes is
      dropped; an existing key is updated; a new key first has flush evict
      from the back what the free bytes do not cover (which panics if the
      list runs dry) and is then pushed to the front. */
  ghost function Added(s0: Snapshot, notify: bool, maxBytes: int, key: string, value: ByteView): Outcome
  {
    if value.Len() > maxBytes then Outcome(false, s0)
    else if key in s0.m then Outcome(false, Updated(s0, key, value))
    else
      var p := FlushPlan(s0.l, value.Len() - (maxBytes - s0.nowBytes));
      var s := Flushed(s0, notify, p.kept);
      if p.panicked then Outcome(true, s) else Outcome(false, Pushed(s, Entry(key, value)))
  }

  /** `Add` keeps the invariant, on every path, the panicking one included. */
  lemma AddedGood(s0: Snapshot, notify: bool, maxBytes: int, key: string, value: ByteView)
    requires Good(s0)
    ensures Good(Added(s0, notify, maxBytes, key, value).s)
  {
    if value.Len() <= maxBytes {
      if key in s0.m {
        MapOfFind(s0.l, key);
        var i :| 0 <= i < |s0.l| && s0.l[i] == s0.m[key];
        UpdatedGood(s0, key, value, i);
      } else {
        InsertedGood(s0, notify, value.Len() - (maxBytes - s0.nowBytes), Entry(key, value));
      }
    }
  }

  /** While the byte count is exact, adding a new key never panics, keeps
      the count exact, and keeps the store within maxBytes if it was. */
  lemma AddedNewKeyExact(s0: Snapshot, notify: bool, maxBytes: int, key: string, value: ByteView)
    requires Good(s0) && s0.nowBytes == Sum(s0.l) && key !in s0.m
    ensures var o := Added(s0, notify, maxBytes, key, value);
      && !o.panicked
      && o.s.nowBytes == Sum(o.s.l)
      && (s0.nowBytes <= maxBytes ==> o.s.nowBytes <= maxBytes)
  {
    if value.Len() <= maxBytes {
      InsertedExact(s0, notify, maxBytes, value.Len() - (maxBytes - s0.nowBytes), Entry(key, value));
    }
  }

  /** Re-adding an existing key never panics, but it counts the new length
      on top of the old one: the count overshoots the true total by the
      old value's length more than before. */
  lemma AddedExistingKeyDrifts(s0: Snapshot, notify: bool, maxBytes: int, key: string, value: ByteView)
    requires Good(s0) && key in s0.m && value.Len() <= maxBytes
    ensures var o := Added(s0, notify, maxBytes, key, value);
      && !o.panicked
      && o.s.nowBytes == s0.nowBytes + value.Len()
      && o.s.nowBytes - Sum(o.s.l) == s0.nowBytes - Sum(s0.l) + s0.m[key].value.Len()
  {
    MapOfFind(s0.l, key);
    var i :| 0 <= i < |s0.l| && s0.l[i] == s0.m[key];
    UpdatedSum(s0, key, value, i);
  }

  class LRUCache {
    /** The recency list, front = most recently used. */
    var l: seq<Entry>
    /** key -> the node of l that carries it. */
    var m: map<string, Entry>
    const maxBytes: int
    /** The bytes the store believes it holds. */
    var nowBytes: int
    /** Whether `onEvicted` is non-nil. */
    const notify: bool
    /** The calls `onEvicted` has received, in order: the evicted nodes. */
    var evicted: seq<Entry>

    ghost function State(): Snapshot
      reads this
    {
      Snapshot(l, m, nowBytes, evicted)
    }

    /** The structural invariant. `nowBytes` never undercounts (an update
        adds the new length without subtracting the old one, so it can
        overcount). */
    ghost predicate Valid()
      reads this
    {
      Good(State())
    }

    /** The byte count is exact, as it is until an existing key is re-added. */
    ghost predicate Exact()
      reads this
    {
      nowBytes == Sum(l)
    }

    /** `newLRU(maxBytes, onEvicted)`; `notify` says whether onEvicted is set. */
    constructor (maxBytes: int, notify: bool)
      ensures Valid() && Exact()
      ensures this.maxBytes == maxBytes && this.notify == notify
      ensures l == [] && m == map[] && nowBytes == 0 && evicted == []
    {
      this.maxBytes, this.notify := maxBytes, notify;
      l, m, nowBytes, evicted := [], map[], 0, [];
    }

    /** `Len()`: the list length, which is also the number of keys mapped. */
    function Len(): (n: nat)
      reads this
      requires Valid()
      ensures n == |m|
    {
      MapOfSize(l);
      |l|
    }

    /** `Get`: a hit moves the node to the front and returns its value. */
    method Get(key: string) returns (v: Option<ByteView>)
      requires Valid()
      modifies this
      ensures Valid()
      ensures v == if key in old(m) then Some(old(m)[key].value) else None
      ensures State() == Touched(old(State()), key)
    {
      TouchedGood(State(), key);
      if key in m {
        var e := m[key];
        MapOfFind(l, key);
        var i :| 0 <= i < |l| && l[i] == e;
        MoveToFrontRemove(l, i);
        l := MoveToFront(l, i);
        v := Some(e.value);
      } else {
        v := None;
      }
    }

    /** `Add`: a value larger than maxBytes is dropped; otherwise an existing
        key is updated in place and a new key is inserted. */
    method Add(key: string, value: ByteView) returns (panicked: bool)
      requires Valid()
      modifies this
      ensures Valid()
      ensures var o := Added(old(State()), notify, maxBytes, key, value);
        panicked == o.panicked && State() == o.s
    {
      AddedGood(State(), notify, maxBytes, key, value);
      panicked := false;
      if value.Len() > maxBytes {
        return;
      }
      if key in m {
        Update(key, value);
      } else {
        panicked := Insert(key, value);
      }
    }

    /** The existing-key branch of `Add`: the node moves to the front and
        takes the new value. Its flush call asks for a negative amount (the
        new length exceeds the old one whenever it is made), so it evicts
        nothing; the new length is added without the old one being
        subtracted. */
    method Update(key: string, value: ByteView)
      requires Valid() && key in m
      modifies this
      ensures State() == Updated(old(State()), key, value)
    {
      var e := m[key];
      MapOfFind(l, key);
      var i :| 0 <= i < |l| && l[i] == e;
      UpdatedGood(State(), key, value, i);
      l := MoveToFront(l, i);
      if value.Len() > e.value.Len() && maxBytes < nowBytes - e.value.Len() + value.Len() {
        var _ := FlushNothing(e.value.Len() - value.Len());
      }
      // entry.value = value: the node the map points at now holds the new value
      var updated := Entry(key, value);
      l := [updated] + l[1..];
      m := m[key := updated];
      nowBytes := nowBytes + value.Len();
    }

    /** The new-key branch of `Add`: when the free bytes do not cover the new
        length, flush evicts from the back what is missing; then the node is
        pushed to the front and mapped. */
    method Insert(key: string, value: ByteView) returns (panicked: bool)
      modifies this
      ensures var p := FlushPlan(old(l), value.Len() - (maxBytes - old(nowBytes)));
        var s := Flushed(old(State()), notify, p.kept);
        && panicked == p.panicked
        && State() == if panicked then s else Pushed(s, Entry(key, value))
    {
      var e := Entry(key, value);
      var need := value.Len() - (maxBytes - nowBytes);
      ghost var s0 := State();
      ghost var sf := Flushed(s0, notify, FlushPlan(l, need).kept);
      panicked := false;
      if maxBytes - nowBytes < value.Len() {
        panicked := Flush(need);
      } else {
        NothingToFlush(l, need);
        FlushedNone(s0, notify);
      }
      assert State() == sf;
      if panicked {
        return;
      }
      l, m, nowBytes := [e] + l, m[key := e], nowBytes + value.Len();
      assert l == [e] + sf.l && m == sf.m[key := e] && nowBytes == sf.nowBytes + value.Len();
    }

    /** `flush(need)` with nothing to free: the loop does not run. */
    method FlushNothing(need: int) returns (panicked: bool)
      requires need <= 0
      modifies this
      ensures !panicked && State() == old(State())
    {
      NothingToFlush(l, need);
      FlushedNone(State(), notify);
      panicked := Flush(need);
    }

    /** `flush(need)`: remove the oldest node until `need` bytes are freed;
        the loop panics when the list runs dry first. */
    method Flush(need: int) returns (panicked: bool)
      modifies this
      ensures var p := FlushPlan(old(l), need);
        panicked == p.panicked && State() == Flushed(old(State()), notify, p.kept)
    {
      ghost var s0 := State();
      FlushedNone(s0, notify);
      var rest := need;
      panicked := false;
      ghost var k := |l|;
      while rest > 0 && !panicked
        invariant k == |l| <= |s0.l| && State() == Flushed(s0, notify, k)
        invariant FlushPlan(l, rest) == FlushPlan(s0.l, need)
        invariant panicked ==> k == 0 && rest > 0
        decreases k, !panicked
      {
        rest, panicked := FlushTurn(s0, k, rest);
        if !panicked {
          k := k - 1;
        }
      }
    }

    /** One turn of the flush loop, `need -= removeOldest()`, from the
        state reached once the nodes of `s0.l` from k on are gone. */
    method FlushTurn(ghost s0: Snapshot, ghost k: nat, need: int) returns (rest: int, panicked: bool)
      requires k == |l| <= |s0.l| && State() == Flushed(s0, notify, k) && need > 0
      modifies this
      ensures panicked <==> k == 0
      ensures panicked ==> State() == old(State()) && rest == need
      ensures !panicked ==>
        && State() == Flushed(s0, notify, k - 1)
        && FlushPlan(l, rest) == FlushPlan(old(l), need)
    {
      if k > 0 {
        FlushedStep(s0, notify, k);
        FlushPlanStep(l, need);
      }
      var freed;
      freed, panicked := RemoveOldest();
      rest := if panicked then need else need - freed;
    }

    /** `removeOldest`: unlink the back node, delete its key, uncount its
        bytes and report it to the callback. On an empty list `l.Back()` is
        nil and removing it panics. */
    method RemoveOldest() returns (freed: nat, panicked: bool)
      modifies this
      ensures panicked <==> old(l) == []
      ensures panicked ==> State() == old(State())
      ensures !panicked ==>
        && freed == old(l)[|old(l)| - 1].value.Len()
        && State() == DropOldest(old(State()), notify)
    {
      if l == [] {
        return 0, true;
      }
      var e := l[|l| - 1];
      l := l[..|l| - 1];
      m := m - {e.key};
      freed := e.value.Len();
      nowBytes := nowBytes - freed;
      if notify {
        evicted := evicted + [e];
      }
      panicked := false;
    }
  }
}
