/**
 * The parts of Go's container/list that the eviction stores use, on
 * sequences (front of the sequence = front of the list), and the outcome of
 * the stores' `flush` loop, which both stores share
 * (geecache/algorithm/lru.go:81-86, geecache/algorithm/lfu.go:127-132).
 */
module Lists {

  /** `list.Remove(e)`: the list without the node x, the others in their order. */
  function Remove<T(==)>(l: seq<T>, x: T): (r: seq<T>)
    ensures |r| <= |l|
  {
    if l == [] then [] else (if l[0] == x then [] else [l[0]]) + Remove(l[1..], x)
  }

  /** Remove keeps exactly the nodes other than x. */
  lemma {:induction false} RemoveMembers<T>(l: seq<T>, x: T)
    ensures forall i :: 0 <= i < |Remove(l, x)| ==> Remove(l, x)[i] in l && Remove(l, x)[i] != x
    ensures forall i :: 0 <= i < |l| && l[i] != x ==> l[i] in Remove(l, x)
  {
    if l != [] {
      RemoveMembers(l[1..], x);
      var r, t := Remove(l, x), Remove(l[1..], x);
      forall i | 0 <= i < |r| ensures r[i] in l && r[i] != x {
        if l[0] != x && i == 0 {
        } else {
          var j := if l[0] == x then i else i - 1;
          assert r[i] == t[j];
          assert t[j] in l[1..];
        }
      }
      forall i | 0 <= i < |l| && l[i] != x ensures l[i] in r {
        if i > 0 {
          assert l[i] == l[1..][i - 1];
        }
      }
    }
  }

  lemma {:induction false} RemoveAbsent<T>(l: seq<T>, x: T)
    requires x !in l
    ensures Remove(l, x) == l
  {
    if l != [] {
      RemoveAbsent(l[1..], x);
      assert [l[0]] + l[1..] == l;
    }
  }

  /** Removing the node at position i, when no other node equals it,
      splices it out and keeps every other node in its relative order. */
  lemma {:induction false} RemoveAt<T>(l: seq<T>, i: nat)
    requires i < |l|
    requires forall j :: 0 <= j < |l| && j != i ==> l[j] != l[i]
    ensures Remove(l, l[i]) == l[..i] + l[i + 1..]
  {
    if i == 0 {
      assert l[0] !in l[1..] by {
        forall j | 0 <= j < |l[1..]| ensures l[1..][j] != l[0] {
          assert l[1..][j] == l[j + 1];
        }
      }
      RemoveAbsent(l[1..], l[0]);
    } else {
      var t := l[1..];
      assert t[i - 1] == l[i];
      forall j | 0 <= j < |t| && j != i - 1 ensures t[j] != t[i - 1] {
        assert t[j] == l[j + 1];
      }
      RemoveAt(t, i - 1);
      assert l[0] != l[i];
      assert l[..i] == [l[0]] + t[..i - 1];
      assert l[i + 1..] == t[i..];
    }
  }

  /** Writing a new payload into the node x (`e.Value = y`): the list with
      y in the place of x. */
  function Replace<T(==)>(l: seq<T>, x: T, y: T): (r: seq<T>)
    ensures |r| == |l|
  {
    if l == [] then [] else [if l[0] == x then y else l[0]] + Replace(l[1..], x, y)
  }

  /** Replace changes the nodes equal to x and no other. */
  lemma {:induction false} ReplaceIndex<T>(l: seq<T>, x: T, y: T, j: nat)
    requires j < |l|
    ensures Replace(l, x, y)[j] == if l[j] == x then y else l[j]
  {
    if j > 0 {
      ReplaceIndex(l[1..], x, y, j - 1);
    }
  }

  /** When no other node equals the node at i, replacing it writes only
      position i. */
  lemma ReplaceAt<T>(l: seq<T>, i: nat, y: T)
    requires i < |l|
    requires forall j :: 0 <= j < |l| && j != i ==> l[j] != l[i]
    ensures Replace(l, l[i], y) == l[..i] + ([y] + l[i + 1..])
    ensures Replace(l, l[i], y) == l[i := y]
  {
    ReplaceUpdate(l, i, y);
    UpdateSplices(l, i, y);
  }

  lemma UpdateSplices<T>(l: seq<T>, i: nat, y: T)
    requires i < |l|
    ensures l[i := y] == l[..i] + ([y] + l[i + 1..])
  {
    var t := l[..i] + ([y] + l[i + 1..]);
    assert |t| == |l|;
    forall j | 0 <= j < |l| ensures l[i := y][j] == t[j] {
      if j < i {
        assert t[j] == l[..i][j];
      } else if j > i {
        assert t[j] == l[i + 1..][j - i - 1];
      }
    }
  }

  lemma ReplaceUpdate<T>(l: seq<T>, i: nat, y: T)
    requires i < |l|
    requires forall j :: 0 <= j < |l| && j != i ==> l[j] != l[i]
    ensures Replace(l, l[i], y) == l[i := y]
  {
    var r := Replace(l, l[i], y);
    forall j | 0 <= j < |l| ensures r[j] == l[i := y][j] {
      ReplaceIndex(l, l[i], y, j);
    }
  }

  /** `list.MoveToFront(e)` for the node at position i. */
  function MoveToFront<T>(l: seq<T>, i: nat): (r: seq<T>)
    requires i < |l|
    ensures |r| == |l| && r[0] == l[i]
  {
    [l[i]] + l[..i] + l[i + 1..]
  }

  /** The position in l of the node at position a of `MoveToFront(l, i)`. */
  function MovedFrom(i: nat, a: nat): nat
  {
    if a == 0 then i else if a <= i then a - 1 else a
  }

  /** The position in `MoveToFront(l, i)` of the node at position j of l. */
  function MovedTo(i: nat, j: nat): nat
  {
    if j == i then 0 else if j < i then j + 1 else j
  }

  lemma MoveToFrontAt<T>(l: seq<T>, i: nat, a: nat)
    requires i < |l| && a < |l|
    ensures MovedFrom(i, a) < |l| && MovedTo(i, MovedFrom(i, a)) == a
    ensures MoveToFront(l, i)[a] == l[MovedFrom(i, a)]
  {
  }

  lemma MoveToFrontOf<T>(l: seq<T>, i: nat, j: nat)
    requires i < |l| && j < |l|
    ensures MovedTo(i, j) < |l| && MovedFrom(i, MovedTo(i, j)) == j
    ensures MoveToFront(l, i)[MovedTo(i, j)] == l[j]
  {
    MoveToFrontAt(l, i, MovedTo(i, j));
  }

  /** Moving a node to the front only reorders the list: it keeps its nodes. */
  lemma MoveToFrontPermutes<T>(l: seq<T>, i: nat)
    requires i < |l|
    ensures multiset(MoveToFront(l, i)) == multiset(l)
  {
    var a, x, b := l[..i], [l[i]], l[i + 1..];
    calc {
      multiset(MoveToFront(l, i));
      { assert MoveToFront(l, i) == x + a + b; }
      multiset(x) + multiset(a) + multiset(b);
      { assert l == a + x + b; }
      multiset(l);
    }
  }

  /** The node at position i splits a list into the nodes before it, the
      node and the nodes after it; moving it to the front puts it before
      the other two parts. */
  lemma Split<T>(l: seq<T>, i: nat)
    requires i < |l|
    ensures l == l[..i] + ([l[i]] + l[i + 1..])
    ensures MoveToFront(l, i) == [l[i]] + (l[..i] + l[i + 1..])
  {
    assert l[i..] == [l[i]] + l[i + 1..];
    assert l == l[..i] + l[i..];
  }

  /** The list read from back to front: the order in which `removeOldest`
      hands evicted nodes to the eviction callback. */
  function Reversed<T>(s: seq<T>): seq<T>
  {
    if s == [] then [] else Reversed(s[1..]) + [s[0]]
  }

  /** Reversed lists the nodes back to front. */
  lemma {:induction false} ReversedAt<T>(s: seq<T>, i: nat)
    requires i < |s|
    ensures |Reversed(s)| == |s| && Reversed(s)[i] == s[|s| - 1 - i]
    decreases |s|
  {
    if i < |s| - 1 {
      ReversedAt(s[1..], i);
    } else {
      ReversedLength(s[1..]);
    }
  }

  lemma {:induction false} ReversedLength<T>(s: seq<T>)
    ensures |Reversed(s)| == |s|
    decreases |s|
  {
    if s != [] {
      ReversedLength(s[1..]);
    }
  }


}
