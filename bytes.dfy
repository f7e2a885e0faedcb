/**
 * geecache/byteview.go: the immutable view of a cached value, and the
 * copying that keeps callers from reaching the bytes the cache holds.
 */
module Bytes {

  /** A Go `byte`. */
  newtype byte = x: int | 0 <= x < 256

  /** Go strings are byte strings; a `char` below 256 stands for one byte. */
  predicate IsByteString(s: string)
  {
    forall i :: 0 <= i < |s| ==> s[i] as int < 256
  }

  /** `ByteView`: the bytes of a cached value, never changed once made. */
  datatype ByteView = ByteView(b: seq<byte>)
  {
    /** `Len`: the number of bytes, which is what the stores account for. */
    function Len(): (n: nat)
      ensures n == 0 <==> b == []
    {
      |b|
    }

    /** `String`: the bytes read as a Go string, one character per byte. */
    function String(): (s: string)
      ensures |s| == Len() && IsByteString(s)
      ensures forall i :: 0 <= i < |s| ==> s[i] as int == b[i] as int
    {
      seq(|b|, i requires 0 <= i < |b| => b[i] as int as char)
    }

    /** `ByteSlice`: a fresh copy of the bytes, so that a caller who writes
        to it does not change the view. */
    method ByteSlice() returns (c: array<byte>)
      ensures fresh(c) && c[..] == b
    {
      var src := new byte[|b|](i requires 0 <= i < |b| => b[i]);
      c := CloneBytes(src);
    }
  }

  /** The bytes of a Go string: the inverse of `ByteView.String`. */
  function FromString(s: string): (v: ByteView)
    requires IsByteString(s)
    ensures v.Len() == |s|
  {
    ByteView(seq(|s|, i requires 0 <= i < |s| => s[i] as int as byte))
  }

  /** `[]byte(s)`: the bytes of a Go string. A character at or above 256
      does not stand for a Go byte; it is cut to its low eight bits. */
  function ToBytes(s: string): (b: seq<byte>)
    ensures |b| == |s|
    ensures IsByteString(s) ==> ByteView(b).String() == s
  {
    seq(|s|, i requires 0 <= i < |s| => (s[i] as int % 256) as byte)
  }

  /** Reading a view as a string and back gives the same view. */
  lemma StringRoundTrip(v: ByteView)
    ensures FromString(v.String()) == v
  {
    var s := v.String();
    assert FromString(s).b == v.b;
  }

  /** And a byte string read into a view and back is the same string. */
  lemma FromStringRoundTrip(s: string)
    requires IsByteString(s)
    ensures FromString(s).String() == s
  {
  }

  /** `cloneBytes`: `make` a slice of the same length and `copy` into it. */
  method CloneBytes(b: array<byte>) returns (c: array<byte>)
    ensures fresh(c) && c.Length == b.Length && c[..] == b[..]
  {
    c := new byte[b.Length];
    var i := 0;
    while i < b.Length
      invariant 0 <= i <= b.Length
      invariant c[..i] == b[..i]
    {
      c[i] := b[i];
      i := i + 1;
    }
  }
}
