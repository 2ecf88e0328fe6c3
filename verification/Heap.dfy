/** Byte arrays on the heap: cloning, wiping, and keeping track of what a call leaves behind. */
module Heap {
  import opened Bytes

  /** A byte slice that is nil or the whole of an array. */
  type Slice = array?<byte>

  function Value(a: Slice): bytes
    reads a
  {
    if a == null then [] else a[..]
  }

  ghost predicate Zeroed(a: array<byte>)
    reads a
  {
    forall i :: 0 <= i < a.Length ==> a[i] == 0
  }

  /** True of every array; quantifiers over arrays are instantiated where it is mentioned. */
  ghost predicate Tracked(a: array<byte>) {
    true
  }

  /** clearBytes and clearScalar */
  method ClearBytes(b: Slice)
    modifies b
    ensures b != null ==> Zeroed(b)
    ensures forall a: array<byte> :: Tracked(a) && fresh(a) ==> Zeroed(a)
  {
    if b != null {
      for i := 0 to b.Length
        invariant forall j :: 0 <= j < i ==> b[j] == 0
        invariant forall a: array<byte> :: Tracked(a) && fresh(a) ==> Zeroed(a)
      {
        b[i] := 0;
      }
    }
  }

  /** A new array that holds the given bytes. */
  method Alloc(s: bytes) returns (out: array<byte>)
    ensures fresh(out) && out[..] == s
    ensures forall a: array<byte> :: Tracked(a) && fresh(a) ==> a == out || Zeroed(a)
  {
    out := new byte[|s|](i requires 0 <= i < |s| => s[i]);
  }

  /** clone: nil stays nil, anything else is copied into a new array. */
  method Clone(a: Slice) returns (out: Slice)
    ensures out == null <==> a == null
    ensures out != null ==> fresh(out)
    ensures Value(out) == Value(a)
    ensures forall a: array<byte> :: Tracked(a) && fresh(a) ==> a == out || Zeroed(a)
  {
    if a == null {
      return null;
    }
    out := Alloc(a[..]);
  }
}
