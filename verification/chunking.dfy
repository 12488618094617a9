/** Cutting a payload into consecutive fragments and joining fragments back together.
    The library's array splitter is not part of this model; it is described here by what its
    callers rely on: consecutive chunks of at most the given size whose concatenation is the input. */
module Chunking {
  import opened Cursor

  /** The concatenation of `parts` in order. */
  function Flatten(parts: seq<seq<byte>>): seq<byte> {
    if |parts| == 0 then [] else parts[0] + Flatten(parts[1..])
  }

  lemma {:induction false} FlattenAppend(a: seq<seq<byte>>, b: seq<seq<byte>>)
    ensures Flatten(a + b) == Flatten(a) + Flatten(b)
  {
    if |a| == 0 {
      assert a + b == b;
    } else {
      assert (a + b)[1..] == a[1..] + b;
      FlattenAppend(a[1..], b);
    }
  }

  /** `splitArray(s, size)`: consecutive pieces of `size` bytes, the last one possibly shorter.
      Every piece is non-empty, so an empty payload has no pieces. */
  function Chunks(s: seq<byte>, size: int): (r: seq<seq<byte>>)
    requires size > 0
    ensures Flatten(r) == s
    ensures forall i :: 0 <= i < |r| ==> 0 < |r[i]| <= size
    ensures forall i :: 0 <= i < |r| - 1 ==> |r[i]| == size
    decreases |s|
  {
    if |s| == 0 then
      []
    else if |s| <= size then
      assert Flatten([s]) == s + Flatten([]);
      [s]
    else
      var tail := Chunks(s[size..], size);
      assert s[..size] + s[size..] == s;
      assert ([s[..size]] + tail)[1..] == tail;
      [s[..size]] + tail
  }

  /** A payload no longer than the chunk size is one chunk; a longer one is at least two. */
  lemma ChunkCount(s: seq<byte>, size: int)
    requires size > 0
    ensures |s| == 0 <==> |Chunks(s, size)| == 0
    ensures 0 < |s| <= size <==> |Chunks(s, size)| == 1
    ensures |s| > size <==> |Chunks(s, size)| >= 2
  {
    if |s| > size {
      assert |Chunks(s[size..], size)| >= 1;
    }
  }
}
