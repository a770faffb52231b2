/** Raw audio as opaque bytes, and `b''.join` over a list of byte chunks. */
module Audio {

  newtype byte = b: int | 0 <= b < 256

  /** The concatenation of all chunks, in order. */
  function Concat(chunks: seq<seq<byte>>): seq<byte>
  {
    if chunks == [] then [] else Concat(chunks[..|chunks| - 1]) + chunks[|chunks| - 1]
  }

  lemma {:induction false} ConcatAppend(a: seq<seq<byte>>, b: seq<seq<byte>>)
    ensures Concat(a + b) == Concat(a) + Concat(b)
    decreases |b|
  {
    if b == [] {
      assert a + b == a;
    } else {
      var b' := b[..|b| - 1];
      assert (a + b)[..|a + b| - 1] == a + b';
      ConcatAppend(a, b');
    }
  }

  /** Joining `n` chunks of `width` bytes each gives `n * width` bytes. */
  lemma {:induction false} ConcatUniformLength(chunks: seq<seq<byte>>, width: nat)
    requires forall i :: 0 <= i < |chunks| ==> |chunks[i]| == width
    ensures |Concat(chunks)| == |chunks| * width
    decreases |chunks|
  {
    if chunks != [] {
      ConcatUniformLength(chunks[..|chunks| - 1], width);
    }
  }
}
