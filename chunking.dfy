/** `App.utils.chunk`: cut a list into consecutive pieces of `size` elements. */
module Chunking {

  /** The pieces written one after another. */
  function Flatten<T>(chunks: seq<seq<T>>): seq<T> {
    if chunks == [] then [] else Flatten(chunks[..|chunks| - 1]) + chunks[|chunks| - 1]
  }

  /** Every piece holds `size` elements except the last, which holds between
      1 and `size`. */
  ghost predicate WellCut<T>(chunks: seq<seq<T>>, size: int) {
    && (forall k :: 0 <= k < |chunks| - 1 ==> |chunks[k]| == size)
    && (chunks != [] ==> 1 <= |chunks[|chunks| - 1]| <= size)
  }

  /** Appending a piece appends its elements. */
  lemma FlattenSnoc<T>(chunks: seq<seq<T>>, piece: seq<T>)
    ensures Flatten(chunks + [piece]) == Flatten(chunks) + piece
  {
    assert (chunks + [piece])[..|chunks|] == chunks;
  }

  lemma MulMonotone(a: int, b: int, c: nat)
    requires a <= b
    ensures a * c <= b * c
  {
  }

  /** With `n` pieces of `size` covering `len` elements, `n` is the
      rounded-up quotient. */
  lemma CeilingDivision(len: nat, size: nat, n: nat)
    requires size > 0
    requires n * size - size < len <= n * size
    ensures (len + size - 1) / size == n
  {
    var x := len + size - 1;
    var q, r := x / size, x % size;
    assert x == q * size + r && 0 <= r < size;
    if q < n {
      MulMonotone(q, n - 1, size);
      assert false;
    } else if q > n {
      MulMonotone(n + 1, q, size);
      assert false;
    }
  }

  /** Pieces of `size` elements each hold `size` elements per piece. */
  lemma {:induction false} FlattenOfFull<T>(chunks: seq<seq<T>>, size: int)
    requires forall k :: 0 <= k < |chunks| ==> |chunks[k]| == size
    ensures |Flatten(chunks)| == |chunks| * size
  {
    if chunks != [] {
      var n := |chunks|;
      FlattenOfFull(chunks[..n - 1], size);
      assert (n - 1) * size + size == n * size;
    }
  }

  /** A well-cut list of `n` pieces holds more than `(n - 1) * size` and at
      most `n * size` elements. */
  lemma WellCutLength<T>(chunks: seq<seq<T>>, size: int)
    requires size > 0
    requires WellCut(chunks, size) && chunks != []
    ensures |chunks| * size - size < |Flatten(chunks)| <= |chunks| * size
  {
    var m := |chunks| - 1;
    var init := chunks[..m];
    assert forall k :: 0 <= k < |init| ==> |init[k]| == size by {
      forall k | 0 <= k < |init| ensures |init[k]| == size {
        assert init[k] == chunks[k];
      }
    }
    FlattenOfFull(init, size);
    assert Flatten(chunks) == Flatten(init) + chunks[m];
    var full := m * size;
    assert |chunks| * size == full + size;
  }

  /** A well-cut list of pieces has as many pieces as the rounded-up
      quotient of its length by `size`. */
  lemma CountOfWellCut<T>(chunks: seq<seq<T>>, size: int)
    requires size > 0
    requires WellCut(chunks, size)
    ensures |chunks| == (|Flatten(chunks)| + size - 1) / size
  {
    if chunks != [] {
      WellCutLength(chunks, size);
      CeilingDivision(|Flatten(chunks)|, size, |chunks|);
    }
  }

  /** The loop of `chunk`: `i` advances by `size` and each step pushes
      `array.slice(i, i + size)`, which stops at the end of the array.
      With `size <= 0` that loop never ends on a non-empty array, so the
      source's callers must pass a positive size unless the array is empty. */
  method Chunk<T>(a: seq<T>, size: int) returns (chunks: seq<seq<T>>)
    requires size > 0 || a == []
    ensures Flatten(chunks) == a
    ensures WellCut(chunks, size)
    ensures a == [] <==> chunks == []
    ensures size > 0 ==> |chunks| == (|a| + size - 1) / size
  {
    chunks := [];
    var i := 0;
    while i < |a|
      invariant 0 <= i
      invariant chunks == [] <==> i == 0
      invariant i <= |a| ==> Flatten(chunks) == a[..i]
      invariant i <= |a| ==> forall k :: 0 <= k < |chunks| ==> |chunks[k]| == size
      invariant i > |a| ==> Flatten(chunks) == a && WellCut(chunks, size)
      decreases |a| - i
    {
      var end := if i + size < |a| then i + size else |a|;
      var piece := a[i..end];
      FlattenSnoc(chunks, piece);
      assert a[..end] == a[..i] + piece;
      chunks := chunks + [piece];
      i := i + size;
    }
    assert a[..|a|] == a;
    if size > 0 {
      CountOfWellCut(chunks, size);
    }
  }
}
