/** The dynamic chunker of the risk-assessment script: a cursor walks the
    document in steps of at most `maxChunkSize` characters; a slice longer
    than `minChunkSize` becomes a new chunk, one of at most `minChunkSize`
    characters is glued onto the last chunk, and with no last chunk to glue
    onto the list lookup raises.

    The document is a `string` (a sequence of code points, as Python slices
    it); reading it from a file is not part of this model. */
module Chunker {

  /** The exception the chunking loop can raise. */
  datatype Error =
    | IndexError  // `chunks[-1]` on the still empty chunk list

  datatype Result<T> = Success(value: T) | Failure(error: Error)

  const DefaultMaxChunkSize: int := 1500
  const DefaultMinChunkSize: int := 700

  function Min(a: int, b: int): int
  {
    if a <= b then a else b
  }

  /** The chunks joined back together, in order. */
  function Concat(chunks: seq<string>): string
  {
    if chunks == [] then "" else chunks[0] + Concat(chunks[1..])
  }

  /** The slices the cursor takes, in order: from each cursor position the
      next `min(maxChunkSize, remaining)` characters. */
  function Slices(document: string, maxChunkSize: int): seq<string>
    requires maxChunkSize > 0
    decreases |document|
  {
    if |document| == 0 then []
    else
      var end := Min(maxChunkSize, |document|);
      [document[..end]] + Slices(document[end..], maxChunkSize)
  }

  /** `chunks[-1] += piece`: the last chunk grows by `piece`, nothing else changes. */
  function GlueToLast(chunks: seq<string>, piece: string): (r: seq<string>)
    requires chunks != []
    ensures |r| == |chunks|
    ensures r[..|r| - 1] == chunks[..|chunks| - 1]
    ensures r[|r| - 1] == chunks[|chunks| - 1] + piece
  {
    chunks[|chunks| - 1 := chunks[|chunks| - 1] + piece]
  }

  /** What the chunker produces, stated on the slices rather than step by
      step: a first slice that is too short raises, a final slice that is
      too short is glued onto the chunk before it, and every other slice is
      a chunk of its own. */
  function Split(document: string, maxChunkSize: int, minChunkSize: int): Result<seq<string>>
    requires maxChunkSize > 0
  {
    var slices := Slices(document, maxChunkSize);
    if slices == [] then Success([])
    else if |slices[0]| <= minChunkSize then Failure(IndexError)
    else if |slices[|slices| - 1]| <= minChunkSize then
      Success(GlueToLast(slices[..|slices| - 1], slices[|slices| - 1]))
    else Success(slices)
  }

  /** The shape every successful chunking has: the chunks join back to the
      document, all but the last are exactly `maxChunkSize` long, every one
      is non-empty and longer than `minChunkSize`, and the last is either at
      most `maxChunkSize` long or a full slice with a short tail glued on. */
  predicate WellChunked(document: string, maxChunkSize: int, minChunkSize: int, chunks: seq<string>)
  {
    && Concat(chunks) == document
    && (forall i :: 0 <= i < |chunks| - 1 ==> |chunks[i]| == maxChunkSize)
    && (forall i :: 0 <= i < |chunks| ==> 0 < |chunks[i]| && minChunkSize < |chunks[i]|)
    && (chunks != [] ==>
          var last := |chunks[|chunks| - 1]|;
          last <= maxChunkSize
          || (minChunkSize < maxChunkSize && last <= maxChunkSize + minChunkSize))
  }

  /** Once the cursor has taken its last slice, `Split` is what the loop has
      built: the earlier slices are full-length chunks kept as they are. */
  lemma SplitAtLastSlice(document: string, maxChunkSize: int, minChunkSize: int,
                         taken: seq<string>, last: string)
    requires maxChunkSize > 0
    requires Slices(document, maxChunkSize) == taken + [last]
    requires forall i :: 0 <= i < |taken| ==> |taken[i]| == maxChunkSize > minChunkSize
    ensures |last| > minChunkSize ==>
      Split(document, maxChunkSize, minChunkSize) == Success(taken + [last])
    ensures |last| <= minChunkSize && taken == [] ==>
      Split(document, maxChunkSize, minChunkSize) == Failure(IndexError)
    ensures |last| <= minChunkSize && taken != [] ==>
      Split(document, maxChunkSize, minChunkSize) == Success(GlueToLast(taken, last))
  {
    var slices := taken + [last];
    assert slices[..|slices| - 1] == taken;
    if taken != [] {
      assert slices[0] == taken[0];
    }
  }

  /** `load_and_preprocess` once the document is in memory. */
  method LoadAndPreprocess(document: string,
                           maxChunkSize: int := DefaultMaxChunkSize,
                           minChunkSize: int := DefaultMinChunkSize)
    returns (r: Result<seq<string>>)
    requires maxChunkSize > 0
    ensures r == Split(document, maxChunkSize, minChunkSize)
  {
    var chunks: seq<string> := [];
    var start := 0;
    ghost var taken: seq<string> := [];  // the slices taken so far
    while start < |document|
      invariant 0 <= start <= |document|
      invariant Slices(document, maxChunkSize) == taken + Slices(document[start..], maxChunkSize)
      invariant start < |document| ==> chunks == taken
      invariant start < |document| ==>
        forall i :: 0 <= i < |taken| ==> |taken[i]| == maxChunkSize > minChunkSize
      invariant start == |document| ==> Split(document, maxChunkSize, minChunkSize) == Success(chunks)
      decreases |document| - start
    {
      var end := Min(start + maxChunkSize, |document|);
      var chunk := document[start..end];
      assert document[start..][..end - start] == chunk;
      assert document[start..][end - start..] == document[end..];
      assert Slices(document, maxChunkSize) == taken + [chunk] + Slices(document[end..], maxChunkSize);
      if end == |document| {
        assert Slices(document, maxChunkSize) == taken + [chunk];
        SplitAtLastSlice(document, maxChunkSize, minChunkSize, taken, chunk);
      }
      if |chunk| > minChunkSize {
        chunks := chunks + [chunk];
      } else if chunks == [] {
        return Failure(IndexError);
      } else {
        chunks := GlueToLast(chunks, chunk);
      }
      taken := taken + [chunk];
      start := end;
    }
    if |document| == 0 {
      assert Slices(document, maxChunkSize) == [];
    }
    return Success(chunks);
  }

  // ---------------------------------------------------------------------
  // Properties of the chunking

  lemma {:induction false} ConcatAppend(a: seq<string>, b: seq<string>)
    ensures Concat(a + b) == Concat(a) + Concat(b)
  {
    if a == [] {
      assert a + b == b;
    } else {
      assert (a + b)[1..] == a[1..] + b;
      ConcatAppend(a[1..], b);
    }
  }

  /** Gluing onto the last chunk keeps every character, in order. */
  lemma GlueToLastConcat(chunks: seq<string>, piece: string)
    requires chunks != []
    ensures Concat(GlueToLast(chunks, piece)) == Concat(chunks) + piece
  {
    var front := chunks[..|chunks| - 1];
    var last := chunks[|chunks| - 1];
    var glued := GlueToLast(chunks, piece);
    assert chunks == front + [last];
    assert glued == front + [last + piece];
    ConcatAppend(front, [last]);
    ConcatAppend(front, [last + piece]);
    assert Concat([last]) == last;
    assert Concat([last + piece]) == last + piece;
  }

  /** The cursor's slices cover the document exactly once, in order. */
  lemma {:induction false} SlicesConcat(document: string, maxChunkSize: int)
    requires maxChunkSize > 0
    ensures Concat(Slices(document, maxChunkSize)) == document
    decreases |document|
  {
    if |document| > 0 {
      var end := Min(maxChunkSize, |document|);
      SlicesConcat(document[end..], maxChunkSize);
      assert document[..end] + document[end..] == document;
    }
  }

  /** Every slice has length `min(maxChunkSize, len(document) - start)`: all
      but the last are exactly `maxChunkSize` long, and the last is non-empty
      and holds what is left. */
  lemma {:induction false} SlicesLengths(document: string, maxChunkSize: int)
    requires maxChunkSize > 0
    ensures var slices := Slices(document, maxChunkSize);
      && (forall i :: 0 <= i < |slices| - 1 ==> |slices[i]| == maxChunkSize)
      && (forall i :: 0 <= i < |slices| ==> 0 < |slices[i]| <= maxChunkSize)
      && (slices != [] ==>
            |slices[|slices| - 1]| == |document| - (|slices| - 1) * maxChunkSize)
      && (slices != [] ==>
            (|slices| - 1) * maxChunkSize < |document| <= |slices| * maxChunkSize)
    decreases |document|
  {
    if |document| > 0 {
      var end := Min(maxChunkSize, |document|);
      var rest := Slices(document[end..], maxChunkSize);
      SlicesLengths(document[end..], maxChunkSize);
      var slices := Slices(document, maxChunkSize);
      assert slices == [document[..end]] + rest;
      assert forall i :: 1 <= i < |slices| ==> slices[i] == rest[i - 1];
      if rest != [] {
        assert end == maxChunkSize;
        assert |slices| - 1 == |rest|;
        assert (|slices| - 1) * maxChunkSize == (|rest| - 1) * maxChunkSize + maxChunkSize;
        assert |slices| * maxChunkSize == |rest| * maxChunkSize + maxChunkSize;
      } else {
        assert |slices| == 1;
      }
    }
  }

  /** Nothing is dropped or duplicated: the chunks join back to the document. */
  lemma SplitConcat(document: string, maxChunkSize: int, minChunkSize: int)
    requires maxChunkSize > 0
    requires Split(document, maxChunkSize, minChunkSize).Success?
    ensures Concat(Split(document, maxChunkSize, minChunkSize).value) == document
  {
    var slices := Slices(document, maxChunkSize);
    SlicesConcat(document, maxChunkSize);
    if slices != [] && |slices[|slices| - 1]| <= minChunkSize {
      var front := slices[..|slices| - 1];
      var last := slices[|slices| - 1];
      assert slices == front + [last];
      assert |slices| > 1;
      ConcatAppend(front, [last]);
      assert Concat([last]) == last;
      GlueToLastConcat(front, last);
    }
  }

  /** Every successful chunking has the shape `WellChunked` describes. */
  lemma SplitWellChunked(document: string, maxChunkSize: int, minChunkSize: int)
    requires maxChunkSize > 0
    requires Split(document, maxChunkSize, minChunkSize).Success?
    ensures WellChunked(document, maxChunkSize, minChunkSize,
                        Split(document, maxChunkSize, minChunkSize).value)
  {
    var slices := Slices(document, maxChunkSize);
    SplitConcat(document, maxChunkSize, minChunkSize);
    SlicesLengths(document, maxChunkSize);
    if slices != [] {
      assert |slices[0]| > minChunkSize;
      if |slices| > 1 {
        assert |slices[0]| == maxChunkSize;
      }
      if |slices[|slices| - 1]| <= minChunkSize {
        var chunks := Split(document, maxChunkSize, minChunkSize).value;
        assert |slices| > 1;
        assert forall i :: 0 <= i < |chunks| - 1 ==> chunks[i] == slices[i];
      }
    }
  }

  /** The converse: a chunk list of that shape is the one the chunker
      produces, so `WellChunked` pins the chunking down uniquely. */
  lemma {:induction false} WellChunkedIsSplit(document: string, maxChunkSize: int, minChunkSize: int,
                                             chunks: seq<string>)
    requires maxChunkSize > 0
    requires WellChunked(document, maxChunkSize, minChunkSize, chunks)
    ensures Split(document, maxChunkSize, minChunkSize) == Success(chunks)
    decreases |chunks|
  {
    if chunks == [] {
      assert document == "";
    } else if |chunks| == 1 {
      assert Concat(chunks[1..]) == "";
      assert document == chunks[0];
      assert chunks == [document];
      SingleChunkIsSplit(document, maxChunkSize, minChunkSize);
    } else {
      var head, rest := chunks[0], chunks[1..];
      var tail := Concat(rest);
      assert chunks == [head] + rest;
      assert document == head + tail;
      assert rest[0] == chunks[1];
      assert Concat(rest) == rest[0] + Concat(rest[1..]);
      assert WellChunked(tail, maxChunkSize, minChunkSize, rest) by {
        assert forall i :: 0 <= i < |rest| ==> rest[i] == chunks[i + 1];
      }
      WellChunkedIsSplit(tail, maxChunkSize, minChunkSize, rest);
      assert document[..maxChunkSize] == head;
      assert document[maxChunkSize..] == tail;
      SplitFullSliceThenRest(document, maxChunkSize, minChunkSize, rest);
    }
  }

  /** A single chunk of the `WellChunked` shape is what the chunker returns. */
  lemma SingleChunkIsSplit(document: string, maxChunkSize: int, minChunkSize: int)
    requires maxChunkSize > 0
    requires 0 < |document| && minChunkSize < |document|
    requires |document| <= maxChunkSize
          || (minChunkSize < maxChunkSize && |document| <= maxChunkSize + minChunkSize)
    ensures Split(document, maxChunkSize, minChunkSize) == Success([document])
  {
    var n := |document|;
    if n > maxChunkSize {
      var tail := document[maxChunkSize..];
      assert 0 < |tail| < maxChunkSize;
      assert tail[..|tail|] == tail;
      assert Slices(tail[|tail|..], maxChunkSize) == [];
      assert Slices(tail, maxChunkSize) == [tail];
      var slices := Slices(document, maxChunkSize);
      assert slices == [document[..maxChunkSize], tail];
      assert |tail| <= minChunkSize;
      assert slices[..1] == [document[..maxChunkSize]];
      assert document[..maxChunkSize] + tail == document;
      assert GlueToLast(slices[..1], tail) == [document];
    } else {
      assert document[..n] == document;
      assert Slices(document[n..], maxChunkSize) == [];
      assert Slices(document, maxChunkSize) == [document];
    }
  }

  /** A full first slice longer than `minChunkSize` stays a chunk of its own
      in front of whatever the rest of the document is chunked into. */
  lemma SplitFullSliceThenRest(document: string, maxChunkSize: int, minChunkSize: int,
                               rest: seq<string>)
    requires 0 < maxChunkSize < |document|
    requires minChunkSize < maxChunkSize
    requires Split(document[maxChunkSize..], maxChunkSize, minChunkSize) == Success(rest)
    ensures Split(document, maxChunkSize, minChunkSize) == Success([document[..maxChunkSize]] + rest)
  {
    var head, tail := document[..maxChunkSize], document[maxChunkSize..];
    var restSlices := Slices(tail, maxChunkSize);
    var slices := Slices(document, maxChunkSize);
    assert slices == [head] + restSlices;
    assert restSlices != [];
    assert slices[0] == head;
    assert slices[|slices| - 1] == restSlices[|restSlices| - 1];
    if |restSlices[|restSlices| - 1]| <= minChunkSize {
      assert |restSlices| > 1;
      assert slices[..|slices| - 1] == [head] + restSlices[..|restSlices| - 1];
      assert GlueToLast(slices[..|slices| - 1], slices[|slices| - 1])
          == [head] + GlueToLast(restSlices[..|restSlices| - 1], restSlices[|restSlices| - 1]);
    }
  }

  /** The chunker raises exactly when the document is non-empty and its
      first slice is not longer than `minChunkSize`; the empty document
      gives no chunks. */
  lemma SplitFailsIff(document: string, maxChunkSize: int, minChunkSize: int)
    requires maxChunkSize > 0
    ensures Split(document, maxChunkSize, minChunkSize).Failure?
        <==> 0 < |document| && Min(maxChunkSize, |document|) <= minChunkSize
    ensures |document| == 0 ==> Split(document, maxChunkSize, minChunkSize) == Success([])
  {
  }

  /** With `minChunkSize >= maxChunkSize` no non-empty document can be chunked. */
  lemma MinNotBelowMaxFails(document: string, maxChunkSize: int, minChunkSize: int)
    requires 0 < maxChunkSize <= minChunkSize
    requires |document| > 0
    ensures Split(document, maxChunkSize, minChunkSize) == Failure(IndexError)
  {
    SplitFailsIff(document, maxChunkSize, minChunkSize);
  }

  /** With the default sizes a 2000-character document comes back as one
      chunk: the 500-character tail is glued onto the first 1500. */
  lemma DefaultSizesGlueTail(document: string)
    requires |document| == 2000
    ensures Split(document, DefaultMaxChunkSize, DefaultMinChunkSize) == Success([document])
  {
    var tail := document[1500..];
    assert tail[..500] == tail;
    assert Slices(tail[500..], DefaultMaxChunkSize) == [];
    assert Slices(tail, DefaultMaxChunkSize) == [tail];
    var slices := Slices(document, DefaultMaxChunkSize);
    assert slices == [document[..1500], tail];
    assert slices[..1] == [document[..1500]];
    assert document[..1500] + tail == document;
    assert GlueToLast(slices[..1], tail) == [document];
  }

  /** With the default sizes any non-empty document of at most 700
      characters makes the chunker raise. */
  lemma DefaultSizesShortDocumentFails(document: string)
    requires 0 < |document| <= DefaultMinChunkSize
    ensures Split(document, DefaultMaxChunkSize, DefaultMinChunkSize) == Failure(IndexError)
  {
    SplitFailsIff(document, DefaultMaxChunkSize, DefaultMinChunkSize);
  }
}
