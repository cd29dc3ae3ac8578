/**
 * The decoding stage: every input blob is handed to the image loader and
 * the blobs it rejects are dropped, the others keeping their input order.
 */
module Decoding {
  import opened Pixels
  import opened SeqFacts

  datatype Option<T> = None | Some(value: T)

  /** One encoded input image, as the caller passed it. */
  type Blob = seq<byte>

  /**
   * The images that decode, in input order: `filter_map` over the blobs
   * with the loader, whose `Err` results are discarded.
   */
  function DecodeAll(blobs: seq<Blob>, decode: Blob -> Option<RgbaImage>): (images: seq<RgbaImage>)
    ensures |images| <= |blobs|
  {
    if blobs == [] then []
    else
      var last := blobs[|blobs| - 1];
      DecodeAll(blobs[..|blobs| - 1], decode) + Decoded(last, decode)
  }

  /** The positions, in increasing order, of the blobs that decode. */
  function SuccessIndices(blobs: seq<Blob>, decode: Blob -> Option<RgbaImage>): (ix: seq<nat>)
    ensures forall k :: 0 <= k < |ix| ==> ix[k] < |blobs| && decode(blobs[ix[k]]).Some?
    ensures forall k, l :: 0 <= k < l < |ix| ==> ix[k] < ix[l]
    ensures forall j :: 0 <= j < |blobs| && decode(blobs[j]).Some? ==> j in ix
  {
    if blobs == [] then []
    else
      var n := |blobs| - 1;
      var prefix := SuccessIndices(blobs[..n], decode);
      assert forall j :: 0 <= j < n ==> blobs[..n][j] == blobs[j];
      prefix + (if decode(blobs[n]).Some? then [n] else [])
  }

  /**
   * The decoded images are exactly the loader's results for the blobs that
   * decode, taken in input order: the k-th image comes from the k-th
   * successful blob.
   */
  lemma {:induction false} DecodeAllIsSuccessesInOrder(blobs: seq<Blob>, decode: Blob -> Option<RgbaImage>)
    ensures |DecodeAll(blobs, decode)| == |SuccessIndices(blobs, decode)|
    ensures forall k :: 0 <= k < |DecodeAll(blobs, decode)| ==>
      decode(blobs[SuccessIndices(blobs, decode)[k]]) == Some(DecodeAll(blobs, decode)[k])
  {
    if blobs != [] {
      var n := |blobs| - 1;
      var prefix := blobs[..n];
      DecodeAllIsSuccessesInOrder(prefix, decode);
      var ix, images := SuccessIndices(prefix, decode), DecodeAll(prefix, decode);
      var ix', images' := SuccessIndices(blobs, decode), DecodeAll(blobs, decode);
      forall k | 0 <= k < |images'|
        ensures decode(blobs[ix'[k]]) == Some(images'[k])
      {
        if k < |images| {
          assert ix'[k] == ix[k] && images'[k] == images[k];
          assert prefix[ix[k]] == blobs[ix[k]];
        }
      }
    }
  }

  /** Nothing decodes exactly when every blob is rejected by the loader. */
  lemma {:induction false} DecodeAllEmptyIff(blobs: seq<Blob>, decode: Blob -> Option<RgbaImage>)
    ensures DecodeAll(blobs, decode) == [] <==> forall j :: 0 <= j < |blobs| ==> decode(blobs[j]).None?
  {
    if blobs != [] {
      var n := |blobs| - 1;
      DecodeAllEmptyIff(blobs[..n], decode);
      assert forall j :: 0 <= j < n ==> blobs[..n][j] == blobs[j];
    }
  }

  /** Decoding distributes over concatenation of batches. */
  lemma {:induction false} DecodeAllAppend(a: seq<Blob>, b: seq<Blob>, decode: Blob -> Option<RgbaImage>)
    ensures DecodeAll(a + b, decode) == DecodeAll(a, decode) + DecodeAll(b, decode)
  {
    if b == [] {
      assert a + b == a;
    } else {
      var n := |b| - 1;
      assert (a + b)[..|a + b| - 1] == a + b[..n];
      DecodeAllAppend(a, b[..n], decode);
    }
  }

  /** The images that blob `b` contributes: one if it decodes, none otherwise. */
  function Decoded(b: Blob, decode: Blob -> Option<RgbaImage>): (images: seq<RgbaImage>)
    ensures |images| <= 1
    ensures images == [] <==> decode(b).None?
    ensures decode(b).Some? ==> images == [decode(b).value]
  {
    match decode(b) case Some(img) => [img] case None => []
  }

  /** Decoding a batch whose element j is taken out. */
  lemma DecodeAllRemove(b: seq<Blob>, j: nat, decode: Blob -> Option<RgbaImage>)
    requires j < |b|
    ensures multiset(DecodeAll(b, decode)) ==
      multiset(DecodeAll(b[..j] + b[j + 1..], decode)) + multiset(Decoded(b[j], decode))
  {
    var left, x, right := b[..j], b[j], b[j + 1..];
    SplitAt(b, j);
    DecodeAllAppend(left + [x], right, decode);
    DecodeAllAppend(left, [x], decode);
    assert [x][..0] == [];
    assert DecodeAll([x], decode) == Decoded(x, decode);
    DecodeAllAppend(left, right, decode);
  }

  /**
   * Reordering the blobs reorders the decoded images and nothing else: the
   * same images, each as many times, come out.
   */
  lemma {:induction false} DecodeAllPermutation(a: seq<Blob>, b: seq<Blob>, decode: Blob -> Option<RgbaImage>)
    requires multiset(a) == multiset(b)
    ensures multiset(DecodeAll(a, decode)) == multiset(DecodeAll(b, decode))
    decreases |a|
  {
    if a == [] {
      assert |b| == |multiset(b)| == 0;
    } else {
      var n := |a| - 1;
      assert a[n] in multiset(b);
      var j :| 0 <= j < |b| && b[j] == a[n];
      var rest := b[..j] + b[j + 1..];
      RemoveMatching(a, b, j);
      DecodeAllPermutation(a[..n], rest, decode);
      DecodeAllRemove(b, j, decode);
      assert DecodeAll(a, decode) == DecodeAll(a[..n], decode) + Decoded(a[n], decode);
    }
  }
}
