/**
 * How ScalaSigClass.java stores the encoded signature string in the
 * `ScalaSignature` annotation: chopped into chunks of at most
 * `MAX_SPLIT_SIZE` characters, stored as one string when there is a single
 * chunk and as an array of strings otherwise.
 */
module Annotation {
  import opened Base

  /** The largest chunk the annotation holds. */
  const MAX_SPLIT_SIZE: nat := 65493

  /** The chunks joined back together, in order. */
  function Concat(chunks: seq<string>): string
  {
    if |chunks| == 0 then [] else Concat(Init(chunks)) + Last(chunks)
  }

  function Min(a: int, b: int): int
  {
    if a < b then a else b
  }

  /** `encoded.substring(i * MAX_SPLIT_SIZE, min((i + 1) * MAX_SPLIT_SIZE, length))`. */
  function Chunk(encoded: string, i: nat): (c: string)
    requires i <= |encoded| / MAX_SPLIT_SIZE
    ensures |c| <= MAX_SPLIT_SIZE
    ensures i < |encoded| / MAX_SPLIT_SIZE ==> |c| == MAX_SPLIT_SIZE
    ensures i == |encoded| / MAX_SPLIT_SIZE ==> |c| == |encoded| % MAX_SPLIT_SIZE
  {
    encoded[i * MAX_SPLIT_SIZE .. Min((i + 1) * MAX_SPLIT_SIZE, |encoded|)]
  }

  /**
   * `splits(encoded)`: `length / MAX_SPLIT_SIZE + 1` chunks, each of the
   * maximal size but the last, which holds the rest and is empty when the
   * length is a multiple of the maximum. Joined, they are `encoded` again.
   */
  method Splits(encoded: string) returns (chunks: seq<string>)
    ensures |chunks| == |encoded| / MAX_SPLIT_SIZE + 1
    ensures Concat(chunks) == encoded
    ensures forall k :: 0 <= k < |chunks| ==> |chunks[k]| <= MAX_SPLIT_SIZE
    ensures forall k :: 0 <= k < |chunks| - 1 ==> |chunks[k]| == MAX_SPLIT_SIZE
    ensures |encoded| % MAX_SPLIT_SIZE == 0 ==> Last(chunks) == []
    ensures |chunks| == 1 <==> |encoded| < MAX_SPLIT_SIZE
  {
    chunks := [];
    var splitCount := |encoded| / MAX_SPLIT_SIZE + 1;
    for i := 0 to splitCount
      invariant |chunks| == i
      invariant forall k :: 0 <= k < i ==> chunks[k] == Chunk(encoded, k)
      invariant Concat(chunks) == encoded[..Min(i * MAX_SPLIT_SIZE, |encoded|)]
    {
      var chunk := Chunk(encoded, i);
      var from, to := i * MAX_SPLIT_SIZE, Min((i + 1) * MAX_SPLIT_SIZE, |encoded|);
      assert encoded[..from] + chunk == encoded[..to];
      assert Init(chunks + [chunk]) == chunks;
      chunks := chunks + [chunk];
    }
    assert encoded[..|encoded|] == encoded;
  }

  /** The annotation value `getBytes` stores: one string, or an array of them. */
  datatype AnnotationValue = Single(text: string) | Parts(chunks: seq<string>)

  /**
   * The choice in `getBytes`: the single-string form exactly when the
   * encoded signature fits in one chunk. Either form holds the whole
   * encoded signature.
   */
  method SignatureAnnotation(encoded: string) returns (v: AnnotationValue)
    ensures v.Single? <==> |encoded| < MAX_SPLIT_SIZE
    ensures v.Single? ==> v.text == encoded
    ensures v.Parts? ==> Concat(v.chunks) == encoded && |v.chunks| > 1
  {
    var chunks := Splits(encoded);
    if |chunks| == 1 {
      assert Concat(chunks) == Concat([]) + chunks[0];
      v := Single(chunks[0]);
    } else {
      v := Parts(chunks);
    }
  }
}
