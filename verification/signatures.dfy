/**
 * The comparison loops of `doSignaturesMatch`, over the blob's bytes. `Blob.slice`
 * clamps its indices (a negative start counts from the end, then everything is held
 * between 0 and the size), and one read of the slice's stream is taken to deliver the
 * whole slice; an empty slice reads as no value.
 */
module Signatures {

  import opened Wrappers
  import opened Bytes

  /** A `Blob.slice` index: negative counts back from the end; the result lies in 0..size. */
  function RelativeIndex(size: nat, index: int): (r: nat)
    ensures r <= size
    ensures 0 <= index <= size ==> r == index
  {
    if index < 0 then (if size + index < 0 then 0 else size + index)
    else if index < size then index else size
  }

  /** `blob.slice(start, end)`. */
  function BlobSlice(blob: seq<byte>, start: int, end: int): (r: seq<byte>)
    ensures 0 <= start <= end <= |blob| ==> r == blob[start..end]
    ensures |r| <= |blob|
  {
    var from, to := RelativeIndex(|blob|, start), RelativeIndex(|blob|, end);
    if from <= to then blob[from..to] else []
  }

  /** The bytes read for the signature check: `blob.slice(0, signature.length)`. */
  function HeadRead(blob: seq<byte>, signature: seq<int>): (r: seq<byte>)
    ensures |r| <= |signature|
  {
    BlobSlice(blob, 0, |signature|)
  }

  /** The bytes read for the tail check: `blob.slice(blob.size - tail.length)`. */
  function TailRead(blob: seq<byte>, tail: seq<int>): (r: seq<byte>)
    ensures |r| <= |tail|
  {
    BlobSlice(blob, |blob| - |tail|, |blob|)
  }

  /** A read passes when it delivered a value and each byte read equals the expected byte at its index. */
  predicate Agrees(read: seq<byte>, expected: seq<int>)
  {
    read != [] && |read| <= |expected| && forall i | 0 <= i < |read| :: read[i] == expected[i]
  }

  /** What `doSignaturesMatch` answers: each check that is given must pass. */
  predicate Matches(blob: seq<byte>, signature: Option<seq<int>>, tail: Option<seq<int>>)
  {
    (signature.None? || Agrees(HeadRead(blob, signature.value), signature.value)) &&
    (tail.None? || Agrees(TailRead(blob, tail.value), tail.value))
  }

  /** Lines 37-73, with the blob's bytes in place of its stream. */
  method DoSignaturesMatch(blob: seq<byte>, signature: Option<seq<int>>, tail: Option<seq<int>>) returns (ok: bool)
    ensures ok == Matches(blob, signature, tail)
  {
    if signature.Some? {
      var blobStart := BlobSlice(blob, 0, |signature.value|);
      if blobStart == [] {
        return false;
      }
      for i := 0 to |blobStart|
        invariant forall j | 0 <= j < i :: blobStart[j] == signature.value[j]
      {
        if blobStart[i] != signature.value[i] {
          return false;
        }
      }
    }
    if tail.Some? {
      var blobEnd := BlobSlice(blob, |blob| - |tail.value|, |blob|);
      if blobEnd == [] {
        return false;
      }
      for i := 0 to |blobEnd|
        invariant forall j | 0 <= j < i :: blobEnd[j] == tail.value[j]
      {
        if blobEnd[i] != tail.value[i] {
          return false;
        }
      }
    }
    return true;
  }

  /** With neither a signature nor a tail there is nothing to check. */
  lemma NothingToCheck(blob: seq<byte>)
    ensures Matches(blob, None, None)
  {
  }

  /** An empty signature or tail reads an empty slice, which fails. */
  lemma EmptyPatternFails(blob: seq<byte>, signature: Option<seq<int>>, tail: Option<seq<int>>)
    requires signature == Some([]) || tail == Some([])
    ensures !Matches(blob, signature, tail)
  {
  }

  /** An empty blob fails every check that is given. */
  lemma EmptyBlobFails(signature: Option<seq<int>>, tail: Option<seq<int>>)
    requires signature.Some? || tail.Some?
    ensures !Matches([], signature, tail)
  {
  }

  /** With a blob at least as long as the signature, the head check is "the blob starts with it". */
  lemma HeadIsPrefix(blob: seq<byte>, signature: seq<int>)
    requires |signature| <= |blob|
    ensures Agrees(HeadRead(blob, signature), signature) <==> signature != [] && blob[..|signature|] == signature
  {
    var read := HeadRead(blob, signature);
    assert read == blob[..|signature|];
    if Agrees(read, signature) {
      assert read == signature;
    }
  }

  /** With a blob at least as long as the tail, the tail check is "the blob ends with it". */
  lemma TailIsSuffix(blob: seq<byte>, tail: seq<int>)
    requires |tail| <= |blob|
    ensures Agrees(TailRead(blob, tail), tail) <==> tail != [] && blob[|blob| - |tail|..] == tail
  {
    var read := TailRead(blob, tail);
    assert read == blob[|blob| - |tail|..];
    if Agrees(read, tail) {
      assert read == tail;
    }
  }

  /** A blob shorter than the signature is checked only on its own bytes. */
  lemma ShortHeadRead(blob: seq<byte>, signature: seq<int>)
    requires |blob| < |signature|
    ensures HeadRead(blob, signature) == blob
    ensures Agrees(HeadRead(blob, signature), signature) <==> blob != [] && blob == signature[..|blob|]
  {
    assert blob[..|blob|] == blob;
  }

  /**
   * A blob shorter than the tail is checked on its last `tail.length - size` bytes (all of
   * it once the tail is twice its size) against the FIRST bytes of the tail.
   */
  lemma ShortTailRead(blob: seq<byte>, tail: seq<int>)
    requires |blob| < |tail|
    ensures var from := if 2 * |blob| < |tail| then 0 else 2 * |blob| - |tail|;
      TailRead(blob, tail) == blob[from..]
  {
  }

  /** The JPEG signature and tail of `SUPPORTED_CONTENT_TYPES`. */
  const JpegSignature: seq<int> := [255, 216]
  const JpegTail: seq<int> := [255, 217]

  /** The PNG signature of `SUPPORTED_CONTENT_TYPES`. */
  const PngSignature: seq<int> := [137, 80, 78, 71, 13, 10, 26, 10]

  /** As written: the single byte 137 passes as a PNG file. */
  lemma PngPrefixPasses()
    ensures Matches([137], Some(PngSignature), None)
  {
    ShortHeadRead([137], PngSignature);
  }

  /** As written: the single byte 255 passes as a JPEG file, both its start and its end. */
  lemma JpegBytePasses()
    ensures Matches([255], Some(JpegSignature), Some(JpegTail))
  {
    ShortHeadRead([255], JpegSignature);
    ShortTailRead([255], JpegTail);
  }

  /** What the check is meant to answer: the blob starts with the signature and ends with the tail. */
  predicate IntendedMatch(blob: seq<byte>, signature: Option<seq<int>>, tail: Option<seq<int>>)
  {
    (signature.None? ||
      (signature.value != [] && |signature.value| <= |blob| && blob[..|signature.value|] == signature.value)) &&
    (tail.None? ||
      (tail.value != [] && |tail.value| <= |blob| && blob[|blob| - |tail.value|..] == tail.value))
  }

  /** On a blob at least as long as the signature and the tail, the two answers agree. */
  lemma LongBlobAgrees(blob: seq<byte>, signature: Option<seq<int>>, tail: Option<seq<int>>)
    requires signature.Some? ==> |signature.value| <= |blob|
    requires tail.Some? ==> |tail.value| <= |blob|
    ensures Matches(blob, signature, tail) == IntendedMatch(blob, signature, tail)
  {
    if signature.Some? {
      HeadIsPrefix(blob, signature.value);
    }
    if tail.Some? {
      TailIsSuffix(blob, tail.value);
    }
  }

  /** `doSignaturesMatch` with the blob first checked to be long enough for both patterns. */
  method DoSignaturesMatchChecked(blob: seq<byte>, signature: Option<seq<int>>, tail: Option<seq<int>>)
    returns (ok: bool)
    ensures ok == IntendedMatch(blob, signature, tail)
  {
    if (signature.Some? && |signature.value| > |blob|) || (tail.Some? && |tail.value| > |blob|) {
      return false;
    }
    ok := DoSignaturesMatch(blob, signature, tail);
    LongBlobAgrees(blob, signature, tail);
  }

  /** The corrected check turns away the one-byte PNG and JPEG files. */
  lemma CheckedRejectsShortBlobs()
    ensures !IntendedMatch([137], Some(PngSignature), None)
    ensures !IntendedMatch([255], Some(JpegSignature), Some(JpegTail))
  {
  }
}
