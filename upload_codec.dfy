/**
 * `src/api/upload.rs`: the third copy of the base64 encoder, and the data
 * URI that `image_to_base64` builds from the JPEG encoder's output.
 */
module UploadCodec {
  import opened Wrappers
  import opened Ints
  import Base64
  import Models

  /** `base64::encode`: the same 3-bytes-per-turn loop as the other copies. */
  method Encode(data: seq<Byte>) returns (result: string)
    ensures result == Base64.Encode(data)
  {
    result := "";
    var i := 0;
    while i < |data|
      invariant i % 3 == 0 && i < |data| + 3
      invariant result == Base64.Encode(data[..Min(i, |data|)])
    {
      result := Base64.EncodeTurn(data, i, result);
      i := i + 3;
    }
    assert data[..|data|] == data;
  }

  /**
   * `image_to_base64` past the JPEG encoder: `jpeg` is the encoder's output,
   * or None when it failed.
   */
  method ImageToBase64(jpeg: Option<seq<Byte>>) returns (r: Result<string, Models.ApiError>)
    ensures jpeg.None? ==> r == Err(Models.ImageProcessingFailed)
    ensures jpeg.Some? ==> r == Ok(Base64.JPEG_PREFIX + Base64.Encode(jpeg.value))
  {
    if jpeg.None? {
      return Err(Models.ImageProcessingFailed);
    }
    var encoded := Encode(jpeg.value);
    return Ok(Base64.JPEG_PREFIX + encoded);
  }

  /** `=` appears only in the last group of four characters. */
  lemma PaddingOnlyInLastGroup(b: seq<Byte>)
    ensures var r := Base64.Encode(b);
      forall i | 0 <= i < |r| && r[i] == Base64.PAD :: |r| - 4 <= i
  {
    Base64.EncodeShape(b);
  }
}
