/**
 * `src/detection.rs`: its private base64 codec, the data-URI helpers built
 * on it, and the clipping of a `u32` face box to the image before cropping.
 *
 * The codec loops are proved against the `Base64` specification. This
 * decoder looks a character up by the position of `ch as u8` in the
 * alphabet, that is, by its code point truncated to 8 bits.
 */
module Detection {
  import opened Wrappers
  import opened Ints
  import Base64
  import Types
  import Imaging

  /** The two failures this file can report. */
  datatype FaceDetectionError = Base64Error | ImageProcessing

  // ------------------------------------------------------------------- encode

  /**
   * `base64_encode`: 3 bytes at a time through a zero-filled 3-byte buffer,
   * four characters per turn.
   */
  method Base64Encode(data: seq<Byte>) returns (result: string)
    ensures result == Base64.Encode(data)
  {
    result := "";
    var i := 0;
    while i < |data|
      invariant i % 3 == 0 && i < |data| + 3
      invariant result == Base64.Encode(data[..Min(i, |data|)])
    {
      result := Base64.EncodeTurn(data, i, result);
      i := i + 3;
    }
    assert data[..|data|] == data;
  }

  // ------------------------------------------------------------------- decode

  /** Rust's `ch as u8`, as a number: the code point truncated to its low 8 bits. */
  function LowByte(ch: char): (b: int)
    ensures 0 <= b < 256
    ensures ch as int < 256 ==> b == ch as int
    ensures (ch as int - b) % 256 == 0
  {
    (ch as int) % 256
  }

  /**
   * `CHARS.iter().position(|&c| c == code)` on the byte string `table`: the
   * first index whose byte is `code`.
   */
  function Position(table: string, code: int): (r: Option<nat>)
    ensures r.Some? ==> r.value < |table| && table[r.value] as int == code
    ensures r.Some? ==> forall j | 0 <= j < r.value :: table[j] as int != code
    ensures r.None? <==> forall j | 0 <= j < |table| :: table[j] as int != code
    decreases |table|
  {
    if table == [] then None
    else if table[0] as int == code then Some(0)
    else match Position(table[1..], code)
      case None => None
      case Some(p) => Some(p + 1)
  }

  /** This decoder's lookup: the position of `ch as u8` in the alphabet. */
  function TruncatingLookup(ch: char): (r: Option<Base64.Sextet>)
    ensures r.Some? ==> Base64.Symbol(r.value) as int == LowByte(ch)
    ensures r.None? <==> forall j | 0 <= j < |Base64.CHARS| :: Base64.CHARS[j] as int != LowByte(ch)
  {
    match Position(Base64.CHARS, LowByte(ch))
    case None => None
    case Some(p) => Some(Base64.AsSextet(p))
  }

  /** The lookup gives every alphabet symbol its own index. */
  lemma TruncatingInvertsTable()
    ensures Base64.InvertsTable(TruncatingLookup)
  {
    Base64.CharsDistinctData();
    forall v: Base64.Sextet
      ensures TruncatingLookup(Base64.Symbol(v)) == Some(v)
    {
      SymbolFound(v);
    }
  }

  lemma SymbolFound(v: Base64.Sextet)
    ensures Position(Base64.CHARS, LowByte(Base64.Symbol(v))) == Some(v as int)
    ensures Base64.AsSextet(v as int) == v
  {
    Base64.CharsDistinctData();
    assert LowByte(Base64.Symbol(v)) == Base64.CHARS[v as int] as int;
  }

  /** What `base64_decode` returns: the bytes, or `Base64Error` for any rejected character. */
  function DecodedBytes(data: string): Result<seq<Byte>, FaceDetectionError>
  {
    match Base64.Decode(data, TruncatingLookup)
    case Ok(bytes) => Ok(bytes)
    case Err(_) => Err(Base64Error)
  }

  /**
   * `base64_decode`: one character at a time into a 32-bit buffer; `bits`
   * counts the low bits of `buffer` not yet emitted.
   */
  method Base64Decode(data: string) returns (r: Result<seq<Byte>, FaceDetectionError>)
    ensures r == DecodedBytes(data)
  {
    var result: seq<Byte> := [];
    var buffer: bv32 := 0;
    var bits: nat := 0;
    ghost var read: seq<Base64.Sextet> := [];
    assert data[0..] == data;
    Base64.PrependNothing(Base64.Sextets(data, TruncatingLookup));

    for idx := 0 to |data|
      invariant Base64.Prepend(read, Base64.Sextets(data[idx..], TruncatingLookup)) == Base64.Sextets(data, TruncatingLookup)
      invariant result == Base64.Pack(read)
      invariant Base64.Pending(buffer, bits, read)
    {
      var ch := data[idx];
      Base64.SextetsAt(data, idx, TruncatingLookup);
      if ch == ' ' || ch == '\n' || ch == '\r' {
        continue;
      }
      if ch == '=' {
        break;
      }
      var value;
      match TruncatingLookup(ch) {
        case None =>
          return Err(Base64Error);
        case Some(v) =>
          value := v;
      }

      buffer, bits, result := Base64.Accumulate(buffer, bits, result, read, value);
      Base64.PrependTwice(read, [value], Base64.Sextets(data[idx + 1..], TruncatingLookup));
      read := read + [value];
    }
    assert read + [] == read;
    return Ok(result);
  }

  // ---------------------------------------------------------------- data URIs

  const PNG_PREFIX: string := "data:image/png;base64,"

  /** `strip_prefix`: what follows `prefix` in `s`, if `s` starts with it. */
  function StripPrefix(s: string, prefix: string): (r: Option<string>)
    ensures r.Some? <==> |prefix| <= |s| && s[..|prefix|] == prefix
    ensures r.Some? ==> s == prefix + r.value
  {
    if |prefix| <= |s| && s[..|prefix|] == prefix then Some(s[|prefix|..]) else None
  }

  /** The base64 part of a data URI: after the JPEG prefix, else after the PNG prefix, else all of it. */
  function Payload(uri: string): (r: string)
    ensures StripPrefix(uri, Base64.JPEG_PREFIX).Some? ==> uri == Base64.JPEG_PREFIX + r
    ensures StripPrefix(uri, Base64.JPEG_PREFIX).None? && StripPrefix(uri, PNG_PREFIX).Some? ==> uri == PNG_PREFIX + r
    ensures StripPrefix(uri, Base64.JPEG_PREFIX).None? && StripPrefix(uri, PNG_PREFIX).None? ==> r == uri
  {
    match StripPrefix(uri, Base64.JPEG_PREFIX)
    case Some(rest) => rest
    case None =>
      match StripPrefix(uri, PNG_PREFIX)
      case Some(rest) => rest
      case None => uri
  }

  /** `decode_base64_image`: strip a known prefix, decode the rest. */
  method DecodeBase64Image(dataUri: string) returns (r: Result<seq<Byte>, FaceDetectionError>)
    ensures r == DecodedBytes(Payload(dataUri))
  {
    var base64Data := Payload(dataUri);
    r := Base64Decode(base64Data);
  }

  /**
   * `image_to_base64` past the JPEG encoder: `jpeg` is the encoder's output,
   * or None when it failed.
   */
  method ImageToBase64(jpeg: Option<seq<Byte>>) returns (r: Result<string, FaceDetectionError>)
    ensures jpeg.None? ==> r == Err(ImageProcessing)
    ensures jpeg.Some? ==> r == Ok(Base64.JPEG_PREFIX + Base64.Encode(jpeg.value))
  {
    if jpeg.None? {
      return Err(ImageProcessing);
    }
    var encoded := Base64Encode(jpeg.value);
    return Ok(Base64.JPEG_PREFIX + encoded);
  }

  /** Round trip of this decoder on every byte string. */
  lemma DecodeEncode(b: seq<Byte>)
    ensures DecodedBytes(Base64.Encode(b)) == Ok(b)
  {
    TruncatingInvertsTable();
    Base64.RoundTrip(b, TruncatingLookup);
  }

  /** Decoding the data URI `image_to_base64` builds gives back the encoder's bytes. */
  lemma DataUriRoundTrip(b: seq<Byte>)
    ensures DecodedBytes(Payload(Base64.JPEG_PREFIX + Base64.Encode(b))) == Ok(b)
  {
    var uri := Base64.JPEG_PREFIX + Base64.Encode(b);
    assert uri[..|Base64.JPEG_PREFIX|] == Base64.JPEG_PREFIX;
    assert uri[|Base64.JPEG_PREFIX|..] == Base64.Encode(b);
    DecodeEncode(b);
  }

  /** A lone symbol is 6 bits, less than a byte: it decodes to nothing, without error. */
  lemma LoneSymbolDecodesEmpty()
    ensures DecodedBytes("Q") == Ok([])
  {
    TruncatingInvertsTable();
    assert Base64.Symbol(16) == 'Q';
    assert TruncatingLookup('Q') == Some(16);
    assert "Q"[1..] == [];
  }

  /** Tab is not skipped: it is looked up, and rejected. */
  lemma TabRejected()
    ensures DecodedBytes("\t") == Err(Base64Error)
  {
    Base64.CharsDistinctData();
    assert Position(Base64.CHARS, LowByte('\t')).None?;
  }

  /**
   * A character outside ASCII is read as its code point mod 256: U+0141
   * (321 = 256 + 65) is taken for 'A'.
   */
  lemma TruncatedCodePointAccepted()
    ensures TruncatingLookup('Ł') == TruncatingLookup('A') == Some(0)
  {
    assert LowByte('Ł') == LowByte('A') == Base64.CHARS[0] as int;
    assert Base64.AsSextet(0) == 0;
  }

  // ------------------------------------------------------------------ cropping

  /**
   * `crop_face` on an image of `imageWidth` x `imageHeight`: the box keeps
   * its corner and is cut back to the image edge. `img_width - x` and
   * `img_height - y` are `u32` subtractions: a corner beyond the image
   * makes one of them underflow, and the call panics.
   */
  function CropFace(imageWidth: U32, imageHeight: U32, face: Types.Face): (r: Outcome<Result<Imaging.Region, FaceDetectionError>>)
    ensures r.Panics? <==> face.x > imageWidth || face.y > imageHeight
    ensures r.Returns? ==> r.value.Ok?
    ensures r.Returns? ==> var c := r.value.value;
      && c.x == face.x && c.y == face.y
      && c.x + c.width <= imageWidth && c.y + c.height <= imageHeight
      && c.width <= face.width && c.height <= face.height
      && (c.width == face.width || c.x + c.width == imageWidth)
      && (c.height == face.height || c.y + c.height == imageHeight)
  {
    if face.x > imageWidth || face.y > imageHeight then Panics
    else
      Returns(Ok(Imaging.Region(Max(face.x, 0), Max(face.y, 0),
        Min(face.width, imageWidth - Max(face.x, 0)), Min(face.height, imageHeight - Max(face.y, 0)))))
  }

  /** A corner past the right edge makes `img_width - x` underflow. */
  lemma CornerPastEdgePanics()
    ensures CropFace(100, 100, Types.Face(150, 0, 10, 10, 0.9)) == Panics
    ensures CropFace(100, 100, Types.Face(100, 100, 10, 10, 0.9)) == Returns(Ok(Imaging.Region(100, 100, 0, 0)))
  {
  }

  /** A box that already lies inside the image is cropped exactly. */
  lemma CropInsideUnchanged(imageWidth: U32, imageHeight: U32, face: Types.Face)
    requires face.x + face.width <= imageWidth && face.y + face.height <= imageHeight
    ensures CropFace(imageWidth, imageHeight, face) == Returns(Ok(Imaging.Region(face.x, face.y, face.width, face.height)))
  {
  }

  /** The cropped area is never more than the box's own area. */
  lemma CropAreaAtMostFace(imageWidth: U32, imageHeight: U32, face: Types.Face)
    requires face.x <= imageWidth && face.y <= imageHeight
    requires face.width * face.height < U32_LIMIT
    ensures var c := CropFace(imageWidth, imageHeight, face).value.value;
      c.width * c.height <= face.Area()
  {
    var c := CropFace(imageWidth, imageHeight, face).value.value;
    MulMonotone(c.width, face.width, c.height, face.height);
  }

  lemma MulMonotone(a: nat, b: nat, c: nat, d: nat)
    requires a <= b && c <= d
    ensures a * c <= b * d
  {
    assert a * c <= b * c;
    assert b * c <= b * d;
  }
}
