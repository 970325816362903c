/**
 * How the three hand-written copies of the codec relate: the encoders of
 * `src/detection.rs`, `src/api/crop.rs` and `src/api/upload.rs` agree on
 * every input; the two decoders agree on ASCII text and part ways on other
 * characters, which `src/detection.rs` reads by their low 8 bits.
 */
module CodecAgreement {
  import opened Wrappers
  import opened Ints
  import Base64
  import Detection
  import CropCodec
  import UploadCodec

  /** The three encoders produce the same text for every byte string. */
  method EncodersAgree(data: seq<Byte>) returns (detection: string, crop: string, upload: string)
    ensures detection == crop == upload == Base64.Encode(data)
  {
    detection := Detection.Base64Encode(data);
    crop := CropCodec.Encode(data);
    upload := UploadCodec.Encode(data);
  }

  /**
   * The decoder of `src/detection.rs` looks a character up exactly as the
   * range match of `src/api/crop.rs` looks up the character `c` whose code
   * is its low byte (`ch as u8`).
   */
  lemma TruncatingIsRangeOfLowByte(ch: char, c: char)
    requires c as int == Detection.LowByte(ch)
    ensures Detection.TruncatingLookup(ch) == CropCodec.RangeLookup(c)
  {
    Base64.CharsDistinctData();
    if CropCodec.RangeLookup(c).Some? {
      var v := CropCodec.RangeLookup(c).value;
      CropCodec.RecognisedIsSymbol(c);
      Detection.SymbolFound(v);
    } else {
      forall j | 0 <= j < |Base64.CHARS|
        ensures Base64.CHARS[j] as int != Detection.LowByte(ch)
      {
        var v := Base64.AsSextet(j);
        CropCodec.SymbolRecognised(v);
      }
    }
  }

  /** On ASCII characters the two lookups agree. */
  lemma LookupsAgreeOnAscii(ch: char)
    requires ch as int < 128
    ensures Detection.TruncatingLookup(ch) == CropCodec.RangeLookup(ch)
  {
    TruncatingIsRangeOfLowByte(ch, ch);
  }

  /** On ASCII text the two decoders accept the same inputs and return the same bytes. */
  lemma DecodersAgreeOnAscii(s: string)
    requires forall i | 0 <= i < |s| :: s[i] as int < 128
    ensures Detection.DecodedBytes(s).Ok? <==> CropCodec.DecodedBytes(s).Ok?
    ensures Detection.DecodedBytes(s).Ok? ==> Detection.DecodedBytes(s).value == CropCodec.DecodedBytes(s).value
  {
    forall i | 0 <= i < |s|
      ensures Detection.TruncatingLookup(s[i]) == CropCodec.RangeLookup(s[i])
    {
      LookupsAgreeOnAscii(s[i]);
    }
    Base64.SameLookupOn(s, Detection.TruncatingLookup, CropCodec.RangeLookup);
  }

  /**
   * U+0141 has code point 321 = 256 + 65: `src/detection.rs` reads it as 'A'
   * and decodes "ŁŁ" to one zero byte; `src/api/crop.rs` rejects it.
   */
  lemma NonAsciiSplitsDecoders()
    ensures Detection.DecodedBytes("ŁŁ") == Ok([0])
    ensures CropCodec.DecodedBytes("ŁŁ") == Err(CropCodec.InvalidCharacter('Ł'))
  {
    Detection.TruncatedCodePointAccepted();
    var zero: Base64.Sextet := 0;
    ReadTwice('Ł', Detection.TruncatingLookup, zero);
    assert Base64.Pack([zero, zero]) == [0];
  }

  /** A character the lookup accepts, written twice, is read as its value twice. */
  lemma ReadTwice(c: char, lookup: Base64.Lookup, v: Base64.Sextet)
    requires !Base64.IsSkipped(c) && c != Base64.PAD && lookup(c) == Some(v)
    ensures Base64.Sextets([c, c], lookup) == Ok([v, v])
  {
    var s := [c, c];
    assert s[1..] == [c] && s[1..][1..] == [];
    assert Base64.Sextets([c], lookup) == Ok([v] + []);
    assert [v] + [] == [v] && [v] + [v] == [v, v];
  }
}
