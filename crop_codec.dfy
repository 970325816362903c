/**
 * The base64 module of `src/api/crop.rs`: a second copy of the encoder, and
 * a decoder that recognises a symbol by the character range it falls in.
 * Unlike the decoder of `src/detection.rs` it rejects every character
 * outside ASCII, and it reports the offending character in its message.
 */
module CropCodec {
  import opened Wrappers
  import opened Ints
  import Base64

  // ------------------------------------------------------------------- encode

  /** `base64::encode`: the same 3-bytes-per-turn loop as the other copies. */
  method Encode(data: seq<Byte>) returns (result: string)
    ensures result == Base64.Encode(data)
  {
    result := "";
    var i := 0;
    while i < |data|
      invariant i % 3 == 0 && i < |data| + 3
      invariant result == Base64.Encode(data[..Min(i, |data|)])
    {
      result := Base64.EncodeTurn(data, i, result);
      i := i + 3;
    }
    assert data[..|data|] == data;
  }

  // ------------------------------------------------------------------- decode

  /**
   * The `match ch` of `base64::decode`: 'A'..='Z' to 0-25, 'a'..='z' to 26-51,
   * '0'..='9' to 52-61, '+' to 62, '/' to 63, anything else rejected.
   */
  function RangeLookup(ch: char): (r: Option<Base64.Sextet>)
    ensures r.Some? <==> 'A' <= ch <= 'Z' || 'a' <= ch <= 'z' || '0' <= ch <= '9' || ch == '+' || ch == '/'
    ensures r.Some? ==> ch as int < 128
  {
    if 'A' <= ch <= 'Z' then Some(Base64.AsSextet(ch as int - 'A' as int))
    else if 'a' <= ch <= 'z' then Some(Base64.AsSextet(ch as int - 'a' as int + 26))
    else if '0' <= ch <= '9' then Some(Base64.AsSextet(ch as int - '0' as int + 52))
    else if ch == '+' then Some(62)
    else if ch == '/' then Some(63)
    else None
  }

  /** The range match is exactly the inverse of the alphabet, in both directions. */
  lemma RangeLookupInverse(ch: char, v: Base64.Sextet)
    ensures RangeLookup(ch) == Some(v) <==> ch == Base64.Symbol(v)
  {
    if ch == Base64.Symbol(v) {
      SymbolRecognised(v);
    } else if RangeLookup(ch) == Some(v) {
      RecognisedIsSymbol(ch);
    }
  }

  lemma SymbolRecognised(v: Base64.Sextet)
    ensures RangeLookup(Base64.Symbol(v)) == Some(v)
  {
    var c := Base64.Symbol(v);
    assert c == Base64.RangeSymbol(v as int);
    if v < 26 {
      assert c as int == 65 + v as int;
    } else if v < 52 {
      assert c as int == 71 + v as int;
    } else if v < 62 {
      assert c as int == v as int - 4;
    }
  }

  lemma RecognisedIsSymbol(ch: char)
    requires RangeLookup(ch).Some?
    ensures ch == Base64.Symbol(RangeLookup(ch).value)
  {
    if 'A' <= ch <= 'Z' {
      RunRecognised(ch, 'A', 0);
    } else if 'a' <= ch <= 'z' {
      RunRecognised(ch, 'a', 26);
    } else if '0' <= ch <= '9' {
      RunRecognised(ch, '0', 52);
    }
  }

  /** Within one run of the alphabet, the value the range match gives is the symbol's position. */
  lemma RunRecognised(ch: char, first: char, offset: nat)
    requires RangeLookup(ch).Some?
    requires first as int <= ch as int && RangeLookup(ch).value as int == ch as int - first as int + offset
    requires (first, offset) in {('A', 0), ('a', 26), ('0', 52)}
    ensures ch == Base64.Symbol(RangeLookup(ch).value)
  {
    var v := RangeLookup(ch).value;
    assert Base64.Symbol(v) == Base64.RangeSymbol(v as int);
  }

  lemma RangeInvertsTable()
    ensures Base64.InvertsTable(RangeLookup)
  {
    forall v: Base64.Sextet
      ensures RangeLookup(Base64.Symbol(v)) == Some(v)
    {
      SymbolRecognised(v);
    }
  }

  /** Every character outside ASCII is rejected. */
  lemma NonAsciiRejected(ch: char)
    requires ch as int >= 128
    ensures RangeLookup(ch) == None
  {
  }

  /** `format!("Invalid base64 character: {}", ch)`. */
  function InvalidCharacter(ch: char): (m: string)
    ensures |m| == 27 && m[26] == ch
    ensures m[..26] == "Invalid base64 character: "
  {
    "Invalid base64 character: " + [ch]
  }

  /** What `base64::decode` returns: the bytes, or the message naming the first rejected character. */
  function DecodedBytes(data: string): Result<seq<Byte>, string>
  {
    match Base64.Decode(data, RangeLookup)
    case Ok(bytes) => Ok(bytes)
    case Err(ch) => Err(InvalidCharacter(ch))
  }

  /** `base64::decode`: the accumulator loop, with the range match as its lookup. */
  method Decode(data: string) returns (r: Result<seq<Byte>, string>)
    ensures r == DecodedBytes(data)
  {
    var result: seq<Byte> := [];
    var buffer: bv32 := 0;
    var bits: nat := 0;
    ghost var read: seq<Base64.Sextet> := [];
    assert data[0..] == data;
    Base64.PrependNothing(Base64.Sextets(data, RangeLookup));

    for idx := 0 to |data|
      invariant Base64.Prepend(read, Base64.Sextets(data[idx..], RangeLookup)) == Base64.Sextets(data, RangeLookup)
      invariant result == Base64.Pack(read)
      invariant Base64.Pending(buffer, bits, read)
    {
      var ch := data[idx];
      Base64.SextetsAt(data, idx, RangeLookup);
      if ch == ' ' || ch == '\n' || ch == '\r' {
        continue;
      }
      if ch == '=' {
        break;
      }
      var value;
      match RangeLookup(ch) {
        case None =>
          return Err(InvalidCharacter(ch));
        case Some(v) =>
          value := v;
      }
      buffer, bits, result := Base64.Accumulate(buffer, bits, result, read, value);
      Base64.PrependTwice(read, [value], Base64.Sextets(data[idx + 1..], RangeLookup));
      read := read + [value];
    }
    assert read + [] == read;
    return Ok(result);
  }

  /** Round trip of this decoder on every byte string. */
  lemma DecodeEncode(b: seq<Byte>)
    ensures DecodedBytes(Base64.Encode(b)) == Ok(b)
  {
    RangeInvertsTable();
    Base64.RoundTrip(b, RangeLookup);
  }

  /** The API's "invalid-base64-data" is rejected at its first '-'. */
  lemma HyphenatedInputRejected()
    ensures DecodedBytes("invalid-base64-data") == Err(InvalidCharacter('-'))
  {
    var t := "-base64-data";
    assert t[0] == '-';
    RejectedAtHyphen(t);
    assert "invalid" + t == "invalid-base64-data";
  }

  /** "invalid" followed by a '-' is rejected at the '-', whatever follows it. */
  lemma RejectedAtHyphen(t: string)
    requires |t| > 0 && t[0] == '-'
    ensures Base64.Sextets("invalid" + t, RangeLookup) == Err('-')
  {
    LettersThenRejected("invalid", t, '-');
  }

  /** Lower-case letters in front of a rejected remainder do not change the character reported. */
  lemma {:induction false} LettersThenRejected(p: string, t: string, c: char)
    requires forall i | 0 <= i < |p| :: 'a' <= p[i] <= 'z'
    requires Base64.Sextets(t, RangeLookup) == Err(c)
    ensures Base64.Sextets(p + t, RangeLookup) == Err(c)
    decreases |p|
  {
    if p == [] {
      assert p + t == t;
    } else {
      assert (p + t)[0] == p[0] && (p + t)[1..] == p[1..] + t;
      LettersThenRejected(p[1..], t, c);
    }
  }
}
