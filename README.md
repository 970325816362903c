# rust-face-detect, the codec and geometry core in Dafny

The face-detection service takes an image and returns boxes around the faces it
finds. It can also return the faces cropped out, as base64 data URIs. Detection
is a mock: it makes up to three boxes from the image size alone. This project
models the integer-only logic underneath, and proves what it promises.

- **Base64.** The repository writes its base64 codec (section 4 of RFC 4648,
  standard alphabet, `=` padding) by hand three times:
  - `base64_encode` and `base64_decode` in `src/detection.rs`;
  - the `base64` module of `src/api/crop.rs`;
  - the `base64` module of `src/api/upload.rs`.

  Module `Base64` states the codec once, as a specification. Encoding is
  `ToSextets` (bits to 6-bit groups), then `Symbols`, then `Padding`. Decoding
  is `Sextets`, then `Pack`. `Sextets` skips space, line feed and carriage
  return, stops at the first `=`, and reports the first rejected character.
  `Pack` drops leftover bits. The character lookup is a parameter, because the
  two decoders look characters up differently.

  Every encoder loop and both decoder loops are imperative methods proved
  equal to this specification. The decoders keep the source's 32-bit
  `buffer`/`bits` accumulator (a `bv32`), so the proofs cover the wrapping
  shift.
- **Data URIs.** `image_to_base64` puts `data:image/jpeg;base64,` in front of
  the encoding. `decode_base64_image` strips that prefix or the PNG one.
- **Crop rectangles.** `crop_face` exists for the `u32` face box of
  `src/types.rs` and for the `i32` box of `src/detection/models.rs`. Both
  compute the rectangle handed to `crop_imm`.
- **Mock detection.** There are two copies: the fixed thresholds of
  `src/detection/detector.rs`, and the configurable `FaceDetector` class of
  `src/detector.rs`. The model also covers the result records of
  `src/types.rs` and `src/detection/models.rs`.
- **Test image.** `create_test_image` of `src/utils/image.rs` fills a pixel
  buffer (an `array2`) in place.

Modules follow the source files:

| Module | Models |
|---|---|
| `Ints` | fixed-width integers |
| `Wrappers` | `Option` and `Result` |
| `Base64` | the shared specification, plus the loop steps the three copies share |
| `Detection` | `src/detection.rs` |
| `CropCodec` | `src/api/crop.rs` |
| `UploadCodec` | `src/api/upload.rs` |
| `CodecAgreement` | how the copies relate |
| `MockDetector` | `src/detection/detector.rs` |
| `Detector` | `src/detector.rs` |
| `Types` | `src/types.rs` |
| `Models` | `src/detection/models.rs` |
| `Imaging` | the rectangle given to `crop_imm` |
| `TestImage` | `src/utils/image.rs` |

The two decoders differ on characters outside ASCII. `src/detection.rs`
compares `ch as u8`, the code point truncated to 8 bits, so 'Ł' (U+0141) reads
as 'A'. `src/api/crop.rs` rejects such characters. `CodecAgreement` proves that
the decoders agree on all ASCII text, and shows an input on which they differ.

The doc comment of the `u32` `crop_face` (`src/detection.rs:68`) promises an
error when the bounds are invalid. The code never returns that error:
`img_width - x` is a `u32` subtraction that underflows when the corner lies
outside the image, and with Rust's overflow checks on the call panics. The
model returns `Outcome.Panics` exactly for those corners
(`Detection.CornerPastEdgePanics`).

The `i32` copy in `src/detection/detector.rs` carries no such promise, and it
has one more edge case. A negative width is cast to a `u32` of at least 2^31.
On images narrower than 2^31, that crop runs to the image edge; it is empty
only when the corner sits on that edge (`MockDetector.NegativeSideRunsToEdge`).

The test at `tests/integration_test.rs:26-34` expects one face on a 200 x 200
image. The code reports none, since both sides must exceed 200.
`MockDetector.TestSizes` states what the code does.

## Model

| member | source | states |
|---|---|---|
| Ints.I32AsU32 | src/detection/detector.rs:127-128 | `v as u32` on an `i32` keeps a non-negative value and maps a negative one to `v + 2^32`, which is at least 2^31 |
| Base64.Alphabet | src/detection.rs:139 | the alphabet has 64 symbols, each given by its range; with Base64.UpperRange, Base64.LowerRange and Base64.DigitRange this is the table 'A'-'Z', 'a'-'z', '0'-'9', '+', '/' in that order |
| Base64.UpperRange | src/detection.rs:139 | the first 26 symbols are the upper-case letters |
| Base64.LowerRange | src/detection.rs:139 | symbols 26 to 51 are the lower-case letters |
| Base64.DigitRange | src/detection.rs:139 | the last 12 symbols are the digits, '+' and '/' |
| Base64.CharsDistinctData | src/detection.rs:139 | no symbol occurs twice; every symbol is ASCII, not skipped whitespace and not `=` |
| Base64.ToSextetsLength | src/detection.rs:155-158 | n bytes give ceil(8n/6) 6-bit groups |
| Base64.PackLength | src/detection.rs:201-207 | k 6-bit groups give floor(6k/8) bytes |
| Base64.PackToSextets | src/detection.rs:155-158 | reassembling the 6-bit groups of any byte string gives back that byte string |
| Base64.ToSextetsAppend | src/detection.rs:144-176 | cutting into 6-bit groups distributes over a concatenation whose first part is a multiple of 3 bytes |
| Base64.EncodeLength | src/detection.rs:141-178 | the encoding is 4 characters per started 3-byte group; it is empty exactly for empty input |
| Base64.EncodeShape | src/detection.rs:159-172 | `=` stands exactly at the last position when n mod 3 != 0, and also at the one before when n mod 3 = 1; every other character is an alphabet symbol |
| Base64.EncodeAppend | src/detection.rs:144-176 | encoding distributes over a concatenation whose first part is a multiple of 3 bytes |
| Base64.GroupChars | src/detection.rs:155-173 | the four characters pushed for a group of 1-3 zero-filled bytes are that group's encoding |
| Base64.EncodeGroupStep | src/detection.rs:145-175 | one loop turn extends the encoding of the bytes before `i` to the encoding of the bytes up to `i + 3` |
| Base64.FillGroup | src/detection.rs:145-153 | the inner `for j in 0..3` loop copies the available bytes into a zeroed 3-byte buffer and counts them |
| Base64.PushGroup | src/detection.rs:155-173 | the four pushes append the group's text, with `=` in the positions past `filled` |
| Base64.EncodeTurn | src/detection.rs:145-175 | one turn of the encoder loop turns the encoding of `data[..i]` into that of `data[..min(i+3, n)]` |
| Base64.EncodeRfcVectors | src/detection.rs:155-172 | "" -> "", "f" -> "Zg==", "fo" -> "Zm8=", "foo" -> "Zm9v" (section 10 of RFC 4648) |
| Base64.EncodeMan | src/detection.rs:155-172 | "Man" -> "TWFu" |
| Base64.SextetsAt | src/detection.rs:189-199 | from character `i` on, reading skips, stops, fails or takes one value, as the loop body's four branches do |
| Base64.SymbolsThen | src/detection.rs:189-199 | with a lookup that inverts the alphabet, reading the symbols of `v` gives back `v`, then reads on |
| Base64.RoundTrip | src/detection.rs:138-211 | decoding the encoding of any byte string gives back that byte string, for every lookup that inverts the alphabet |
| Base64.SkippedIgnored | src/detection.rs:190-192 | removing space, line feed and carriage return never changes what is read |
| Base64.StopsAtFirstPad | src/detection.rs:194-196 | whatever follows the first `=` is never examined, not even an invalid character |
| Base64.FirstInvalidReported | src/detection.rs:198-199 | the first rejected character before any `=` is the error, whatever follows it |
| Base64.SextetCount | src/detection.rs:189-200 | each accepted character before the first `=` contributes exactly one 6-bit value |
| Base64.DecodedLength | src/detection.rs:201-207 | k accepted characters decode to floor(6k/8) bytes; leftover bits are not an error |
| Base64.SameLookupOn | src/detection.rs:198 | two lookups that agree on every character of a text read it alike |
| Base64.PackSnoc | src/detection.rs:201-207 | one more 6-bit value adds one byte to the packed output exactly when it completes 8 bits |
| Base64.AccumulateStep | src/detection.rs:201-207 | on the 32-bit buffer, the shift-or-and-emit step keeps the pending-bits invariant and emits exactly the byte packing adds |
| Base64.Accumulate | src/detection.rs:201-207 | the accumulator step turns `Pack(read)` into `Pack(read + [value])` |
| Detection.Base64Encode | src/detection.rs:138-179 | `base64_encode` returns the encoding of its input |
| Detection.LowByte | src/detection.rs:198 | `ch as u8` keeps the code point modulo 256: an ASCII or Latin-1 character keeps its code |
| Detection.TruncatingLookup | src/detection.rs:198 | a character is accepted exactly when its low byte is in the table, and then its value names the symbol with that byte |
| Detection.Position | src/detection.rs:198 | `position` finds the first index whose byte equals the code, or none exactly when no byte equals it |
| Detection.TruncatingInvertsTable | src/detection.rs:198 | looking up `ch as u8` in the table gives every alphabet symbol its own index |
| Detection.Base64Decode | src/detection.rs:182-211 | `base64_decode` returns the bytes that the read 6-bit values spell, or `Base64Error` when any character before the first `=` is rejected |
| Detection.StripPrefix | src/detection.rs:128-131 | `strip_prefix` succeeds exactly when the text starts with the prefix, and returns the rest |
| Detection.Payload | src/detection.rs:128-131 | the text after the JPEG prefix, else after the PNG prefix, else the whole text |
| Detection.DecodeBase64Image | src/detection.rs:127-135 | decodes the payload of the data URI |
| Detection.ImageToBase64 | src/detection.rs:97-112 | an encoder failure gives `ImageProcessing`; otherwise the result is the JPEG prefix followed by the encoding |
| Detection.DecodeEncode | src/detection.rs:138-211 | `base64_decode(base64_encode(b)) == Ok(b)` for every byte string |
| Detection.DataUriRoundTrip | src/detection.rs:97-135 | decoding the data URI built by `image_to_base64` gives back the encoded bytes |
| Detection.LoneSymbolDecodesEmpty | src/detection.rs:201-207 | "Q" decodes to no bytes, without error |
| Detection.TabRejected | src/detection.rs:190-199 | a tab is not skipped, and it is rejected |
| Detection.TruncatedCodePointAccepted | src/detection.rs:198 | U+0141 is looked up as 'A' |
| Detection.CropFace | src/detection.rs:69-82 | panics exactly when the corner lies beyond the image (the `u32` subtraction underflows); otherwise always `Ok`, the corner is kept, the crop stays in the image and is no larger than the box, and each side is the box's side or runs to the edge |
| Detection.CornerPastEdgePanics | src/detection.rs:70-78 | a corner past the right edge panics; a corner exactly on the corner of the image gives an empty crop |
| Detection.CropInsideUnchanged | src/detection.rs:75-80 | a box inside the image is cropped exactly |
| Detection.CropAreaAtMostFace | src/detection.rs:77-78 | the cropped area is at most the box's `area()` |
| CropCodec.Encode | src/api/crop.rs:123-162 | `encode` returns the encoding of its input |
| CropCodec.RangeLookup | src/api/crop.rs:102-108 | a character is accepted exactly when it is a letter, a digit, '+' or '/', so only ASCII is accepted |
| CropCodec.InvalidCharacter | src/api/crop.rs:108 | the message is "Invalid base64 character: " followed by the rejected character |
| CropCodec.RangeLookupInverse | src/api/crop.rs:102-108 | the range match gives `v` exactly for the alphabet's symbol `v` |
| CropCodec.SymbolRecognised | src/api/crop.rs:102-107 | every alphabet symbol is matched to its index |
| CropCodec.RecognisedIsSymbol | src/api/crop.rs:102-107 | every character the match accepts is the symbol of the value it gives |
| CropCodec.RangeInvertsTable | src/api/crop.rs:102-107 | the range match inverts the alphabet |
| CropCodec.NonAsciiRejected | src/api/crop.rs:102-108 | every character outside ASCII is rejected |
| CropCodec.Decode | src/api/crop.rs:88-121 | `decode` returns the bytes the read 6-bit values spell, or the message naming the first rejected character |
| CropCodec.DecodeEncode | src/api/crop.rs:88-162 | `decode(encode(b)) == Ok(b)` for every byte string |
| CropCodec.HyphenatedInputRejected | tests/api_test.rs:107-121 | "invalid-base64-data" is rejected with the message naming '-' |
| CropCodec.RejectedAtHyphen | src/api/crop.rs:102-108 | "invalid" followed by a '-' is rejected at that '-' |
| CropCodec.LettersThenRejected | src/api/crop.rs:102-108 | lower-case letters in front of a rejected text do not change the character reported |
| UploadCodec.Encode | src/api/upload.rs:139-178 | `encode` returns the encoding of its input |
| UploadCodec.ImageToBase64 | src/api/upload.rs:121-131 | an encoder failure gives `ImageProcessingFailed`; otherwise the result is the JPEG prefix followed by the encoding |
| UploadCodec.PaddingOnlyInLastGroup | src/api/upload.rs:162-174 | `=` appears only in the last group of four characters |
| CodecAgreement.EncodersAgree | src/api/crop.rs:123-162 | the encoders of `src/detection.rs`, `src/api/crop.rs` and `src/api/upload.rs` return the same text for every input |
| CodecAgreement.TruncatingIsRangeOfLowByte | src/detection.rs:198 | the truncating lookup of a character equals the range match of the character its low byte names |
| CodecAgreement.LookupsAgreeOnAscii | src/api/crop.rs:102-108 | the two lookups agree on every ASCII character |
| CodecAgreement.DecodersAgreeOnAscii | src/api/crop.rs:88-121 | on ASCII text the two decoders accept the same inputs and return the same bytes |
| CodecAgreement.NonAsciiSplitsDecoders | src/api/crop.rs:102-108 | "ŁŁ" decodes to [0] in `src/detection.rs` and is rejected in `src/api/crop.rs` |
| MockDetector.Candidate | src/detection/detector.rs:56-82 | box k has sides w/(k+4) and h/(k+4), and a confidence in (0.5, 1] |
| MockDetector.DetectedCount | src/detection/detector.rs:55-83 | box k (k < 3) is reported exactly when k is below the count, so the boxes reported are always the first ones |
| MockDetector.CandidateInside | src/detection/detector.rs:56-82 | each synthesised box has a non-negative corner, non-empty sides, and lies inside the image |
| MockDetector.PerformMockDetection | src/detection/detector.rs:48-86 | as many boxes as thresholds both sides exceed, in fixed order, each inside the image with confidence in (0.5, 1] |
| MockDetector.TestSizes | tests/integration_test.rs:17-74 | 200 x 200 gives no box (the test expects one), 500 x 500 two, 700 x 700 three |
| MockDetector.TinyImageSize | tests/integration_test.rs:138-154 | 50 x 50 gives no box |
| MockDetector.CropFace | src/detection/detector.rs:121-137 | panics exactly when the floored corner lies beyond the image (the `u32` subtraction underflows); otherwise always `Ok`, the corner is floored at 0, the crop stays in the image, each side is at most the `u32` cast of the box's side, and equals it unless it runs to the edge |
| MockDetector.CornerPastEdgePanics | src/detection/detector.rs:124-133 | a corner below the bottom edge panics; a negative corner never does |
| MockDetector.NegativeSideRunsToEdge | src/detection/detector.rs:127-133 | on an image narrower than 2^31, a negative width or height gives a crop that runs to the image edge; it is empty exactly when the corner sits on that edge |
| MockDetector.NegativeCornerKeepsSide | src/detection/detector.rs:125-126 | a negative corner moves to 0 without shortening the side |
| MockDetector.CropInsideUnchanged | src/detection/detector.rs:131-135 | a box inside the image is cropped exactly |
| MockDetector.MockFacesCropExactly | src/detection/detector.rs:121-137 | every synthesised box is cropped exactly |
| MockDetector.ClippedAtEdges | src/detection/detector.rs:125-133 | (-10,-10,150,150) on 300 x 300 crops to (0,0,150,150); (90,90,50,50) on 100 x 100 crops to (90,90,10,10) |
| MockDetector.CropTestFace | tests/integration_test.rs:103-126 | the 100 x 100 box at (50, 50) of a 300 x 300 image crops to 100 x 100 |
| Detector.ClampUnit | src/detector.rs:198 | the clamped threshold lies in [0, 1], equals the input inside it, and goes to the near bound outside |
| Detector.Candidate | src/detector.rs:97-123 | box k has sides w/(k+4) and h/(k+4), and a confidence in (0.5, 1] |
| Detector.Reported | src/detector.rs:92-127 | box k is reported exactly when both sides exceed its threshold; indices come in increasing order |
| Detector.CandidateInside | src/detector.rs:97-123 | each synthesised box lies inside the image |
| Detector.FaceDetector.constructor | src/detector.rs:41-44 | the defaults 200 and 0.5 |
| Detector.FaceDetector.New | src/detector.rs:38-45 | always succeeds, with the default settings |
| Detector.FaceDetector.MinDimension | src/detector.rs:173-175 | reads the minimum dimension |
| Detector.FaceDetector.ConfidenceThreshold | src/detector.rs:178-180 | reads the threshold |
| Detector.FaceDetector.WithMinDimension | src/detector.rs:187-190 | sets the minimum dimension and keeps the threshold |
| Detector.FaceDetector.WithConfidenceThreshold | src/detector.rs:197-200 | stores the threshold clamped to [0, 1] and keeps the minimum dimension |
| Detector.FaceDetector.PerformMockDetection | src/detector.rs:92-127 | returns the reported boxes, in order, each inside the image |
| Detector.FaceDetector.DetectFaces | src/detector.rs:60-85 | a valid result holding exactly the reported boxes, in order, each inside the image, with the elapsed time verbatim |
| Detector.ReportedPrefix | src/detector.rs:96-124 | with a minimum dimension of at most 400, the boxes reported are the first ones |
| Detector.FirstBoxIff | src/detector.rs:96-104 | the first box is reported exactly when both sides exceed the minimum dimension |
| Detector.LargeMinimumKeepsSecond | src/detector.rs:106-114 | with minimum dimension 500, a 500 x 500 image gives the second box only |
| Detector.DefaultOnSmallImage | src/detector.rs:215-231 | a default detector finds exactly one face in a 300 x 300 image |
| Detector.ConfiguredDetector | src/detector.rs:245-253 | configured with 400 and the `f32` 0.8, the getters return 400 and that `f32` |
| Types.Face.New | src/types.rs:147-155 | the five fields are stored as given |
| Types.Face.Area | src/types.rs:158-160 | the product of the sides; zero exactly when a side is zero, and at least either side otherwise |
| Types.Face.IsHighConfidence | src/types.rs:163-165 | a high confidence is above 0.8, and every confidence from 0.80000002 on is high (the `f32` 0.8 lies between) |
| Types.DetectionResult.New | src/types.rs:170-176 | the faces in order, `total_faces` their number, the time verbatim |
| Types.DetectionResult.HasFaces | src/types.rs:179-181 | true exactly when there is a face; for a result built by `new`, when `total_faces > 0` |
| Types.DetectionResult.HighConfidenceFaces | src/types.rs:184-186 | exactly the faces of high confidence, never more than `total_faces` |
| Types.HighConfidence | src/types.rs:184-186 | keeps exactly the faces of high confidence, and no more than there are |
| Types.HighConfidenceAppend | src/types.rs:184-186 | the filter keeps order: it distributes over concatenation |
| Types.HighConfidenceKeepsAll | src/types.rs:184-186 | when every face is of high confidence, nothing is dropped |
| Types.HighConfidenceIdempotent | src/types.rs:184-186 | filtering twice is filtering once |
| Types.Success | src/types.rs:109-119 | a success carries the data, no error, and the metadata |
| Types.Error | src/types.rs:122-132 | a failure carries the message, no data, and the metadata |
| Models.DetectionResult.New | src/detection/models.rs:20-26 | the faces in order, `total_faces` their number (0 for none), the time verbatim |
| TestImage.ExpectedPixel | src/utils/image.rs:9-37 | a pixel is skin tone exactly inside the first square, the darker tone exactly inside the second, background elsewhere |
| TestImage.FacesDisjoint | src/utils/image.rs:17-37 | the two squares never overlap |
| TestImage.SmallImageIsBackground | src/utils/image.rs:17-37 | an image with a side of at most 100 is all background |
| TestImage.PixelColours | src/utils/image.rs:9-37 | every pixel is one of the three colours, and skin-coloured exactly inside a square |
| TestImage.Fill | src/utils/image.rs:9-11 | every pixel becomes the background |
| TestImage.Paint | src/utils/image.rs:19-25 | exactly the pixels of the clipped square change, to its colour |
| TestImage.CreateTestImage | src/utils/image.rs:4-40 | always `Ok`; a fresh width x height buffer whose every pixel is the expected colour |

## Left out

- HTTP handlers are not modelled: `upload_image`, `crop_faces` and `health_check`, plus `src/api.rs` and `src/api/mod.rs`. They are actix, multipart and file-system plumbing.
- `draw_bounding_boxes` and `visualize_detections` are not modelled. They are imageproc drawing with fonts.
- Image library calls are abstract:
  - `image::open`, `load_from_memory`, the JPEG writer and the validators are not modelled;
  - `crop_imm` is represented by the `Imaging.Region` it is asked for;
  - the encoder's output is a parameter of the `ImageToBase64` methods.
- Detector.FaceDetector.DetectFaces: does not model loading the image or the clock. The image size and the elapsed milliseconds are parameters.
- Types.Success: `Utc::now()` and the package version are parameters.
- Types.Error: `Utc::now()` and the package version are parameters.
- The error enums of `src/error.rs` and `src/models/error.rs` are not modelled; they only map variants to HTTP answers. `src/main.rs` and `src/models/api_response.rs` are not part of this model either.
- Confidences are exact reals. An `f32` value is held as the real it denotes, and the mock's literals (0.95, 0.87, 0.92) as their decimal values. The 0.8 of `is_high_confidence` is the exact `f32` nearest to 0.8, so comparisons answer as in `f32`.
- Detector.ClampUnit: a NaN threshold is not modelled.
- MockDetector.PerformMockDetection: requires that `img_width * 2` and `img_height * 2` fit in `u32` where they are evaluated, instead of modelling the overflow.
- Detector.FaceDetector.PerformMockDetection: requires that `img_width * 2` and `img_height * 2` fit in `u32` where they are evaluated, instead of modelling the overflow.
- Detector.FaceDetector.DetectFaces: carries the same requirement on `img_width * 2` and `img_height * 2`.
- Detection.CropFace: models a build with overflow checks on, where the `u32` underflow of `img_width - x` panics. In a build without them the subtraction wraps, and what `crop_imm` then does with the rectangle is not modelled.
- MockDetector.CropFace: models the underflow as a panic, for the same reason as `Detection.CropFace`.
- Types.Face.Area: requires the product to stay below 2^32, instead of modelling the `u32` overflow.
- Detector.FaceDetector.WithMinDimension: the `mut self` builders take the detector by value and return it. The model updates the object in place, which no other reference can observe.
- Detector.FaceDetector.WithConfidenceThreshold: the `mut self` builders take the detector by value and return it. The model updates the object in place.
- MockDetector.TestSizes: does not state the 200 x 200 test's expectation of one face, because the code reports none.
- `create_test_image` writes into an `ImageBuffer`. The model uses an `array2` indexed `[x, y]` and leaves out the `DynamicImage` wrapper.
