/**
 * The result records of `src/types.rs`: a detected face with `u32`
 * coordinates, a detection result that counts its faces, and the JSON
 * envelope of every API answer.
 */
module Types {
  import opened Wrappers
  import opened Ints

  /** A detector's `f32` confidence, held as the exact real the `f32` denotes. */
  type Confidence = real

  /**
   * The `f32` literal `0.8` of `is_high_confidence`: the `f32` nearest to 0.8,
   * 13421773 / 2^24. Comparing the exact real of an `f32` with it answers as
   * the `f32` comparison does.
   */
  const HIGH_CONFIDENCE: Confidence := 0.800000011920928955078125

  /** A face bounding box in image pixels, with the detector's confidence. */
  datatype Face = Face(x: U32, y: U32, width: U32, height: U32, confidence: Confidence)
  {
    /** `Face::new`: the five fields, stored as given. */
    static function New(x: U32, y: U32, width: U32, height: U32, confidence: Confidence): (f: Face)
      ensures f.x == x && f.y == y && f.width == width && f.height == height
      ensures f.confidence == confidence
    {
      Face(x, y, width, height, confidence)
    }

    /**
     * The box's area, a `u32` product: the caller must keep it below 2^32,
     * otherwise the multiplication overflows.
     */
    function Area(): (a: U32)
      requires width * height < U32_LIMIT
      ensures a == width * height
      ensures a == 0 <==> width == 0 || height == 0
      ensures height > 0 ==> a >= width
      ensures width > 0 ==> a >= height
    {
      width * height
    }

    /**
     * `is_high_confidence`: the threshold lies just above 0.8 and below the
     * next `f32`, so a confidence of exactly 0.8 is not high.
     */
    predicate IsHighConfidence(): (b: bool)
      ensures b ==> confidence > 0.8
      ensures confidence >= 0.80000002 ==> b
    {
      confidence > HIGH_CONFIDENCE
    }
  }

  /** The faces found in one image, their count, and the time taken. */
  datatype DetectionResult = DetectionResult(faces: seq<Face>, processingTimeMs: U64, totalFaces: nat)
  {
    /** Built by `New`: the count is the number of faces. */
    predicate Valid()
    {
      totalFaces == |faces|
    }

    /** `DetectionResult::new`: the faces in order, their number, the time verbatim. */
    static function New(faces: seq<Face>, processingTimeMs: U64): (r: DetectionResult)
      ensures r.Valid()
      ensures r.faces == faces && r.processingTimeMs == processingTimeMs
      ensures faces == [] ==> r.totalFaces == 0
    {
      DetectionResult(faces, processingTimeMs, |faces|)
    }

    function HasFaces(): (b: bool)
      ensures b <==> |faces| > 0
      ensures Valid() ==> (b <==> totalFaces > 0)
    {
      faces != []
    }

    function HighConfidenceFaces(): (r: seq<Face>)
      ensures |r| <= |faces|
      ensures Valid() ==> |r| <= totalFaces
      ensures forall f :: f in r <==> f in faces && f.IsHighConfidence()
    {
      HighConfidence(faces)
    }
  }

  /** The faces of `faces` whose confidence is high, in their original order. */
  function HighConfidence(faces: seq<Face>): (r: seq<Face>)
    ensures |r| <= |faces|
    ensures forall f :: f in r <==> f in faces && f.IsHighConfidence()
    decreases |faces|
  {
    if faces == [] then []
    else if faces[0].IsHighConfidence() then [faces[0]] + HighConfidence(faces[1..])
    else HighConfidence(faces[1..])
  }

  /** Filtering keeps the order: it distributes over concatenation. */
  lemma {:induction false} HighConfidenceAppend(a: seq<Face>, b: seq<Face>)
    ensures HighConfidence(a + b) == HighConfidence(a) + HighConfidence(b)
    decreases |a|
  {
    if a == [] {
      assert a + b == b;
    } else {
      assert (a + b)[0] == a[0];
      assert (a + b)[1..] == a[1..] + b;
      HighConfidenceAppend(a[1..], b);
    }
  }

  /** Nothing is dropped when every face is of high confidence, so filtering twice is filtering once. */
  lemma {:induction false} HighConfidenceKeepsAll(faces: seq<Face>)
    requires forall i | 0 <= i < |faces| :: faces[i].IsHighConfidence()
    ensures HighConfidence(faces) == faces
    decreases |faces|
  {
    if faces != [] {
      HighConfidenceKeepsAll(faces[1..]);
    }
  }

  lemma HighConfidenceIdempotent(faces: seq<Face>)
    ensures HighConfidence(HighConfidence(faces)) == HighConfidence(faces)
  {
    var r := HighConfidence(faces);
    forall i | 0 <= i < |r|
      ensures r[i].IsHighConfidence()
    {
      assert r[i] in r;
    }
    HighConfidenceKeepsAll(r);
  }

  /** When and by which build of the service an answer was produced. */
  datatype ResponseMetadata = ResponseMetadata(timestamp: int, version: string)

  /** The envelope of every JSON answer. */
  datatype ApiResponse<T> = ApiResponse(
    success: bool,
    data: Option<T>,
    error: Option<string>,
    metadata: Option<ResponseMetadata>)
  {
    /** A success carries data and no error; a failure carries an error and no data. */
    predicate Consistent()
    {
      && (success <==> data.Some?)
      && (success <==> error.None?)
    }
  }

  /**
   * `ApiResponse::success`; the clock reading `now` and the package
   * version are parameters.
   */
  function Success<T>(data: T, now: int, version: string): (r: ApiResponse<T>)
    ensures r.Consistent() && r.success
    ensures r.data == Some(data) && r.error == None
    ensures r.metadata == Some(ResponseMetadata(now, version))
  {
    ApiResponse(true, Some(data), None, Some(ResponseMetadata(now, version)))
  }

  /** `ApiResponse::error`, an answer without data. */
  function Error(message: string, now: int, version: string): (r: ApiResponse<()>)
    ensures r.Consistent() && !r.success
    ensures r.data == None && r.error == Some(message)
    ensures r.metadata == Some(ResponseMetadata(now, version))
  {
    ApiResponse(false, None, Some(message), Some(ResponseMetadata(now, version)))
  }
}
