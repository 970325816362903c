/**
 * `src/detector.rs`: the configurable mock face detector. Its first box
 * depends on the detector's `min_dimension`; the other two on the fixed
 * thresholds 400 and 600.
 *
 * The builder methods take `mut self` by value and hand it back, so no other
 * reference can observe the update: the model updates the object in place.
 */
module Detector {
  import opened Wrappers
  import opened Ints
  import Types

  /** The error `FaceDetector::new` could report; it never does. */
  datatype InitError = InitError

  const DEFAULT_MIN_DIMENSION: U32 := 200
  const DEFAULT_CONFIDENCE_THRESHOLD: real := 0.5

  /** `threshold.max(0.0).min(1.0)` on a threshold that is a number. */
  function ClampUnit(t: real): (r: real)
    ensures 0.0 <= r <= 1.0
    ensures 0.0 <= t <= 1.0 ==> r == t
    ensures t < 0.0 ==> r == 0.0
    ensures t > 1.0 ==> r == 1.0
  {
    var lower := if t < 0.0 then 0.0 else t;
    if lower > 1.0 then 1.0 else lower
  }

  /** Whether the k-th box is reported: the first by `min_dimension`, the others by 400 and 600. */
  predicate Present(k: nat, minDimension: U32, w: U32, h: U32)
    requires k < 3
  {
    var threshold := if k == 0 then minDimension else if k == 1 then 400 else 600;
    w > threshold && h > threshold
  }

  /** The `u32` products `img_width * 2` and `img_height * 2` do not overflow where they are computed. */
  predicate ProductsFit(w: U32, h: U32)
  {
    && (w > 400 && h > 400 ==> w * 2 < U32_LIMIT)
    && (w > 600 && h > 600 ==> h * 2 < U32_LIMIT)
  }

  /** The indices of the boxes reported, in increasing order. */
  function Reported(minDimension: U32, w: U32, h: U32): (r: seq<nat>)
    ensures forall k :: k in r <==> k < 3 && Present(k, minDimension, w, h)
    ensures forall i, j | 0 <= i < j < |r| :: r[i] < r[j]
  {
    (if Present(0, minDimension, w, h) then [0] else [])
    + (if Present(1, minDimension, w, h) then [1] else [])
    + (if Present(2, minDimension, w, h) then [2] else [])
  }

  /** The k-th box: at a quarter, at two thirds across, at the middle of the image. */
  function Candidate(k: nat, w: U32, h: U32): (f: Types.Face)
    requires k < 3
    requires k == 1 ==> w * 2 < U32_LIMIT
    requires k == 2 ==> h * 2 < U32_LIMIT
    ensures f.width == w / (k + 4) && f.height == h / (k + 4)
    ensures 0.5 < f.confidence <= 1.0
  {
    if k == 0 then Types.Face(w / 4, h / 4, w / 4, h / 4, 0.95)
    else if k == 1 then Types.Face(w * 2 / 3, h / 3, w / 5, h / 5, 0.87)
    else Types.Face(w / 2, h * 2 / 3, w / 6, h / 6, 0.92)
  }

  /** A box that lies within a `w` x `h` image. */
  predicate Inside(f: Types.Face, w: int, h: int)
  {
    f.x + f.width <= w && f.y + f.height <= h
  }

  lemma CandidateInside(k: nat, w: U32, h: U32)
    requires k < 3
    requires k == 1 ==> w * 2 < U32_LIMIT
    requires k == 2 ==> h * 2 < U32_LIMIT
    ensures Inside(Candidate(k, w, h), w, h)
  {
  }

  class FaceDetector {
    var minDimension: U32
    var confidenceThreshold: real

    /** The struct literal of `FaceDetector::new`. */
    constructor ()
      ensures minDimension == DEFAULT_MIN_DIMENSION
      ensures confidenceThreshold == DEFAULT_CONFIDENCE_THRESHOLD
    {
      minDimension := 200;
      confidenceThreshold := 0.5;
    }

    /** `FaceDetector::new`: always succeeds, with the default settings. */
    static method New() returns (r: Result<FaceDetector, InitError>)
      ensures r.Ok? && fresh(r.value)
      ensures r.value.minDimension == DEFAULT_MIN_DIMENSION
      ensures r.value.confidenceThreshold == DEFAULT_CONFIDENCE_THRESHOLD
    {
      var detector := new FaceDetector();
      return Ok(detector);
    }

    function MinDimension(): (m: U32)
      reads this
      ensures m == minDimension
    {
      minDimension
    }

    function ConfidenceThreshold(): (t: real)
      reads this
      ensures t == confidenceThreshold
    {
      confidenceThreshold
    }

    /** `with_min_dimension`: replaces the minimum dimension, keeps the threshold. */
    method WithMinDimension(m: U32)
      modifies this
      ensures minDimension == m
      ensures confidenceThreshold == old(confidenceThreshold)
    {
      minDimension := m;
    }

    /** `with_confidence_threshold`: stores the threshold clamped to [0, 1], keeps the minimum dimension. */
    method WithConfidenceThreshold(threshold: real)
      modifies this
      ensures confidenceThreshold == ClampUnit(threshold)
      ensures 0.0 <= confidenceThreshold <= 1.0
      ensures minDimension == old(minDimension)
    {
      confidenceThreshold := ClampUnit(threshold);
    }

    /**
     * `perform_mock_detection`: the boxes whose thresholds both sides of the
     * image exceed, in order; each lies inside the image.
     */
    method PerformMockDetection(imgWidth: U32, imgHeight: U32) returns (faces: seq<Types.Face>)
      requires ProductsFit(imgWidth, imgHeight)
      ensures var ks := Reported(minDimension, imgWidth, imgHeight);
        |faces| == |ks| && forall i | 0 <= i < |ks| :: faces[i] == Candidate(ks[i], imgWidth, imgHeight)
      ensures forall f | f in faces :: Inside(f, imgWidth, imgHeight)
    {
      faces := [];
      if imgWidth > minDimension && imgHeight > minDimension {
        faces := faces + [Types.Face.New(imgWidth / 4, imgHeight / 4, imgWidth / 4, imgHeight / 4, 0.95)];
      }
      if imgWidth > 400 && imgHeight > 400 {
        faces := faces + [Types.Face.New(imgWidth * 2 / 3, imgHeight / 3, imgWidth / 5, imgHeight / 5, 0.87)];
      }
      if imgWidth > 600 && imgHeight > 600 {
        faces := faces + [Types.Face.New(imgWidth / 2, imgHeight * 2 / 3, imgWidth / 6, imgHeight / 6, 0.92)];
      }
      forall k | 0 <= k < 3 && Present(k, minDimension, imgWidth, imgHeight)
        ensures Inside(Candidate(k, imgWidth, imgHeight), imgWidth, imgHeight)
      {
        CandidateInside(k, imgWidth, imgHeight);
      }
    }

    /**
     * `detect_faces` once the image is loaded: its size and the elapsed time
     * are parameters.
     */
    method DetectFaces(imgWidth: U32, imgHeight: U32, elapsedMs: U64) returns (r: Types.DetectionResult)
      requires ProductsFit(imgWidth, imgHeight)
      ensures r.Valid() && r.processingTimeMs == elapsedMs
      ensures r.totalFaces == |Reported(minDimension, imgWidth, imgHeight)|
      ensures var ks := Reported(minDimension, imgWidth, imgHeight);
        |r.faces| == |ks| && forall i | 0 <= i < |ks| :: r.faces[i] == Candidate(ks[i], imgWidth, imgHeight)
      ensures forall f | f in r.faces :: Inside(f, imgWidth, imgHeight)
    {
      var faces := PerformMockDetection(imgWidth, imgHeight);
      r := Types.DetectionResult.New(faces, elapsedMs);
    }
  }

  /** With a minimum dimension of at most 400, the boxes present are the first ones, as in the fixed mock. */
  lemma ReportedPrefix(minDimension: U32, w: U32, h: U32)
    requires minDimension <= 400
    ensures forall i | 0 <= i < |Reported(minDimension, w, h)| :: Reported(minDimension, w, h)[i] == i
  {
  }

  /** The first box is reported exactly when both sides exceed the minimum dimension. */
  lemma FirstBoxIff(minDimension: U32, w: U32, h: U32)
    ensures 0 in Reported(minDimension, w, h) <==> w > minDimension && h > minDimension
  {
  }

  /** A minimum dimension of 500 suppresses the first box on a 500 x 500 image but not the second. */
  lemma LargeMinimumKeepsSecond()
    ensures Reported(500, 500, 500) == [1]
  {
    assert !Present(0, 500, 500, 500) && Present(1, 500, 500, 500) && !Present(2, 500, 500, 500);
    assert [] + [1] + [] == [1];
  }

  /** A default detector finds exactly one face in a 300 x 300 image. */
  method DefaultOnSmallImage(elapsedMs: U64) returns (r: Types.DetectionResult)
    ensures r.HasFaces() && r.totalFaces == 1
  {
    var created := FaceDetector.New();
    var detector := created.value;
    r := detector.DetectFaces(300, 300, elapsedMs);
    assert Reported(200, 300, 300) == [0];
  }

  /**
   * Configuring a detector with 400 and the `f32` literal 0.8 (held as the
   * exact real it denotes) reads back 400 and that same value.
   */
  method ConfiguredDetector() returns (m: U32, t: real)
    ensures m == 400 && t == Types.HIGH_CONFIDENCE
  {
    var created := FaceDetector.New();
    var detector := created.value;
    detector.WithMinDimension(400);
    detector.WithConfidenceThreshold(Types.HIGH_CONFIDENCE);
    m := detector.MinDimension();
    t := detector.ConfidenceThreshold();
  }
}
