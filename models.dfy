/**
 * `src/detection/models.rs`: the `i32` face box the `detection` module
 * reports, and its detection result.
 */
module Models {
  import opened Ints

  /** A face box with signed coordinates and an `f32` confidence, held as the real it denotes. */
  datatype FaceDetection = FaceDetection(x: I32, y: I32, width: I32, height: I32, confidence: real)

  /** The faces found in one image, their count, and the time taken. */
  datatype DetectionResult = DetectionResult(faces: seq<FaceDetection>, processingTimeMs: U64, totalFaces: nat)
  {
    /** `DetectionResult::new`: the count is taken from the faces, which are kept in order. */
    static function New(faces: seq<FaceDetection>, processingTimeMs: U64): (r: DetectionResult)
      ensures r.totalFaces == |faces|
      ensures r.faces == faces && r.processingTimeMs == processingTimeMs
      ensures faces == [] ==> r.totalFaces == 0
    {
      DetectionResult(faces, processingTimeMs, |faces|)
    }
  }

  /** The one variant of the API error the modelled functions of `src/api` and `src/detection` return. */
  datatype ApiError = ImageProcessingFailed
}
