/**
 * `src/detection/detector.rs`: the mock detector that synthesises up to
 * three face boxes from the image size alone, and the clipping of an `i32`
 * face box to the image before cropping.
 *
 * The `u32` arithmetic of the source is exact here as long as `w * 2` and
 * `h * 2` do not overflow where they are evaluated, which the callers must
 * ensure; every quotient then fits the `i32` it is cast to.
 */
module MockDetector {
  import opened Wrappers
  import opened Ints
  import opened Models
  import Imaging

  /** Each of the three boxes is reported when both sides of the image exceed its threshold. */
  function Threshold(k: nat): nat
    requires k < 3
  {
    if k == 0 then 200 else if k == 1 then 400 else 600
  }

  predicate Present(k: nat, w: U32, h: U32)
    requires k < 3
  {
    w > Threshold(k) && h > Threshold(k)
  }

  /** The `u32` products `img_width * 2` and `img_height * 2` do not overflow where they are computed. */
  predicate ProductsFit(w: U32, h: U32)
  {
    && (Present(1, w, h) ==> w * 2 < U32_LIMIT)
    && (Present(2, w, h) ==> h * 2 < U32_LIMIT)
  }

  /**
   * The number of boxes reported. The thresholds grow with k, so the
   * boxes present are always the first ones.
   */
  function DetectedCount(w: U32, h: U32): (n: nat)
    ensures n <= 3
    ensures forall k | 0 <= k < 3 :: k < n <==> Present(k, w, h)
  {
    if Present(2, w, h) then 3 else if Present(1, w, h) then 2 else if Present(0, w, h) then 1 else 0
  }

  /** The k-th box: at a quarter, at two thirds across, at the middle of the image. */
  function Candidate(k: nat, w: U32, h: U32): (f: FaceDetection)
    requires k < 3 && Present(k, w, h) && ProductsFit(w, h)
    ensures f.width == w / (k + 4) && f.height == h / (k + 4)
    ensures 0.5 < f.confidence <= 1.0
  {
    if k == 0 then FaceDetection(w / 4, h / 4, w / 4, h / 4, 0.95)
    else if k == 1 then FaceDetection(w * 2 / 3, h / 3, w / 5, h / 5, 0.87)
    else FaceDetection(w / 2, h * 2 / 3, w / 6, h / 6, 0.92)
  }

  /** A box with non-negative corner and sides that lies within a `w` x `h` image. */
  predicate Inside(f: FaceDetection, w: int, h: int)
  {
    && 0 <= f.x && 0 <= f.y && 0 <= f.width && 0 <= f.height
    && f.x + f.width <= w && f.y + f.height <= h
  }

  /** Every synthesised box lies inside the image, and is never empty. */
  lemma CandidateInside(k: nat, w: U32, h: U32)
    requires k < 3 && Present(k, w, h) && ProductsFit(w, h)
    ensures Inside(Candidate(k, w, h), w, h)
    ensures Candidate(k, w, h).width > 0 && Candidate(k, w, h).height > 0
  {
  }

  /** `perform_mock_detection`: push each box whose threshold both sides exceed. */
  method PerformMockDetection(imgWidth: U32, imgHeight: U32) returns (faces: seq<FaceDetection>)
    requires ProductsFit(imgWidth, imgHeight)
    ensures |faces| == DetectedCount(imgWidth, imgHeight)
    ensures forall k | 0 <= k < |faces| :: faces[k] == Candidate(k, imgWidth, imgHeight)
    ensures forall f | f in faces :: Inside(f, imgWidth, imgHeight) && 0.5 < f.confidence <= 1.0
  {
    faces := [];
    if imgWidth > 200 && imgHeight > 200 {
      faces := faces + [FaceDetection(imgWidth / 4, imgHeight / 4, imgWidth / 4, imgHeight / 4, 0.95)];
      CandidateInside(0, imgWidth, imgHeight);
    }
    if imgWidth > 400 && imgHeight > 400 {
      faces := faces + [FaceDetection(imgWidth * 2 / 3, imgHeight / 3, imgWidth / 5, imgHeight / 5, 0.87)];
      CandidateInside(1, imgWidth, imgHeight);
    }
    if imgWidth > 600 && imgHeight > 600 {
      faces := faces + [FaceDetection(imgWidth / 2, imgHeight * 2 / 3, imgWidth / 6, imgHeight / 6, 0.92)];
      CandidateInside(2, imgWidth, imgHeight);
    }
  }

  /** The sizes the first tests use: 200 x 200 gives none (not the one the test expects), 500 x 500 two, 700 x 700 three. */
  lemma TestSizes()
    ensures DetectedCount(200, 200) == 0
    ensures DetectedCount(500, 500) == 2
    ensures DetectedCount(700, 700) == 3
  {
  }

  /** A 50 x 50 image gives no box. */
  lemma TinyImageSize()
    ensures DetectedCount(50, 50) == 0
  {
  }

  // ------------------------------------------------------------------ cropping

  /**
   * `crop_face` on an image of `imageWidth` x `imageHeight`: a negative
   * corner is moved to 0, each side is cast to `u32` and cut back to the
   * image edge. `img_width - x` and `img_height - y` are `u32` subtractions:
   * a corner beyond the image makes one of them underflow, and the call panics.
   */
  function CropFace(imageWidth: U32, imageHeight: U32, face: FaceDetection): (r: Outcome<Result<Imaging.Region, ApiError>>)
    ensures r.Panics? <==> face.x > imageWidth || face.y > imageHeight
    ensures r.Returns? ==> r.value.Ok?
    ensures r.Returns? ==> var c := r.value.value;
      && c.x == Max(face.x, 0) && c.y == Max(face.y, 0)
      && c.x + c.width <= imageWidth && c.y + c.height <= imageHeight
      && c.width <= I32AsU32(face.width) && c.height <= I32AsU32(face.height)
      && (c.width == I32AsU32(face.width) || c.x + c.width == imageWidth)
      && (c.height == I32AsU32(face.height) || c.y + c.height == imageHeight)
  {
    if Max(face.x, 0) > imageWidth || Max(face.y, 0) > imageHeight then Panics
    else
      Returns(Ok(Imaging.Region(Max(face.x, 0), Max(face.y, 0),
        Min(I32AsU32(face.width), imageWidth - Max(face.x, 0)),
        Min(I32AsU32(face.height), imageHeight - Max(face.y, 0)))))
  }

  /** A corner below the bottom edge makes `img_height - y` underflow; a negative one never does. */
  lemma CornerPastEdgePanics()
    ensures CropFace(100, 100, FaceDetection(0, 120, 10, 10, 0.9)) == Panics
    ensures CropFace(100, 100, FaceDetection(-500, -500, 10, 10, 0.9)).Returns?
  {
  }

  /**
   * A negative side is cast to a `u32` of at least 2^31: on an image narrower
   * than that, the crop runs to the image edge, and it is empty only when the
   * corner already sits on that edge.
   */
  lemma NegativeSideRunsToEdge(imageWidth: U32, imageHeight: U32, face: FaceDetection)
    requires Max(face.x, 0) <= imageWidth && Max(face.y, 0) <= imageHeight
    requires imageWidth < I32_LIMIT && imageHeight < I32_LIMIT
    ensures var c := CropFace(imageWidth, imageHeight, face).value.value;
      && (face.width < 0 ==> c.x + c.width == imageWidth && (c.width == 0 <==> c.x == imageWidth))
      && (face.height < 0 ==> c.y + c.height == imageHeight && (c.height == 0 <==> c.y == imageHeight))
  {
  }

  /** A negative corner is moved to 0 without shortening the side. */
  lemma NegativeCornerKeepsSide(imageWidth: U32, imageHeight: U32, face: FaceDetection)
    requires face.x < 0 && 0 <= face.width <= imageWidth && face.y <= imageHeight
    ensures var c := CropFace(imageWidth, imageHeight, face).value.value;
      c.x == 0 && c.width == face.width
  {
  }

  /** A box inside the image is cropped exactly; so is every box the mock reports. */
  lemma CropInsideUnchanged(imageWidth: U32, imageHeight: U32, face: FaceDetection)
    requires Inside(face, imageWidth, imageHeight)
    ensures CropFace(imageWidth, imageHeight, face) == Returns(Ok(Imaging.Region(face.x, face.y, face.width, face.height)))
  {
  }

  lemma MockFacesCropExactly(w: U32, h: U32, k: nat)
    requires k < 3 && Present(k, w, h) && ProductsFit(w, h)
    ensures var f := Candidate(k, w, h);
      CropFace(w, h, f) == Returns(Ok(Imaging.Region(f.x, f.y, f.width, f.height)))
  {
    CandidateInside(k, w, h);
    CropInsideUnchanged(w, h, Candidate(k, w, h));
  }

  /**
   * A box hanging over the top-left corner keeps its size; one hanging over
   * the bottom-right edge is cut back to it.
   */
  lemma ClippedAtEdges()
    ensures CropFace(300, 300, FaceDetection(-10, -10, 150, 150, 0.9)) == Returns(Ok(Imaging.Region(0, 0, 150, 150)))
    ensures CropFace(100, 100, FaceDetection(90, 90, 50, 50, 0.9)) == Returns(Ok(Imaging.Region(90, 90, 10, 10)))
  {
  }

  /** Cropping a 300 x 300 image at (50, 50) to 100 x 100 asks for a 100 x 100 image. */
  lemma CropTestFace()
    ensures CropFace(300, 300, FaceDetection(50, 50, 100, 100, 0.9)) == Returns(Ok(Imaging.Region(50, 50, 100, 100)))
  {
  }
}
