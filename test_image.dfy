/**
 * `create_test_image` of `src/utils/image.rs`: an RGB buffer filled with a
 * light background, then with two 80 x 80 squares of skin tone at (100, 100)
 * and (300, 100), each clipped to the image.
 *
 * The buffer is an `array2` indexed `[x, y]`, as `get_pixel_mut_checked(x, y)`.
 */
module TestImage {
  import opened Wrappers
  import opened Ints
  import Models

  datatype Rgb = Rgb(r: Byte, g: Byte, b: Byte)

  const BACKGROUND: Rgb := Rgb(240, 240, 240)
  const SKIN_TONE: Rgb := Rgb(200, 180, 160)
  const DARKER_SKIN_TONE: Rgb := Rgb(180, 160, 140)

  const FACE_SIZE: nat := 80
  const SPACING: nat := 100

  /** The first square is drawn when both sides exceed 100; it covers [100, 180) in both directions. */
  predicate InFirstFace(width: nat, height: nat, x: nat, y: nat)
  {
    width > SPACING && height > SPACING
    && SPACING <= x < SPACING + FACE_SIZE && SPACING <= y < SPACING + FACE_SIZE
  }

  /** The second square is drawn when the width exceeds 300 and the height 100; it covers [300, 380) x [100, 180). */
  predicate InSecondFace(width: nat, height: nat, x: nat, y: nat)
  {
    width > 3 * SPACING && height > SPACING
    && 3 * SPACING <= x < 3 * SPACING + FACE_SIZE && SPACING <= y < SPACING + FACE_SIZE
  }

  /** The colour of pixel (x, y) of the test image. */
  function ExpectedPixel(width: nat, height: nat, x: nat, y: nat): (c: Rgb)
    ensures c == SKIN_TONE <==> InFirstFace(width, height, x, y)
    ensures c == DARKER_SKIN_TONE <==> InSecondFace(width, height, x, y)
    ensures c == BACKGROUND <==> !InFirstFace(width, height, x, y) && !InSecondFace(width, height, x, y)
  {
    if InFirstFace(width, height, x, y) then SKIN_TONE
    else if InSecondFace(width, height, x, y) then DARKER_SKIN_TONE
    else BACKGROUND
  }

  /** The two squares never overlap, so the order they are drawn in does not matter. */
  lemma FacesDisjoint(width: nat, height: nat, x: nat, y: nat)
    ensures !(InFirstFace(width, height, x, y) && InSecondFace(width, height, x, y))
  {
  }

  /** An image with a side of at most 100 pixels is all background. */
  lemma SmallImageIsBackground(width: nat, height: nat, x: nat, y: nat)
    requires width <= SPACING || height <= SPACING
    ensures ExpectedPixel(width, height, x, y) == BACKGROUND
  {
  }

  /** Every pixel is background or one of the two skin tones, and it is skin exactly inside a square. */
  lemma PixelColours(width: nat, height: nat, x: nat, y: nat)
    ensures ExpectedPixel(width, height, x, y) in {BACKGROUND, SKIN_TONE, DARKER_SKIN_TONE}
    ensures ExpectedPixel(width, height, x, y) != BACKGROUND
      <==> InFirstFace(width, height, x, y) || InSecondFace(width, height, x, y)
  {
  }

  /** The `for pixel in img.pixels_mut()` pass: every pixel, row by row, becomes `colour`. */
  method Fill(img: array2<Rgb>, colour: Rgb)
    modifies img
    ensures forall x, y | 0 <= x < img.Length0 && 0 <= y < img.Length1 :: img[x, y] == colour
  {
    for y := 0 to img.Length1
      invariant forall x', y' | 0 <= x' < img.Length0 && 0 <= y' < y :: img[x', y'] == colour
    {
      for x := 0 to img.Length0
        invariant forall x', y' | 0 <= x' < img.Length0 && 0 <= y' < y :: img[x', y'] == colour
        invariant forall x' | 0 <= x' < x :: img[x', y] == colour
      {
        img[x, y] := colour;
      }
    }
  }

  /**
   * One square pass: for y in `top..bottom`, for x in `left..right`, set the
   * pixel when `get_pixel_mut_checked` finds it inside the buffer.
   */
  method Paint(img: array2<Rgb>, left: nat, right: nat, top: nat, bottom: nat, colour: Rgb)
    modifies img
    ensures forall x, y | 0 <= x < img.Length0 && 0 <= y < img.Length1 ::
      img[x, y] == if left <= x < right && top <= y < bottom then colour else old(img[x, y])
  {
    for y := top to Max(top, bottom)
      invariant forall x', y' | 0 <= x' < img.Length0 && 0 <= y' < img.Length1 ::
        img[x', y'] == if left <= x' < right && top <= y' < y then colour else old(img[x', y'])
    {
      for x := left to Max(left, right)
        invariant forall x', y' | 0 <= x' < img.Length0 && 0 <= y' < img.Length1 ::
          img[x', y'] ==
            if (left <= x' < right && top <= y' < y) || (left <= x' < x && y' == y) then colour
            else old(img[x', y'])
      {
        if x < img.Length0 && y < img.Length1 {
          img[x, y] := colour;
        }
      }
    }
  }

  /**
   * `create_test_image`: a `width` x `height` buffer whose every pixel is
   * `ExpectedPixel`; it always succeeds.
   */
  method CreateTestImage(width: U32, height: U32) returns (r: Result<array2<Rgb>, Models.ApiError>)
    ensures r.Ok? && fresh(r.value)
    ensures r.value.Length0 == width && r.value.Length1 == height
    ensures forall x, y | 0 <= x < width && 0 <= y < height :: r.value[x, y] == ExpectedPixel(width, height, x, y)
  {
    var img := new Rgb[width, height];
    Fill(img, BACKGROUND);

    if width > SPACING && height > SPACING {
      Paint(img, SPACING, Min(SPACING + FACE_SIZE, width), SPACING, Min(SPACING + FACE_SIZE, height), SKIN_TONE);
    }

    if width > SPACING * 3 && height > SPACING {
      Paint(img, SPACING * 3, Min(SPACING * 3 + FACE_SIZE, width), SPACING, Min(SPACING + FACE_SIZE, height), DARKER_SKIN_TONE);
    }

    return Ok(img);
  }
}
