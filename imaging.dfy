/**
 * What the model keeps of the `image` crate: an image is known by its width
 * and height, and `crop_imm(x, y, w, h)` is asked for a rectangle and returns
 * an image of that rectangle's size.
 */
module Imaging {
  import opened Ints

  /** The rectangle handed to `crop_imm`, in pixels. */
  datatype Region = Region(x: U32, y: U32, width: U32, height: U32)
}
