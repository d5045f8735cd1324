/** The decoded heightmap: a rectangular grid of 8-bit grayscale samples
    stored row by row, as the image decoder hands it to the converter. */
module Heightmap {
  import opened RowMajor

  /** Brightest 8-bit grayscale value; it normalises to height 1. */
  const MaxSample: nat := 255

  datatype Grid = Grid(width: nat, height: nat, samples: seq<nat>) {

    /** The decoder's guarantee: a non-empty rectangle with one 8-bit
        sample per pixel. */
    predicate Valid() {
      && 1 <= width
      && 1 <= height
      && |samples| == width * height
      && forall i :: 0 <= i < |samples| ==> samples[i] <= MaxSample
    }

    /** The sample of pixel (col, row), i.e. `pixels[row, col]`. */
    function Sample(col: nat, row: nat): (p: nat)
      requires Valid() && col < width && row < height
      ensures p <= MaxSample
    {
      samples[Flat(width, height, col, row)]
    }
  }
}
