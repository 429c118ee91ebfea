/** Fixed parameters of the image pipeline: the channel layout of a pixel,
    the filter window, and the sizes of the two bitmap headers. */
module ImageConstants {

  /** An unsigned 8-bit sample (`unsigned char`). */
  type byte = x: int | 0 <= x < 256

  /** A pixel holds this many samples, addressed by channel index. */
  const COLOR_CHANNELS: nat := 3

  /** Channel indices as the header names them. The matrix builder stores
      the library's red, green and blue at indices 0, 1 and 2, so the index
      named R here actually carries the library's blue sample. */
  const R_CHANNEL: nat := 2
  const G_CHANNEL: nat := 1
  const B_CHANNEL: nat := 0

  /** Side of the square median window. */
  const WINDOW_FILTER_SIZE: nat := 3
  /** Cells on each side of the centre that the window reaches,
      `WINDOW_FILTER_SIZE / 2` (ConstantsConsistent). */
  const HALO: nat := 1
  /** Number of samples gathered per window, `WINDOW_FILTER_SIZE` squared
      (ConstantsConsistent). */
  const NEIGHBORHOOD_SIZE: nat := 9

  /** Bitmap header sizes in bytes. */
  const FILE_HEADER_SIZE: nat := 14
  const INFO_HEADER_SIZE: nat := 40
  /** Offset of the pixel array in the file: both headers come first
      (ConstantsConsistent). */
  const PIXEL_ARRAY_OFFSET: nat := 54
  /** One byte per channel (ConstantsConsistent). */
  const BITS_PER_PIXEL: nat := 24

  /** The constants fit together: three distinct channel indices inside a
      pixel, an odd window with a one-cell halo and nine samples, a 54-byte
      pixel-array offset and 24 bits per pixel. */
  lemma ConstantsConsistent()
    ensures COLOR_CHANNELS == 3
    ensures B_CHANNEL != G_CHANNEL && G_CHANNEL != R_CHANNEL && B_CHANNEL != R_CHANNEL
    ensures B_CHANNEL < COLOR_CHANNELS && G_CHANNEL < COLOR_CHANNELS && R_CHANNEL < COLOR_CHANNELS
    ensures WINDOW_FILTER_SIZE % 2 == 1 && 2 * HALO + 1 == WINDOW_FILTER_SIZE
    ensures HALO == WINDOW_FILTER_SIZE / 2 && HALO == 1
    ensures NEIGHBORHOOD_SIZE == WINDOW_FILTER_SIZE * WINDOW_FILTER_SIZE
    ensures PIXEL_ARRAY_OFFSET == FILE_HEADER_SIZE + INFO_HEADER_SIZE && PIXEL_ARRAY_OFFSET < 256
    ensures BITS_PER_PIXEL == COLOR_CHANNELS * 8
  {
  }
}
