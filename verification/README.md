# ImageProcessingMPI — a Dafny model of the filter, the bitmap writer and the two-rank split

ImageProcessingMPI loads an image and splits it horizontally between two MPI
ranks. Each rank runs a 3×3 monochrome median filter on its band. Rank 1
streams its filtered rows to rank 0, which assembles the full image. Rank 0
then writes the result as a 24-bit bitmap file. This project models the
three pieces of pure logic under the Allegro and MPI plumbing, and proves
properties about them:

- **The median filter** (module `Filter`, with the reference sort in
  `Sorting`).
  - `calculateMedian` sorts its scratch buffer with an exchange sort and
    returns the element at index `length/2`. It is modelled as a method with
    loop invariants, working on a local copy of the buffer.
  - `medianFilter` writes one value to all three channels of every output
    pixel:
    - at an interior pixel, the median of channel index 2 (`R_CHANNEL`) over
      the 3×3 window;
    - at a border pixel, the input's own channel-2 sample.
  - The filter is given twice: once as a pure function, and once as the C
    code's loops (`MedianFilterLoops`). The two are proved equal.
- **The bitmap writer** (module `Bitmap`). It produces:
  - the 14-byte BITMAPFILEHEADER;
  - the 40-byte BITMAPINFOHEADER;
  - the pixel rows in matrix order, each row's samples in (column, channel)
    order, followed by `(4 - 3w mod 4) mod 4` zero bytes.

  The file is the returned byte sequence.
- **The two-rank band split** of the main routine (module `BandSplit`).
  - Rank 0 filters rows `[0, h/2+1)` and rank 1 filters rows `[h/2-1, h)`.
  - Rank 1 sends its local rows `1..sub_h-1` one sample at a time.
  - Rank 0 keeps its local rows `0..sub_h-2` and fills the remaining rows
    from the stream in the same (row, column, channel) order.
  - The message link is one ordered sequence of samples.
  - The headline theorem is `DistributedFilterIsMedianFilter`: for every
    image of height at least 2, the image rank 0 assembles equals the median
    filter applied to the whole image.

Shared definitions:
- `ImageConstants` holds the header's constants.
- `Grids` represents an image as a sequence of rows of pixels, each pixel a
  sequence of three `byte` samples addressed by channel index. It also holds
  the (row, column, channel) flattening used both by the bitmap payload and
  by the rank-1 stream.

The code and a natural reading of its intent differ in two places. The model
follows the code in both:
- The rows are written top row first. A bitmap with a positive height field
  is stored bottom-up, so the file holds the vertical mirror of the image. The
  program compensates only when it displays the file (`src/main.c:135`).
- The channel the header calls `R_CHANNEL` is index 2. The matrix builder
  stores Allegro's red, green and blue at indices 0, 1 and 2, so the filtered
  channel is Allegro's blue. The model refers to channels by index only.

## Model

| member | source | states |
|---|---|---|
| ImageConstants.ConstantsConsistent | include/image_processing.h:12-18 | three colour channels with distinct indices B=0, G=1, R=2 inside the pixel; an odd window of side 3 with a one-cell halo and 9 samples; the two headers together are 54 bytes, the pixel-array offset; 24 bits per pixel |
| Sorting.Insert | src/image_processing.c:113-122 | inserting into a sorted sequence gives a sorted sequence holding the old samples plus the new one |
| Sorting.Sort | src/image_processing.c:113-122 | the reference sort: its result is sorted and a permutation of its input |
| Sorting.SortedPermutationUnique | src/image_processing.c:113-122 | two sorted sequences with the same multiset of samples are equal, so any correct sort of the buffer yields the same arrangement |
| Sorting.SortIsTheSortedPermutation | src/image_processing.c:113-122 | any sorted permutation of the samples is the reference sort of them |
| Sorting.CountSort | src/image_processing.c:113-122 | sorting does not change how many samples fall in any value range |
| Sorting.SortedFewBelow | src/image_processing.c:124 | in a sorted sequence, at most `mid` samples are strictly smaller than the one at index `mid` |
| Sorting.SortedFewAbove | src/image_processing.c:124 | in a sorted sequence, at most `n - mid - 1` samples are strictly larger than the one at index `mid` |
| Filter.CalculateMedian | src/image_processing.c:111-125 | the exchange sort leaves the buffer non-decreasing and a permutation of its original contents (after outer pass `i`, position `i` is no larger than any later one); the result is the element at sorted index `length/2`, which is the order-statistic median of the input |
| Filter.ExchangeStep | src/image_processing.c:116-121 | one swap of the inner loop keeps the multiset of samples and the settled prefix, and leaves position `i` no larger than positions `i+1..j` |
| Filter.MiddleOfSortedArrangement | src/image_processing.c:124 | whatever sorted permutation the sort produces, its element at index `length/2` is the median of the samples |
| Filter.MedianOrderStatistic | src/image_processing.c:124 | the element at sorted index `length/2` occurs among the samples, and at most `length/2` samples are strictly smaller and at most `length/2` strictly larger |
| Filter.MedianUnique | src/image_processing.c:124 | for an odd number of samples, a value with at most `length/2` samples on each side is the median, so the median is the only such value |
| Filter.NotBelowMedian | src/image_processing.c:124 | a value with at most half of the samples above it is not below a value with at most half of the samples below it |
| Filter.NotAboveMedian | src/image_processing.c:124 | the mirror of NotBelowMedian |
| Filter.WindowCell | src/image_processing.c:86-89 | the window of an interior pixel holds channel 2 of exactly the nine cells `(x, y)`, `x` in `[i-1, i+1]`, `y` in `[j-1, j+1]`, in row-by-row order, and all of them are inside the image |
| Filter.MedianFilter | src/image_processing.c:72-108 | the output image has the input's dimensions |
| Filter.BorderIsCopied | src/image_processing.c:99-104 | every output pixel is grey, and a pixel outside the interior gets the input's channel 2 in all three channels, whatever its neighbours hold |
| Filter.InteriorIsWindowMedian | src/image_processing.c:82-96 | every channel of an interior output pixel is a median of the nine channel-2 window samples, and is the only value that is one |
| Filter.SmallImageIsAllBorder | src/image_processing.c:82-83 | an image less than 3 rows high or 3 columns wide has no interior, so every output pixel is the input's channel 2 broadcast |
| Filter.FilterIsLocal | src/image_processing.c:82-104 | the output at a pixel depends only on channel 2 of the cells of its window (of the pixel itself on the border) |
| Filter.GatherNeighborhood | src/image_processing.c:86-89 | the scratch buffer filled by the two window loops is the window in `(nx, ny)` order |
| Filter.FilterPixel | src/image_processing.c:82-104 | the body of the pixel loop computes exactly the filter's output pixel |
| Filter.MedianFilterLoops | src/image_processing.c:72-108 | the C loops over rows and columns, with the scratch-buffer median, compute the filter's output image |
| Grids.Grey | src/image_processing.c:94-96 | the pixel written for a value has that value in each of the three channels |
| Grids.FlattenRowIndex | src/image_processing.c:153 | sample `k` of pixel `j` is at offset `3j + k` of a flattened row |
| Grids.RowStartIsProduct | src/image_processing.c:153 | row `i` of equal-length rows starts at `i * rowLen` |
| Grids.FlattenRowsIndex | src/image_processing.c:143-148 | sample `k` of pixel `(i, j)` is at offset `(i*w + j)*3 + k` of the flattened image |
| Grids.UnflattenFlattenRows | src/main.c:196-202 | reading a flattened grid back row by row, column by column and channel by channel gives the grid |
| Grids.FlattenUnflattenRows | src/main.c:196-202 | flattening the rows read from a stream gives the stream back, so no sample is lost or reordered |
| Bitmap.Le32 | src/image_processing.c:173-176 | the four bytes `(unsigned char)(x >> 8k)` hold `x` modulo 2^32, as a little-endian field |
| Bitmap.Le32FromLe32 | src/image_processing.c:173-176 | every 4-byte little-endian field is the encoding of its own value |
| Bitmap.PaddingSize | src/image_processing.c:132 | the padding is below 4 and brings the row length `3w + p` to a multiple of 4 |
| Bitmap.PaddingUnique | src/image_processing.c:132 | it is the only count below 4 that does so |
| Bitmap.CreateBitmapFileHeader | src/image_processing.c:161-180 | 14 bytes: `'B','M'`, the file size `54 + (3w + p)·h` little-endian modulo 2^32 at offset 2, zero reserved words, the pixel-array offset 54 at offset 10, every other byte zero |
| Bitmap.CreateBitmapInfoHeader | src/image_processing.c:183-211 | 40 bytes: header size 40, width and height little-endian modulo 2^32 at offsets 4 and 8, one colour plane at 12, 24 bits per pixel at 14, every other byte zero |
| Bitmap.RowSlicesOfImage | src/image_processing.c:143-153 | cutting the flattened image into runs of `3w` samples gives each image row's samples in order |
| Bitmap.EmitRowsAppend | src/image_processing.c:151-155 | emitting two groups of rows emits the first group, then the second |
| Bitmap.EmitRowsLength | src/image_processing.c:151-155 | rows of `rowLen` samples emit `rowLen + p` bytes each |
| Bitmap.EmitRowsIndex | src/image_processing.c:151-155 | byte `t` of emitted row `i` is byte `t` of that row, or zero in the padding |
| Bitmap.GenerateBitmapImage | src/image_processing.c:130-162 | the written file is exactly as long as the size its header announces |
| Bitmap.BitmapHeaderFields | src/image_processing.c:139-140 | in the written file: the signature at 0, the file size equal to the file's length modulo 2^32 at 2, the offset 54 at 10, the info-header size at 14, width at 18, height at 22, one plane at 26 and 24 bits per pixel at 28 |
| Bitmap.HeadersInFile | src/image_processing.c:139-140 | the file starts with the file header, followed directly by the info header |
| Bitmap.PixelLayout | src/image_processing.c:143-155 | the row stride `3w + p` is a multiple of 4; sample `k` of pixel `(i, j)` is at file offset `54 + i·(3w + p) + 3j + k`, with row 0 first |
| Bitmap.PaddingLayout | src/image_processing.c:131-154 | the `p` bytes after the samples of every row are zero |
| BandSplit.BandHeight | src/main.c:167-174 | each sub-bitmap is at least two rows high and lies inside the image; rank 0's band is rows `[0, h/2+1)` and rank 1's band ends at the image's last row, so it is rows `[h/2-1, h)` |
| BandSplit.OwnedRowsPartition | src/main.c:184-196 | rank 0 supplies rows `[0, h/2)` and rank 1 rows `[h/2, h)`; no row comes from both, and a row comes from one of them exactly when it is in the image |
| BandSplit.HaloSufficient | src/main.c:167-171 | every image row that the window of an owned row reaches lies inside the owner's band |
| BandSplit.InteriorMatches | src/main.c:168-178 | an owned pixel is interior in the owner's band exactly when it is interior in the whole image |
| BandSplit.TransferCountsMatch | src/main.c:196-217 | the number of samples rank 1 sends, `(sub_h - 1)·3w`, equals the number rank 0 receives, `(h - (sub_h - 1))·3w`, and both are `(h - h/2)·3w` |
| BandSplit.Band | src/main.c:167-171 | a rank's sub-bitmap is an image of the band's height whose local row `l` is image row `top + l` |
| BandSplit.Rank1StreamOrder | src/main.c:214-217 | channel `c` of local column `j` of local row `l` is sample number `((l-1)·w + j)·3 + c` of what rank 1 sends |
| BandSplit.Rank0Assemble | src/main.c:184-193 | the assembled image has the full image's dimensions and keeps rank 0's filtered local rows `0..sub_h-2` |
| BandSplit.Rank0ReceiveOrder | src/main.c:196-202 | rank 0 stores received sample number `((i - (sub_h-1))·w + j)·3 + c` at row `i`, column `j`, channel `c` |
| BandSplit.TransferDeliversRows | src/main.c:196-217 | with in-order delivery, row `r ≥ h/2` of the assembled image is rank 1's filtered local row `r - (h/2 - 1)`, channel for channel |
| BandSplit.AssembleRow | src/main.c:180-217 | row `r` of the assembled image is rank 0's local row `r` below `h/2` and rank 1's local row `r - (h/2 - 1)` from there on |
| BandSplit.BandRowAgrees | src/main.c:176-178 | filtering a band gives, on a row whose interior status is the same in the band as in the image, the row the whole-image filter gives |
| BandSplit.OwnedRowFiltered | src/main.c:167-178 | on every row the rank owns, the rank's band filter agrees with the whole-image filter |
| BandSplit.DistributedFilterIsMedianFilter | src/main.c:167-202 | for every image of height at least 2, the image rank 0 assembles equals the median filter applied to the whole image |
| BandSplit.Rank0WritesEachCellOnce | src/main.c:184-202 | the assembly loops write each row, column and channel of the image exactly once, and nothing outside it |

## Left out

- Allegro is left out: loading the image, the matrix builder's pixel reads, the display, the event loop, the timer and the window. These are foreign-library calls. The input image is a parameter of the model.
- Allocating and freeing the image buffers is left out, because it only manages memory. The static header buffers the C functions return are modelled as fresh sequences. The reuse of the one scratch buffer across pixels is modelled as a fresh buffer per pixel, which gives the same values.
- File I/O is left out: opening, writing and closing the file. The file is modelled as the byte sequence the writes produce, in order.
- The MPI runtime is left out: initialisation, ranks, the image-path handoff and all concurrency. The link from rank 1 to rank 0 is modelled as one ordered sequence of samples.
- The transfer of each sample is modelled as delivering the sample's byte value. Rank 1 passes the address of a single `unsigned char` sample as a one-element `MPI_INT` buffer (`src/main.c:217`). MPI therefore reads four bytes starting at the sample, which runs past the three-byte pixel block allocated at `src/image_processing.c:59`. Rank 0 receives an `int` and keeps its low-order byte (`src/main.c:200-201`), which is the sent sample only on a little-endian host. Neither the over-read nor the big-endian case is modelled.
- Ranks other than 0 and 1 are left out: the program gives every rank other than 0 rank 1's role, so only a two-rank run is meaningful.
- The band split covers only images at least 2 rows high. At height 1, rank 1's sub-bitmap would start at row -1, and how the library handles that is not part of this model.
- Sub-bitmaps are assumed to be clipped to the image, and `BandSplit.BandHeight` clips each request to the rows that exist. This matters for rank 1 at every height `h >= 4`; for `h = 2` and `h = 3` the request fits the image exactly. `src/main.c:171` asks for `image_height` rows starting at row `h/2 - 1`, which runs `h/2 - 1` rows past the image for every `h >= 4`. `BandSplit.DistributedFilterIsMedianFilter` holds only because of the clipping. Without it, row `h - 1` would count as interior in rank 1's band. Its pixels in the interior columns would then take a window median that reaches below the image, instead of the border copy the whole-image filter gives. Rank 1 would also send `(h/2 - 1)·3w` more samples than rank 0 receives.
- Filter.CalculateMedian: requires a non-empty buffer. With length 0 the C function reads outside the buffer, and the filter always passes 9 samples.
- Bitmap.CreateBitmapFileHeader: states the file-size field modulo 2^32. The C `int` arithmetic for the size would overflow for images over 2 GiB, which is undefined behaviour in C and is not modelled.
- Bitmap.CreateBitmapInfoHeader: states the width and height fields modulo 2^32. The C code does no arithmetic on them (`src/image_processing.c:199-206`); the modulus appears only because the model's `w` and `h` are unbounded naturals, while the C values are `int`s whose four bytes are written as they are.
- There is no bitmap decoder and no bottom-up row reversal, because the program has neither.
- Error handling is not modelled. The program reports some errors elsewhere: an allocation failure at `src/image_processing.c:41-45` and a failed image load at `src/main.c:50-54`. The modelled functions handle none. The `calloc` result at `src/image_processing.c:76` and the `fopen` result at `src/image_processing.c:137` are used unchecked, and the model assumes both succeed.
