/** The 24-bit bitmap writer: a 14-byte file header, a 40-byte info header,
    then the pixel rows in matrix order (row 0 first), each row's samples in
    (column, channel) order followed by zero padding up to a multiple of
    four bytes. The file is modelled as the returned byte sequence. */
module Bitmap {
  import opened ImageConstants
  import opened Grids

  const TWO_TO_THE_32: int := 0x1_0000_0000

  // ---------------------------------------------------------------------
  // Little-endian 32-bit fields
  // ---------------------------------------------------------------------

  /** The value of a 4-byte little-endian field. */
  function FromLe32(b: seq<byte>): int
    requires |b| == 4
  {
    var b0: int, b1: int, b2: int, b3: int := b[0], b[1], b[2], b[3];
    b0 + 256 * (b1 + 256 * (b2 + 256 * b3))
  }

  /** The four bytes `(unsigned char)(x >> 8k)`, k = 0..3, of a C `int`.
      Shifting right by 8 is modelled as floor division by 256 (an
      arithmetic shift, also for negative values) and the cast to
      `unsigned char` as the non-negative remainder modulo 256; the field
      therefore holds `x` modulo 2^32. */
  function Le32(x: int): (b: seq<byte>)
    ensures |b| == 4
    ensures FromLe32(b) == x % TWO_TO_THE_32
  {
    var q1 := x / 256;
    var q2 := q1 / 256;
    var q3 := q2 / 256;
    var b := [x % 256, q1 % 256, q2 % 256, q3 % 256];
    Le32Value(x, b);
    b
  }

  lemma ModUnique(x: int, m: int, q: int, r: int)
    requires 0 < m && 0 <= r < m && x == q * m + r
    ensures x % m == r && x / m == q
  {
    var q' := x / m;
    var r' := x % m;
    assert x == q' * m + r';
    MulDiff(q', q, m);
    MulDiff(q, q', m);
  }

  lemma MulDiff(a: int, b: int, m: int)
    requires 0 < m
    ensures a > b ==> a * m - b * m >= m
  {
    if a > b {
      var d := a - b;
      assert a * m - b * m == d * m;
      assert d * m == (d - 1) * m + m;
      assert (d - 1) * m >= 0;
    }
  }

  lemma Le32Value(x: int, b: seq<byte>)
    requires b == [x % 256, (x / 256) % 256, ((x / 256) / 256) % 256, (((x / 256) / 256) / 256) % 256]
    ensures FromLe32(b) == x % TWO_TO_THE_32
  {
    var q1 := x / 256;
    var q2 := q1 / 256;
    var q3 := q2 / 256;
    var q4 := q3 / 256;
    assert x == q1 * 256 + b[0];
    assert q1 == q2 * 256 + b[1];
    assert q2 == q3 * 256 + b[2];
    assert q3 == q4 * 256 + b[3];
    var v := FromLe32(b);
    assert 0 <= v < TWO_TO_THE_32;
    assert x == q4 * TWO_TO_THE_32 + v;
    ModUnique(x, TWO_TO_THE_32, q4, v);
  }

  /** Writing back the value of a field gives the field: the encoding of
      a 32-bit value is unique. */
  lemma Le32FromLe32(b: seq<byte>)
    requires |b| == 4
    ensures Le32(FromLe32(b)) == b
  {
    var x := FromLe32(b);
    var b0: int, b1: int, b2: int, b3: int := b[0], b[1], b[2], b[3];
    ModUnique(x, 256, b1 + 256 * (b2 + 256 * b3), b0);
    ModUnique(x / 256, 256, b2 + 256 * b3, b1);
    ModUnique(x / 256 / 256, 256, b3, b2);
    ModUnique(x / 256 / 256 / 256, 256, 0, b3);
  }

  // ---------------------------------------------------------------------
  // Headers
  // ---------------------------------------------------------------------

  /** Zero bytes appended to every row so that its length is a multiple of
      four: the least such count. */
  function PaddingSize(w: nat): (p: nat)
    ensures p < 4
    ensures (COLOR_CHANNELS * w + p) % 4 == 0
  {
    (4 - (w * COLOR_CHANNELS) % 4) % 4
  }

  /** The padding is the only count below four that aligns a row. */
  lemma PaddingUnique(w: nat, q: nat)
    requires q < 4 && (COLOR_CHANNELS * w + q) % 4 == 0
    ensures q == PaddingSize(w)
  {
  }

  /** Total length of the file the header announces. */
  function FileSize(h: nat, w: nat, paddingSize: nat): nat {
    FILE_HEADER_SIZE + INFO_HEADER_SIZE + (COLOR_CHANNELS * w + paddingSize) * h
  }

  /** BITMAPFILEHEADER: signature "BM", file size, two reserved words and
      the pixel-array offset. */
  function CreateBitmapFileHeader(h: nat, w: nat, paddingSize: nat): (header: seq<byte>)
    ensures |header| == FILE_HEADER_SIZE
    ensures header[0] == 'B' as int && header[1] == 'M' as int
    ensures FromLe32(header[2..6]) == FileSize(h, w, paddingSize) % TWO_TO_THE_32
    ensures FromLe32(header[6..10]) == 0
    ensures FromLe32(header[10..14]) == PIXEL_ARRAY_OFFSET
    ensures forall k :: 6 <= k < FILE_HEADER_SIZE && k != 10 ==> header[k] == 0
  {
    ['B' as int, 'M' as int] + Le32(FileSize(h, w, paddingSize))
      + [0, 0, 0, 0] + [PIXEL_ARRAY_OFFSET, 0, 0, 0]
  }

  /** BITMAPINFOHEADER: header size, width, height, one colour plane,
      24 bits per pixel, and zero for compression, image size, resolutions
      and palette counts. */
  function CreateBitmapInfoHeader(h: nat, w: nat): (header: seq<byte>)
    ensures |header| == INFO_HEADER_SIZE
    ensures FromLe32(header[0..4]) == INFO_HEADER_SIZE
    ensures FromLe32(header[4..8]) == w % TWO_TO_THE_32
    ensures FromLe32(header[8..12]) == h % TWO_TO_THE_32
    ensures header[12] == 1 && header[13] == 0
    ensures header[14] == BITS_PER_PIXEL && header[15] == 0
    ensures forall k :: 16 <= k < INFO_HEADER_SIZE ==> header[k] == 0
  {
    var header := [INFO_HEADER_SIZE, 0, 0, 0] + Le32(w) + Le32(h) + [1, 0] + [BITS_PER_PIXEL, 0]
      + seq(INFO_HEADER_SIZE - 16, _ => 0);
    assert header[0..4] == [INFO_HEADER_SIZE, 0, 0, 0];
    assert header[4..8] == Le32(w);
    assert header[8..12] == Le32(h);
    header
  }

  // ---------------------------------------------------------------------
  // Pixel rows
  // ---------------------------------------------------------------------

  /** The three-byte zero buffer the padding is written from. */
  const PADDING: seq<byte> := [0, 0, 0]

  /** Cuts the temporary buffer into `n` consecutive rows of `rowLen`
      bytes: row `i` is bytes `[i * rowLen, (i + 1) * rowLen)`. */
  function RowSlices(flat: seq<byte>, rowLen: nat, n: nat): (rows: seq<seq<byte>>)
    requires |flat| == n * rowLen
    ensures |rows| == n
    ensures forall i :: 0 <= i < n ==> |rows[i]| == rowLen
  {
    if n == 0 then []
    else
      MulSucc(n - 1, rowLen);
      [flat[..rowLen]] + RowSlices(flat[rowLen..], rowLen, n - 1)
  }

  /** Cut back into rows, the flattened image gives each image row's
      samples in (column, channel) order. */
  lemma {:induction false} RowSlicesOfImage(image: Grid, h: nat, w: nat)
    requires IsGrid(image, h, w)
    ensures forall i :: 0 <= i < h ==>
      RowSlices(FlattenRows(image, h, w), COLOR_CHANNELS * w, h)[i] == FlattenRow(image[i])
    decreases h
  {
    if h > 0 {
      var rowLen := COLOR_CHANNELS * w;
      var flat := FlattenRows(image, h, w);
      var rest := image[1..];
      assert IsGrid(rest, h - 1, w);
      assert flat == FlattenRow(image[0]) + FlattenRows(rest, h - 1, w);
      assert flat[..rowLen] == FlattenRow(image[0]);
      assert flat[rowLen..] == FlattenRows(rest, h - 1, w);
      RowSlicesOfImage(rest, h - 1, w);
      var rows := RowSlices(flat, rowLen, h);
      assert rows[1..] == RowSlices(FlattenRows(rest, h - 1, w), rowLen, h - 1);
      forall i | 0 <= i < h
        ensures rows[i] == FlattenRow(image[i])
      {
        if i > 0 {
          assert rows[i] == rows[1..][i - 1];
          assert image[i] == rest[i - 1];
        }
      }
    }
  }

  /** Writes each row followed by `paddingSize` zero bytes. */
  function EmitRows(rows: seq<seq<byte>>, paddingSize: nat): seq<byte>
    requires paddingSize <= |PADDING|
  {
    if |rows| == 0 then []
    else rows[0] + PADDING[..paddingSize] + EmitRows(rows[1..], paddingSize)
  }

  lemma {:induction false} EmitRowsAppend(a: seq<seq<byte>>, b: seq<seq<byte>>, paddingSize: nat)
    requires paddingSize <= |PADDING|
    ensures EmitRows(a + b, paddingSize) == EmitRows(a, paddingSize) + EmitRows(b, paddingSize)
    decreases |a|
  {
    if |a| == 0 {
      assert a + b == b;
    } else {
      assert (a + b)[1..] == a[1..] + b;
      EmitRowsAppend(a[1..], b, paddingSize);
    }
  }

  /** Rows of equal length `rowLen` emit `rowLen + paddingSize` bytes each. */
  lemma {:induction false} EmitRowsLength(rows: seq<seq<byte>>, rowLen: nat, paddingSize: nat)
    requires paddingSize <= |PADDING|
    requires forall i :: 0 <= i < |rows| ==> |rows[i]| == rowLen
    ensures |EmitRows(rows, paddingSize)| == |rows| * (rowLen + paddingSize)
    decreases |rows|
  {
    if |rows| > 0 {
      EmitRowsLength(rows[1..], rowLen, paddingSize);
      MulSucc(|rows| - 1, rowLen + paddingSize);
    }
  }

  /** Byte `t` of emitted row `i` is byte `t` of that row, or a zero
      padding byte past its end. */
  lemma EmitRowsIndex(rows: seq<seq<byte>>, rowLen: nat, paddingSize: nat, i: nat, t: nat)
    requires paddingSize <= |PADDING|
    requires forall r :: 0 <= r < |rows| ==> |rows[r]| == rowLen
    requires i < |rows| && t < rowLen + paddingSize
    ensures RowStart(i, rowLen + paddingSize) + t < |EmitRows(rows, paddingSize)|
    ensures EmitRows(rows, paddingSize)[RowStart(i, rowLen + paddingSize) + t]
         == (if t < rowLen then rows[i][t] else 0)
  {
    var before, after := rows[..i], rows[i..];
    assert rows == before + after;
    EmitRowsAppend(before, after, paddingSize);
    EmitRowsLength(before, rowLen, paddingSize);
    RowStartIsProduct(i, rowLen + paddingSize);
    EmitRowsLength(rows, rowLen, paddingSize);
    var tail := EmitRows(after, paddingSize);
    assert tail == after[0] + PADDING[..paddingSize] + EmitRows(after[1..], paddingSize);
    assert after[0] == rows[i];
  }

  /** The bitmap file the C writer produces for an `h` by `w` image: the
      two headers, then row 0 to row `h - 1` of the image exactly as
      stored (no bottom-up reversal). Its length is the size announced in
      the file header. */
  function GenerateBitmapImage(h: nat, w: nat, image: Grid): (file: seq<byte>)
    requires IsGrid(image, h, w)
    ensures |file| == FileSize(h, w, PaddingSize(w))
  {
    var p := PaddingSize(w);
    var rows := RowSlices(FlattenRows(image, h, w), COLOR_CHANNELS * w, h);
    EmitRowsLength(rows, COLOR_CHANNELS * w, p);
    assert h * (COLOR_CHANNELS * w + p) == (COLOR_CHANNELS * w + p) * h;
    CreateBitmapFileHeader(h, w, p) + CreateBitmapInfoHeader(h, w) + EmitRows(rows, p)
  }

  /** The header fields of the written file, at their offsets in the file:
      the signature, the file size (equal to the actual length, modulo
      2^32), the pixel-array offset, the info-header size, the width and
      height, one plane and 24 bits per pixel. */
  lemma BitmapHeaderFields(h: nat, w: nat, image: Grid)
    requires IsGrid(image, h, w)
    ensures var file := GenerateBitmapImage(h, w, image);
      && file[0] == 'B' as int && file[1] == 'M' as int
      && FromLe32(file[2..6]) == |file| % TWO_TO_THE_32
      && FromLe32(file[10..14]) == PIXEL_ARRAY_OFFSET
      && FromLe32(file[14..18]) == INFO_HEADER_SIZE
      && FromLe32(file[18..22]) == w % TWO_TO_THE_32
      && FromLe32(file[22..26]) == h % TWO_TO_THE_32
      && file[26] == 1 && file[28] == BITS_PER_PIXEL
  {
    FileHeaderInFile(h, w, image);
    InfoHeaderInFile(h, w, image);
  }

  /** The file-header fields at their offsets in the file. */
  lemma FileHeaderInFile(h: nat, w: nat, image: Grid)
    requires IsGrid(image, h, w)
    ensures var file := GenerateBitmapImage(h, w, image);
      && file[0] == 'B' as int && file[1] == 'M' as int
      && FromLe32(file[2..6]) == |file| % TWO_TO_THE_32
      && FromLe32(file[10..14]) == PIXEL_ARRAY_OFFSET
  {
    var file := GenerateBitmapImage(h, w, image);
    var fileHeader := CreateBitmapFileHeader(h, w, PaddingSize(w));
    HeadersInFile(h, w, image);
    assert file[2..6] == fileHeader[2..6];
    assert file[10..14] == fileHeader[10..14];
  }

  /** The info-header fields at their offsets in the file. */
  lemma InfoHeaderInFile(h: nat, w: nat, image: Grid)
    requires IsGrid(image, h, w)
    ensures var file := GenerateBitmapImage(h, w, image);
      && FromLe32(file[14..18]) == INFO_HEADER_SIZE
      && FromLe32(file[18..22]) == w % TWO_TO_THE_32
      && FromLe32(file[22..26]) == h % TWO_TO_THE_32
      && file[26] == 1 && file[28] == BITS_PER_PIXEL
  {
    var file := GenerateBitmapImage(h, w, image);
    var infoHeader := CreateBitmapInfoHeader(h, w);
    HeadersInFile(h, w, image);
    assert file[14..18] == infoHeader[0..4];
    assert file[18..22] == infoHeader[4..8];
    assert file[22..26] == infoHeader[8..12];
    assert file[26] == infoHeader[12] && file[28] == infoHeader[14];
  }

  /** The file starts with the file header, followed by the info header. */
  lemma HeadersInFile(h: nat, w: nat, image: Grid)
    requires IsGrid(image, h, w)
    ensures var file := GenerateBitmapImage(h, w, image);
      && |file| >= PIXEL_ARRAY_OFFSET
      && file[..FILE_HEADER_SIZE] == CreateBitmapFileHeader(h, w, PaddingSize(w))
      && file[FILE_HEADER_SIZE..PIXEL_ARRAY_OFFSET] == CreateBitmapInfoHeader(h, w)
  {
    FileIsHeadersThenPixels(h, w, image);
  }

  /** The padded pixel rows that follow the two headers. */
  function PixelArray(h: nat, w: nat, image: Grid): seq<byte>
    requires IsGrid(image, h, w)
  {
    EmitRows(RowSlices(FlattenRows(image, h, w), COLOR_CHANNELS * w, h), PaddingSize(w))
  }

  /** Bytes per stored row: the samples plus the padding. */
  function RowStride(w: nat): nat {
    COLOR_CHANNELS * w + PaddingSize(w)
  }

  /** File offset at which stored row `i` begins: `54 + i * RowStride(w)`. */
  function RowOffset(w: nat, i: nat): nat {
    PIXEL_ARRAY_OFFSET + RowStart(i, RowStride(w))
  }

  /** Byte `t` of stored row `i` of the pixel array is byte `t` of the
      flattened image row, or a zero padding byte past its end. */
  lemma PixelArrayRow(h: nat, w: nat, image: Grid, i: nat, t: nat)
    requires IsGrid(image, h, w) && i < h && t < RowStride(w)
    ensures RowStart(i, RowStride(w)) + t < |PixelArray(h, w, image)|
    ensures PixelArray(h, w, image)[RowStart(i, RowStride(w)) + t]
         == if t < COLOR_CHANNELS * w then FlattenRow(image[i])[t] else 0
  {
    var rowLen, p := COLOR_CHANNELS * w, PaddingSize(w);
    var rows := RowSlices(FlattenRows(image, h, w), rowLen, h);
    var emitted := EmitRows(rows, p);
    assert PixelArray(h, w, image) == emitted;
    assert RowStride(w) == rowLen + p;
    var pos := RowStart(i, rowLen + p) + t;
    EmitRowsIndex(rows, rowLen, p, i, t);
    if t < rowLen {
      RowSlicesOfImage(image, h, w);
      assert emitted[pos] == rows[i][t] == FlattenRow(image[i])[t];
    } else {
      assert emitted[pos] == 0;
    }
  }

  /** Sample `k` of pixel `(i, j)` is at offset `54 + i * (3w + p) + 3j + k`:
      rows in matrix order (row 0 first), each starting on a four-byte
      boundary of the pixel array. */
  lemma PixelLayout(h: nat, w: nat, image: Grid, i: nat, j: nat, k: nat)
    requires IsGrid(image, h, w) && i < h && j < w && k < COLOR_CHANNELS
    ensures RowStride(w) % 4 == 0 && RowOffset(w, i) == PIXEL_ARRAY_OFFSET + i * RowStride(w)
    ensures RowOffset(w, i) + COLOR_CHANNELS * j + k < |GenerateBitmapImage(h, w, image)|
    ensures GenerateBitmapImage(h, w, image)[RowOffset(w, i) + COLOR_CHANNELS * j + k] == image[i][j][k]
  {
    var t := COLOR_CHANNELS * j + k;
    RowStartIsProduct(i, RowStride(w));
    PixelArrayRow(h, w, image, i, t);
    FlattenRowIndex(image[i], j, k);
    PixelArrayAt(h, w, image, RowStart(i, RowStride(w)) + t);
  }

  /** The `p` bytes after the pixels of each row are zero. */
  lemma PaddingLayout(h: nat, w: nat, image: Grid, i: nat, q: nat)
    requires IsGrid(image, h, w) && i < h && q < PaddingSize(w)
    ensures RowOffset(w, i) + COLOR_CHANNELS * w + q < |GenerateBitmapImage(h, w, image)|
    ensures GenerateBitmapImage(h, w, image)[RowOffset(w, i) + COLOR_CHANNELS * w + q] == 0
  {
    var t := COLOR_CHANNELS * w + q;
    PixelArrayRow(h, w, image, i, t);
    PixelArrayAt(h, w, image, RowStart(i, RowStride(w)) + t);
  }

  lemma FileIsHeadersThenPixels(h: nat, w: nat, image: Grid)
    requires IsGrid(image, h, w)
    ensures GenerateBitmapImage(h, w, image)
      == CreateBitmapFileHeader(h, w, PaddingSize(w)) + CreateBitmapInfoHeader(h, w) + PixelArray(h, w, image)
  {
  }

  /** Offset `n` of the pixel array is offset `54 + n` of the file. */
  lemma PixelArrayAt(h: nat, w: nat, image: Grid, n: nat)
    requires IsGrid(image, h, w) && n < |PixelArray(h, w, image)|
    ensures PIXEL_ARRAY_OFFSET + n < |GenerateBitmapImage(h, w, image)|
    ensures GenerateBitmapImage(h, w, image)[PIXEL_ARRAY_OFFSET + n] == PixelArray(h, w, image)[n]
  {
    var headers := CreateBitmapFileHeader(h, w, PaddingSize(w)) + CreateBitmapInfoHeader(h, w);
    assert |headers| == PIXEL_ARRAY_OFFSET;
    FileIsHeadersThenPixels(h, w, image);
  }
}
