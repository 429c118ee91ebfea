/** Images as nested sequences: a grid is a sequence of rows, a row a
    sequence of pixels, a pixel a sequence of COLOR_CHANNELS samples. The
    flat (row, column, channel) order used both by the bitmap writer's
    temporary buffer and by the rank-to-rank pixel stream is defined here,
    together with its inverse. */
module Grids {
  import opened ImageConstants

  type Pixel = seq<byte>
  type Row = seq<Pixel>
  type Grid = seq<Row>

  ghost predicate IsPixel(p: Pixel) {
    |p| == COLOR_CHANNELS
  }

  ghost predicate IsRow(r: Row, w: nat) {
    |r| == w && forall j :: 0 <= j < w ==> IsPixel(r[j])
  }

  /** `g` is an `h` by `w` image of well-formed pixels. */
  ghost predicate IsGrid(g: Grid, h: nat, w: nat) {
    |g| == h && forall i :: 0 <= i < h ==> IsRow(g[i], w)
  }

  /** All channels of the pixel carry the same sample. */
  ghost predicate IsGrey(p: Pixel) {
    IsPixel(p) && p[B_CHANNEL] == p[G_CHANNEL] == p[R_CHANNEL]
  }

  /** The pixel whose every channel is `v`. */
  function Grey(v: byte): (p: Pixel)
    ensures IsGrey(p)
    ensures forall c :: 0 <= c < COLOR_CHANNELS ==> p[c] == v
  {
    [v, v, v]
  }

  /** A contiguous band of rows keeps the dimensions of a grid. */
  lemma BandIsGrid(g: Grid, h: nat, w: nat, top: nat, bh: nat)
    requires IsGrid(g, h, w) && top + bh <= h
    ensures IsGrid(g[top..top + bh], bh, w)
  {
  }

  // ---------------------------------------------------------------------
  // Flattening in (column, channel) and (row, column, channel) order
  // ---------------------------------------------------------------------

  function FlattenRow(r: Row): (s: seq<byte>)
    requires IsRow(r, |r|)
    ensures |s| == COLOR_CHANNELS * |r|
  {
    if |r| == 0 then [] else r[0] + FlattenRow(r[1..])
  }

  function FlattenRows(g: Grid, h: nat, w: nat): (s: seq<byte>)
    requires IsGrid(g, h, w)
    ensures |s| == h * (COLOR_CHANNELS * w)
  {
    if h == 0 then [] else FlattenRow(g[0]) + FlattenRows(g[1..], h - 1, w)
  }

  /** Reads `w` pixels back from a row's worth of samples. */
  function UnflattenRow(s: seq<byte>, w: nat): (r: Row)
    requires |s| == COLOR_CHANNELS * w
    ensures IsRow(r, w)
  {
    if w == 0 then [] else [s[..COLOR_CHANNELS]] + UnflattenRow(s[COLOR_CHANNELS..], w - 1)
  }

  /** Reads `n` rows of `w` pixels back, consuming the samples strictly in
      the order they appear. */
  function UnflattenRows(s: seq<byte>, n: nat, w: nat): (g: Grid)
    requires |s| == n * (COLOR_CHANNELS * w)
    ensures IsGrid(g, n, w)
  {
    if n == 0 then []
    else [UnflattenRow(s[..COLOR_CHANNELS * w], w)] + UnflattenRows(s[COLOR_CHANNELS * w..], n - 1, w)
  }

  /** Sample `k` of pixel `j` sits at offset `3j + k` of the flattened row. */
  lemma {:induction false} FlattenRowIndex(r: Row, j: nat, k: nat)
    requires IsRow(r, |r|) && j < |r| && k < COLOR_CHANNELS
    ensures FlattenRow(r)[COLOR_CHANNELS * j + k] == r[j][k]
    decreases j
  {
    if j > 0 {
      var rest := r[1..];
      assert IsRow(rest, |rest|);
      FlattenRowIndex(rest, j - 1, k);
      assert FlattenRow(r) == r[0] + FlattenRow(rest);
    }
  }

  lemma MulSucc(i: nat, n: nat)
    ensures (i + 1) * n == i * n + n
  {
  }

  lemma PixelOffset(i: nat, j: nat, k: nat, w: nat)
    requires j < w && k < COLOR_CHANNELS
    ensures COLOR_CHANNELS * j + k < COLOR_CHANNELS * w
    ensures (i * w + j) * COLOR_CHANNELS + k == i * (COLOR_CHANNELS * w) + (COLOR_CHANNELS * j + k)
  {
    assert (i * w + j) * 3 == i * w * 3 + j * 3;
    assert i * w * 3 == i * (3 * w);
  }

  /** Where row `i` starts in the flattened grid: after `i` rows of
      `rowLen` samples each. */
  function RowStart(i: nat, rowLen: nat): nat
  {
    if i == 0 then 0 else RowStart(i - 1, rowLen) + rowLen
  }

  lemma {:induction false} RowStartIsProduct(i: nat, rowLen: nat)
    ensures RowStart(i, rowLen) == i * rowLen
  {
    if i > 0 {
      RowStartIsProduct(i - 1, rowLen);
      MulSucc(i - 1, rowLen);
    }
  }

  /** Offset `off` of row `i` sits at `RowStart(i, 3w) + off` of the
      flattened grid. */
  lemma {:induction false} FlattenRowsOffset(g: Grid, h: nat, w: nat, i: nat, off: nat)
    requires IsGrid(g, h, w) && i < h && off < COLOR_CHANNELS * w
    ensures RowStart(i, COLOR_CHANNELS * w) + off < |FlattenRows(g, h, w)|
    ensures FlattenRows(g, h, w)[RowStart(i, COLOR_CHANNELS * w) + off] == FlattenRow(g[i])[off]
    decreases i
  {
    var rowLen := COLOR_CHANNELS * w;
    var flat, head, tail := FlattenRows(g, h, w), FlattenRow(g[0]), FlattenRows(g[1..], h - 1, w);
    assert flat == head + tail;
    assert |head| == rowLen;
    if i > 0 {
      FlattenRowsOffset(g[1..], h - 1, w, i - 1, off);
      var p := RowStart(i - 1, rowLen);
      assert RowStart(i, rowLen) + off == |head| + (p + off);
    }
  }

  /** Sample `k` of pixel `(i, j)` sits at offset `(i*w + j)*3 + k` of the
      flattened grid. */
  lemma FlattenRowsIndex(g: Grid, h: nat, w: nat, i: nat, j: nat, k: nat)
    requires IsGrid(g, h, w) && i < h && j < w && k < COLOR_CHANNELS
    ensures (i * w + j) * COLOR_CHANNELS + k < |FlattenRows(g, h, w)|
    ensures FlattenRows(g, h, w)[(i * w + j) * COLOR_CHANNELS + k] == g[i][j][k]
  {
    var off := COLOR_CHANNELS * j + k;
    PixelOffset(i, j, k, w);
    RowStartIsProduct(i, COLOR_CHANNELS * w);
    FlattenRowsOffset(g, h, w, i, off);
    FlattenRowIndex(g[i], j, k);
  }

  lemma {:induction false} UnflattenFlattenRow(r: Row, w: nat)
    requires IsRow(r, w)
    ensures UnflattenRow(FlattenRow(r), w) == r
    decreases w
  {
    if w > 0 {
      var s := FlattenRow(r);
      assert s[..COLOR_CHANNELS] == r[0];
      assert s[COLOR_CHANNELS..] == FlattenRow(r[1..]);
      UnflattenFlattenRow(r[1..], w - 1);
    }
  }

  /** Reading a flattened grid back row by row gives the grid itself. */
  lemma {:induction false} UnflattenFlattenRows(g: Grid, h: nat, w: nat)
    requires IsGrid(g, h, w)
    ensures UnflattenRows(FlattenRows(g, h, w), h, w) == g
    decreases h
  {
    if h > 0 {
      var s := FlattenRows(g, h, w);
      var rowLen := COLOR_CHANNELS * w;
      assert s[..rowLen] == FlattenRow(g[0]);
      assert s[rowLen..] == FlattenRows(g[1..], h - 1, w);
      UnflattenFlattenRow(g[0], w);
      UnflattenFlattenRows(g[1..], h - 1, w);
    }
  }

  lemma {:induction false} FlattenUnflattenRow(s: seq<byte>, w: nat)
    requires |s| == COLOR_CHANNELS * w
    ensures FlattenRow(UnflattenRow(s, w)) == s
    decreases w
  {
    if w > 0 {
      FlattenUnflattenRow(s[COLOR_CHANNELS..], w - 1);
      assert s == s[..COLOR_CHANNELS] + s[COLOR_CHANNELS..];
    }
  }

  /** Flattening the rows read from a stream gives the stream back, so no
      sample is dropped, duplicated or reordered. */
  lemma {:induction false} FlattenUnflattenRows(s: seq<byte>, n: nat, w: nat)
    requires |s| == n * (COLOR_CHANNELS * w)
    ensures FlattenRows(UnflattenRows(s, n, w), n, w) == s
    decreases n
  {
    if n > 0 {
      var rowLen := COLOR_CHANNELS * w;
      MulSucc(n - 1, rowLen);
      var g := UnflattenRows(s, n, w);
      assert g[1..] == UnflattenRows(s[rowLen..], n - 1, w);
      FlattenUnflattenRow(s[..rowLen], w);
      FlattenUnflattenRows(s[rowLen..], n - 1, w);
      assert s == s[..rowLen] + s[rowLen..];
    }
  }
}
