/** The two-rank split of the program's main routine: each rank takes a
    horizontal band of the image with a one-row halo at the cut, filters it
    on its own, and rank 1 streams its owned rows to rank 0, which assembles
    the full filtered image. The message link is modelled as one ordered
    sequence of samples (first sent, first received). */
module BandSplit {
  import opened ImageConstants
  import opened Grids
  import opened Filter

  /** The two processes; the program treats every rank other than 0 like
      rank 1. */
  datatype Rank = Rank0 | Rank1

  function Min(a: int, b: int): int {
    if a <= b then a else b
  }

  // ---------------------------------------------------------------------
  // Band geometry
  // ---------------------------------------------------------------------

  /** Top image row of the rank's sub-bitmap. */
  function BandTop(rank: Rank, h: nat): nat
    requires h >= 2
  {
    match rank
    case Rank0 => 0
    case Rank1 => h / 2 - 1
  }

  /** Rows the rank asks for: `h/2 + 1` from the top for rank 0, and
      the full height `h` from row `h/2 - 1` for rank 1. */
  function RequestedHeight(rank: Rank, h: nat): nat {
    match rank
    case Rank0 => h / 2 + 1
    case Rank1 => h
  }

  /** Height of the sub-bitmap: the request clipped to the image. */
  function BandHeight(rank: Rank, h: nat): (bh: nat)
    requires h >= 2
    ensures 2 <= bh && BandTop(rank, h) + bh <= h
    ensures rank == Rank0 ==> bh == h / 2 + 1
    ensures rank == Rank1 ==> BandTop(rank, h) + bh == h
  {
    Min(RequestedHeight(rank, h), h - BandTop(rank, h))
  }

  /** First global row whose output the rank provides: rank 0 keeps its
      local rows from 0, rank 1 sends its local rows from 1. */
  function OwnedStart(rank: Rank, h: nat): nat
    requires h >= 2
  {
    match rank
    case Rank0 => BandTop(Rank0, h)
    case Rank1 => BandTop(Rank1, h) + 1
  }

  /** One past the last such row: rank 0 keeps local rows up to
      `sub_h - 2`, rank 1 sends up to `sub_h - 1`. */
  function OwnedEnd(rank: Rank, h: nat): nat
    requires h >= 2
  {
    match rank
    case Rank0 => BandTop(Rank0, h) + BandHeight(Rank0, h) - 1
    case Rank1 => BandTop(Rank1, h) + BandHeight(Rank1, h)
  }

  /** Row `r` of the assembled image comes from `rank`. */
  ghost predicate Owns(rank: Rank, h: nat, r: int)
    requires h >= 2
  {
    OwnedStart(rank, h) <= r < OwnedEnd(rank, h)
  }

  /** Rank 0 owns `[0, h/2)` and rank 1 owns `[h/2, h)`: every row of the
      image is owned by exactly one rank, and no row outside it by any. */
  lemma OwnedRowsPartition(h: nat, r: int)
    requires h >= 2
    ensures Owns(Rank0, h, r) <==> 0 <= r < h / 2
    ensures Owns(Rank1, h, r) <==> h / 2 <= r < h
    ensures !(Owns(Rank0, h, r) && Owns(Rank1, h, r))
    ensures 0 <= r < h <==> Owns(Rank0, h, r) || Owns(Rank1, h, r)
  {
  }

  /** Every row that the window of an owned row reaches, and that exists
      in the image, is inside the owner's band. */
  lemma HaloSufficient(rank: Rank, h: nat, r: int, x: int)
    requires h >= 2
    requires Owns(rank, h, r)
    requires r - HALO <= x <= r + HALO && 0 <= x < h
    ensures BandTop(rank, h) <= x < BandTop(rank, h) + BandHeight(rank, h)
  {
  }

  /** An owned row is an interior row of its band exactly when it is an
      interior row of the whole image, so the band's border rule and the
      image's border rule pick the same pixels. */
  lemma InteriorMatches(rank: Rank, h: nat, w: nat, r: int, j: int)
    requires h >= 2
    requires Owns(rank, h, r)
    ensures Interior(BandHeight(rank, h), w, r - BandTop(rank, h), j) <==> Interior(h, w, r, j)
  {
    OwnedRowInteriorMatches(rank, h, r);
  }

  /** The row test of `Interior` gives the same answer in the owner's band
      as in the image; InteriorMatches follows from it, and the band proofs
      use it in this form. */
  lemma OwnedRowInteriorMatches(rank: Rank, h: nat, r: int)
    requires h >= 2
    requires Owns(rank, h, r)
    ensures var top, bh := BandTop(rank, h), BandHeight(rank, h);
      top <= r < top + bh <= h &&
      ((HALO <= r - top <= bh - HALO - 1) <==> (HALO <= r <= h - HALO - 1))
  {
  }

  /** Rank 1 sends `(sub_h - 1) * w * 3` samples and rank 0 receives
      `(h - (sub_h - 1)) * w * 3`, computed from their own band heights;
      both are `(h - h/2) * w * 3`. */
  lemma TransferCountsMatch(h: nat, w: nat)
    requires h >= 2
    ensures (BandHeight(Rank1, h) - 1) * (COLOR_CHANNELS * w)
         == (h - (BandHeight(Rank0, h) - 1)) * (COLOR_CHANNELS * w)
         == (h - h / 2) * (COLOR_CHANNELS * w)
  {
  }

  // ---------------------------------------------------------------------
  // Bands, the stream and the assembly
  // ---------------------------------------------------------------------

  /** The rank's sub-bitmap as a grid of its own. */
  function Band(image: Grid, h: nat, w: nat, rank: Rank): (band: Grid)
    requires IsGrid(image, h, w) && h >= 2
    ensures IsGrid(band, BandHeight(rank, h), w)
    ensures forall l :: 0 <= l < BandHeight(rank, h) ==> band[l] == image[BandTop(rank, h) + l]
  {
    BandIsGrid(image, h, w, BandTop(rank, h), BandHeight(rank, h));
    image[BandTop(rank, h)..BandTop(rank, h) + BandHeight(rank, h)]
  }

  lemma BandIsSlice(image: Grid, h: nat, w: nat, rank: Rank)
    requires IsGrid(image, h, w) && h >= 2
    ensures Band(image, h, w, rank)
         == image[BandTop(rank, h)..BandTop(rank, h) + BandHeight(rank, h)]
  {
  }

  /** What rank 1 sends: its filtered local rows 1 to `sub_h - 1`, one
      sample at a time in (row, column, channel) order. */
  function Rank1Stream(filtered: Grid, subH: nat, w: nat): (stream: seq<byte>)
    requires IsGrid(filtered, subH, w) && subH >= 1
    ensures |stream| == (subH - 1) * (COLOR_CHANNELS * w)
  {
    FlattenRows(filtered[1..], subH - 1, w)
  }

  /** Sample `c` of local row `l`, column `j` is the
      `((l - 1) * w + j) * 3 + c`-th sample sent. */
  lemma Rank1StreamOrder(filtered: Grid, subH: nat, w: nat, l: nat, j: nat, c: nat)
    requires IsGrid(filtered, subH, w) && 1 <= l < subH && j < w && c < COLOR_CHANNELS
    ensures ((l - 1) * w + j) * COLOR_CHANNELS + c < |Rank1Stream(filtered, subH, w)|
    ensures Rank1Stream(filtered, subH, w)[((l - 1) * w + j) * COLOR_CHANNELS + c] == filtered[l][j][c]
  {
    FlattenRowsIndex(filtered[1..], subH - 1, w, l - 1, j, c);
  }

  /** What rank 0 builds: its own filtered local rows 0 to `sub_h - 2`,
      then global rows `sub_h - 1` to `h - 1` filled from the stream in
      (row, column, channel) order. */
  function Rank0Assemble(filtered: Grid, subH: nat, stream: seq<byte>, h: nat, w: nat): (complete: Grid)
    requires IsGrid(filtered, subH, w) && 1 <= subH <= h + 1
    requires |stream| == (h - (subH - 1)) * (COLOR_CHANNELS * w)
    ensures IsGrid(complete, h, w)
    ensures forall i :: 0 <= i < subH - 1 ==> complete[i] == filtered[i]
  {
    filtered[..subH - 1] + UnflattenRows(stream, h - (subH - 1), w)
  }

  /** Rank 0 writes received sample number `((i - (sub_h - 1)) * w + j) * 3 + c`
      into row `i`, column `j`, channel `c`: the stream is consumed in
      the order it was produced. */
  lemma Rank0ReceiveOrder(filtered: Grid, subH: nat, stream: seq<byte>, h: nat, w: nat,
                          i: nat, j: nat, c: nat)
    requires IsGrid(filtered, subH, w) && 1 <= subH <= h + 1
    requires |stream| == (h - (subH - 1)) * (COLOR_CHANNELS * w)
    requires subH - 1 <= i < h && j < w && c < COLOR_CHANNELS
    ensures ((i - (subH - 1)) * w + j) * COLOR_CHANNELS + c < |stream|
    ensures Rank0Assemble(filtered, subH, stream, h, w)[i][j][c]
         == stream[((i - (subH - 1)) * w + j) * COLOR_CHANNELS + c]
  {
    var n, ri := h - (subH - 1), i - (subH - 1);
    var received := UnflattenRows(stream, n, w);
    FlattenUnflattenRows(stream, n, w);
    FlattenRowsIndex(received, n, w, ri, j, c);
    assert stream[(ri * w + j) * COLOR_CHANNELS + c] == received[ri][j][c];
    assert Rank0Assemble(filtered, subH, stream, h, w)[i] == received[ri];
  }

  /** The stream between the two bands: rank 1 sends exactly as many
      samples as rank 0 posts receives for. */
  function Transfer(f1: Grid, h: nat, w: nat): (stream: seq<byte>)
    requires h >= 2 && IsGrid(f1, BandHeight(Rank1, h), w)
    ensures |stream| == (h - (BandHeight(Rank0, h) - 1)) * (COLOR_CHANNELS * w)
  {
    TransferCountsMatch(h, w);
    Rank1Stream(f1, BandHeight(Rank1, h), w)
  }

  /** With in-order delivery, global row `r >= h/2` of the assembled image
      is rank 1's filtered local row `r - (h/2 - 1)`, channel for channel. */
  lemma TransferDeliversRows(f0: Grid, f1: Grid, h: nat, w: nat, r: nat)
    requires h >= 2
    requires IsGrid(f0, BandHeight(Rank0, h), w) && IsGrid(f1, BandHeight(Rank1, h), w)
    requires h / 2 <= r < h
    ensures Rank0Assemble(f0, BandHeight(Rank0, h), Transfer(f1, h, w), h, w)[r]
         == f1[r - BandTop(Rank1, h)]
  {
    var sub1 := BandHeight(Rank1, h);
    var sent := f1[1..];
    assert IsGrid(sent, sub1 - 1, w);
    UnflattenFlattenRows(sent, sub1 - 1, w);
  }

  /** The whole run: both ranks filter their bands, rank 1 streams its
      owned rows, rank 0 assembles. */
  function DistributedFilter(image: Grid, h: nat, w: nat): (complete: Grid)
    requires IsGrid(image, h, w) && h >= 2
    ensures IsGrid(complete, h, w)
  {
    var sub0, sub1 := BandHeight(Rank0, h), BandHeight(Rank1, h);
    var f0 := MedianFilter(Band(image, h, w, Rank0), sub0, w);
    var f1 := MedianFilter(Band(image, h, w, Rank1), sub1, w);
    Rank0Assemble(f0, sub0, Transfer(f1, h, w), h, w)
  }

  /** Filtering a band gives, on each row whose interior status is the same
      in the band as in the image, the row the whole-image filter gives. */
  lemma BandRowAgrees(image: Grid, h: nat, w: nat, top: nat, band: Grid, bh: nat, r: nat)
    requires IsGrid(image, h, w) && top <= r < top + bh <= h
    requires band == image[top..top + bh]
    requires (HALO <= r - top <= bh - HALO - 1) <==> (HALO <= r <= h - HALO - 1)
    ensures IsGrid(band, bh, w)
    ensures MedianFilter(band, bh, w)[r - top] == MedianFilter(image, h, w)[r]
  {
    BandIsGrid(image, h, w, top, bh);
    var local := MedianFilter(band, bh, w)[r - top];
    var global := MedianFilter(image, h, w)[r];
    forall j | 0 <= j < w
      ensures local[j] == global[j]
    {
      BandPixelAgrees(image, h, w, top, band, bh, r, j);
    }
  }

  lemma BandPixelAgrees(image: Grid, h: nat, w: nat, top: nat, band: Grid, bh: nat, r: nat, j: nat)
    requires IsGrid(image, h, w) && top <= r < top + bh <= h && j < w
    requires band == image[top..top + bh]
    requires (HALO <= r - top <= bh - HALO - 1) <==> (HALO <= r <= h - HALO - 1)
    ensures IsGrid(band, bh, w)
    ensures MedianFilter(band, bh, w)[r - top][j] == MedianFilter(image, h, w)[r][j]
  {
    var l := r - top;
    BandIsGrid(image, h, w, top, bh);
    MedianFilterAt(band, bh, w, l, j);
    MedianFilterAt(image, h, w, r, j);
    if Interior(bh, w, l, j) {
      WindowOfBand(image, h, w, top, band, bh, r, j);
    } else {
      assert band[l] == image[r];
    }
    assert FilterValue(band, bh, w, l, j) == FilterValue(image, h, w, r, j);
  }

  /** The window around a band cell is the window around the same cell of
      the image. */
  lemma WindowOfBand(image: Grid, h: nat, w: nat, top: nat, band: Grid, bh: nat, r: nat, j: nat)
    requires IsGrid(image, h, w) && top <= r && top + bh <= h
    requires band == image[top..top + bh]
    requires Interior(bh, w, r - top, j)
    ensures IsGrid(band, bh, w) && Interior(h, w, r, j)
    ensures Window(band, bh, w, r - top, j) == Window(image, h, w, r, j)
  {
    BandIsGrid(image, h, w, top, bh);
    var l := r - top;
    var nbLocal := Window(band, bh, w, l, j);
    var nbGlobal := Window(image, h, w, r, j);
    forall k | 0 <= k < NEIGHBORHOOD_SIZE
      ensures nbLocal[k] == nbGlobal[k]
    {
      var x := l - HALO + k / WINDOW_FILTER_SIZE;
      var y := j - HALO + k % WINDOW_FILTER_SIZE;
      assert 0 <= x < bh;
      assert nbLocal[k] == band[x][y][R_CHANNEL];
      assert nbGlobal[k] == image[top + x][y][R_CHANNEL];
    }
  }

  /** The band filter of a rank, on a row the rank owns, agrees with the
      whole-image filter. */
  lemma OwnedRowFiltered(image: Grid, h: nat, w: nat, rank: Rank, r: nat)
    requires IsGrid(image, h, w) && h >= 2 && Owns(rank, h, r)
    ensures r - BandTop(rank, h) >= 0
    ensures MedianFilter(Band(image, h, w, rank), BandHeight(rank, h), w)[r - BandTop(rank, h)]
         == MedianFilter(image, h, w)[r]
  {
    OwnedRowInteriorMatches(rank, h, r);
    BandIsSlice(image, h, w, rank);
    BandRowAgrees(image, h, w, BandTop(rank, h), Band(image, h, w, rank), BandHeight(rank, h), r);
  }

  /** For every image of height at least two, the image rank 0 assembles
      is the median filter applied to the whole image. */
  lemma DistributedFilterIsMedianFilter(image: Grid, h: nat, w: nat)
    requires IsGrid(image, h, w) && h >= 2
    ensures DistributedFilter(image, h, w) == MedianFilter(image, h, w)
  {
    var complete, whole := DistributedFilter(image, h, w), MedianFilter(image, h, w);
    forall r | 0 <= r < h
      ensures complete[r] == whole[r]
    {
      AssembledRow(image, h, w, r);
    }
  }

  /** Row `r` of the assembled image is row `r` of the whole-image filter,
      whichever rank owns it. */
  lemma AssembledRow(image: Grid, h: nat, w: nat, r: nat)
    requires IsGrid(image, h, w) && h >= 2 && r < h
    ensures DistributedFilter(image, h, w)[r] == MedianFilter(image, h, w)[r]
  {
    OwnedRowsPartition(h, r);
    var rank := if r < h / 2 then Rank0 else Rank1;
    AssembledRowFrom(image, h, w, r);
    OwnedRowFiltered(image, h, w, rank, r);
  }

  /** Row `r` of the assembled image is the owner's filtered local row. */
  lemma AssembledRowFrom(image: Grid, h: nat, w: nat, r: nat)
    requires IsGrid(image, h, w) && h >= 2 && r < h
    ensures var rank := if r < h / 2 then Rank0 else Rank1;
      r - BandTop(rank, h) >= 0 &&
      DistributedFilter(image, h, w)[r]
        == MedianFilter(Band(image, h, w, rank), BandHeight(rank, h), w)[r - BandTop(rank, h)]
  {
    var sub0, sub1 := BandHeight(Rank0, h), BandHeight(Rank1, h);
    var f0 := MedianFilter(Band(image, h, w, Rank0), sub0, w);
    var f1 := MedianFilter(Band(image, h, w, Rank1), sub1, w);
    AssembleRow(f0, f1, h, w, r);
  }

  /** Whatever the two ranks filtered, row `r` of what rank 0 assembles
      is the owner's local row. */
  lemma AssembleRow(f0: Grid, f1: Grid, h: nat, w: nat, r: nat)
    requires h >= 2 && r < h
    requires IsGrid(f0, BandHeight(Rank0, h), w) && IsGrid(f1, BandHeight(Rank1, h), w)
    ensures Rank0Assemble(f0, BandHeight(Rank0, h), Transfer(f1, h, w), h, w)[r]
         == if r < h / 2 then f0[r] else f1[r - BandTop(Rank1, h)]
  {
    if h / 2 <= r {
      TransferDeliversRows(f0, f1, h, w, r);
    }
  }

  // ---------------------------------------------------------------------
  // Every cell of the assembled image is written exactly once
  // ---------------------------------------------------------------------

  /** One sample of `complete_matrix`: row, column and channel. */
  datatype Cell = Cell(row: nat, col: nat, chan: nat)

  /** How many times `x` occurs in `s`. */
  function Occurrences(s: seq<Cell>, x: Cell): (n: nat)
    ensures n <= |s|
  {
    if s == [] then 0 else (if s[0] == x then 1 else 0) + Occurrences(s[1..], x)
  }

  lemma {:induction false} OccurrencesConcat(a: seq<Cell>, b: seq<Cell>, x: Cell)
    ensures Occurrences(a + b, x) == Occurrences(a, x) + Occurrences(b, x)
  {
    if a == [] {
      assert a + b == b;
    } else {
      assert (a + b)[1..] == a[1..] + b;
      OccurrencesConcat(a[1..], b, x);
    }
  }

  /** The cells of row `i` from column `j` on, in (column, channel) order:
      the order of the innermost two loops of the assembly. */
  function RowCells(i: nat, j: nat, w: nat): seq<Cell>
    decreases w - j
  {
    if j >= w then [] else [Cell(i, j, 0), Cell(i, j, 1), Cell(i, j, 2)] + RowCells(i, j + 1, w)
  }

  /** The cells of rows `lo` to `hi - 1`, in (row, column, channel) order. */
  function RowsCells(lo: nat, hi: nat, w: nat): seq<Cell>
    decreases hi - lo
  {
    if lo >= hi then [] else RowCells(lo, 0, w) + RowsCells(lo + 1, hi, w)
  }

  /** The cells of `complete_matrix` in the order rank 0 assigns them: first
      the rows it keeps from its own band, then the rows it receives. */
  function Rank0Writes(h: nat, w: nat): seq<Cell>
    requires h >= 2
  {
    var kept := BandHeight(Rank0, h) - 1;
    RowsCells(0, kept, w) + RowsCells(kept, h, w)
  }

  lemma {:induction false} RowCellsCount(i: nat, j: nat, w: nat, cell: Cell)
    ensures Occurrences(RowCells(i, j, w), cell)
         == if cell.row == i && j <= cell.col < w && cell.chan < COLOR_CHANNELS then 1 else 0
    decreases w - j
  {
    if j < w {
      var head := [Cell(i, j, 0), Cell(i, j, 1), Cell(i, j, 2)];
      assert RowCells(i, j, w) == head + RowCells(i, j + 1, w);
      var c1, c2 := head[1] == cell, head[2] == cell;
      assert Occurrences(head[2..], cell) == if c2 then 1 else 0 by {
        assert head[2..][1..] == [];
      }
      assert head[1..][1..] == head[2..];
      assert Occurrences(head[1..], cell) == (if c1 then 1 else 0) + (if c2 then 1 else 0);
      assert Occurrences(head, cell)
          == if cell.row == i && cell.col == j && cell.chan < COLOR_CHANNELS then 1 else 0;
      OccurrencesConcat(head, RowCells(i, j + 1, w), cell);
      RowCellsCount(i, j + 1, w, cell);
    }
  }

  lemma {:induction false} RowsCellsCount(lo: nat, hi: nat, w: nat, cell: Cell)
    ensures Occurrences(RowsCells(lo, hi, w), cell)
         == if lo <= cell.row < hi && cell.col < w && cell.chan < COLOR_CHANNELS then 1 else 0
    decreases hi - lo
  {
    if lo < hi {
      assert RowsCells(lo, hi, w) == RowCells(lo, 0, w) + RowsCells(lo + 1, hi, w);
      OccurrencesConcat(RowCells(lo, 0, w), RowsCells(lo + 1, hi, w), cell);
      RowCellsCount(lo, 0, w, cell);
      RowsCellsCount(lo + 1, hi, w, cell);
    }
  }

  /** Each cell of the `h` by `w` image is assigned exactly once by rank 0,
      and nothing outside the image is assigned. */
  lemma Rank0WritesEachCellOnce(h: nat, w: nat, cell: Cell)
    requires h >= 2
    ensures Occurrences(Rank0Writes(h, w), cell)
         == if cell.row < h && cell.col < w && cell.chan < COLOR_CHANNELS then 1 else 0
  {
    var kept := BandHeight(Rank0, h) - 1;
    assert kept <= h;
    var first, second := RowsCells(0, kept, w), RowsCells(kept, h, w);
    assert Rank0Writes(h, w) == first + second;
    OccurrencesConcat(first, second, cell);
    RowsCellsCount(0, kept, w, cell);
    RowsCellsCount(kept, h, w, cell);
  }
}
