/** The monochrome 3x3 median filter: the in-place exchange sort that
    selects a median, the window gathered around each interior pixel, and
    the border policy that copies channel R_CHANNEL into all three output
    channels. */
module Filter {
  import opened ImageConstants
  import opened Grids
  import opened Sorting

  // ---------------------------------------------------------------------
  // Median of a list of samples
  // ---------------------------------------------------------------------

  /** `v` is a median of `s`: it occurs in `s`, and at most half of the
      samples lie strictly below it and at most half strictly above it. For
      an odd number of samples exactly one value qualifies (MedianUnique). */
  ghost predicate IsMedianOf(v: byte, s: seq<byte>) {
    v in s && CountBelow(s, v) <= |s| / 2 && CountAbove(s, v) <= |s| / 2
  }

  /** The sample at index `|s|/2` of the sorted arrangement of `s`; it is
      a median in the sense of IsMedianOf (MedianOrderStatistic). */
  function Median(s: seq<byte>): (m: byte)
    requires |s| > 0
  {
    Sort(s)[|s| / 2]
  }

  /** The middle element of the sorted arrangement has at most half of the
      samples strictly below it and at most half strictly above it. */
  lemma MedianOrderStatistic(s: seq<byte>)
    requires |s| > 0
    ensures IsMedianOf(Median(s), s)
  {
    var t := Sort(s);
    var m := t[|s| / 2];
    assert m in multiset(t);
    assert m in multiset(s);
    FewBelowMiddle(s);
    FewAboveMiddle(s);
  }

  lemma FewBelowMiddle(s: seq<byte>)
    requires |s| > 0
    ensures CountBelow(s, Sort(s)[|s| / 2]) <= |s| / 2
  {
    var t := Sort(s);
    CountSort(s, 0, t[|s| / 2]);
    SortedFewBelow(t, |s| / 2);
  }

  lemma FewAboveMiddle(s: seq<byte>)
    requires |s| > 0
    ensures CountAbove(s, Sort(s)[|s| / 2]) <= |s| / 2
  {
    var t := Sort(s);
    CountSort(s, t[|s| / 2] as int + 1, 256);
    SortedFewAbove(t, |s| / 2);
  }

  /** For an odd number of samples the median is the only value with at
      most half of the samples on either side of it. */
  lemma MedianUnique(s: seq<byte>, v: byte)
    requires |s| % 2 == 1
    requires CountBelow(s, v) <= |s| / 2 && CountAbove(s, v) <= |s| / 2
    ensures v == Median(s)
  {
    var m := Median(s);
    MedianOrderStatistic(s);
    NotBelowMedian(s, v, m);
    NotAboveMedian(s, v, m);
  }

  /** If at most half of the samples lie above `v` and at most half below
      `m`, then `v` is not below `m`: otherwise more than half of the
      samples would be at most `v` and hence below `m`. */
  lemma NotBelowMedian(s: seq<byte>, v: byte, m: byte)
    requires |s| % 2 == 1
    requires CountAbove(s, v) <= |s| / 2 && CountBelow(s, m) <= |s| / 2
    ensures m <= v
  {
    var vi: int := v;
    CountAll(s);
    CountSplit(s, 0, vi + 1, 256);
    CountBelowMonotone(s, vi + 1, m);
  }

  /** The mirror image of NotBelowMedian. */
  lemma NotAboveMedian(s: seq<byte>, v: byte, m: byte)
    requires |s| % 2 == 1
    requires CountBelow(s, v) <= |s| / 2 && CountAbove(s, m) <= |s| / 2
    ensures v <= m
  {
    var mi: int := m;
    CountAll(s);
    CountSplit(s, 0, v, 256);
    CountAboveMonotone(s, v, mi + 1);
  }

  /** The median computation of the C code: an exchange sort of the
      scratch buffer (for each position `i`, every later element smaller
      than the one at `i` is swapped into `i`), then the element at index
      `length/2`. The buffer is modelled as a local copy; its sorted final
      contents are returned alongside the median. */
  method CalculateMedian(arr: seq<byte>) returns (sorted: seq<byte>, median: byte)
    requires |arr| > 0
    ensures Sorted(sorted)
    ensures multiset(sorted) == multiset(arr) && |sorted| == |arr|
    ensures median == sorted[|arr| / 2]
    ensures median == Median(arr)
  {
    var a := arr;
    var n := |a|;
    var i := 0;
    while i < n
      invariant 0 <= i <= n && |a| == n
      invariant multiset(a) == multiset(arr)
      // the first i positions hold their final values: each is no larger
      // than anything after it
      invariant forall p, q :: 0 <= p < i && p < q < n ==> a[p] <= a[q]
    {
      var j := i + 1;
      while j < n
        invariant i + 1 <= j <= n && |a| == n
        invariant multiset(a) == multiset(arr)
        invariant forall p, q :: 0 <= p < i && p < q < n ==> a[p] <= a[q]
        invariant forall q :: i < q < j ==> a[i] <= a[q]
      {
        if a[j] < a[i] {
          ExchangeStep(a, i, j);
          var temp := a[i];
          a := a[i := a[j]][j := temp];
        }
        j := j + 1;
      }
      i := i + 1;
    }
    sorted := a;
    median := a[n / 2];
    MiddleOfSortedArrangement(arr, sorted);
  }

  /** Whatever sorted arrangement of `s` the sort produces, its middle
      element is `Median(s)`. */
  lemma MiddleOfSortedArrangement(s: seq<byte>, t: seq<byte>)
    requires Sorted(t) && multiset(t) == multiset(s) && |t| == |s| > 0
    ensures t[|s| / 2] == Median(s)
  {
    SortIsTheSortedPermutation(s, t);
  }

  /** One exchange of the inner loop keeps the samples, keeps the settled
      prefix settled, and leaves position `i` no larger than positions
      `i+1..j`. */
  lemma ExchangeStep(a: seq<byte>, i: nat, j: nat)
    requires i < j < |a|
    requires forall p, q :: 0 <= p < i && p < q < |a| ==> a[p] <= a[q]
    requires forall q :: i < q < j ==> a[i] <= a[q]
    requires a[j] < a[i]
    ensures var b := a[i := a[j]][j := a[i]];
      |b| == |a| && multiset(b) == multiset(a)
      && (forall p, q :: 0 <= p < i && p < q < |b| ==> b[p] <= b[q])
      && (forall q :: i < q <= j ==> b[i] <= b[q])
  {
    var b := a[i := a[j]][j := a[i]];
    forall p, q | 0 <= p < i && p < q < |b|
      ensures b[p] <= b[q]
    {
      assert b[p] == a[p];
      assert a[p] <= a[i] && a[p] <= a[j];
    }
  }

  // ---------------------------------------------------------------------
  // The filter
  // ---------------------------------------------------------------------

  /** The window centred on `(i, j)` lies inside an `h` by `w` grid. */
  predicate Interior(h: int, w: int, i: int, j: int) {
    HALO <= i <= h - HALO - 1 && HALO <= j <= w - HALO - 1
  }

  /** Channel R_CHANNEL of the window cells, row by row: entry
      `nx * WINDOW_FILTER_SIZE + ny` comes from cell `(i - 1 + nx, j - 1 + ny)`
      (WindowCell). */
  function Window(g: Grid, h: nat, w: nat, i: nat, j: nat): (nb: seq<byte>)
    requires IsGrid(g, h, w) && Interior(h, w, i, j)
    ensures |nb| == NEIGHBORHOOD_SIZE
  {
    seq(NEIGHBORHOOD_SIZE, k requires 0 <= k < NEIGHBORHOOD_SIZE =>
      g[i - HALO + k / WINDOW_FILTER_SIZE][j - HALO + k % WINDOW_FILTER_SIZE][R_CHANNEL])
  }

  /** The window holds channel R_CHANNEL of exactly the nine cells
      `(x, y)` with `x` in `[i-1, i+1]` and `y` in `[j-1, j+1]`, row by row. */
  lemma WindowCell(g: Grid, h: nat, w: nat, i: nat, j: nat, x: int, y: int)
    requires IsGrid(g, h, w) && Interior(h, w, i, j)
    requires i - HALO <= x <= i + HALO && j - HALO <= y <= j + HALO
    ensures 0 <= x < h && 0 <= y < w
    ensures Window(g, h, w, i, j)[(x - (i - HALO)) * WINDOW_FILTER_SIZE + (y - (j - HALO))]
         == g[x][y][R_CHANNEL]
  {
    var k := (x - (i - HALO)) * WINDOW_FILTER_SIZE + (y - (j - HALO));
    assert k / WINDOW_FILTER_SIZE == x - (i - HALO);
    assert k % WINDOW_FILTER_SIZE == y - (j - HALO);
  }

  /** The single sample the filter writes to every channel of `(i, j)`. */
  function FilterValue(g: Grid, h: nat, w: nat, i: nat, j: nat): byte
    requires IsGrid(g, h, w) && i < h && j < w
  {
    if Interior(h, w, i, j) then Median(Window(g, h, w, i, j)) else g[i][j][R_CHANNEL]
  }

  /** The output image of the filter, of the input's dimensions: grey
      everywhere, channel R_CHANNEL copied on the border (BorderIsCopied),
      and inside the window median of channel R_CHANNEL
      (InteriorIsWindowMedian). */
  function MedianFilter(g: Grid, h: nat, w: nat): (out: Grid)
    requires IsGrid(g, h, w)
    ensures IsGrid(out, h, w)
  {
    seq(h, i requires 0 <= i < h =>
      seq(w, j requires 0 <= j < w => Grey(FilterValue(g, h, w, i, j))))
  }

  /** Output pixel `(i, j)` is the grey pixel of the filter value there. */
  lemma MedianFilterAt(g: Grid, h: nat, w: nat, i: nat, j: nat)
    requires IsGrid(g, h, w) && i < h && j < w
    ensures MedianFilter(g, h, w)[i][j] == Grey(FilterValue(g, h, w, i, j))
  {
  }

  /** Every output pixel is grey; on the border it is the input's channel
      R_CHANNEL broadcast to all channels. */
  lemma BorderIsCopied(g: Grid, h: nat, w: nat, i: nat, j: nat)
    requires IsGrid(g, h, w) && i < h && j < w
    ensures IsGrey(MedianFilter(g, h, w)[i][j])
    ensures !Interior(h, w, i, j) ==> MedianFilter(g, h, w)[i][j] == Grey(g[i][j][R_CHANNEL])
  {
    MedianFilterAt(g, h, w, i, j);
  }

  /** Every channel of an interior output pixel is the median of the nine
      channel-R_CHANNEL samples around it, in the order-statistic sense, and
      no other value would qualify. */
  lemma InteriorIsWindowMedian(g: Grid, h: nat, w: nat, i: nat, j: nat, c: nat, v: byte)
    requires IsGrid(g, h, w) && i < h && j < w && Interior(h, w, i, j) && c < COLOR_CHANNELS
    ensures IsMedianOf(MedianFilter(g, h, w)[i][j][c], Window(g, h, w, i, j))
    ensures IsMedianOf(v, Window(g, h, w, i, j)) <==> v == MedianFilter(g, h, w)[i][j][c]
  {
    var nb := Window(g, h, w, i, j);
    MedianFilterAt(g, h, w, i, j);
    MedianOrderStatistic(nb);
    if IsMedianOf(v, nb) {
      MedianUnique(nb, v);
    }
  }

  /** An image less than three cells high or wide has no interior: every
      output pixel is its input's channel R_CHANNEL broadcast. */
  lemma SmallImageIsAllBorder(g: Grid, h: nat, w: nat)
    requires IsGrid(g, h, w) && (h < WINDOW_FILTER_SIZE || w < WINDOW_FILTER_SIZE)
    ensures forall i, j :: 0 <= i < h && 0 <= j < w ==>
      MedianFilter(g, h, w)[i][j] == Grey(g[i][j][R_CHANNEL])
  {
    forall i, j | 0 <= i < h && 0 <= j < w
      ensures MedianFilter(g, h, w)[i][j] == Grey(g[i][j][R_CHANNEL])
    {
      BorderIsCopied(g, h, w, i, j);
    }
  }

  /** The output at `(i, j)` depends only on channel R_CHANNEL of the cells
      of its window (of the cell itself on the border): two images that agree
      there filter to the same pixel. */
  lemma FilterIsLocal(g1: Grid, g2: Grid, h: nat, w: nat, i: nat, j: nat)
    requires IsGrid(g1, h, w) && IsGrid(g2, h, w) && i < h && j < w
    requires !Interior(h, w, i, j) ==> g1[i][j][R_CHANNEL] == g2[i][j][R_CHANNEL]
    requires Interior(h, w, i, j) ==>
      forall x, y :: i - HALO <= x <= i + HALO && j - HALO <= y <= j + HALO ==>
        g1[x][y][R_CHANNEL] == g2[x][y][R_CHANNEL]
    ensures MedianFilter(g1, h, w)[i][j] == MedianFilter(g2, h, w)[i][j]
  {
    if Interior(h, w, i, j) {
      assert Window(g1, h, w, i, j) == Window(g2, h, w, i, j);
    }
  }

  // ---------------------------------------------------------------------
  // The filter as the C code computes it, loop by loop
  // ---------------------------------------------------------------------

  /** Copies channel R_CHANNEL of the window cells into a fresh scratch
      buffer in (nx, ny) order. */
  method GatherNeighborhood(g: Grid, h: nat, w: nat, i: nat, j: nat) returns (nb: seq<byte>)
    requires IsGrid(g, h, w) && Interior(h, w, i, j)
    ensures nb == Window(g, h, w, i, j)
  {
    ghost var window := Window(g, h, w, i, j);
    nb := [];
    var nx := 0;
    while nx < WINDOW_FILTER_SIZE
      invariant 0 <= nx <= WINDOW_FILTER_SIZE
      invariant nb == window[..nx * WINDOW_FILTER_SIZE]
    {
      var ny := 0;
      while ny < WINDOW_FILTER_SIZE
        invariant 0 <= ny <= WINDOW_FILTER_SIZE
        invariant nb == window[..nx * WINDOW_FILTER_SIZE + ny]
      {
        nb := nb + [g[i - HALO + nx][j - HALO + ny][R_CHANNEL]];
        ny := ny + 1;
      }
      nx := nx + 1;
    }
  }

  /** The body of the pixel loop of the C filter: an interior pixel
      gathers its window, sorts it with CalculateMedian and takes the median
      for all three channels; a border pixel gets its channel R_CHANNEL in
      all three. */
  method FilterPixel(g: Grid, h: nat, w: nat, i: nat, j: nat) returns (pixel: Pixel)
    requires IsGrid(g, h, w) && i < h && j < w
    ensures pixel == MedianFilter(g, h, w)[i][j]
  {
    if Interior(h, w, i, j) {
      var neighborhood := GatherNeighborhood(g, h, w, i, j);
      var _, median := CalculateMedian(neighborhood);
      pixel := Grey(median);
    } else {
      pixel := Grey(g[i][j][R_CHANNEL]);
    }
    MedianFilterAt(g, h, w, i, j);
  }

  /** The pixel loop of the C filter, row by row and column by column.
      The input is only read. */
  method MedianFilterLoops(g: Grid, h: nat, w: nat) returns (out: Grid)
    requires IsGrid(g, h, w)
    ensures out == MedianFilter(g, h, w)
  {
    ghost var spec := MedianFilter(g, h, w);
    out := [];
    var i := 0;
    while i < h
      invariant 0 <= i <= h
      invariant out == spec[..i]
    {
      var row: Row := [];
      var j := 0;
      while j < w
        invariant 0 <= j <= w
        invariant row == spec[i][..j]
      {
        var pixel := FilterPixel(g, h, w, i, j);
        row := row + [pixel];
        j := j + 1;
      }
      assert row == spec[i];
      out := out + [row];
      i := i + 1;
    }
    assert out == spec;
  }
}
