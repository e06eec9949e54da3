/**
 * Seam carving of lab1/lab.py: a cumulative energy map built row by row, a
 * minimum-energy seam traced back from the bottom row, and the removal of
 * that seam's pixels.  Energies are integers; the floating-point greyscale
 * conversion and edge detector that produce them are a parameter here.
 */
module Seam {
  import opened Images
  import opened Colour
  import opened Common

  predicate NonNegative(im: Image<int>) {
    forall i :: 0 <= i < |im.pixels| ==> 0 <= im.pixels[i]
  }

  predicate InByteRange(im: Image<int>) {
    forall i :: 0 <= i < |im.pixels| ==> 0 <= im.pixels[i] <= 255
  }

  /** Row y of an image, as the slice of its pixel list. */
  function Row<P>(im: Image<P>, y: int): (r: seq<P>)
    requires Valid(im) && 0 <= y < im.height
    ensures |r| == im.width
    ensures forall x :: 0 <= x < im.width ==> 0 <= x + im.width * y < |im.pixels| && r[x] == im.pixels[x + im.width * y]
  {
    MulMono(im.width, y + 1, im.height);
    MulMono(im.width, 0, y);
    im.pixels[im.width * y .. im.width * y + im.width]
  }

  // ---------------------------------------------------------------------
  // adjacent_pixels

  /** The columns [lo, hi) that adjacent_pixels scans in the row above column x. */
  function Window(x: int, w: int): (r: (int, int))
    ensures r.0 <= x < r.1 && x - 1 <= r.0 && r.1 <= x + 2 && r.1 - r.0 >= 2
    ensures w >= 2 && 0 <= x < w ==> 0 <= r.0 && r.1 <= w
    ensures w == 1 && x == 0 ==> r == (0, 2)
    ensures w >= 2 && 0 <= x < w ==> r == (if x == 0 then 0 else x - 1, if x + 2 > w then w else x + 2)
  {
    if x == 0 then (0, 2) else if x + 1 == w then (x - 1, x + 1) else (x - 1, x + 2)
  }

  predicate AdjacentOk<P>(im: Image<P>, x: int, y: int) {
    Valid(im) && 0 <= x < im.width && 0 <= y < im.height
  }

  /** Every column of the window, read in row y-1, is a valid list index. */
  lemma WindowIndex(w: int, h: int, x: int, y: int, i: int)
    requires 0 <= x < w && 0 <= y < h && Window(x, w).0 <= i < Window(x, w).1
    ensures -(h * w) <= i + w * (y - 1) < h * w
  {
    if w >= 2 {
      IndexInside(w, h, i, y);
    }
  }

  /** get_pixel(im, i, y-1) for a column i of the window. */
  function Above(im: Image<int>, x: int, y: int, i: int): int
    requires AdjacentOk(im, x, y) && Window(x, im.width).0 <= i < Window(x, im.width).1
  {
    WindowIndex(im.width, im.height, x, y, i);
    GetPixel(im, i, y - 1)
  }

  /** The values adjacent_pixels compares, left to right. */
  function WindowVals(im: Image<int>, x: int, y: int): (vals: seq<int>)
    requires AdjacentOk(im, x, y)
    ensures |vals| == Window(x, im.width).1 - Window(x, im.width).0
    ensures forall k :: 0 <= k < |vals| ==> vals[k] == Above(im, x, y, Window(x, im.width).0 + k)
  {
    var lo, hi := Window(x, im.width).0, Window(x, im.width).1;
    seq(hi - lo, k requires 0 <= k < hi - lo => Above(im, x, y, lo + k))
  }

  /** The strict-< scan from position i on, holding the best value m found so far at column x1. */
  function Scan(vals: seq<int>, lo: int, i: nat, m: int, x1: int): (int, int)
    requires i <= |vals|
    decreases |vals| - i
  {
    if i == |vals| then (m, x1)
    else if vals[i] < m then Scan(vals, lo, i + 1, vals[i], lo + i)
    else Scan(vals, lo, i + 1, m, x1)
  }

  /** The scan started from the sentinel `cap` at column 0. */
  function LeftmostMin(vals: seq<int>, lo: int, cap: int): (int, int) {
    Scan(vals, lo, 0, cap, 0)
  }

  /**
   * After the first i values: m is at most each of them; either nothing was
   * below the sentinel and (m, x1) is still (cap, 0), or m is the value at
   * column x1 (offset lo), below the sentinel and below every value to its left.
   */
  ghost predicate LeftmostMinSoFar(vals: seq<int>, lo: int, cap: int, i: int, m: int, x1: int) {
    0 <= i <= |vals| &&
    (forall j :: 0 <= j < i ==> m <= vals[j]) &&
    ((m == cap && x1 == 0) ||
     (lo <= x1 < lo + i && m == vals[x1 - lo] && m < cap && forall j :: 0 <= j < x1 - lo ==> m < vals[j]))
  }

  ghost predicate IsLeftmostMin(vals: seq<int>, lo: int, cap: int, r: (int, int)) {
    LeftmostMinSoFar(vals, lo, cap, |vals|, r.0, r.1)
  }

  lemma {:induction false} ScanCorrect(vals: seq<int>, lo: int, cap: int, i: nat, m: int, x1: int)
    requires i <= |vals| && LeftmostMinSoFar(vals, lo, cap, i, m, x1)
    ensures IsLeftmostMin(vals, lo, cap, Scan(vals, lo, i, m, x1))
    decreases |vals| - i
  {
    if i < |vals| {
      if vals[i] < m {
        ScanCorrect(vals, lo, cap, i + 1, vals[i], lo + i);
      } else {
        ScanCorrect(vals, lo, cap, i + 1, m, x1);
      }
    }
  }

  /** The scan finds the leftmost minimum below the sentinel, or keeps the sentinel. */
  lemma LeftmostMinCorrect(vals: seq<int>, lo: int, cap: int)
    ensures IsLeftmostMin(vals, lo, cap, LeftmostMin(vals, lo, cap))
  {
    ScanCorrect(vals, lo, cap, 0, cap, 0);
  }

  /** The description above fixes the result: at most one pair satisfies it. */
  lemma LeftmostMinUnique(vals: seq<int>, lo: int, cap: int, r: (int, int), r': (int, int))
    requires IsLeftmostMin(vals, lo, cap, r) && IsLeftmostMin(vals, lo, cap, r')
    ensures r == r'
  {
    if r.0 != cap && r'.0 != cap {
      assert vals[r.1 - lo] <= vals[r'.1 - lo] && vals[r'.1 - lo] <= vals[r.1 - lo];
    }
  }

  /** What adjacent_pixels(im, x, y) returns, with the sentinel 256*height. */
  function AdjacentMin(im: Image<int>, x: int, y: int): (r: (int, int))
    requires AdjacentOk(im, x, y)
    ensures IsLeftmostMin(WindowVals(im, x, y), Window(x, im.width).0, 256 * im.height, r)
  {
    LeftmostMinCorrect(WindowVals(im, x, y), Window(x, im.width).0, 256 * im.height);
    LeftmostMin(WindowVals(im, x, y), Window(x, im.width).0, 256 * im.height)
  }

  /**
   * adjacent_pixels: scans columns x-1..x+1 of row y-1 (two of them at either
   * edge), keeping the first value strictly below the best one so far.
   */
  method AdjacentPixels(im: Image<int>, x: int, y: int) returns (mini: int, x1: int)
    requires AdjacentOk(im, x, y)
    ensures (mini, x1) == AdjacentMin(im, x, y)
  {
    ghost var vals := WindowVals(im, x, y);
    mini := 256 * im.height;
    x1 := 0;
    var lo, hi;
    if x == 0 {
      lo, hi := x, x + 2;
    } else if x + 1 == im.width {
      lo, hi := x - 1, x + 1;
    } else {
      lo, hi := x - 1, x + 2;
    }
    assert (lo, hi) == Window(x, im.width);
    for i := lo to hi
      invariant Scan(vals, lo, i - lo, mini, x1) == LeftmostMin(vals, lo, 256 * im.height)
    {
      WindowIndex(im.width, im.height, x, y, i);
      assert GetPixel(im, i, y - 1) == vals[i - lo];
      if GetPixel(im, i, y - 1) < mini {
        mini := GetPixel(im, i, y - 1);
        x1 := i;
      }
    }
  }

  /** With width at least 2 and y >= 1, the window lies inside row y-1. */
  lemma WindowInRowAbove(im: Image<int>, x: int, y: int)
    requires AdjacentOk(im, x, y) && im.width >= 2 && y >= 1
    ensures WindowVals(im, x, y) == Row(im, y - 1)[Window(x, im.width).0 .. Window(x, im.width).1]
  {
    var lo, hi := Window(x, im.width).0, Window(x, im.width).1;
    var row := Row(im, y - 1);
    var vals := WindowVals(im, x, y);
    forall k | 0 <= k < hi - lo ensures vals[k] == row[lo + k] {
      IndexInside(im.width, im.height, lo + k, y - 1);
      assert vals[k] == Above(im, x, y, lo + k);
    }
  }

  // ---------------------------------------------------------------------
  // cumulative_energy_map

  /**
   * Row y of the cumulative energy map.  Row 0, and every row of a
   * one-column image, is the energy itself (adjacent_pixels then meets a
   * cell that is still 0: a wrapped-around unwritten row, or the cell being
   * computed).  Otherwise each cell adds the sentinel-capped leftmost
   * minimum of its window in the row above.
   */
  function CumRow(e: Image<int>, y: int): (r: seq<int>)
    requires Valid(e) && 0 <= y < e.height
    ensures |r| == e.width
    decreases y
  {
    var w := e.width;
    if y == 0 || w == 1 then Row(e, y)
    else
      var prev := CumRow(e, y - 1);
      seq(w, x requires 0 <= x < w =>
        Row(e, y)[x] + LeftmostMin(prev[Window(x, w).0 .. Window(x, w).1], Window(x, w).0, 256 * e.height).0)
  }

  /** The rows of the cumulative energy map, top to bottom. */
  function CumRows(e: Image<int>): seq<seq<int>>
    requires Valid(e)
  {
    seq(e.height, y requires 0 <= y < e.height => CumRow(e, y))
  }

  lemma CumRowsLength(e: Image<int>)
    requires Valid(e)
    ensures |Flatten(CumRows(e))| == |e.pixels|
  {
    FlattenLength(CumRows(e), e.width);
  }

  /** The map cumulative_energy_map returns: its rows one after another. */
  function CumulativeMap(e: Image<int>): (r: Image<int>)
    requires Valid(e)
    ensures SameShape(r, e)
  {
    CumRowsLength(e);
    Image(e.height, e.width, Flatten(CumRows(e)))
  }

  lemma CumulativeRow(e: Image<int>, y: int)
    requires Valid(e) && 0 <= y < e.height
    ensures Row(CumulativeMap(e), y) == CumRow(e, y)
  {
    CumRowsLength(e);
    FlattenRow(CumRows(e), e.height, e.width, y);
  }

  /** Row y of an image made of flattened rows is row y of the list. */
  lemma FlattenRow<T>(rows: seq<seq<T>>, h: int, w: int, y: int)
    requires |rows| == h && w >= 0 && 0 <= y < h && forall y :: 0 <= y < h ==> |rows[y]| == w
    requires |Flatten(rows)| == h * w
    ensures Row(Image(h, w, Flatten(rows)), y) == rows[y]
  {
    forall x | 0 <= x < w ensures Row(Image(h, w, Flatten(rows)), y)[x] == rows[y][x] {
      FlattenAt(rows, w, x, y);
    }
  }

  /** Non-negative energies give a non-negative map. */
  lemma {:induction false} CumNonNegative(e: Image<int>, y: int)
    requires Valid(e) && NonNegative(e) && 0 <= y < e.height
    ensures forall x :: 0 <= x < e.width ==> 0 <= CumRow(e, y)[x]
    decreases y
  {
    var w := e.width;
    if y > 0 && w != 1 {
      CumNonNegative(e, y - 1);
      var prev := CumRow(e, y - 1);
      forall x | 0 <= x < w ensures 0 <= CumRow(e, y)[x] {
        var (lo, hi) := Window(x, w);
        LeftmostMinCorrect(prev[lo..hi], lo, 256 * e.height);
      }
    }
  }

  /** Energies in [0, 255] give cells of row y at most 255*(y+1). */
  lemma {:induction false} CumBounded(e: Image<int>, y: int)
    requires Valid(e) && InByteRange(e) && 0 <= y < e.height
    ensures forall x :: 0 <= x < e.width ==> 0 <= CumRow(e, y)[x] <= 255 * (y + 1)
    decreases y
  {
    var w := e.width;
    CumNonNegative(e, y);
    if y > 0 && w != 1 {
      CumBounded(e, y - 1);
      var prev := CumRow(e, y - 1);
      forall x | 0 <= x < w ensures CumRow(e, y)[x] <= 255 * (y + 1) {
        var (lo, hi) := Window(x, w);
        LeftmostMinCorrect(prev[lo..hi], lo, 256 * e.height);
        assert prev[lo..hi][0] == prev[lo];
      }
    }
  }

  /** Every cell of a map of byte energies lies below the sentinel 256*height. */
  lemma CumulativeBelowSentinel(e: Image<int>)
    requires Valid(e) && InByteRange(e)
    ensures NonNegative(CumulativeMap(e))
    ensures forall i :: 0 <= i < |e.pixels| ==> CumulativeMap(e).pixels[i] < 256 * e.height
  {
    forall i | 0 <= i < |e.pixels|
      ensures 0 <= CumulativeMap(e).pixels[i] < 256 * e.height
    {
      NonEmptyDims(e.width, e.height);
      Encode(e.width, e.height, i);
      CumBounded(e, i / e.width);
      CumulativeAt(e, i % e.width, i / e.width);
    }
  }

  /** Cell (x, y) of the map is cell x of row y. */
  lemma CumulativeAt(e: Image<int>, x: int, y: int)
    requires Valid(e) && 0 <= x < e.width && 0 <= y < e.height
    ensures 0 <= x + e.width * y < |e.pixels|
    ensures CumulativeMap(e).pixels[x + e.width * y] == CumRow(e, y)[x]
  {
    FlattenAt(CumRows(e), e.width, x, y);
  }

  /** Scanning an image whose row y-1 is the map's row y-1 finds what the map adds at (x, y). */
  lemma AdjacentOnCumRow(e: Image<int>, im: Image<int>, x: int, y: int)
    requires Valid(e) && SameShape(im, e) && e.width >= 2 && 0 <= x < e.width && 1 <= y < e.height
    requires Row(im, y - 1) == CumRow(e, y - 1)
    ensures 0 <= x + e.width * y < |e.pixels|
    ensures AdjacentMin(im, x, y).0 + e.pixels[x + e.width * y] == CumRow(e, y)[x]
  {
    IndexInside(e.width, e.height, x, y);
    WindowInRowAbove(im, x, y);
    var lo, hi := Window(x, e.width).0, Window(x, e.width).1;
    assert WindowVals(im, x, y) == CumRow(e, y - 1)[lo..hi];
    assert CumRow(e, y)[x] == Row(e, y)[x] + LeftmostMin(CumRow(e, y - 1)[lo..hi], lo, 256 * e.height).0;
  }

  /** Below row 0, with width at least 2, each cell is its energy plus adjacent_pixels' minimum above it. */
  lemma CumulativeRecurrence(e: Image<int>, x: int, y: int)
    requires Valid(e) && e.width >= 2 && 0 <= x < e.width && 1 <= y < e.height
    ensures 0 <= x + e.width * y < |e.pixels|
    ensures CumulativeMap(e).pixels[x + e.width * y] == e.pixels[x + e.width * y] + AdjacentMin(CumulativeMap(e), x, y).0
  {
    CumulativeAt(e, x, y);
    CumulativeRow(e, y - 1);
    AdjacentOnCumRow(e, CumulativeMap(e), x, y);
  }

  /** Row 0, and every cell of a one-column image, is the energy itself. */
  lemma CumulativeTopRow(e: Image<int>, x: int, y: int)
    requires Valid(e) && 0 <= x < e.width && 0 <= y < e.height && (y == 0 || e.width == 1)
    ensures 0 <= x + e.width * y < |e.pixels|
    ensures CumulativeMap(e).pixels[x + e.width * y] == e.pixels[x + e.width * y]
  {
    CumulativeAt(e, x, y);
  }

  /** Rows above y are complete in a buffer filled row by row up to (x, y). */
  lemma FilledRowAbove(buf: seq<int>, target: seq<int>, w: int, h: int, x: int, y: int)
    requires |target| == h * w && w >= 1 && 1 <= y < h && 0 <= x < w
    requires FilledRowMajor(buf, target, 0, w, x, y)
    ensures Row(Image(h, w, buf), y - 1) == Row(Image(h, w, target), y - 1)
  {
    var a, b := Row(Image(h, w, buf), y - 1), Row(Image(h, w, target), y - 1);
    forall i | 0 <= i < w ensures a[i] == b[i] {
      IndexInside(w, h, i, y - 1);
      Decode(w, i, y - 1);
    }
  }

  /**
   * In row 0, or with one column, adjacent_pixels on the partly written map
   * reads only written cells, which are non-negative, and zeros, among them
   * the unwritten cell at column x of the last row (row 0 wraps around to it)
   * or the cell being computed; so it finds 0.
   */
  lemma AdjacentOnUnwritten(target: seq<int>, buf: seq<int>, w: int, h: int, x: int, y: int)
    requires |target| == h * w && 0 <= x < w && 0 <= y < h && (y == 0 || w == 1)
    requires forall j :: 0 <= j < |target| ==> 0 <= target[j]
    requires FilledRowMajor(buf, target, 0, w, x, y)
    ensures AdjacentOk(Image(h, w, buf), x, y)
    ensures AdjacentMin(Image(h, w, buf), x, y).0 == 0
  {
    var im := Image(h, w, buf);
    var lo := Window(x, w).0;
    assert forall j :: 0 <= j < |buf| ==> 0 <= buf[j];
    var k0: int;
    if y == 0 {
      k0 := x - lo;
      GetPixelRowAbove(im, x);
      GetPixelInside(im, x, h - 1);
      UnwrittenIsZero(buf, target, w, h, x, y, x, h - 1);
    } else {
      k0 := 1;
      GetPixelInside(im, 0, y);
      UnwrittenIsZero(buf, target, w, h, x, y, 0, y);
    }
    ScanFindsZero(im, x, y, k0);
  }

  /** When every value read is non-negative and one of them is 0, adjacent_pixels finds 0. */
  lemma ScanFindsZero(im: Image<int>, x: int, y: int, k0: int)
    requires AdjacentOk(im, x, y) && forall j :: 0 <= j < |im.pixels| ==> 0 <= im.pixels[j]
    requires 0 <= k0 < Window(x, im.width).1 - Window(x, im.width).0
    requires Above(im, x, y, Window(x, im.width).0 + k0) == 0
    ensures AdjacentMin(im, x, y).0 == 0
  {
    var vals := WindowVals(im, x, y);
    var r := AdjacentMin(im, x, y);
    forall k | 0 <= k < |vals| ensures 0 <= vals[k] {
      WindowIndex(im.width, im.height, x, y, Window(x, im.width).0 + k);
    }
    assert r.0 <= vals[k0] == 0;
  }

  /** Non-negative energies give a non-negative map. */
  lemma CumulativeNonNegative(e: Image<int>)
    requires Valid(e) && NonNegative(e)
    ensures NonNegative(CumulativeMap(e))
  {
    forall j | 0 <= j < |e.pixels| ensures 0 <= CumulativeMap(e).pixels[j] {
      NonEmptyDims(e.width, e.height);
      Encode(e.width, e.height, j);
      CumNonNegative(e, j / e.width);
      CumulativeAt(e, j % e.width, j / e.width);
    }
  }

  /** A cell at or after (x, y) in row-major order is still unwritten. */
  lemma UnwrittenIsZero(buf: seq<int>, target: seq<int>, w: int, h: int, x: int, y: int, x': int, y': int)
    requires |target| == h * w && FilledRowMajor(buf, target, 0, w, x, y)
    requires 0 <= x' < w && 0 <= y' < h && (y < y' || (y == y' && x <= x'))
    ensures 0 <= x' + w * y' < |buf| && buf[x' + w * y'] == 0
  {
    IndexInside(w, h, x', y');
    Decode(w, x', y');
  }

  /**
   * The value adjacent_pixels finds on the partly written map is the one the
   * map's definition adds at (x, y).
   */
  lemma CumulativeStep(e: Image<int>, buf: seq<int>, x: int, y: int)
    requires Valid(e) && NonNegative(e) && 0 <= x < e.width && 0 <= y < e.height
    requires FilledRowMajor(buf, CumulativeMap(e).pixels, 0, e.width, x, y)
    ensures 0 <= x + e.width * y < |buf|
    ensures AdjacentOk(Image(e.height, e.width, buf), x, y)
    ensures AdjacentMin(Image(e.height, e.width, buf), x, y).0 + e.pixels[x + e.width * y]
         == CumulativeMap(e).pixels[x + e.width * y]
  {
    if y >= 1 && e.width >= 2 {
      CumulativeStepBelow(e, buf, x, y);
    } else {
      CumulativeStepTop(e, buf, x, y);
    }
  }

  lemma CumulativeStepBelow(e: Image<int>, buf: seq<int>, x: int, y: int)
    requires Valid(e) && e.width >= 2 && 0 <= x < e.width && 1 <= y < e.height
    requires FilledRowMajor(buf, CumulativeMap(e).pixels, 0, e.width, x, y)
    ensures 0 <= x + e.width * y < |buf|
    ensures AdjacentOk(Image(e.height, e.width, buf), x, y)
    ensures AdjacentMin(Image(e.height, e.width, buf), x, y).0 + e.pixels[x + e.width * y]
         == CumulativeMap(e).pixels[x + e.width * y]
  {
    FilledRowIsCumRow(e, buf, x, y);
    AdjacentOnCumRow(e, Image(e.height, e.width, buf), x, y);
    CumulativeAt(e, x, y);
  }

  /** Once (x, y) is reached, the buffer's row y-1 is the map's row y-1. */
  lemma FilledRowIsCumRow(e: Image<int>, buf: seq<int>, x: int, y: int)
    requires Valid(e) && e.width >= 2 && 0 <= x < e.width && 1 <= y < e.height
    requires FilledRowMajor(buf, CumulativeMap(e).pixels, 0, e.width, x, y)
    ensures Valid(Image(e.height, e.width, buf))
    ensures Row(Image(e.height, e.width, buf), y - 1) == CumRow(e, y - 1)
  {
    var c := CumulativeMap(e);
    assert c == Image(e.height, e.width, c.pixels);
    FilledRowAbove(buf, c.pixels, e.width, e.height, x, y);
    CumulativeRow(e, y - 1);
  }

  lemma CumulativeStepTop(e: Image<int>, buf: seq<int>, x: int, y: int)
    requires Valid(e) && NonNegative(e) && 0 <= x < e.width && 0 <= y < e.height && (y == 0 || e.width == 1)
    requires FilledRowMajor(buf, CumulativeMap(e).pixels, 0, e.width, x, y)
    ensures 0 <= x + e.width * y < |buf|
    ensures AdjacentOk(Image(e.height, e.width, buf), x, y)
    ensures AdjacentMin(Image(e.height, e.width, buf), x, y).0 + e.pixels[x + e.width * y]
         == CumulativeMap(e).pixels[x + e.width * y]
  {
    CumulativeTopRow(e, x, y);
    CumulativeNonNegative(e);
    AdjacentOnUnwritten(CumulativeMap(e).pixels, buf, e.width, e.height, x, y);
  }

  /**
   * cumulative_energy_map: a copy of the energy, overwritten row by row with
   * the energy plus adjacent_pixels of the cells written so far.
   */
  method CumulativeEnergyMap(energy: Image<int>) returns (r: Image<int>)
    requires Valid(energy) && NonNegative(energy)
    ensures r == CumulativeMap(energy)
  {
    var w, h := energy.width, energy.height;
    ghost var target := CumulativeMap(energy).pixels;
    var buf := new int[|energy.pixels|](_ => 0);
    FillStart(target, 0, w);
    for y := 0 to h
      invariant FilledRowMajor(buf[..], target, 0, w, 0, y)
    {
      for x := 0 to w
        invariant FilledRowMajor(buf[..], target, 0, w, x, y)
      {
        CumulativeStep(energy, buf[..], x, y);
        var pre, _ := AdjacentPixels(Image(h, w, buf[..]), x, y);
        GetPixelInside(energy, x, y);
        var c := pre + GetPixel(energy, x, y);
        FillStepRowMajor(buf[..], target, 0, w, h, x, y);
        SetPixel(buf, w, x, y, c);
      }
      FillNextRow(buf[..], target, 0, w, h, y);
    }
    FillDone(buf[..], target, 0, w, h);
    r := Image(h, w, buf[..]);
  }

  // ---------------------------------------------------------------------
  // minimum_energy_seam

  /** list.index(min(row)): the leftmost position of the row's minimum. */
  function ArgMinLeft(row: seq<int>): (k: nat)
    requires |row| > 0
    ensures k < |row|
    ensures forall j :: 0 <= j < |row| ==> row[k] <= row[j]
    ensures forall j :: 0 <= j < k ==> row[k] < row[j]
  {
    if |row| == 1 then 0
    else
      var k := ArgMinLeft(row[..|row| - 1]);
      if row[|row| - 1] < row[k] then |row| - 1 else k
  }

  predicate SeamOk(c: Image<int>) {
    Valid(c) && c.height >= 1 && c.width >= 2
  }

  /**
   * The seam's column in row y: the leftmost minimum of the bottom row, and
   * above it the column adjacent_pixels picks from the row below's column.
   */
  function SeamCol(c: Image<int>, y: int): (x: int)
    requires SeamOk(c) && 0 <= y < c.height
    ensures 0 <= x < c.width
    decreases c.height - y
  {
    if y == c.height - 1 then ArgMinLeft(Row(c, y))
    else
      var below := SeamCol(c, y + 1);
      var r := AdjacentMin(c, below, y + 1);
      assert r.1 == 0 || Window(below, c.width).0 <= r.1 < Window(below, c.width).1;
      r.1
  }

  predicate Increasing(s: seq<int>) {
    forall i :: 0 <= i < |s| - 1 ==> s[i] < s[i + 1]
  }

  /** The pixel index of the seam in row y. */
  function SeamIndex(c: Image<int>, y: int): int
    requires SeamOk(c) && 0 <= y < c.height
  {
    SeamCol(c, y) + c.width * y
  }

  /** Row y's seam pixel lies inside row y. */
  lemma SeamIndexInRow(c: Image<int>, y: int)
    requires SeamOk(c) && 0 <= y < c.height
    ensures c.width * y <= SeamIndex(c, y) < c.width * y + c.width
  {
  }

  /** One pixel per row, top to bottom, makes an increasing list of indices inside the image. */
  lemma SeamIndexIncreasing(c: Image<int>, s: seq<int>)
    requires SeamOk(c) && |s| == c.height
    requires forall y :: 0 <= y < c.height ==> s[y] == SeamIndex(c, y)
    ensures Increasing(s) && 0 <= s[0] && s[|s| - 1] < |c.pixels|
  {
    forall y | 0 <= y < |s| - 1 ensures s[y] < s[y + 1] {
      var z := y + 1;
      SeamIndexInRow(c, y);
      SeamIndexInRow(c, z);
      MulNext(c.width, y, z);
    }
    var last := c.height - 1;
    SeamIndexInRow(c, 0);
    SeamIndexInRow(c, last);
    MulNext(c.width, last, c.height);
  }

  /**
   * minimum_energy_seam: from the bottom row's leftmost minimum, steps up
   * one row at a time through adjacent_pixels, then reverses the list so the
   * seam runs top to bottom, one pixel index per row.
   */
  method MinimumEnergySeam(c: Image<int>) returns (s: seq<int>)
    requires SeamOk(c)
    ensures |s| == c.height
    ensures forall y :: 0 <= y < c.height ==> s[y] == SeamIndex(c, y)
    ensures Increasing(s) && 0 <= s[0] && s[|s| - 1] < |c.pixels|
  {
    var x1, cols := StartAtBottom(c);
    var row := c.height - 1;
    while row > 0
      invariant 0 <= row <= c.height - 1
      invariant x1 == SeamCol(c, row)
      invariant Reversed(cols) == SeamFrom(c, row)
    {
      x1, cols, row := StepUp(c, x1, cols, row);
    }
    s := Reversed(cols);
    SeamComplete(c, s, row);
  }

  /** The start of minimum_energy_seam: the leftmost minimum of the bottom row. */
  method StartAtBottom(c: Image<int>) returns (x1: int, cols: seq<int>)
    requires SeamOk(c)
    ensures x1 == SeamCol(c, c.height - 1) && Reversed(cols) == SeamFrom(c, c.height - 1)
  {
    LastRow(c);
    var last := c.pixels[(c.height - 1) * c.width..];
    x1 := ArgMinLeft(last);
    cols := [x1 + c.width * (c.height - 1)];
    SeamFromBottom(c, cols);
  }

  /** One pass of the loop of minimum_energy_seam: from row y + 1 up to row y. */
  method StepUp(c: Image<int>, x1: int, cols: seq<int>, row: int) returns (x1': int, cols': seq<int>, y: int)
    requires SeamOk(c) && 0 < row < c.height
    requires x1 == SeamCol(c, row) && Reversed(cols) == SeamFrom(c, row)
    ensures y == row - 1
    ensures x1' == SeamCol(c, y) && Reversed(cols') == SeamFrom(c, y)
  {
    y := row - 1;
    assert y + 1 == row;
    var _, x := AdjacentPixels(c, x1, y + 1);
    x1' := x;
    SeamFromStep(c, cols, y, x1');
    cols' := cols + [x1' + c.width * y];
  }

  /** The whole seam, top to bottom: one increasing pixel index per row. */
  lemma SeamComplete(c: Image<int>, s: seq<int>, row: int)
    requires SeamOk(c) && row == 0 && s == SeamFrom(c, row)
    ensures |s| == c.height
    ensures forall y :: 0 <= y < c.height ==> s[y] == SeamIndex(c, y)
    ensures Increasing(s) && 0 <= s[0] && s[|s| - 1] < |c.pixels|
  {
    SeamIndexIncreasing(c, s);
  }

  lemma LastRow(c: Image<int>)
    requires SeamOk(c)
    ensures 0 <= (c.height - 1) * c.width <= |c.pixels|
    ensures c.pixels[(c.height - 1) * c.width..] == Row(c, c.height - 1)
  {
    MulMono(c.width, 0, c.height - 1);
  }

  /** The seam, top to bottom: row y's seam index at position y. */
  function Seam(c: Image<int>): seq<int>
    requires SeamOk(c)
  {
    seq(c.height, y requires 0 <= y < c.height => SeamIndex(c, y))
  }

  /** The seam's indices increase and stay inside the image. */
  lemma SeamIncreasing(c: Image<int>)
    requires SeamOk(c)
    ensures |Seam(c)| == c.height && Increasing(Seam(c))
    ensures 0 <= Seam(c)[0] && Seam(c)[c.height - 1] < |c.pixels|
  {
    SeamIndexIncreasing(c, Seam(c));
  }

  /** The seam from row k down to the bottom row. */
  function SeamFrom(c: Image<int>, k: int): (s: seq<int>)
    requires SeamOk(c) && 0 <= k < c.height
  {
    Seam(c)[k..]
  }

  lemma SeamFromBottom(c: Image<int>, cols: seq<int>)
    requires SeamOk(c) && cols == [ArgMinLeft(Row(c, c.height - 1)) + c.width * (c.height - 1)]
    ensures Reversed(cols) == SeamFrom(c, c.height - 1)
  {
  }

  /** Stepping up a row puts that row's seam index in front of the seam below it. */
  lemma SeamFromStep(c: Image<int>, cols: seq<int>, y: int, x: int)
    requires SeamOk(c) && 0 <= y < c.height - 1
    requires Reversed(cols) == SeamFrom(c, y + 1)
    requires x == AdjacentMin(c, SeamCol(c, y + 1), y + 1).1
    ensures x == SeamCol(c, y)
    ensures Reversed(cols + [x + c.width * y]) == SeamFrom(c, y)
  {
    SeamColStep(c, y, x);
    ReversedSuffix(cols, Seam(c), y, x + c.width * y);
  }

  lemma SeamColStep(c: Image<int>, y: int, x: int)
    requires SeamOk(c) && 0 <= y < c.height - 1
    requires x == AdjacentMin(c, SeamCol(c, y + 1), y + 1).1
    ensures x == SeamCol(c, y) && Seam(c)[y] == x + c.width * y
  {
  }


  /**
   * When row y holds values below the sentinel, adjacent_pixels for column
   * x of row y+1 returns a column at most one away from x, holding the
   * leftmost minimum of row y among the columns at most one away from x.
   */
  /** The leftmost minimum of row[lo..hi], found below the sentinel, read back in the row. */
  lemma MinInRow(row: seq<int>, lo: int, hi: int, cap: int, r: (int, int))
    requires 0 <= lo < hi <= |row| && row[lo] < cap
    requires IsLeftmostMin(row[lo..hi], lo, cap, r)
    ensures lo <= r.1 < hi
    ensures forall i :: lo <= i < hi ==> row[r.1] <= row[i]
    ensures forall i :: lo <= i < r.1 ==> row[r.1] < row[i]
  {
    var vals := row[lo..hi];
    assert vals[0] == row[lo];
    forall i | lo <= i < hi ensures row[r.1] <= row[i] {
      assert row[i] == vals[i - lo];
    }
    forall i | lo <= i < r.1 ensures row[r.1] < row[i] {
      assert row[i] == vals[i - lo];
    }
  }

  lemma AdjacentPicksMin(c: Image<int>, x: int, y: int)
    requires AdjacentOk(c, x, y + 1) && c.width >= 2 && y >= 0
    requires forall i :: 0 <= i < c.width ==> Row(c, y)[i] < 256 * c.height
    ensures var x1 := AdjacentMin(c, x, y + 1).1;
            0 <= x1 < c.width && -1 <= x1 - x <= 1 &&
            (forall i :: 0 <= i < c.width && -1 <= i - x <= 1 ==> Row(c, y)[x1] <= Row(c, y)[i]) &&
            (forall i :: 0 <= i < x1 && -1 <= i - x ==> Row(c, y)[x1] < Row(c, y)[i])
  {
    var lo, hi := Window(x, c.width).0, Window(x, c.width).1;
    var row := Row(c, y);
    WindowInRowAbove(c, x, y + 1);
    MinInRow(row, lo, hi, 256 * c.height, AdjacentMin(c, x, y + 1));
  }

  /**
   * When every value lies below the sentinel, consecutive rows of the seam
   * are at most one column apart, and each step up takes the leftmost
   * minimum of the up to three pixels above.
   */
  lemma SeamConnected(c: Image<int>, y: int)
    requires SeamOk(c) && 0 <= y < c.height - 1
    requires forall i :: 0 <= i < |c.pixels| ==> c.pixels[i] < 256 * c.height
    ensures -1 <= SeamCol(c, y) - SeamCol(c, y + 1) <= 1
    ensures forall i :: 0 <= i < c.width && -1 <= i - SeamCol(c, y + 1) <= 1 ==>
              Row(c, y)[SeamCol(c, y)] <= Row(c, y)[i]
    ensures forall i :: 0 <= i < SeamCol(c, y) && -1 <= i - SeamCol(c, y + 1) ==>
              Row(c, y)[SeamCol(c, y)] < Row(c, y)[i]
  {
    var row := Row(c, y);
    assert forall i :: 0 <= i < c.width ==> row[i] < 256 * c.height;
    AdjacentPicksMin(c, SeamCol(c, y + 1), y);
  }

  // ---------------------------------------------------------------------
  // image_without_seam

  /** The elements of p at positions j.. that are not in S, in order. */
  function KeepFrom<T>(p: seq<T>, S: set<int>, j: nat): (r: seq<T>)
    requires j <= |p|
    decreases |p| - j
  {
    if j == |p| then []
    else (if j in S then [] else [p[j]]) + KeepFrom(p, S, j + 1)
  }

  lemma {:induction false} KeepPrefix<T>(p: seq<T>, S: set<int>, j: nat, n: nat)
    requires j <= n <= |p|
    requires forall k :: j <= k < n ==> k !in S
    ensures KeepFrom(p, S, j) == p[j..n] + KeepFrom(p, S, n)
    decreases n - j
  {
    if j < n {
      KeepPrefix(p, S, j + 1, n);
      var rest := KeepFrom(p, S, n);
      assert KeepFrom(p, S, j) == [p[j]] + KeepFrom(p, S, j + 1);
      assert [p[j]] + (p[j + 1..n] + rest) == ([p[j]] + p[j + 1..n]) + rest;
      assert [p[j]] + p[j + 1..n] == p[j..n];
    }
  }

  lemma {:induction false} KeepAgree<T>(p: seq<T>, S: set<int>, S': set<int>, j: nat)
    requires j <= |p|
    requires forall k :: j <= k < |p| ==> (k in S <==> k in S')
    ensures KeepFrom(p, S, j) == KeepFrom(p, S', j)
    decreases |p| - j
  {
    if j < |p| {
      KeepAgree(p, S, S', j + 1);
    }
  }

  /** Popping position k first, before any larger position, keeps the rest in order. */
  lemma PopBelow<T>(p: seq<T>, t: seq<int>, k: nat)
    requires k < |p| && forall j :: 0 <= j < |t| ==> k < t[j]
    ensures k < |KeepFrom(p, Elems(t), 0)|
    ensures KeepFrom(p, Elems(t) + {k}, 0) == KeepFrom(p, Elems(t), 0)[..k] + KeepFrom(p, Elems(t), 0)[k + 1..]
  {
    var S := Elems(t);
    KeepPrefix(p, S, 0, k + 1);
    KeepPrefix(p, S + {k}, 0, k);
    KeepAgree(p, S + {k}, S, k + 1);
    var rest := KeepFrom(p, S, k + 1);
    assert KeepFrom(p, S, 0) == p[..k + 1] + rest;
    assert KeepFrom(p, S + {k}, 0) == p[..k] + rest;
    assert (p[..k + 1] + rest)[..k] == p[..k];
    assert (p[..k + 1] + rest)[k + 1..] == rest;
  }

  /** In an increasing list each element sits at least its distance from the last below it. */
  lemma {:induction false} IncreasingGap(s: seq<int>, i: int)
    requires Increasing(s) && 0 <= i < |s|
    ensures s[i] + (|s| - 1 - i) <= s[|s| - 1]
    decreases |s| - i
  {
    if i < |s| - 1 {
      IncreasingGap(s, i + 1);
    }
  }

  lemma IncreasingTail(s: seq<int>, i: int)
    requires Increasing(s) && 0 <= i < |s|
    ensures forall j :: i < j < |s| ==> s[i] < s[j]
  {
    forall j | i < j < |s| ensures s[i] < s[j] {
      IncreasingGap(s[..j + 1], i);
    }
  }

  /**
   * image_without_seam: copies the image pixel by pixel, pops the seam's
   * indices from the last to the first and narrows the width by one.  The
   * copy's placeholder value is the black pixel; every placeholder is
   * overwritten before the pops.
   */
  method ImageWithoutSeam(im: Image<Rgb>, s: seq<int>) returns (r: Image<Rgb>)
    requires Valid(im) && Increasing(s)
    requires |s| > 0 ==> 0 <= s[0] && s[|s| - 1] < |im.pixels|
    ensures r.height == im.height && r.width == im.width - 1
    ensures |r.pixels| == |im.pixels| - |s|
    ensures r.pixels == KeepFrom(im.pixels, Elems(s), 0)
  {
    var pixels := CopyPixels(im);
    KeepNone(im.pixels, s);
    var i := |s|;
    while i > 0
      invariant 0 <= i <= |s|
      invariant |pixels| == |im.pixels| - (|s| - i)
      invariant pixels == KeepFrom(im.pixels, Elems(s[i..]), 0)
    {
      i := i - 1;
      RemoveOne(im.pixels, s, i);
      pixels := pixels[..s[i]] + pixels[s[i] + 1..];
    }
    assert s[0..] == s;
    r := Image(im.height, im.width - 1, pixels);
  }

  /** The first double loop of image_without_seam: every pixel copied to a fresh list. */
  method CopyPixels(im: Image<Rgb>) returns (pixels: seq<Rgb>)
    requires Valid(im)
    ensures pixels == im.pixels
  {
    var w, h := im.width, im.height;
    var buf := new Rgb[|im.pixels|](_ => (0, 0, 0));
    FillStart(im.pixels, (0, 0, 0), w);
    for y := 0 to h
      invariant FilledRowMajor(buf[..], im.pixels, (0, 0, 0), w, 0, y)
    {
      for x := 0 to w
        invariant FilledRowMajor(buf[..], im.pixels, (0, 0, 0), w, x, y)
      {
        GetPixelInside(im, x, y);
        FillStepRowMajor(buf[..], im.pixels, (0, 0, 0), w, h, x, y);
        SetPixel(buf, w, x, y, GetPixel(im, x, y));
      }
      FillNextRow(buf[..], im.pixels, (0, 0, 0), w, h, y);
    }
    FillDone(buf[..], im.pixels, (0, 0, 0), w, h);
    pixels := buf[..];
  }

  /** Removing no index keeps the whole list. */
  lemma KeepNone<T>(p: seq<T>, s: seq<int>)
    ensures KeepFrom(p, Elems(s[|s|..]), 0) == p
  {
    KeepAgree(p, {}, Elems(s[|s|..]), 0);
    KeepPrefix(p, {}, 0, |p|);
    assert p[0..|p|] == p;
  }

  /**
   * Deleting index s[i] (pop) from the list that already lacks the larger
   * indices s[i+1..] gives the list lacking all of s[i..].
   */
  lemma RemoveOne<T>(p: seq<T>, s: seq<int>, i: int)
    requires Increasing(s) && 0 <= i < |s| && 0 <= s[0] && s[|s| - 1] < |p|
    ensures 0 <= s[i] < |KeepFrom(p, Elems(s[i + 1..]), 0)|
    ensures KeepFrom(p, Elems(s[i..]), 0)
         == KeepFrom(p, Elems(s[i + 1..]), 0)[..s[i]] + KeepFrom(p, Elems(s[i + 1..]), 0)[s[i] + 1..]
  {
    IncreasingGap(s, i);
    IncreasingTail(s, i);
    IncreasingTail(s, 0);
    PopBelow(p, s[i + 1..], s[i]);
    assert Elems(s[i..]) == Elems(s[i + 1..]) + {s[i]} by {
      assert s[i..] == [s[i]] + s[i + 1..];
    }
  }

  /** Removing the positions of an increasing list of in-range indices drops one element per index. */
  lemma {:induction false} KeepLength<T>(p: seq<T>, s: seq<int>)
    requires Increasing(s) && (|s| > 0 ==> 0 <= s[0] && s[|s| - 1] < |p|)
    ensures |KeepFrom(p, Elems(s), 0)| == |p| - |s|
  {
    if s == [] {
      assert Elems(s) == {};
      KeepPrefix(p, {}, 0, |p|);
    } else {
      var t := s[1..];
      assert Increasing(t);
      IncreasingTail(s, 0);
      IncreasingGap(s, 0);
      KeepLength(p, t);
      PopBelow(p, t, s[0]);
      assert Elems(s) == Elems(t) + {s[0]} by {
        assert s == [s[0]] + t;
      }
    }
  }

  // ---------------------------------------------------------------------
  // seam_carving

  /**
   * What compute_energy(greyscale_image_from_color_image(image)) must give:
   * an image of the same size with energies in [0, 255], as the edge
   * detector's final rounding and clipping guarantee.
   */
  ghost predicate EnergyOk(energy: Image<Rgb> -> Image<int>) {
    forall im: Image<Rgb> :: Valid(im) ==> SameShape(energy(im), im) && InByteRange(energy(im))
  }

  lemma OneColumnLess(h: int, w: int)
    ensures h * (w - 1) == h * w - h
  {
  }

  lemma CumulativeSeamOk(e: Image<int>)
    requires Valid(e) && e.height >= 1 && e.width >= 2
    ensures SeamOk(CumulativeMap(e))
  {
  }

  /** Removing the seam of c from a list of c's size leaves one column fewer. */
  lemma CarveLength<T>(p: seq<T>, c: Image<int>)
    requires SeamOk(c) && |p| == |c.pixels|
    ensures |KeepFrom(p, Elems(Seam(c)), 0)| == c.height * (c.width - 1)
  {
    SeamIncreasing(c);
    KeepLength(p, Seam(c));
    OneColumnLess(c.height, c.width);
  }

  /** One round of seam_carving: the image without the seam of its cumulative energy map. */
  ghost function CarveOnce(im: Image<Rgb>, energy: Image<Rgb> -> Image<int>): (r: Image<Rgb>)
    requires Valid(im) && EnergyOk(energy) && im.height >= 1 && im.width >= 2
    ensures Valid(r) && r.height == im.height && r.width == im.width - 1
  {
    var e := energy(im);
    assert SameShape(e, im);
    var c := CumulativeMap(e);
    CumulativeSeamOk(e);
    CarveLength(im.pixels, c);
    var seam := Seam(c);
    Image(im.height, im.width - 1, KeepFrom(im.pixels, Elems(seam), 0))
  }

  /** k rounds of seam carving, for k at most width-1; none for k <= 0. */
  ghost function Carved(im: Image<Rgb>, k: int, energy: Image<Rgb> -> Image<int>): (r: Image<Rgb>)
    requires Valid(im) && EnergyOk(energy)
    requires k > 0 ==> im.height >= 1 && k <= im.width - 1
    ensures Valid(r) && r.height == im.height
    ensures r.width == if k > 0 then im.width - k else im.width
    decreases k
  {
    if k <= 0 then im else CarveOnce(Carved(im, k - 1, energy), energy)
  }

  /**
   * seam_carving: removes ncols minimum-energy seams, one after another,
   * recomputing the energy each time.
   */
  method SeamCarving(image: Image<Rgb>, ncols: int, energy: Image<Rgb> -> Image<int>) returns (r: Image<Rgb>)
    requires Valid(image) && EnergyOk(energy)
    requires ncols > 0 ==> image.height >= 1 && ncols <= image.width - 1
    ensures r == Carved(image, ncols, energy)
  {
    r := image;
    var i := 0;
    while i < ncols
      invariant 0 <= i && (if ncols > 0 then i <= ncols else i == 0)
      invariant r == Carved(image, i, energy)
    {
      var e := energy(r);
      assert SameShape(e, r) && InByteRange(e);
      var cumulative := CumulativeEnergyMap(e);
      var seam := MinimumEnergySeam(cumulative);
      ghost var before := r;
      r := ImageWithoutSeam(r, seam);
      CarvedStep(image, i, energy, before, seam, r);
      i := i + 1;
    }
  }

  lemma CarvedStep(image: Image<Rgb>, i: int, energy: Image<Rgb> -> Image<int>, before: Image<Rgb>, seam: seq<int>, r: Image<Rgb>)
    requires Valid(image) && EnergyOk(energy) && 0 <= i && image.height >= 1 && i + 1 <= image.width - 1
    requires before == Carved(image, i, energy)
    requires |seam| == before.height
    requires forall y :: 0 <= y < before.height ==> seam[y] == SeamIndex(CumulativeMap(energy(before)), y)
    requires r == Image(before.height, before.width - 1, KeepFrom(before.pixels, Elems(seam), 0))
    ensures r == Carved(image, i + 1, energy)
  {
    assert seam == Seam(CumulativeMap(energy(before)));
  }
}
