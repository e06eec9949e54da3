/**
 * Images of lab0/lab.py and lab1/lab.py (whose first helpers repeat lab0's
 * text): a height, a width and a flat, row-major list of pixels; the pixel
 * at column x of row y sits at index x + width*y.
 */
module Images {

  datatype Image<P> = Image(height: int, width: int, pixels: seq<P>)

  /** A well-formed image: one pixel per (column, row). */
  predicate Valid<P>(im: Image<P>) {
    im.height >= 0 && im.width >= 0 && |im.pixels| == im.height * im.width
  }

  /** Python's list indexing: an index in [-n, 0) counts from the end. */
  function PyIndex(i: int, n: int): (k: int)
    requires -n <= i < n
    ensures 0 <= k < n
    ensures k == i || k == i + n
  {
    if i < 0 then i + n else i
  }

  /** get_pixel: the list element at x + width*y, with Python's negative indices. */
  function GetPixel<P>(im: Image<P>, x: int, y: int): P
    requires -|im.pixels| <= x + im.width * y < |im.pixels|
  {
    im.pixels[PyIndex(x + im.width * y, |im.pixels|)]
  }

  /** Inside the image, get_pixel reads the pixel of that column and row. */
  lemma GetPixelInside<P>(im: Image<P>, x: int, y: int)
    requires Valid(im) && 0 <= x < im.width && 0 <= y < im.height
    ensures 0 <= x + im.width * y < |im.pixels|
    ensures GetPixel(im, x, y) == im.pixels[x + im.width * y]
  {
    IndexInside(im.width, im.height, x, y);
  }

  /** Row -1 is the last row, through Python's negative indices. */
  lemma GetPixelRowAbove<P>(im: Image<P>, x: int)
    requires Valid(im) && 0 <= x < im.width && im.height >= 1
    ensures -|im.pixels| <= x + im.width * -1 < |im.pixels|
    ensures GetPixel(im, x, -1) == GetPixel(im, x, im.height - 1)
  {
    IndexInside(im.width, im.height, x, im.height - 1);
    assert x + im.width * -1 + |im.pixels| == x + im.width * (im.height - 1);
  }

  /** get_pixel_outRange's clamping of one coordinate into [0, hi]. */
  function Clamp(v: int, hi: int): (r: int)
    requires hi >= 0
    ensures 0 <= r <= hi
    ensures 0 <= v <= hi ==> r == v
    ensures forall t :: 0 <= t <= hi ==> Dist(r, v) <= Dist(t, v)
  {
    if v > hi then hi else if v < 0 then 0 else v
  }

  function Dist(a: int, b: int): nat {
    if a < b then b - a else a - b
  }

  /**
   * get_pixel_outRange: the pixel nearest to (x, y) inside the image.  The
   * image must not be empty: Python would read index -1 of an empty list.
   */
  function GetPixelClamped<P>(im: Image<P>, x: int, y: int): (p: P)
    requires Valid(im) && |im.pixels| > 0
    ensures im.width >= 1 && im.height >= 1
    ensures 0 <= Clamp(x, im.width - 1) + im.width * Clamp(y, im.height - 1) < |im.pixels|
    ensures p == im.pixels[Clamp(x, im.width - 1) + im.width * Clamp(y, im.height - 1)]
  {
    NonEmptyDims(im.width, im.height);
    var cx := Clamp(x, im.width - 1);
    var cy := Clamp(y, im.height - 1);
    IndexInside(im.width, im.height, cx, cy);
    GetPixel(im, cx, cy)
  }

  /** set_pixel: writes `c` at list index x + width*y of the buffer, and nowhere else. */
  method SetPixel<P>(buf: array<P>, width: int, x: int, y: int, c: P)
    requires -buf.Length <= x + width * y < buf.Length
    modifies buf
    ensures buf[..] == old(buf[..])[PyIndex(x + width * y, buf.Length) := c]
  {
    buf[PyIndex(x + width * y, buf.Length)] := c;
  }

  /** Reading back the pixel just written gives it; every other pixel keeps its value. */
  lemma SetThenGet<P>(im: Image<P>, x: int, y: int, c: P, x2: int, y2: int)
    requires Valid(im) && 0 <= x < im.width && 0 <= y < im.height
    requires 0 <= x2 < im.width && 0 <= y2 < im.height
    ensures 0 <= x + im.width * y < |im.pixels| && 0 <= x2 + im.width * y2 < |im.pixels|
    ensures var after := Image(im.height, im.width, im.pixels[x + im.width * y := c]);
            GetPixel(after, x2, y2) == if x2 == x && y2 == y then c else GetPixel(im, x2, y2)
  {
    IndexInside(im.width, im.height, x, y);
    IndexInside(im.width, im.height, x2, y2);
    if x2 + im.width * y2 == x + im.width * y {
      Decode(im.width, x, y);
      Decode(im.width, x2, y2);
    }
  }

  // ---------------------------------------------------------------------
  // Row-major index arithmetic

  lemma MulMono(w: int, a: int, b: int)
    requires w >= 0 && a <= b
    ensures w * a <= w * b
  {
  }

  lemma MulNext(w: int, y: int, z: int)
    requires z == y + 1
    ensures w * z == w * y + w
  {
  }

  lemma MulEq(w: int, a: int, b: int)
    requires a == b
    ensures w * a == w * b
  {
  }

  /** The rows one after another: the row-major list of their cells. */
  function Flatten<T>(rows: seq<seq<T>>): seq<T> {
    if rows == [] then [] else Flatten(rows[..|rows| - 1]) + rows[|rows| - 1]
  }

  lemma {:induction false} FlattenLength<T>(rows: seq<seq<T>>, w: int)
    requires forall y :: 0 <= y < |rows| ==> |rows[y]| == w
    ensures |Flatten(rows)| == |rows| * w
  {
    if rows != [] {
      var n := |rows|;
      var init := rows[..n - 1];
      FlattenLength(init, w);
      MulNext(w, n - 1, n);
    }
  }

  /** Cell x of row y sits at index x + w*y of the flattened rows. */
  lemma {:induction false} FlattenAt<T>(rows: seq<seq<T>>, w: int, x: int, y: int)
    requires forall y :: 0 <= y < |rows| ==> |rows[y]| == w
    requires 0 <= x < w && 0 <= y < |rows|
    ensures 0 <= x + w * y < |Flatten(rows)| && Flatten(rows)[x + w * y] == rows[y][x]
  {
    var n := |rows|;
    var init := rows[..n - 1];
    FlattenLength(init, w);
    MulNext(w, n - 1, n);
    if y < n - 1 {
      FlattenAt(init, w, x, y);
      assert init[y] == rows[y];
    } else {
      MulEq(w, y, n - 1);
    }
    MulMono(w, 0, y);
  }

  lemma NonEmptyDims(w: int, h: int)
    requires w >= 0 && h >= 0 && h * w > 0
    ensures w >= 1 && h >= 1
  {
  }

  /** The index of an in-range pixel lies inside the list. */
  lemma IndexInside(w: int, h: int, x: int, y: int)
    requires 0 <= x < w && 0 <= y < h
    ensures 0 <= x + w * y < h * w
    ensures -(h * w) <= x + w * (y - 1)
  {
    MulMono(w, y + 1, h);
    MulMono(w, 0, y);
  }

  /** Column and row can be read back from the index. */
  lemma Decode(w: int, x: int, y: int)
    requires 0 <= x < w && y >= 0
    ensures (x + w * y) % w == x && (x + w * y) / w == y
  {
    var i := x + w * y;
    var q, r := i / w, i % w;
    assert w * q + r == w * y + x;
    if q > y {
      MulMono(w, y + 1, q);
    } else if q < y {
      MulMono(w, q + 1, y);
    }
  }

  /** Every index of an image is the index of its column i % w and row i / w. */
  lemma Encode(w: int, h: int, i: int)
    requires w >= 1 && 0 <= i < h * w
    ensures 0 <= i % w < w && 0 <= i / w < h
    ensures i == i % w + w * (i / w)
  {
    if i / w >= h {
      MulMono(w, h, i / w);
    }
  }

  // ---------------------------------------------------------------------
  // Filling a fresh pixel list in a double loop

  /** Index i is written once an x-outer, y-inner loop has reached column x, row y. */
  predicate DoneColumnMajor(i: int, w: int, x: int, y: int) {
    w >= 1 && (i % w < x || (i % w == x && i / w < y))
  }

  /** Index i is written once a y-outer, x-inner loop has reached row y, column x. */
  predicate DoneRowMajor(i: int, w: int, x: int, y: int) {
    w >= 1 && (i / w < y || (i / w == y && i % w < x))
  }

  /** The buffer holds `target` at the written indices and `zero` elsewhere. */
  ghost predicate FilledColumnMajor<T>(buf: seq<T>, target: seq<T>, zero: T, w: int, x: int, y: int) {
    |buf| == |target| && forall i :: 0 <= i < |buf| ==> buf[i] == if DoneColumnMajor(i, w, x, y) then target[i] else zero
  }

  ghost predicate FilledRowMajor<T>(buf: seq<T>, target: seq<T>, zero: T, w: int, x: int, y: int) {
    |buf| == |target| && forall i :: 0 <= i < |buf| ==> buf[i] == if DoneRowMajor(i, w, x, y) then target[i] else zero
  }

  lemma FillStart<T>(target: seq<T>, zero: T, w: int)
    ensures FilledColumnMajor(seq(|target|, _ => zero), target, zero, w, 0, 0)
    ensures FilledRowMajor(seq(|target|, _ => zero), target, zero, w, 0, 0)
  {
  }

  /** Writing the target value at (x, y) moves an x-outer loop one row on. */
  lemma FillStepColumnMajor<T>(buf: seq<T>, target: seq<T>, zero: T, w: int, h: int, x: int, y: int)
    requires |target| == h * w && 0 <= x < w && 0 <= y < h
    requires FilledColumnMajor(buf, target, zero, w, x, y)
    ensures 0 <= x + w * y < |buf|
    ensures FilledColumnMajor(buf[x + w * y := target[x + w * y]], target, zero, w, x, y + 1)
  {
    IndexInside(w, h, x, y);
    Decode(w, x, y);
    forall i | 0 <= i < |buf| ensures DoneColumnMajor(i, w, x, y + 1) <==> DoneColumnMajor(i, w, x, y) || i == x + w * y {
      Encode(w, h, i);
    }
  }

  /** Writing the target value at (x, y) moves a y-outer loop one column on. */
  lemma FillStepRowMajor<T>(buf: seq<T>, target: seq<T>, zero: T, w: int, h: int, x: int, y: int)
    requires |target| == h * w && 0 <= x < w && 0 <= y < h
    requires FilledRowMajor(buf, target, zero, w, x, y)
    ensures 0 <= x + w * y < |buf|
    ensures FilledRowMajor(buf[x + w * y := target[x + w * y]], target, zero, w, x + 1, y)
  {
    IndexInside(w, h, x, y);
    Decode(w, x, y);
    forall i | 0 <= i < |buf| ensures DoneRowMajor(i, w, x + 1, y) <==> DoneRowMajor(i, w, x, y) || i == x + w * y {
      Encode(w, h, i);
    }
  }

  /** A finished column is the start of the next one. */
  lemma FillNextColumn<T>(buf: seq<T>, target: seq<T>, zero: T, w: int, h: int, x: int)
    requires |target| == h * w && 0 <= x < w
    requires FilledColumnMajor(buf, target, zero, w, x, h)
    ensures FilledColumnMajor(buf, target, zero, w, x + 1, 0)
  {
    forall i | 0 <= i < |buf| ensures DoneColumnMajor(i, w, x, h) <==> DoneColumnMajor(i, w, x + 1, 0) {
      Encode(w, h, i);
    }
  }

  /** A finished row is the start of the next one. */
  lemma FillNextRow<T>(buf: seq<T>, target: seq<T>, zero: T, w: int, h: int, y: int)
    requires |target| == h * w && w >= 0 && 0 <= y < h
    requires FilledRowMajor(buf, target, zero, w, w, y)
    ensures FilledRowMajor(buf, target, zero, w, 0, y + 1)
  {
    forall i | 0 <= i < |buf| ensures DoneRowMajor(i, w, w, y) <==> DoneRowMajor(i, w, 0, y + 1) {
      if w >= 1 {
        Encode(w, h, i);
      }
    }
  }

  /** After every column, or every row, the buffer is the target. */
  lemma FillDone<T>(buf: seq<T>, target: seq<T>, zero: T, w: int, h: int)
    requires |target| == h * w && w >= 0 && h >= 0
    requires FilledColumnMajor(buf, target, zero, w, w, 0) || FilledRowMajor(buf, target, zero, w, 0, h)
    ensures buf == target
  {
    forall i | 0 <= i < |buf| ensures buf[i] == target[i] {
      NonEmptyDims(w, h);
      Encode(w, h, i);
    }
  }
}
